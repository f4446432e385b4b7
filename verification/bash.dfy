/** `bash_newliner`: one chunk of a shell stream made into clean output
    lines: carriage returns become newlines, the chunk is split into lines,
    empty lines are dropped, kept lines lose their surrounding spaces and,
    when a log is named, carry a `[LOG] <log> | ` prefix. */
module Bash {
  import opened Wrappers

  /** The line boundaries of Python's `str.splitlines`; `\r\n` also counts as one. */
  predicate IsLineBreak(c: char) {
    c in {'\n', '\r', '\U{0B}', '\U{0C}', '\U{1C}', '\U{1D}', '\U{1E}', '\U{85}', '\U{2028}', '\U{2029}'}
  }

  predicate NoBreaks(s: string) {
    forall i :: 0 <= i < |s| ==> !IsLineBreak(s[i])
  }

  /** `re.sub('\r\n?', '\n', s)`: each `\r`, together with a `\n` right after
      it, becomes one `\n`. */
  function Normalize(s: string): (r: string)
    ensures '\r' !in r
    ensures |r| <= |s|
  {
    if |s| == 0 then []
    else if s[0] == '\r' then ['\n'] + Normalize(if |s| > 1 && s[1] == '\n' then s[2..] else s[1..])
    else [s[0]] + Normalize(s[1..])
  }

  /** Replace every `\r\n` pair, scanning left to right. */
  function ReplaceCrLf(s: string): string {
    if |s| == 0 then []
    else if |s| > 1 && s[0] == '\r' && s[1] == '\n' then ['\n'] + ReplaceCrLf(s[2..])
    else [s[0]] + ReplaceCrLf(s[1..])
  }

  /** Replace every remaining `\r`. */
  function ReplaceCr(s: string): string {
    if |s| == 0 then [] else [if s[0] == '\r' then '\n' else s[0]] + ReplaceCr(s[1..])
  }

  /** The substitution is the two plain replacements in turn: `\r\n` first,
      then lone `\r`. */
  lemma {:induction false} NormalizeIsTwoReplacements(s: string)
    ensures Normalize(s) == ReplaceCr(ReplaceCrLf(s))
    decreases |s|
  {
    if |s| > 0 {
      if |s| > 1 && s[0] == '\r' && s[1] == '\n' {
        NormalizeIsTwoReplacements(s[2..]);
      } else {
        NormalizeIsTwoReplacements(s[1..]);
        assert ReplaceCrLf(s) == [s[0]] + ReplaceCrLf(s[1..]);
        assert ([s[0]] + ReplaceCrLf(s[1..]))[1..] == ReplaceCrLf(s[1..]);
      }
    }
  }

  /** Text without carriage returns passes through unchanged. */
  lemma {:induction false} NormalizeKeepsPlainText(s: string)
    requires '\r' !in s
    ensures Normalize(s) == s
    decreases |s|
  {
    if |s| > 0 {
      assert s == [s[0]] + s[1..];
      assert s[0] != '\r' by { assert s[0] in s; }
      NormalizeKeepsPlainText(s[1..]);
    }
  }

  /** `s.strip(c)`: drop `c` from both ends. */
  function Strip(s: string, c: char): (r: string)
    ensures |r| == 0 || (r[0] != c && r[|r| - 1] != c)
    ensures forall i :: 0 <= i < |r| ==> r[i] in s
    decreases |s|
  {
    if |s| == 0 then []
    else if s[0] == c then Strip(s[1..], c)
    else if s[|s| - 1] == c then Strip(s[..|s| - 1], c)
    else s
  }

  /** `s[i..j]` is `s` with nothing but copies of `c` cut from its two ends. */
  predicate TrimmedTo(s: string, c: char, i: nat, j: nat) {
    && i <= j <= |s|
    && forall k :: 0 <= k < |s| && (k < i || j <= k) ==> s[k] == c
  }

  /** Stripping removes only copies of `c`, and only at the two ends: the
      result is a contiguous slice with nothing but `c` outside it. */
  lemma StripTrims(s: string, c: char)
    ensures exists i: nat, j: nat :: TrimmedTo(s, c, i, j) && Strip(s, c) == s[i..j]
  {
    var i, j := StripBounds(s, c);
  }

  /** The bounds of the slice `Strip` keeps. */
  lemma {:induction false} StripBounds(s: string, c: char) returns (i: nat, j: nat)
    ensures TrimmedTo(s, c, i, j) && Strip(s, c) == s[i..j]
    decreases |s|
  {
    if |s| == 0 {
      i, j := 0, 0;
    } else if s[0] == c {
      var i', j' := StripBounds(s[1..], c);
      TrimLeftStep(s, c, i', j');
      i, j := i' + 1, j' + 1;
    } else if s[|s| - 1] == c {
      i, j := StripBounds(s[..|s| - 1], c);
      TrimRightStep(s, c, i, j);
    } else {
      i, j := 0, |s|;
    }
  }

  lemma TrimLeftStep(s: string, c: char, i: nat, j: nat)
    requires |s| > 0 && s[0] == c && TrimmedTo(s[1..], c, i, j)
    ensures TrimmedTo(s, c, i + 1, j + 1) && s[1..][i..j] == s[i + 1..j + 1]
  {
    forall k | 0 <= k < |s| && (k < i + 1 || j + 1 <= k)
      ensures s[k] == c
    {
      if k > 0 {
        assert s[k] == s[1..][k - 1];
      }
    }
  }

  lemma TrimRightStep(s: string, c: char, i: nat, j: nat)
    requires |s| > 0 && s[|s| - 1] == c && TrimmedTo(s[..|s| - 1], c, i, j)
    ensures TrimmedTo(s, c, i, j) && s[..|s| - 1][i..j] == s[i..j]
  {
    var t := s[..|s| - 1];
    forall k | 0 <= k < |s| && (k < i || j <= k)
      ensures s[k] == c
    {
      if k < |t| {
        assert s[k] == t[k];
      }
    }
  }

  /** Text that neither starts nor ends with `c` is left alone. */
  lemma StripUntouched(s: string, c: char)
    requires |s| > 0 && s[0] != c && s[|s| - 1] != c
    ensures Strip(s, c) == s
  {
  }

  function StripLeft(s: string, c: char): string
    decreases |s|
  {
    if |s| > 0 && s[0] == c then StripLeft(s[1..], c) else s
  }

  function StripRight(s: string, c: char): string
    decreases |s|
  {
    if |s| > 0 && s[|s| - 1] == c then StripRight(s[..|s| - 1], c) else s
  }

  /** Stripping both ends at once is stripping the left end, then the right. */
  lemma {:induction false} StripIsLeftThenRight(s: string, c: char)
    ensures Strip(s, c) == StripRight(StripLeft(s, c), c)
    decreases |s|
  {
    if |s| > 0 {
      if s[0] == c {
        StripIsLeftThenRight(s[1..], c);
      } else if s[|s| - 1] == c {
        var t := s[..|s| - 1];
        assert |t| > 0 && t[0] == s[0];
        StripIsLeftThenRight(t, c);
      }
    }
  }

  /** The position of the first line boundary. */
  function FirstBreak(s: string): (r: Option<nat>)
    ensures r.Some? ==> r.value < |s| && IsLineBreak(s[r.value]) && NoBreaks(s[..r.value])
    ensures r.None? ==> NoBreaks(s)
  {
    if |s| == 0 then None
    else if IsLineBreak(s[0]) then Some(0)
    else
      match FirstBreak(s[1..])
      case None => None
      case Some(i) =>
        assert s[..i + 1] == [s[0]] + s[1..][..i];
        Some(i + 1)
  }

  /** A boundary with none before it is the first one. */
  lemma {:induction false} FirstBreakAt(s: string, i: nat)
    requires i < |s| && IsLineBreak(s[i]) && NoBreaks(s[..i])
    ensures FirstBreak(s) == Some(i)
    decreases i
  {
    if i > 0 {
      assert s[..i][0] == s[0];
      assert s[..i] == [s[0]] + s[1..][..i - 1];
      FirstBreakAt(s[1..], i - 1);
    }
  }

  /** `s.splitlines()`: the text between boundaries; a final boundary does
      not open another line. */
  function SplitLines(s: string): (r: seq<string>)
    ensures forall i :: 0 <= i < |r| ==> NoBreaks(r[i])
    ensures |s| == 0 <==> |r| == 0
    decreases |s|
  {
    if |s| == 0 then []
    else
      match FirstBreak(s)
      case None => [s]
      case Some(i) =>
        var skip := if s[i] == '\r' && i + 1 < |s| && s[i + 1] == '\n' then 2 else 1;
        [s[..i]] + SplitLines(s[i + skip..])
  }

  /** `'\n'.join(ls)`. */
  function Join(ls: seq<string>): string {
    if |ls| == 0 then []
    else if |ls| == 1 then ls[0]
    else ls[0] + ['\n'] + Join(ls[1..])
  }

  /** Every line followed by a newline. */
  function Terminated(ls: seq<string>): string {
    if |ls| == 0 then [] else ls[0] + ['\n'] + Terminated(ls[1..])
  }

  lemma {:induction false} JoinThenNewline(ls: seq<string>)
    requires |ls| > 0
    ensures Join(ls) + ['\n'] == Terminated(ls)
    decreases |ls|
  {
    if |ls| > 1 {
      JoinThenNewline(ls[1..]);
    }
  }

  /** Splitting newline-terminated lines gives the lines back, provided none
      holds a boundary of its own. */
  lemma {:induction false} SplitTerminated(ls: seq<string>)
    requires forall i :: 0 <= i < |ls| ==> NoBreaks(ls[i])
    ensures SplitLines(Terminated(ls)) == ls
    decreases |ls|
  {
    if |ls| > 0 {
      var rest := Terminated(ls[1..]);
      var s := ls[0] + ['\n'] + rest;
      assert s[..|ls[0]|] == ls[0];
      FirstBreakAt(s, |ls[0]|);
      assert s[|ls[0]| + 1..] == rest;
      SplitTerminated(ls[1..]);
    }
  }

  /** `'\n'.join` then `splitlines` gives the lines back when none holds a
      boundary and the last is not empty (an empty last line leaves only a
      final newline, which opens no line). */
  lemma {:induction false} SplitJoin(ls: seq<string>)
    requires forall i :: 0 <= i < |ls| ==> NoBreaks(ls[i])
    requires |ls| > 0 ==> ls[|ls| - 1] != ""
    ensures SplitLines(Join(ls)) == ls
    decreases |ls|
  {
    if |ls| == 1 {
      assert Join(ls) == ls[0];
    } else if |ls| > 1 {
      var rest := Join(ls[1..]);
      var s := ls[0] + ['\n'] + rest;
      assert Join(ls) == s;
      assert s[..|ls[0]|] == ls[0];
      FirstBreakAt(s, |ls[0]|);
      assert s[|ls[0]| + 1..] == rest;
      assert ls[1..][|ls[1..]| - 1] == ls[|ls| - 1];
      SplitJoin(ls[1..]);
    }
  }

  /** The last character of a join is that of the last line. */
  lemma JoinEnds(ls: seq<string>)
    requires |ls| > 0 && ls[|ls| - 1] != "" && NoBreaks(ls[|ls| - 1])
    ensures |Join(ls)| > 0 && Join(ls)[|Join(ls)| - 1] != '\n'
  {
    JoinLast(ls);
    var l := ls[|ls| - 1];
    assert !IsLineBreak(l[|l| - 1]);
  }

  lemma {:induction false} JoinLast(ls: seq<string>)
    requires |ls| > 0 && ls[|ls| - 1] != ""
    ensures |Join(ls)| > 0
    ensures Join(ls)[|Join(ls)| - 1] == ls[|ls| - 1][|ls[|ls| - 1]| - 1]
    decreases |ls|
  {
    if |ls| > 1 {
      assert ls[1..][|ls[1..]| - 1] == ls[|ls| - 1];
      JoinLast(ls[1..]);
    }
  }

  /** On a chunk that is already clean lines joined by newlines, with the
      first and the last line non-empty, `bash_newliner` considers exactly
      those lines. */
  lemma InputLinesOfJoin(ls: seq<string>)
    requires forall i :: 0 <= i < |ls| ==> NoBreaks(ls[i])
    requires |ls| > 0 && ls[0] != "" && ls[|ls| - 1] != ""
    ensures InputLines(Join(ls)) == ls
  {
    var s := Join(ls);
    JoinNoCr(ls);
    NormalizeKeepsPlainText(s);
    JoinEnds(ls);
    JoinStarts(ls);
    StripUntouched(s, '\n');
    SplitJoin(ls);
  }

  lemma JoinNoCr(ls: seq<string>)
    requires forall i :: 0 <= i < |ls| ==> NoBreaks(ls[i])
    ensures '\r' !in Join(ls)
  {
    if |ls| > 0 {
      var s := Join(ls);
      JoinThenNewline(ls);
      TerminatedNoCr(ls);
      assert forall k :: 0 <= k < |s| ==> s[k] == Terminated(ls)[k];
    }
  }

  /** The first character of a join is that of the first line, a non-boundary. */
  lemma JoinStarts(ls: seq<string>)
    requires |ls| > 0 && ls[0] != "" && NoBreaks(ls[0])
    ensures |Join(ls)| > 0 && Join(ls)[0] == ls[0][0] && Join(ls)[0] != '\n'
  {
    if |ls| > 1 {
      assert Join(ls) == ls[0] + ['\n'] + Join(ls[1..]);
    }
    assert !IsLineBreak(ls[0][0]);
  }

  /** `'[LOG] %s | ' % log` when a log is named (`if log:`), else nothing. */
  function Prefix(log: Option<string>): string {
    if log.Some? && log.value != "" then "[LOG] " + log.value + " | " else ""
  }

  /** One kept line as printed: the prefix, then the line stripped of spaces. */
  function RenderLine(line: string, log: Option<string>): string {
    Prefix(log) + Strip(line, ' ')
  }

  /** The non-empty lines, each stripped of spaces and prefixed; the test for
      emptiness comes before the stripping. */
  function Render(lines: seq<string>, log: Option<string>): (r: seq<string>)
    ensures |r| <= |lines|
  {
    if |lines| == 0 then []
    else (if lines[0] != "" then [RenderLine(lines[0], log)] else []) + Render(lines[1..], log)
  }

  /** The input lines `bash_newliner` considers. */
  function InputLines(chunk: string): seq<string> {
    SplitLines(Strip(Normalize(chunk), '\n'))
  }

  /** `bash_newliner(line_decode, log)`: `None` when no line is kept. */
  function BashNewliner(chunk: string, log: Option<string>): (r: Option<string>)
    ensures r.None? <==> forall i :: 0 <= i < |InputLines(chunk)| ==> InputLines(chunk)[i] == ""
    ensures r.Some? ==> |r.value| > 0 && r.value[|r.value| - 1] == '\n'
  {
    var kept := Render(InputLines(chunk), log);
    RenderEmpty(InputLines(chunk), log);
    if |kept| == 0 then None
    else
      JoinThenNewline(kept);
      Some(Join(kept) + ['\n'])
  }

  /** Nothing is rendered exactly when every line is empty. */
  lemma {:induction false} RenderEmpty(lines: seq<string>, log: Option<string>)
    ensures |Render(lines, log)| == 0 <==> forall i :: 0 <= i < |lines| ==> lines[i] == ""
    decreases |lines|
  {
    if |lines| > 0 {
      RenderEmpty(lines[1..], log);
      assert forall i :: 1 <= i < |lines| ==> lines[i] == lines[1..][i - 1];
    }
  }

  /** Every rendered line is the prefix followed by some non-empty input
      line stripped of spaces. */
  lemma {:induction false} RenderSound(lines: seq<string>, log: Option<string>)
    ensures forall j :: 0 <= j < |Render(lines, log)| ==>
      exists i :: 0 <= i < |lines| && lines[i] != "" && Render(lines, log)[j] == RenderLine(lines[i], log)
    decreases |lines|
  {
    if |lines| > 0 {
      RenderSound(lines[1..], log);
      var head := if lines[0] != "" then [RenderLine(lines[0], log)] else [];
      var rest := Render(lines[1..], log);
      var r := Render(lines, log);
      assert r == head + rest;
      forall j | 0 <= j < |r|
        ensures exists i :: 0 <= i < |lines| && lines[i] != "" && r[j] == RenderLine(lines[i], log)
      {
        if j < |head| {
          assert r[j] == RenderLine(lines[0], log);
        } else {
          assert r[j] == rest[j - |head|];
          var i' :| 0 <= i' < |lines[1..]| && lines[1..][i'] != "" && rest[j - |head|] == RenderLine(lines[1..][i'], log);
          assert lines[i' + 1] == lines[1..][i'];
        }
      }
    } else {
      assert |Render(lines, log)| == 0;
    }
  }

  /** Every non-empty input line is rendered. */
  lemma {:induction false} RenderComplete(lines: seq<string>, log: Option<string>)
    ensures forall i :: 0 <= i < |lines| && lines[i] != "" ==> RenderLine(lines[i], log) in Render(lines, log)
    decreases |lines|
  {
    if |lines| > 0 {
      RenderComplete(lines[1..], log);
      var head := if lines[0] != "" then [RenderLine(lines[0], log)] else [];
      var r := Render(lines, log);
      assert r == head + Render(lines[1..], log);
      forall i | 0 <= i < |lines| && lines[i] != ""
        ensures RenderLine(lines[i], log) in r
      {
        if i > 0 {
          assert lines[1..][i - 1] == lines[i];
        } else {
          assert r[0] == RenderLine(lines[0], log);
        }
      }
    }
  }

  /** A rendered line is free of boundaries when the line and the log name are. */
  lemma RenderLineNoBreaks(line: string, log: Option<string>)
    requires NoBreaks(line)
    requires log.Some? ==> NoBreaks(log.value)
    ensures NoBreaks(RenderLine(line, log))
  {
    var p := Prefix(log);
    var l := Strip(line, ' ');
    assert forall i :: 0 <= i < |l| ==> l[i] in line;
    forall i | 0 <= i < |p + l|
      ensures !IsLineBreak((p + l)[i])
    {
      if i < |p| {
        if log.Some? && log.value != "" {
          assert p == "[LOG] " + log.value + " | ";
          if 6 <= i < 6 + |log.value| {
            assert p[i] == log.value[i - 6];
          }
        }
      } else {
        assert (p + l)[i] == l[i - |p|];
        var k :| 0 <= k < |line| && line[k] == l[i - |p|];
      }
    }
  }

  /** Rendering keeps a line free of boundaries when the log name is. */
  lemma {:induction false} RenderNoBreaks(lines: seq<string>, log: Option<string>)
    requires forall i :: 0 <= i < |lines| ==> NoBreaks(lines[i])
    requires log.Some? ==> NoBreaks(log.value)
    ensures forall j :: 0 <= j < |Render(lines, log)| ==> NoBreaks(Render(lines, log)[j])
    decreases |lines|
  {
    if |lines| > 0 {
      RenderNoBreaks(lines[1..], log);
      RenderLineNoBreaks(lines[0], log);
      assert forall i :: 1 <= i < |lines| ==> lines[i] == lines[1..][i - 1];
    }
  }

  /** The output splits back into exactly the rendered lines: one per
      non-empty input line, in order. */
  lemma BashNewlinerLines(chunk: string, log: Option<string>)
    requires log.Some? ==> NoBreaks(log.value)
    requires BashNewliner(chunk, log).Some?
    ensures SplitLines(BashNewliner(chunk, log).value) == Render(InputLines(chunk), log)
  {
    var kept := Render(InputLines(chunk), log);
    RenderEmpty(InputLines(chunk), log);
    JoinThenNewline(kept);
    RenderNoBreaks(InputLines(chunk), log);
    SplitTerminated(kept);
  }

  /** Without a carriage return in the output: the result never holds one
      when the log name does not. */
  lemma BashNewlinerNoCarriageReturn(chunk: string, log: Option<string>)
    requires log.Some? ==> NoBreaks(log.value)
    requires BashNewliner(chunk, log).Some?
    ensures '\r' !in BashNewliner(chunk, log).value
  {
    var kept := Render(InputLines(chunk), log);
    RenderEmpty(InputLines(chunk), log);
    JoinThenNewline(kept);
    RenderNoBreaks(InputLines(chunk), log);
    TerminatedNoCr(kept);
  }

  lemma {:induction false} TerminatedNoCr(ls: seq<string>)
    requires forall i :: 0 <= i < |ls| ==> NoBreaks(ls[i])
    ensures '\r' !in Terminated(ls)
    decreases |ls|
  {
    if |ls| > 0 {
      TerminatedNoCr(ls[1..]);
      assert forall i :: 0 <= i < |ls[0]| ==> ls[0][i] != '\r';
    }
  }
}
