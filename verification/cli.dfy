/** `cli_args_to_kwargs`: unstructured `key=value` command-line arguments,
    possibly nested in tuples, parsed into a keyword dictionary. The
    arguments are consumed from a stack, so the last one is handled first. */
module Cli {
  import opened Wrappers
  import opened Values
  import opened Seqs

  /** A command-line argument: text, or a tuple of further arguments. */
  datatype Arg = Text(s: string) | Tuple(items: seq<Arg>)

  /** `AttributeError` when the pattern does not match (`None.groups()`),
      the `ValueError`/`SyntaxError` of `literal_eval`, and the `KeyError`
      on a repeated key. */
  datatype CliError =
    | NoSeparator(arg: string)
    | BadLiteral(text: string)
    | KeyCollision(key: string)

  /** `ast.literal_eval` is uninterpreted: `None` where it raises. */
  type Evaluator = string -> Option<Value>

  /** The text items, tuples expanded in place, left to right. */
  function Flatten(xs: seq<Arg>): (r: seq<string>)
    decreases xs
  {
    if |xs| == 0 then []
    else (match xs[0] case Text(s) => [s] case Tuple(items) => Flatten(items)) + Flatten(xs[1..])
  }

  lemma {:induction false} FlattenAppend(a: seq<Arg>, b: seq<Arg>)
    ensures Flatten(a + b) == Flatten(a) + Flatten(b)
    decreases |a|
  {
    if |a| == 0 {
      assert a + b == b;
    } else {
      assert (a + b)[0] == a[0];
      assert (a + b)[1..] == a[1..] + b;
      FlattenAppend(a[1..], b);
    }
  }

  /** Arguments plus tuples, nested ones included: what the stack loop consumes. */
  function Size(xs: seq<Arg>): nat
    decreases xs
  {
    if |xs| == 0 then 0
    else (match xs[0] case Text(_) => 1 case Tuple(items) => 1 + Size(items)) + Size(xs[1..])
  }

  lemma {:induction false} SizeAppend(a: seq<Arg>, b: seq<Arg>)
    ensures Size(a + b) == Size(a) + Size(b)
    decreases |a|
  {
    if |a| == 0 {
      assert a + b == b;
    } else {
      assert (a + b)[0] == a[0];
      assert (a + b)[1..] == a[1..] + b;
      SizeAppend(a[1..], b);
    }
  }

  /** The pattern `^(.*?)SEP(.*?)$` matches `arg` with these groups: `.` never
      matches a newline and `$` also matches before one final newline, and
      the lazy key stops at the first separator. */
  predicate Splits(arg: string, sep: char, key: string, val: string) {
    && '\n' !in key && sep !in key && '\n' !in val
    && (arg == key + [sep] + val || arg == key + [sep] + val + ['\n'])
  }

  function FirstIndex(s: string, c: char): (r: Option<nat>)
  {
    if |s| == 0 then None
    else if s[0] == c then Some(0)
    else
      match FirstIndex(s[1..], c)
      case None => None
      case Some(i) => Some(i + 1)
  }

  /** `FirstIndex` finds the first occurrence, and only misses an absent char. */
  lemma {:induction false} FirstIndexSound(s: string, c: char)
    ensures FirstIndex(s, c).None? <==> c !in s
    ensures FirstIndex(s, c).Some? ==>
      var i := FirstIndex(s, c).value;
      i < |s| && s[i] == c && c !in s[..i]
  {
    if |s| > 0 && s[0] != c {
      FirstIndexSound(s[1..], c);
      assert forall x :: x in s <==> x == s[0] || x in s[1..];
      if FirstIndex(s[1..], c).Some? {
        var i := FirstIndex(s[1..], c).value;
        assert s[..i + 1] == [s[0]] + s[1..][..i];
      }
    }
  }

  /** `re.match(f'^(.*?){sep}(.*?)$', arg).groups()`. */
  function SplitArg(arg: string, sep: char): (r: Option<(string, string)>)
    ensures sep in arg && '\n' !in arg ==> r.Some?
    ensures r.Some? ==> sep in arg && sep !in r.value.0 && '\n' !in r.value.0 && '\n' !in r.value.1
  {
    FirstIndexSound(arg, sep);
    match FirstIndex(arg, sep)
    case None => None
    case Some(i) =>
      var key := arg[..i];
      var rest := arg[i + 1..];
      var val := if |rest| > 0 && rest[|rest| - 1] == '\n' then rest[..|rest| - 1] else rest;
      if '\n' in key || '\n' in val then None
      else Some((key, val))
  }

  /** The groups returned are a split of `arg`. */
  lemma SplitArgSound(arg: string, sep: char)
    requires SplitArg(arg, sep).Some?
    ensures Splits(arg, sep, SplitArg(arg, sep).value.0, SplitArg(arg, sep).value.1)
  {
    FirstIndexSound(arg, sep);
    var i := FirstIndex(arg, sep).value;
    var rest := arg[i + 1..];
    if |rest| > 0 && rest[|rest| - 1] == '\n' {
      SplitAroundNewline(arg, i);
    } else {
      SplitAround(arg, i);
    }
  }

  lemma SplitAround(arg: string, i: nat)
    requires i < |arg|
    ensures arg == arg[..i] + [arg[i]] + arg[i + 1..]
  {
    assert arg == arg[..i] + arg[i..];
    assert arg[i..] == [arg[i]] + arg[i + 1..];
  }

  lemma SplitAroundNewline(arg: string, i: nat)
    requires i < |arg| - 1 && arg[|arg| - 1] == '\n'
    ensures arg == arg[..i] + [arg[i]] + arg[i + 1..|arg| - 1] + ['\n']
  {
    SplitAround(arg, i);
    var rest := arg[i + 1..];
    assert rest == rest[..|rest| - 1] + ['\n'];
    assert rest[..|rest| - 1] == arg[i + 1..|arg| - 1];
  }

  /** A position holding `c` with no `c` before it is the one `FirstIndex` reports. */
  lemma {:induction false} FirstIndexAt(s: string, c: char, i: nat)
    requires i < |s| && s[i] == c && c !in s[..i]
    ensures FirstIndex(s, c) == Some(i)
    decreases i
  {
    if i > 0 {
      assert s[0] in s[..i];
      assert s[1..][..i - 1] == s[1..i];
      assert forall x :: x in s[1..i] ==> x in s[..i];
      FirstIndexAt(s[1..], c, i - 1);
    }
  }

  /** The groups are the only ones: whenever `arg` splits as `key`, `val`,
      the pattern yields exactly those. */
  lemma SplitArgComplete(arg: string, sep: char, key: string, val: string)
    requires Splits(arg, sep, key, val)
    ensures SplitArg(arg, sep) == Some((key, val))
  {
    assert arg[|key|] == sep;
    assert arg[..|key|] == key;
    FirstIndexAt(arg, sep, |key|);
    var rest := arg[|key| + 1..];
    if arg == key + [sep] + val {
      assert rest == val;
      assert |rest| > 0 ==> rest[|rest| - 1] in val;
    } else {
      assert rest == val + ['\n'];
      assert rest[..|rest| - 1] == val;
    }
  }

  /** The key and value an item contributes, if it parses. */
  function Entry(arg: string, sep: char, eval: Evaluator): Option<(string, Value)> {
    match SplitArg(arg, sep)
    case None => None
    case Some(kv) =>
      match eval(kv.1)
      case None => None
      case Some(v) => Some((kv.0, v))
  }

  /** The key an item contributes, if it parses. */
  function KeyOf(arg: string, sep: char, eval: Evaluator): Option<string> {
    match Entry(arg, sep, eval)
    case None => None
    case Some(e) => Some(e.0)
  }

  function KeyFn(sep: char, eval: Evaluator): string -> Option<string> {
    s => KeyOf(s, sep, eval)
  }

  predicate AllParse(items: seq<string>, sep: char, eval: Evaluator) {
    forall s :: s in items ==> Entry(s, sep, eval).Some?
  }

  /** Items at different positions carry different keys. */
  predicate DistinctKeys(items: seq<string>, sep: char, eval: Evaluator) {
    DistinctOn(items, KeyFn(sep, eval))
  }

  /** No item's key is already in `acc`. */
  predicate FreshKeys(items: seq<string>, sep: char, eval: Evaluator, acc: map<string, Value>) {
    forall s :: s in items && KeyOf(s, sep, eval).Some? ==> KeyOf(s, sep, eval).value !in acc
  }

  /** The loop body applied to `items` in order, starting from `acc`: split,
      evaluate, then reject a key already present. */
  function ParseItems(items: seq<string>, sep: char, eval: Evaluator, acc: map<string, Value>)
    : (r: Result<map<string, Value>, CliError>)
    ensures r.Failure? && r.error.NoSeparator? ==> r.error.arg in items && SplitArg(r.error.arg, sep).None?
    ensures r.Failure? && r.error.KeyCollision? ==>
      r.error.key in acc || exists s :: s in items && KeyOf(s, sep, eval) == Some(r.error.key)
    decreases |items|
  {
    if |items| == 0 then Success(acc)
    else
      match SplitArg(items[0], sep)
      case None => Failure(NoSeparator(items[0]))
      case Some(kv) =>
        match eval(kv.1)
        case None => Failure(BadLiteral(kv.1))
        case Some(v) =>
          if kv.0 in acc then Failure(KeyCollision(kv.0))
          else
            var r := ParseItems(items[1..], sep, eval, acc[kv.0 := v]);
            assert items[0] in items && KeyOf(items[0], sep, eval) == Some(kv.0);
            assert forall s :: s in items[1..] ==> s in items;
            r
  }

  /** Parsing succeeds iff every item splits and evaluates, no two items
      share a key, and no item reuses a key of `acc`. */
  lemma {:induction false} ParseItemsSucceedsIff(items: seq<string>, sep: char, eval: Evaluator, acc: map<string, Value>)
    ensures ParseItems(items, sep, eval, acc).Success? <==>
      AllParse(items, sep, eval) && DistinctKeys(items, sep, eval) && FreshKeys(items, sep, eval, acc)
    decreases |items|
  {
    if |items| > 0 {
      assert items[0] in items;
      var e := Entry(items[0], sep, eval);
      if e.Some? {
        var (k, v) := e.value;
        assert SplitArg(items[0], sep).Some? && SplitArg(items[0], sep).value.0 == k;
        assert KeyFn(sep, eval)(items[0]) == Some(k);
        if k !in acc {
          var t := items[1..];
          var acc' := acc[k := v];
          ParseItemsSucceedsIff(t, sep, eval, acc');
          DistinctOnCons(items, KeyFn(sep, eval), k);
          assert forall s :: s in items <==> s == items[0] || s in t;
        }
      }
    }
  }

  /** On success every item has its entry, entries of `acc` survive, and
      nothing else is added: one new key per item. */
  lemma {:induction false} ParseItemsContents(items: seq<string>, sep: char, eval: Evaluator, acc: map<string, Value>)
    requires ParseItems(items, sep, eval, acc).Success?
    ensures var r := ParseItems(items, sep, eval, acc).value;
      && |r.Keys| == |acc.Keys| + |items|
      && (forall k :: k in acc ==> k in r && r[k] == acc[k])
      && (forall s :: s in items ==>
            (Entry(s, sep, eval).Some? && Entry(s, sep, eval).value.0 in r &&
             r[Entry(s, sep, eval).value.0] == Entry(s, sep, eval).value.1))
      && (forall k :: k in r ==> k in acc || exists s :: s in items && Entry(s, sep, eval) == Some((k, r[k])))
    decreases |items|
  {
    if |items| > 0 {
      var kv := SplitArg(items[0], sep).value;
      var v := eval(kv.1).value;
      var t := items[1..];
      var acc' := acc[kv.0 := v];
      ParseItemsContents(t, sep, eval, acc');
      assert forall s :: s in items <==> s == items[0] || s in t;
      assert items[0] in items;
    }
  }

  /** `cli_args_to_kwargs(*args, separator=sep)`: the flattened items, last first. */
  function CliArgsToKwargs(args: seq<Arg>, sep: char, eval: Evaluator): (r: Result<map<string, Value>, CliError>)
    ensures r.Failure? && r.error.NoSeparator? ==>
      r.error.arg in Flatten(args) && SplitArg(r.error.arg, sep).None?
    ensures r.Failure? && r.error.KeyCollision? ==>
      exists s :: s in Flatten(args) && KeyOf(s, sep, eval) == Some(r.error.key)
  {
    ReverseKeepsElements(Flatten(args));
    ParseItems(Reverse(Flatten(args)), sep, eval, map[])
  }

  /** Parsing succeeds iff every flattened item splits and evaluates and no
      two items share a key. */
  lemma CliArgsToKwargsSucceedsIff(args: seq<Arg>, sep: char, eval: Evaluator)
    ensures CliArgsToKwargs(args, sep, eval).Success? <==>
      AllParse(Flatten(args), sep, eval) && DistinctKeys(Flatten(args), sep, eval)
  {
    var f := Flatten(args);
    ReverseKeepsElements(f);
    ParseItemsSucceedsIff(Reverse(f), sep, eval, map[]);
    DistinctOnReverse(f, KeyFn(sep, eval));
    assert AllParse(Reverse(f), sep, eval) <==> AllParse(f, sep, eval);
  }

  /** On success there is one entry per flattened item, holding its value,
      and nothing else. */
  lemma CliArgsToKwargsContents(args: seq<Arg>, sep: char, eval: Evaluator)
    requires CliArgsToKwargs(args, sep, eval).Success?
    ensures var r := CliArgsToKwargs(args, sep, eval).value;
      && |r.Keys| == |Flatten(args)|
      && (forall s :: s in Flatten(args) ==>
           (Entry(s, sep, eval).Some? && Entry(s, sep, eval).value.0 in r &&
            r[Entry(s, sep, eval).value.0] == Entry(s, sep, eval).value.1))
      && (forall k :: k in r ==> exists s :: s in Flatten(args) && Entry(s, sep, eval) == Some((k, r[k])))
  {
    var f := Flatten(args);
    ReverseKeepsElements(f);
    ParseItemsContents(Reverse(f), sep, eval, map[]);
  }

  /** Popping a tuple pushes its items back: the flattened stack is unchanged
      and the stack gets smaller. */
  lemma PopTuple(stack: seq<Arg>)
    requires |stack| > 0 && stack[|stack| - 1].Tuple?
    ensures var below := stack[..|stack| - 1];
      var items := stack[|stack| - 1].items;
      Flatten(stack) == Flatten(below + items) && Size(below + items) < Size(stack)
  {
    var below := stack[..|stack| - 1];
    var top := stack[|stack| - 1];
    assert stack == below + [top];
    assert [top][1..] == [];
    FlattenAppend(below, [top]);
    SizeAppend(below, [top]);
    FlattenAppend(below, top.items);
    SizeAppend(below, top.items);
  }

  /** Popping a text item takes the first pending item off the reversed stack. */
  lemma PopText(stack: seq<Arg>)
    requires |stack| > 0 && stack[|stack| - 1].Text?
    ensures var below := stack[..|stack| - 1];
      Reverse(Flatten(stack)) == [stack[|stack| - 1].s] + Reverse(Flatten(below))
      && Size(below) < Size(stack)
  {
    var below := stack[..|stack| - 1];
    var top := stack[|stack| - 1];
    assert stack == below + [top];
    assert [top][1..] == [];
    FlattenAppend(below, [top]);
    SizeAppend(below, [top]);
    ReverseAppend(Flatten(below), [top.s]);
  }

  /** One step of `ParseItems` on the first pending item. */
  lemma ParseItemsStep(s: string, pending: seq<string>, sep: char, eval: Evaluator, acc: map<string, Value>)
    ensures SplitArg(s, sep).None? ==> ParseItems([s] + pending, sep, eval, acc) == Failure(NoSeparator(s))
    ensures SplitArg(s, sep).Some? && eval(SplitArg(s, sep).value.1).None? ==>
      ParseItems([s] + pending, sep, eval, acc) == Failure(BadLiteral(SplitArg(s, sep).value.1))
    ensures Entry(s, sep, eval).Some? && Entry(s, sep, eval).value.0 in acc ==>
      ParseItems([s] + pending, sep, eval, acc) == Failure(KeyCollision(Entry(s, sep, eval).value.0))
    ensures Entry(s, sep, eval).Some? && Entry(s, sep, eval).value.0 !in acc ==>
      ParseItems([s] + pending, sep, eval, acc)
        == ParseItems(pending, sep, eval, acc[Entry(s, sep, eval).value.0 := Entry(s, sep, eval).value.1])
  {
    assert ([s] + pending)[0] == s;
    assert ([s] + pending)[1..] == pending;
  }

  /** The source's loop: pop the last argument, push a tuple's items back,
      parse a text item. It computes `CliArgsToKwargs`. */
  method ParseArgs(args: seq<Arg>, sep: char, eval: Evaluator) returns (r: Result<map<string, Value>, CliError>)
    ensures r == CliArgsToKwargs(args, sep, eval)
  {
    var stack := args;
    var acc: map<string, Value> := map[];
    while |stack| > 0
      invariant ParseItems(Reverse(Flatten(stack)), sep, eval, acc) == CliArgsToKwargs(args, sep, eval)
      decreases Size(stack)
    {
      var top := stack[|stack| - 1];
      var below := stack[..|stack| - 1];
      if top.Tuple? {
        PopTuple(stack);
        stack := below + top.items;
      } else {
        var s := top.s;
        PopText(stack);
        ParseItemsStep(s, Reverse(Flatten(below)), sep, eval, acc);
        var split := SplitArg(s, sep);
        if split.None? {
          return Failure(NoSeparator(s));
        }
        var kv := split.value;
        var v := eval(kv.1);
        if v.None? {
          return Failure(BadLiteral(kv.1));
        }
        if kv.0 in acc {
          return Failure(KeyCollision(kv.0));
        }
        acc := acc[kv.0 := v.value];
        stack := below;
      }
    }
    r := Success(acc);
  }
}
