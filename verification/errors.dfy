/** The exceptions the dispatch engine raises, one constructor per kind. */
module DispatchErrors {

  datatype DispatchError =
    /** `introspect_function`: more than one `**` parameter. */
    | Malformed(doubleStars: seq<string>)
    /** No candidate accepts the call. */
    | Unmatched
    /** Several candidates accept the call equally well. */
    | Redundant(names: set<string>)
    /** `Handler` construction received positional arguments. */
    | PositionalArguments
    /** Several Handler methods accept only `**kwargs`. */
    | ManyDefaults(names: set<string>)
    /** Handler methods whose parameters use a reserved name (`_name`, `_meta`). */
    | ReservedCollision(methods: set<string>)
    /** `DispatcherFunction.add` received a function of another name. */
    | NameMismatch(registered: string, offered: string)
}
