/** The builtin registry of built_in.c: first-match prefix lookup of a
    command name, and dispatch to the handler at an index. The table itself
    (names, handlers, which builtins must run in the shell process) is
    defined elsewhere and enters as a value. */
module BuiltIn {
  import opened CString

  /** A builtin handler: given argc and argv it returns a negative value on
      error, zero on success and a positive exit-style value otherwise. */
  type Handler = (int, seq<string>) -> int

  /** built_in_strs, the parent_process_relied classification and
      built_in_handler_map, index by index. */
  datatype Registry = Registry(names: seq<string>, parentRelied: seq<bool>, handlers: seq<Handler>)
  {
    predicate Valid()
    {
      |parentRelied| == |names| && |handlers| == |names|
    }
  }

  /** The index get_built_in_index returns: the first registered name that
      is a prefix of str, or -1 when there is none. */
  function BuiltinIndex(names: seq<string>, str: string): (r: int)
    ensures -1 <= r < |names|
    ensures r >= 0 ==> IsPrefix(names[r], str)
    ensures forall j :: 0 <= j < |names| && (r == -1 || j < r) ==> !IsPrefix(names[j], str)
    ensures r == -1 <==> forall j :: 0 <= j < |names| ==> !IsPrefix(names[j], str)
  {
    if names == [] then -1
    else if IsPrefix(names[0], str) then 0
    else
      var r := BuiltinIndex(names[1..], str);
      if r < 0 then -1 else r + 1
  }

  /** get_built_in_index: a linear scan that returns at the first name
      that is a prefix of str. */
  method GetBuiltInIndex(names: seq<string>, str: string) returns (idx: int)
    ensures idx == BuiltinIndex(names, str)
  {
    for i := 0 to |names|
      invariant forall j :: 0 <= j < i ==> !IsPrefix(names[j], str)
    {
      if IsPrefix(names[i], str) {
        return i;
      }
    }
    return -1;
  }

  /** handle_built_in: the result of the handler at index, unaltered. */
  method HandleBuiltIn(reg: Registry, index: int, argc: int, argv: seq<string>) returns (r: int)
    requires reg.Valid() && 0 <= index < |reg.names|
    ensures r == reg.handlers[index](argc, argv)
  {
    r := reg.handlers[index](argc, argv);
  }

  /** Matching is by prefix: a command that extends a registered name
      resolves to that name, or to an earlier one that is also a prefix. */
  lemma ExtensionResolves(names: seq<string>, i: int, ext: string)
    requires 0 <= i < |names|
    ensures 0 <= BuiltinIndex(names, names[i] + ext) <= i
    ensures (forall j :: 0 <= j < i ==> !IsPrefix(names[j], names[i] + ext))
              ==> BuiltinIndex(names, names[i] + ext) == i
  {
    assert (names[i] + ext)[..|names[i]|] == names[i];
  }

  /** The documented quirk: with "cd" registered first, "cdx" is taken for cd. */
  lemma CdxIsCd(names: seq<string>)
    requires |names| > 0 && names[0] == "cd"
    ensures BuiltinIndex(names, "cdx") == 0
  {
    ExtensionResolves(names, 0, "x");
    assert names[0] + "x" == "cdx";
  }
}
