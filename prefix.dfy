/**
 * `does_all_named_parameters_start_with_prefix` (parser/src/prefix.rs), over the raw named
 * parameters the SQL parser collects (prefix character included).
 */
module ParameterPrefix {
  import opened Wrappers
  import opened ParameterNames

  /** `n.starts_with(prefix)`. */
  predicate StartsWithChar(n: string, prefix: char)
  {
    |n| > 0 && n[0] == prefix
  }

  /** `names.iter().all(…)`, as the short-circuiting fold it is. */
  function AllStartWith(names: seq<string>, prefix: char): (r: bool)
    ensures r <==> forall i :: 0 <= i < |names| ==> StartsWithChar(names[i], prefix)
  {
    if |names| == 0 then true
    else if !StartsWithChar(names[0], prefix) then false
    else
      var rest := AllStartWith(names[1..], prefix);
      assert forall i :: 1 <= i < |names| ==> names[i] == names[1..][i - 1];
      rest
  }

  /** None when the text does not parse, else whether every named parameter uses the prefix. */
  function DoesAllNamedParametersStartWithPrefix(parsed: Option<ParameterInfo>, prefix: char): (r: Option<bool>)
    ensures r.Some? <==> parsed.Some?
    ensures r == Some(true) <==> parsed.Some? && forall i :: 0 <= i < |parsed.value.names| ==>
      StartsWithChar(parsed.value.names[i], prefix)
  {
    if parsed.None? then None else Some(AllStartWith(parsed.value.names, prefix))
  }

  /** A query without named parameters passes for every prefix. */
  lemma NoNamesPass(count: u32, prefix: char)
    ensures DoesAllNamedParametersStartWithPrefix(Some(ParameterInfo(count, [])), prefix) == Some(true)
  {
  }

  /** `:id` is rejected when the prefix is `@`. */
  lemma OtherPrefixFails(count: u32)
    ensures DoesAllNamedParametersStartWithPrefix(Some(ParameterInfo(count, [":id"])), '@') == Some(false)
  {
  }
}
