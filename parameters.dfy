/**
 * `parse_query_parameters` (parser/src/parameters.rs): the bind-parameter shape of a query
 * from what the SQL parser collects. The parser itself is not part of this model; its
 * outcome is the input: None when the text does not parse to a statement, otherwise the
 * slot count and the named parameters it records, each with its prefix character.
 */
module ParameterNames {
  import opened Wrappers
  import opened Seqs

  const U32_LIMIT: int := 0x1_0000_0000

  type u32 = x: int | 0 <= x < U32_LIMIT

  /** `ParameterInfo` as the parser leaves it. */
  datatype ParameterInfo = ParameterInfo(count: u32, names: seq<string>)

  /** The exported `Parameters`: the slot count and the distinct names without prefix. */
  datatype Parameters = Parameters(count: u32, names: seq<string>)

  /** A raw name as the parser records it: a one-byte prefix character, then the name. */
  predicate IsRawName(n: string)
  {
    |n| > 0 && n[0] as int < 128
  }

  /** `n[1..]`: the name without its prefix character. */
  function StripPrefix(n: string): (r: string)
    requires IsRawName(n)
    ensures [n[0]] + r == n
  {
    n[1..]
  }

  function StrippedNames(rawNames: seq<string>): (r: seq<string>)
    requires forall i :: 0 <= i < |rawNames| ==> IsRawName(rawNames[i])
    ensures |r| == |rawNames| && forall i :: 0 <= i < |rawNames| ==> r[i] == StripPrefix(rawNames[i])
  {
    seq(|rawNames|, i requires 0 <= i < |rawNames| => StripPrefix(rawNames[i]))
  }

  /**
   * The names collected into an `IndexSet` and back into a vector, and the count reduced
   * by the number of names that were duplicates; the `u32` subtraction wraps around.
   */
  function ParseQueryParameters(parsed: Option<ParameterInfo>): (r: Option<Parameters>)
    requires parsed.Some? ==> forall i :: 0 <= i < |parsed.value.names| ==> IsRawName(parsed.value.names[i])
    ensures r.Some? <==> parsed.Some?
    ensures r.Some? ==> NoDuplicates(r.value.names) && |r.value.names| <= |parsed.value.names|
  {
    if parsed.None? then None
    else
      var info := parsed.value;
      var uniqueNames := Dedup(StrippedNames(info.names));
      var duplicates := |info.names| - |uniqueNames|;
      Some(Parameters((info.count - duplicates % U32_LIMIT) % U32_LIMIT, uniqueNames))
  }

  /**
   * The names are the distinct stripped names in the order of their first occurrence:
   * each stripped name appears, nothing else does, and earlier first occurrences come first.
   */
  lemma NamesInFirstOccurrenceOrder(info: ParameterInfo, i: nat, j: nat)
    requires forall k :: 0 <= k < |info.names| ==> IsRawName(info.names[k])
    requires i < j < |ParseQueryParameters(Some(info)).value.names|
    ensures var names := ParseQueryParameters(Some(info)).value.names;
      var stripped := StrippedNames(info.names);
      FirstIndex(stripped, names[i]) < FirstIndex(stripped, names[j])
  {
    DedupKeepsFirstOccurrenceOrder(StrippedNames(info.names), i, j);
  }

  /** A name is returned exactly when some raw name strips to it. */
  lemma NamesAreStrippedNames(info: ParameterInfo, name: string)
    requires forall k :: 0 <= k < |info.names| ==> IsRawName(info.names[k])
    ensures name in ParseQueryParameters(Some(info)).value.names <==>
      exists k :: 0 <= k < |info.names| && StripPrefix(info.names[k]) == name
  {
    var stripped := StrippedNames(info.names);
    var names := Dedup(stripped);
    if name in names {
      var i :| 0 <= i < |names| && names[i] == name;
      var k :| 0 <= k < |stripped| && stripped[k] == name;
    }
    if exists k :: 0 <= k < |info.names| && StripPrefix(info.names[k]) == name {
      var k :| 0 <= k < |info.names| && StripPrefix(info.names[k]) == name;
      assert stripped[k] == name;
    }
  }

  /**
   * When the raw count is at least the number of duplicate names the subtraction does not
   * wrap: the count drops by exactly one per duplicate, and anonymous slots are kept.
   */
  lemma CountDropsByDuplicates(info: ParameterInfo)
    requires forall k :: 0 <= k < |info.names| ==> IsRawName(info.names[k])
    requires info.count >= |info.names| - |Dedup(StrippedNames(info.names))|
    ensures var p := ParseQueryParameters(Some(info)).value;
      p.count == info.count - (|info.names| - |p.names|)
  {
    var uniqueNames := Dedup(StrippedNames(info.names));
    NoWrap(info.count, |info.names| - |uniqueNames|);
  }

  /** A u32 subtraction that does not go below zero does not wrap. */
  lemma NoWrap(a: u32, d: int)
    requires 0 <= d <= a
    ensures (a - d % U32_LIMIT) % U32_LIMIT == a - d
  {
    assert d % U32_LIMIT == d;
  }

  /**
   * When the parser counted at least one slot per raw name there are at least as many
   * slots as distinct names, the shape the input rule can render.
   */
  lemma CountCoversNames(info: ParameterInfo)
    requires forall k :: 0 <= k < |info.names| ==> IsRawName(info.names[k])
    requires info.count >= |info.names|
    ensures var p := ParseQueryParameters(Some(info)).value;
      p.count >= |p.names|
  {
    CountDropsByDuplicates(info);
  }

  /** `$bar :bar @bar`: three slots, one per raw name, give one slot named `bar`. */
  lemma CollapsesPrefixes()
    ensures ParseQueryParameters(Some(ParameterInfo(3, ["$bar", ":bar", "@bar"]))) == Some(Parameters(1, ["bar"]))
  {
    var raw := ["$bar", ":bar", "@bar"];
    var b := "bar";
    assert StrippedNames(raw) == [b, b, b];
    DedupOfRepeats(b);
    var unique := Dedup(StrippedNames(raw));
    assert |raw| - |unique| == 2;
  }

  lemma DedupOfRepeats(b: string)
    ensures Dedup([b, b, b]) == [b]
  {
    DedupSnoc([], b);
    assert [] + [b] == [b];
    DedupSnoc([b], b);
    assert [b] + [b] == [b, b];
    DedupSnoc([b, b], b);
    assert [b, b] + [b] == [b, b, b];
  }

  /** A query that does not parse has no parameter shape. */
  lemma UnparsedHasNoShape()
    ensures ParseQueryParameters(None) == None
  {
  }
}
