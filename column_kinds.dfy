/**
 * The `ColumnType` flag enum (src/inferQueryResult.ts): a column's kind is a set of
 * runtime kinds, one bit each. JavaScript's bitwise operators work on 32-bit integers,
 * so a kind set is a 32-bit vector whose only possible bits are the six flags.
 */
module ColumnKinds {

  type ColumnType = t: bv32 | t < 64

  const Unknown: ColumnType := 1
  const Number: ColumnType := 2
  const String: ColumnType := 4
  const Buffer: ColumnType := 8
  const Null: ColumnType := 16
  const Any: ColumnType := 32

  /** `t & f` is truthy. */
  predicate Has(t: ColumnType, f: ColumnType)
  {
    t & f != 0
  }

  /** The number of flags in the set, counted flag by flag. */
  function Size(t: ColumnType): nat
  {
    (if Has(t, Unknown) then 1 else 0) + (if Has(t, Number) then 1 else 0)
    + (if Has(t, String) then 1 else 0) + (if Has(t, Buffer) then 1 else 0)
    + (if Has(t, Null) then 1 else 0) + (if Has(t, Any) then 1 else 0)
  }

  /** The set holds exactly one kind. */
  predicate IsSingle(t: ColumnType)
  {
    t == Unknown || t == Number || t == String || t == Buffer || t == Null || t == Any
  }

  /** `ColumnInfo`: a result column's name (after aliasing) and its kind set. */
  datatype ColumnInfo = ColumnInfo(name: string, kind: ColumnType)

  lemma SizeOneIffSingle(t: ColumnType)
    ensures Size(t) == 1 <==> IsSingle(t)
  {
  }
}
