/**
 * `inferQueryResult` (src/inferQueryResult.ts): the kind set of every result column of a
 * query, from the column's origin and the declared type and NOT NULL constraint of the
 * table column it comes from. The database is reduced to what the inference asks of it:
 * the result columns the prepared statement describes, and per table column the row
 * `pragma_table_info` returns for it.
 */
module InferQueryResult {
  import opened Wrappers
  import opened Texts
  import opened Seqs
  import opened ColumnKinds

  /** A result column as the prepared statement describes it: its name and its origin, if any. */
  datatype ColumnDescriptor = ColumnDescriptor(name: string, table: Option<string>, column: Option<string>)

  /** The declared type and the NOT NULL constraint of a table column. */
  datatype ColumnMeta = ColumnMeta(declaredType: string, notNull: bool)

  /**
   * The catalogue the inference reads: a row per (table, column), and the tables
   * declared STRICT.
   */
  datatype Schema = Schema(columns: map<(string, string), ColumnMeta>, strictTables: set<string>)

  datatype InferError =
    | PrepareFailed      // the query itself does not prepare
    | MissingColumnData  // "Unable to get column data"

  /** Both the table and the column of origin are known and non-empty. */
  predicate Attributable(d: ColumnDescriptor)
  {
    d.table.Some? && d.table.value != "" && d.column.Some? && d.column.value != ""
  }

  // ---------------------------------------------------------------------------
  // The affinity query

  /**
   * The CASE expression of the column data query: the rules of section 3.1 of the SQLite
   * datatype documentation ("Determination Of Column Affinity"), tried in order, with
   * `ANY` in a STRICT table kept apart and every other type read as a number.
   */
  function Affinity(declaredType: string, strict: bool): (r: ColumnType)
    ensures IsSingle(r) && r != Unknown && r != Null
    ensures r == Any ==> declaredType == "ANY" && strict
  {
    if LikeInfix(declaredType, "INT") then Number
    else if LikeInfix(declaredType, "CHAR") || LikeInfix(declaredType, "CLOB") || LikeInfix(declaredType, "TEXT") then String
    else if LikeInfix(declaredType, "BLOB") || declaredType == "" then Buffer
    else if LikeInfix(declaredType, "REAL") || LikeInfix(declaredType, "FLOA") || LikeInfix(declaredType, "DOUB") then Number
    else if declaredType == "ANY" && strict then Any
    else Number
  }

  lemma {:induction false} ContainsFits(s: string, p: string)
    requires Contains(s, p)
    ensures |p| <= |s|
  {
    var i := ContainsWitness(s, p);
  }

  /** `ANY` in a STRICT table has affinity Any; in any other table it is read as a number. */
  lemma AnyAffinity(strict: bool)
    ensures Affinity("ANY", strict) == if strict then Any else Number
  {
    var u := UpperAsciiString("ANY");
    assert u == "ANY";
    assert !StartsWith(u, "INT");
    if Contains(u[1..], "INT") {
      ContainsFits(u[1..], "INT");
    }
    assert !LikeInfix("ANY", "INT");
    forall p | p in ["CHAR", "CLOB", "TEXT", "BLOB", "REAL", "FLOA", "DOUB"]
      ensures !LikeInfix("ANY", p)
    {
      if Contains(u, p) {
        ContainsFits(u, p);
      }
    }
  }

  /** A declared type containing INT is numeric, whatever else it contains. */
  lemma IntWins(declaredType: string, strict: bool)
    requires LikeInfix(declaredType, "INT")
    ensures Affinity(declaredType, strict) == Number
  {
  }

  /** The kind of a result column, or the error the lookup of its table column raises. */
  function ColumnKindOf(d: ColumnDescriptor, schema: Schema): (r: Result<ColumnType, InferError>)
    ensures !Attributable(d) ==> r == Success(Unknown)
    ensures Attributable(d) ==> (r.Failure? <==> (d.table.value, d.column.value) !in schema.columns)
    ensures r.Failure? ==> r.error == MissingColumnData
    ensures Attributable(d) && r.Success? ==>
      var meta := schema.columns[(d.table.value, d.column.value)];
      && (Has(r.value, Null) <==> !meta.notNull)
      && Has(r.value, Affinity(meta.declaredType, d.table.value in schema.strictTables))
      && Size(r.value) == if meta.notNull then 1 else 2
  {
    if !Attributable(d) then Success(Unknown)
    else
      var key := (d.table.value, d.column.value);
      if key !in schema.columns then Failure(MissingColumnData)
      else
        var meta := schema.columns[key];
        var affinity := Affinity(meta.declaredType, d.table.value in schema.strictTables);
        Success(affinity | (if meta.notNull then 0 else Null))
  }

  // ---------------------------------------------------------------------------
  // The insertion-ordered map of column kinds

  /**
   * `Map.prototype.set` on the entries of an insertion-ordered map: a new key goes to the
   * end, an existing key keeps its place and takes the new value.
   */
  function MapSet(entries: seq<ColumnInfo>, name: string, kind: ColumnType): (r: seq<ColumnInfo>)
    ensures Names(r) == if name in Names(entries) then Names(entries) else Names(entries) + [name]
    ensures forall k :: 0 <= k < |r| ==>
      r[k].kind == if k < |entries| && r[k].name != name then entries[k].kind else kind
  {
    if name in Names(entries) then
      seq(|entries|, k requires 0 <= k < |entries| =>
        if entries[k].name == name then ColumnInfo(name, kind) else entries[k])
    else entries + [ColumnInfo(name, kind)]
  }

  function Names(entries: seq<ColumnInfo>): (r: seq<string>)
    ensures |r| == |entries|
    ensures forall k :: 0 <= k < |entries| ==> r[k] == entries[k].name
  {
    seq(|entries|, k requires 0 <= k < |entries| => entries[k].name)
  }

  function DescriptorNames(cols: seq<ColumnDescriptor>): (r: seq<string>)
    ensures |r| == |cols|
    ensures forall k :: 0 <= k < |cols| ==> r[k] == cols[k].name
  {
    seq(|cols|, k requires 0 <= k < |cols| => cols[k].name)
  }

  /** The entries of the map after the loop has run over `cols`, or the error it threw. */
  function Collect(cols: seq<ColumnDescriptor>, schema: Schema): (r: Result<seq<ColumnInfo>, InferError>)
    ensures r.Success? ==> NoDuplicates(Names(r.value))
  {
    if |cols| == 0 then Success([])
    else
      var before := Collect(cols[..|cols| - 1], schema);
      if before.Failure? then before
      else
        var d := cols[|cols| - 1];
        var kind := ColumnKindOf(d, schema);
        if kind.Failure? then Failure(kind.error)
        else Success(MapSet(before.value, d.name, kind.value))
  }

  /** One more column: the loop's next step. */
  lemma CollectStep(cols: seq<ColumnDescriptor>, schema: Schema, i: nat)
    requires i < |cols|
    ensures var before := Collect(cols[..i], schema);
      var kind := ColumnKindOf(cols[i], schema);
      Collect(cols[..i + 1], schema) ==
        if before.Failure? then before
        else if kind.Failure? then Failure(kind.error)
        else Success(MapSet(before.value, cols[i].name, kind.value))
  {
    assert cols[..i + 1][..i] == cols[..i];
  }

  /** Once the loop has thrown, the rest of the columns do not matter. */
  lemma {:induction false} CollectPrefixFails(cols: seq<ColumnDescriptor>, schema: Schema, i: nat)
    requires i <= |cols| && Collect(cols[..i], schema).Failure?
    ensures Collect(cols, schema) == Collect(cols[..i], schema)
  {
    if i < |cols| {
      var p := cols[..|cols| - 1];
      assert p[..i] == cols[..i];
      CollectPrefixFails(p, schema, i);
    } else {
      assert cols[..i] == cols;
    }
  }

  /** What `inferQueryResult` returns or throws, given what preparing the query yields. */
  function InferSpec(prepared: Option<seq<ColumnDescriptor>>, schema: Schema): (r: Result<seq<ColumnInfo>, InferError>)
    ensures prepared.None? ==> r == Failure(PrepareFailed)
    ensures r.Success? ==> forall i, j :: 0 <= i < j < |r.value| ==> r.value[i].name != r.value[j].name
  {
    if prepared.None? then Failure(PrepareFailed)
    else
      var r := Collect(prepared.value, schema);
      assert r.Success? ==> forall i :: 0 <= i < |r.value| ==> Names(r.value)[i] == r.value[i].name;
      r
  }

  // ---------------------------------------------------------------------------
  // The loop

  /** The entries of an insertion-ordered map held as its key order and its key-value map. */
  function Entries(order: seq<string>, kinds: map<string, ColumnType>): (r: seq<ColumnInfo>)
    requires forall k :: 0 <= k < |order| ==> order[k] in kinds
    ensures |r| == |order|
    ensures forall k :: 0 <= k < |order| ==> r[k] == ColumnInfo(order[k], kinds[order[k]])
  {
    seq(|order|, k requires 0 <= k < |order| => ColumnInfo(order[k], kinds[order[k]]))
  }

  /** Setting a key in the map held as order and key-value map is `MapSet` on its entries. */
  lemma MapSetEntries(order: seq<string>, kinds: map<string, ColumnType>, name: string, kind: ColumnType)
    requires NoDuplicates(order)
    requires forall k :: 0 <= k < |order| ==> order[k] in kinds
    requires forall n :: n in kinds ==> n in order
    ensures var order' := if name in kinds then order else order + [name];
      && NoDuplicates(order')
      && (forall k :: 0 <= k < |order'| ==> order'[k] in kinds[name := kind])
      && (forall n :: n in kinds[name := kind] ==> n in order')
      && NoDuplicates(Names(Entries(order, kinds)))
      && MapSet(Entries(order, kinds), name, kind) == Entries(order', kinds[name := kind])
  {
    var order' := if name in kinds then order else order + [name];
    var entries := Entries(order, kinds);
    assert Names(entries) == order;
    var r := MapSet(entries, name, kind);
    assert name in kinds <==> name in order;
    assert Names(r) == order';
    assert forall k :: 0 <= k < |order'| ==> order'[k] in kinds[name := kind];
    var e := Entries(order', kinds[name := kind]);
    forall k | 0 <= k < |r|
      ensures r[k] == e[k]
    {
      if r[k].name != name {
        assert k < |order| && r[k].kind == entries[k].kind;
      }
    }
  }

  /**
   * `inferQueryResult`: the loop over the result columns filling `columnTypes`, then the
   * entries of the map in insertion order.
   */
  method InferQueryResult(prepared: Option<seq<ColumnDescriptor>>, schema: Schema)
    returns (r: Result<seq<ColumnInfo>, InferError>)
    ensures r == InferSpec(prepared, schema)
  {
    if prepared.None? {
      return Failure(PrepareFailed);
    }
    var cols := prepared.value;
    var order: seq<string> := [];
    var columnTypes: map<string, ColumnType> := map[];
    for i := 0 to |cols|
      invariant NoDuplicates(order)
      invariant forall k :: 0 <= k < |order| ==> order[k] in columnTypes
      invariant forall n :: n in columnTypes ==> n in order
      invariant Collect(cols[..i], schema) == Success(Entries(order, columnTypes))
    {
      var column := cols[i];
      CollectStep(cols, schema, i);
      var kind: ColumnType;
      if column.table.None? || column.table.value == "" || column.column.None? || column.column.value == "" {
        kind := Unknown;
      } else {
        var key := (column.table.value, column.column.value);
        if key !in schema.columns {
          assert ColumnKindOf(column, schema).Failure?;
          CollectPrefixFails(cols, schema, i + 1);
          return Failure(MissingColumnData);
        }
        var columnData := schema.columns[key];
        kind := Affinity(columnData.declaredType, column.table.value in schema.strictTables)
          | (if columnData.notNull then 0 else Null);
      }
      assert ColumnKindOf(column, schema) == Success(kind);
      MapSetEntries(order, columnTypes, column.name, kind);
      if column.name !in columnTypes {
        order := order + [column.name];
      }
      columnTypes := columnTypes[column.name := kind];
    }
    assert cols[..|cols|] == cols;
    return Success(Entries(order, columnTypes));
  }

  // ---------------------------------------------------------------------------
  // What the inference promises

  /** The column lookup that throws: an attributable column the catalogue has no row for. */
  predicate MissingData(d: ColumnDescriptor, schema: Schema)
  {
    Attributable(d) && (d.table.value, d.column.value) !in schema.columns
  }

  /** The inference throws exactly when some attributable column has no catalogue row. */
  lemma {:induction false} CollectFailsIff(cols: seq<ColumnDescriptor>, schema: Schema)
    ensures Collect(cols, schema).Failure? <==> exists i :: 0 <= i < |cols| && MissingData(cols[i], schema)
    ensures Collect(cols, schema).Failure? ==> Collect(cols, schema).error == MissingColumnData
  {
    if |cols| > 0 {
      var p := cols[..|cols| - 1];
      CollectFailsIff(p, schema);
      if exists i :: 0 <= i < |p| && MissingData(p[i], schema) {
        var i :| 0 <= i < |p| && MissingData(p[i], schema);
        assert cols[i] == p[i];
      }
      if exists i :: 0 <= i < |cols| && MissingData(cols[i], schema) {
        var i :| 0 <= i < |cols| && MissingData(cols[i], schema);
        if i < |p| {
          assert MissingData(p[i], schema);
        }
      }
    }
  }

  /**
   * The result lists each column name once, in the order of its first occurrence among the
   * query's result columns.
   */
  lemma {:induction false} CollectNames(cols: seq<ColumnDescriptor>, schema: Schema)
    requires Collect(cols, schema).Success?
    ensures Names(Collect(cols, schema).value) == Dedup(DescriptorNames(cols))
  {
    if |cols| > 0 {
      var p := cols[..|cols| - 1];
      var x := cols[|cols| - 1].name;
      var before := Collect(p, schema).value;
      var kind := ColumnKindOf(cols[|cols| - 1], schema).value;
      assert Collect(cols, schema).value == MapSet(before, x, kind);
      CollectNames(p, schema);
      var names := DescriptorNames(p);
      assert DescriptorNames(cols) == names + [x];
      DedupSnoc(names, x);
      assert x in names <==> x in Dedup(names);
    }
  }

  /**
   * The kind reported for a name is the kind of the last result column of that name:
   * a later column of the same name overwrites the kind of an earlier one.
   */
  lemma {:induction false} CollectKindIsLast(cols: seq<ColumnDescriptor>, schema: Schema, i: nat, k: nat)
    requires Collect(cols, schema).Success?
    requires i < |cols| && forall j :: i < j < |cols| ==> cols[j].name != cols[i].name
    requires k < |Collect(cols, schema).value| && Collect(cols, schema).value[k].name == cols[i].name
    ensures ColumnKindOf(cols[i], schema).Success?
    ensures Collect(cols, schema).value[k].kind == ColumnKindOf(cols[i], schema).value
  {
    var n := |cols|;
    var p := cols[..n - 1];
    var before := Collect(p, schema).value;
    var last := cols[n - 1];
    var kind := ColumnKindOf(last, schema).value;
    var es := Collect(cols, schema).value;
    assert es == MapSet(before, last.name, kind);
    if i < n - 1 {
      assert last.name != cols[i].name;
      assert k < |before|;
      assert cols[i] == p[i];
      CollectKindIsLast(p, schema, i, k);
    }
  }

  /**
   * Every kind reported is a column kind the inference assigns: Unknown for a column with no
   * table column behind it, otherwise one affinity plus Null unless the column is NOT NULL.
   */
  lemma {:induction false} CollectKindsFromColumns(cols: seq<ColumnDescriptor>, schema: Schema, k: nat)
    requires Collect(cols, schema).Success? && k < |Collect(cols, schema).value|
    ensures exists i :: (0 <= i < |cols| && cols[i].name == Collect(cols, schema).value[k].name
      && ColumnKindOf(cols[i], schema) == Success(Collect(cols, schema).value[k].kind))
  {
    var n := |cols|;
    var p := cols[..n - 1];
    var before := Collect(p, schema).value;
    var last := cols[n - 1];
    var es := Collect(cols, schema).value;
    if es[k].name == last.name {
      assert ColumnKindOf(cols[n - 1], schema) == Success(es[k].kind);
    } else {
      assert k < |before| && es[k] == before[k];
      CollectKindsFromColumns(p, schema, k);
      var i :| 0 <= i < |p| && p[i].name == before[k].name && ColumnKindOf(p[i], schema) == Success(before[k].kind);
      assert cols[i] == p[i];
    }
  }

  /** The column is declared `ANY` in a STRICT table. */
  predicate StrictAny(d: ColumnDescriptor, schema: Schema)
  {
    Attributable(d) && (d.table.value, d.column.value) in schema.columns
    && schema.columns[(d.table.value, d.column.value)].declaredType == "ANY"
    && d.table.value in schema.strictTables
  }

  /**
   * Unless some column is declared `ANY` in a STRICT table, the inferred columns have
   * distinct names and each kind is Unknown or a non-empty set without Any: the
   * conditions under which the result rule's fix is accepted.
   */
  lemma InferredColumnsRenderable(prepared: seq<ColumnDescriptor>, schema: Schema)
    requires InferSpec(Some(prepared), schema).Success?
    requires forall i :: 0 <= i < |prepared| ==> !StrictAny(prepared[i], schema)
    ensures var columns := InferSpec(Some(prepared), schema).value;
      && (forall i, j :: 0 <= i < j < |columns| ==> columns[i].name != columns[j].name)
      && (forall i :: 0 <= i < |columns| ==>
           Has(columns[i].kind, Unknown) || (columns[i].kind != 0 && !Has(columns[i].kind, Any)))
  {
    var columns := InferSpec(Some(prepared), schema).value;
    forall k | 0 <= k < |columns|
      ensures Has(columns[k].kind, Unknown) || (columns[k].kind != 0 && !Has(columns[k].kind, Any))
    {
      InferredKindRenderable(prepared, schema, k);
    }
  }

  /** One inferred column's kind is Unknown, or non-empty without Any. */
  lemma InferredKindRenderable(prepared: seq<ColumnDescriptor>, schema: Schema, k: nat)
    requires Collect(prepared, schema).Success? && k < |Collect(prepared, schema).value|
    requires forall i :: 0 <= i < |prepared| ==> !StrictAny(prepared[i], schema)
    ensures var c := Collect(prepared, schema).value[k];
      Has(c.kind, Unknown) || (c.kind != 0 && !Has(c.kind, Any))
  {
    var columns := Collect(prepared, schema).value;
    CollectKindsFromColumns(prepared, schema, k);
    var i :| 0 <= i < |prepared| && prepared[i].name == columns[k].name
      && ColumnKindOf(prepared[i], schema) == Success(columns[k].kind);
    assert !StrictAny(prepared[i], schema);
  }
}
