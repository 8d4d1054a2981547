/**
 * The `typed-result` rule (src/rules/typed-result.ts): compares the second generic
 * argument of `db.prepare<Input, Result>(query)` with the columns inferred for the query
 * and computes the replacement declaration when they disagree.
 */
module TypedResult {
  import opened Wrappers
  import opened Texts
  import opened Seqs
  import opened ColumnKinds
  import opened TypeNodes
  import InferQueryResult

  /**
   * `ColumnInfoWithUserType`: an inferred column and the annotation the user declared for
   * it, which the rule records for columns of unknown kind.
   */
  datatype ResultColumn = ResultColumn(name: string, kind: ColumnType, userAnnotation: Option<Annotation>)

  /** The column as the inference hands it to the rule, with no user annotation yet. */
  function Lift(c: ColumnInfo): ResultColumn
  {
    ResultColumn(c.name, c.kind, None)
  }

  function LiftAll(cs: seq<ColumnInfo>): (r: seq<ResultColumn>)
    ensures |r| == |cs|
    ensures forall i :: 0 <= i < |cs| ==> r[i] == Lift(cs[i])
  {
    seq(|cs|, i requires 0 <= i < |cs| => Lift(cs[i]))
  }

  // ---------------------------------------------------------------------------
  // countBitsSet

  /**
   * The SWAR population count, on the 32-bit integers JavaScript's bitwise operators use.
   * For a kind set every intermediate value stays below 2^31, so the arithmetic shifts of
   * the source and the logical shifts here agree, and the product of the last step is
   * exact before its reduction modulo 2^32.
   */
  function CountBitsSet(v: ColumnType): (r: bv32)
    ensures r as int == Size(v)
  {
    var v1 := v - ((v >> 1) & 0x5555_5555);
    var v2 := (v1 & 0x3333_3333) + ((v1 >> 2) & 0x3333_3333);
    (((v2 + (v2 >> 4)) & 0x0f0f_0f0f) * 0x0101_0101) >> 24
  }

  // ---------------------------------------------------------------------------
  // isTypeNodeCompatibleWithColumnType, doesDeclaredTypeMatchColumn

  /** The kind a declared type names: a keyword, or a reference to the identifier `Buffer`. */
  function NamedKind(t: TypeNode): Option<ColumnType>
  {
    match t
    case UnknownKeyword => Some(Unknown)
    case NullKeyword => Some(Null)
    case NumberKeyword => Some(Number)
    case StringKeyword => Some(String)
    case TypeReference(IdentifierName(name)) => if name == "Buffer" then Some(Buffer) else None
    case _ => None
  }

  function IsTypeNodeCompatible(t: TypeNode, kind: ColumnType): (r: bool)
    ensures r <==> NamedKind(t).Some? && Has(kind, NamedKind(t).value)
  {
    match t
    case UnknownKeyword => Has(kind, Unknown)
    case NullKeyword => Has(kind, Null)
    case NumberKeyword => Has(kind, Number)
    case StringKeyword => Has(kind, String)
    case TypeReference(typeName) => typeName == IdentifierName("Buffer") && Has(kind, Buffer)
    case _ => false
  }

  /**
   * `doesDeclaredTypeMatchColumn`: a union never matches a single kind, and otherwise
   * matches when each of its members names one of the column's kinds; any other
   * declaration matches exactly the single kind it names.
   */
  function DoesDeclaredTypeMatchColumn(declared: TypeNode, kind: ColumnType): (r: bool)
    ensures declared.UnionType? ==> (r <==>
      !IsSingle(kind) &&
      forall i :: 0 <= i < |declared.types| ==>
        NamedKind(declared.types[i]).Some? && Has(kind, NamedKind(declared.types[i]).value))
    ensures !declared.UnionType? ==> (r <==> NamedKind(declared) == Some(kind))
  {
    SizeOneIffSingle(kind);
    if declared.UnionType? then
      if CountBitsSet(kind) == 1 then false
      else forall i :: 0 <= i < |declared.types| ==> IsTypeNodeCompatible(declared.types[i], kind)
    else
      CountBitsSet(kind) == 1 && IsTypeNodeCompatible(declared, kind)
  }

  /**
   * The union check does not ask that every kind of the column be named: `number | null`
   * matches a column that may also hold strings.
   */
  lemma UnionNeedNotNameEveryKind()
    ensures DoesDeclaredTypeMatchColumn(UnionType([NumberKeyword, NullKeyword]), Number | String | Null)
  {
    var u := UnionType([NumberKeyword, NullKeyword]);
    assert forall i :: 0 <= i < |u.types| ==> IsTypeNodeCompatible(u.types[i], Number | String | Null);
  }

  // ---------------------------------------------------------------------------
  // columnTypeToJSType

  /** The kinds that have a TypeScript spelling, in the order they are written. */
  const SpelledKinds: seq<ColumnType> := [Unknown, Number, String, Buffer, Null]

  function Spelling(f: ColumnType): string
  {
    if f == Unknown then "unknown"
    else if f == Number then "number"
    else if f == String then "string"
    else if f == Buffer then "Buffer"
    else "null"
  }

  /** The spelling of kind `f` if the set holds it. */
  function Part(kind: ColumnType, f: ColumnType): seq<string>
  {
    if Has(kind, f) then [Spelling(f)] else []
  }

  /** The spellings of the kinds of `ks` that the set holds, in the order of `ks`. */
  function Spellings(ks: seq<ColumnType>, kind: ColumnType): seq<string>
  {
    if |ks| == 0 then [] else Part(kind, ks[0]) + Spellings(ks[1..], kind)
  }

  /** The spellings of the kinds in `kind`, in the fixed order unknown, number, string, Buffer, null. */
  function TypeParts(kind: ColumnType): seq<string>
  {
    Spellings(SpelledKinds, kind)
  }

  lemma UnfoldTypeParts(kind: ColumnType)
    ensures TypeParts(kind) == Part(kind, Unknown) + (Part(kind, Number) + (Part(kind, String)
      + (Part(kind, Buffer) + Part(kind, Null))))
  {
    var ks := SpelledKinds;
    assert ks[1..] == [Number, String, Buffer, Null];
    assert ks[1..][1..] == [String, Buffer, Null];
    assert ks[1..][1..][1..] == [Buffer, Null];
    assert ks[1..][1..][1..][1..] == [Null];
    assert ks[1..][1..][1..][1..][1..] == [];
    assert Spellings([Null], kind) == Part(kind, Null) + [];
    assert Spellings([Buffer, Null], kind) == Part(kind, Buffer) + Spellings([Null], kind);
    assert Spellings([String, Buffer, Null], kind) == Part(kind, String) + Spellings([Buffer, Null], kind);
    assert Spellings([Number, String, Buffer, Null], kind) == Part(kind, Number) + Spellings([String, Buffer, Null], kind);
  }

  /** `columnTypeToJSType`: pushes one spelling per kind and joins them with " | ". */
  method ColumnTypeToJSType(kind: ColumnType) returns (s: string)
    ensures s == Join(TypeParts(kind), " | ")
  {
    var typeParts: seq<string> := [];
    if kind & Unknown != 0 {
      typeParts := typeParts + ["unknown"];
    }
    assert typeParts == Part(kind, Unknown);
    if kind & Number != 0 {
      typeParts := typeParts + ["number"];
    }
    assert typeParts == Part(kind, Unknown) + Part(kind, Number);
    if kind & String != 0 {
      typeParts := typeParts + ["string"];
    }
    assert typeParts == Part(kind, Unknown) + Part(kind, Number) + Part(kind, String);
    if kind & Buffer != 0 {
      typeParts := typeParts + ["Buffer"];
    }
    assert typeParts == Part(kind, Unknown) + Part(kind, Number) + Part(kind, String) + Part(kind, Buffer);
    if kind & Null != 0 {
      typeParts := typeParts + ["null"];
    }
    UnfoldTypeParts(kind);
    assert typeParts == TypeParts(kind);
    s := Join(typeParts, " | ");
  }

  /** Position of a spelling in the fixed order. */
  function Rank(spelling: string): nat
  {
    if spelling == "unknown" then 0
    else if spelling == "number" then 1
    else if spelling == "string" then 2
    else if spelling == "Buffer" then 3
    else 4
  }

  /** Number of kinds of `ks` that the set holds. */
  function Held(ks: seq<ColumnType>, kind: ColumnType): nat
  {
    if |ks| == 0 then 0 else (if Has(kind, ks[0]) then 1 else 0) + Held(ks[1..], kind)
  }

  lemma {:induction false} SpellingsLength(ks: seq<ColumnType>, kind: ColumnType)
    ensures |Spellings(ks, kind)| == Held(ks, kind)
  {
    if |ks| > 0 {
      SpellingsLength(ks[1..], kind);
    }
  }

  lemma {:induction false} SpellingsMembers(ks: seq<ColumnType>, kind: ColumnType, x: string)
    ensures x in Spellings(ks, kind) <==> exists i :: 0 <= i < |ks| && Has(kind, ks[i]) && Spelling(ks[i]) == x
  {
    if |ks| > 0 {
      SpellingsMembers(ks[1..], kind, x);
      if x in Spellings(ks[1..], kind) {
        var i :| 0 <= i < |ks[1..]| && Has(kind, ks[1..][i]) && Spelling(ks[1..][i]) == x;
        assert ks[i + 1] == ks[1..][i];
      }
      if exists i :: 0 <= i < |ks| && Has(kind, ks[i]) && Spelling(ks[i]) == x {
        var i :| 0 <= i < |ks| && Has(kind, ks[i]) && Spelling(ks[i]) == x;
        if i > 0 {
          assert ks[1..][i - 1] == ks[i];
        }
      }
    }
  }

  lemma {:induction false} SpellingsSorted(ks: seq<ColumnType>, kind: ColumnType)
    requires forall i, j :: 0 <= i < j < |ks| ==> Rank(Spelling(ks[i])) < Rank(Spelling(ks[j]))
    ensures forall i, j :: 0 <= i < j < |Spellings(ks, kind)| ==>
      Rank(Spellings(ks, kind)[i]) < Rank(Spellings(ks, kind)[j])
  {
    if |ks| > 0 {
      var rest := Spellings(ks[1..], kind);
      SpellingsSorted(ks[1..], kind);
      forall x | x in rest
        ensures Rank(Spelling(ks[0])) < Rank(x)
      {
        SpellingsMembers(ks[1..], kind, x);
        var i :| 0 <= i < |ks[1..]| && Has(kind, ks[1..][i]) && Spelling(ks[1..][i]) == x;
        assert ks[1..][i] == ks[i + 1];
      }
      var p := Spellings(ks, kind);
      if Has(kind, ks[0]) {
        assert p == [Spelling(ks[0])] + rest;
        forall i, j | 0 <= i < j < |p|
          ensures Rank(p[i]) < Rank(p[j])
        {
          assert p[j] == rest[j - 1];
          if i > 0 {
            assert p[i] == rest[i - 1];
          }
        }
      } else {
        assert p == rest;
      }
    }
  }

  /** One spelling per kind the set holds, the Any kind excepted. */
  lemma TypePartsCount(kind: ColumnType)
    ensures |TypeParts(kind)| == Size(kind) - (if Has(kind, Any) then 1 else 0)
  {
    UnfoldTypeParts(kind);
  }

  /** The spelling of a kind is written exactly when the set holds the kind. */
  lemma TypePartsSpellHeldKinds(kind: ColumnType)
    ensures forall f :: f in SpelledKinds ==> (Spelling(f) in TypeParts(kind) <==> Has(kind, f))
  {
    forall f | f in SpelledKinds
      ensures Spelling(f) in TypeParts(kind) <==> Has(kind, f)
    {
      SpellingsMembers(SpelledKinds, kind, Spelling(f));
    }
  }

  /** The spellings come in the fixed order. */
  lemma TypePartsOrdered(kind: ColumnType)
    ensures forall i, j :: 0 <= i < j < |TypeParts(kind)| ==> Rank(TypeParts(kind)[i]) < Rank(TypeParts(kind)[j])
  {
    SpellingsSorted(SpelledKinds, kind);
  }

  /** Nothing is written for the empty set and for the set {Any}. */
  lemma TypePartsEmpty(kind: ColumnType)
    ensures TypeParts(kind) == [] <==> kind == 0 || kind == Any
  {
    UnfoldTypeParts(kind);
  }

  // ---------------------------------------------------------------------------
  // The declaration a kind set is rendered as

  function SpellingNode(f: ColumnType): TypeNode
  {
    if f == Unknown then UnknownKeyword
    else if f == Number then NumberKeyword
    else if f == String then StringKeyword
    else if f == Buffer then TypeReference(IdentifierName("Buffer"))
    else NullKeyword
  }

  /** The nodes of the spellings of the kinds of `ks` that the set holds. */
  function NodesOf(ks: seq<ColumnType>, kind: ColumnType): (r: seq<TypeNode>)
    requires forall i :: 0 <= i < |ks| ==> ks[i] in SpelledKinds
    ensures |r| == |Spellings(ks, kind)|
    ensures forall i :: 0 <= i < |r| ==> TypeText(r[i]) == Spellings(ks, kind)[i]
    ensures forall i :: 0 <= i < |r| ==> NamedKind(r[i]).Some? && Has(kind, NamedKind(r[i]).value)
  {
    if |ks| == 0 then []
    else (if Has(kind, ks[0]) then [SpellingNode(ks[0])] else []) + NodesOf(ks[1..], kind)
  }

  function KindNodes(kind: ColumnType): seq<TypeNode>
  {
    NodesOf(SpelledKinds, kind)
  }

  /** The node the text `columnTypeToJSType(kind)` parses to: one keyword, or their union. */
  function CanonicalNode(kind: ColumnType): TypeNode
  {
    var nodes := KindNodes(kind);
    if |nodes| == 1 then nodes[0] else UnionType(nodes)
  }

  /** The canonical node prints as the rendered text. */
  lemma {:induction false} CanonicalNodeText(kind: ColumnType)
    ensures TypeText(CanonicalNode(kind)) == Join(TypeParts(kind), " | ")
  {
    var nodes := KindNodes(kind);
    if |nodes| != 1 {
      var texts := seq(|nodes|, i requires 0 <= i < |nodes| => TypeText(nodes[i]));
      assert texts == TypeParts(kind);
    }
  }

  /**
   * The rendering of a non-empty kind set without the Any kind is accepted by the matcher.
   */
  lemma CanonicalNodeMatches(kind: ColumnType)
    requires kind != 0 && !Has(kind, Any)
    ensures DoesDeclaredTypeMatchColumn(CanonicalNode(kind), kind)
  {
    var nodes := KindNodes(kind);
    TypePartsCount(kind);
    TypePartsEmpty(kind);
    SizeOneIffSingle(kind);
  }

  /**
   * The Any kind has no spelling. A nullable column of a STRICT table declared ANY has kind
   * Any | Null; it is rendered as `null`, which the matcher then rejects, and a non-null
   * one (kind Any) is rendered as the empty text.
   */
  lemma AnyKindRenderingRejected()
    ensures Join(TypeParts(Any | Null), " | ") == "null"
    ensures CanonicalNode(Any | Null) == NullKeyword
    ensures !DoesDeclaredTypeMatchColumn(CanonicalNode(Any | Null), Any | Null)
    ensures Join(TypeParts(Any), " | ") == ""
  {
    UnfoldTypeParts(Any | Null);
    assert TypeParts(Any | Null) == ["null"];
    UnfoldTypeParts(Any);
    assert TypeParts(Any) == [];
  }

  // ---------------------------------------------------------------------------
  // columnsToObjectLiteralText

  /** The annotation text written for a column: the carried user text, or ": " and the kinds. */
  function AnnotationText(c: ResultColumn): string
  {
    if c.userAnnotation.Some? && c.userAnnotation.value.text != "" then c.userAnnotation.value.text
    else ": " + Join(TypeParts(c.kind), " | ")
  }

  /**
   * `columnsToObjectLiteralText`: the printed form of the type literal with one member
   * per column, in column order.
   */
  function ColumnsToObjectLiteralText(columns: seq<ResultColumn>): (r: string)
    ensures r == TypeText(ResultFixNode(columns))
  {
    PrintedFixMembers(columns);
    "{" + Join(seq(|columns|, i requires 0 <= i < |columns| =>
                 "\"" + columns[i].name + "\"" + AnnotationText(columns[i])), ", ") + "}"
  }

  /** The member the fix writes for a column. */
  function FixMember(c: ResultColumn): TypeElement
  {
    if c.userAnnotation.Some? && c.userAnnotation.value.text != "" then
      PropertySignature(QuotedKey(c.name), c.userAnnotation)
    else
      PropertySignature(QuotedKey(c.name), Some(Annotation(": " + TypeText(CanonicalNode(c.kind)), CanonicalNode(c.kind))))
  }

  /** The type literal the text `columnsToObjectLiteralText(columns)` parses to. */
  function ResultFixNode(columns: seq<ResultColumn>): TypeNode
  {
    TypeLiteral(seq(|columns|, i requires 0 <= i < |columns| => FixMember(columns[i])))
  }

  /** The fix node prints as the rendered text. */
  lemma PrintedFixMembers(columns: seq<ResultColumn>)
    ensures TypeText(ResultFixNode(columns)) == "{" + Join(seq(|columns|, i requires 0 <= i < |columns| =>
                 "\"" + columns[i].name + "\"" + AnnotationText(columns[i])), ", ") + "}"
  {
    var members := ResultFixNode(columns).members;
    var printed := seq(|members|, i requires 0 <= i < |members| => MemberText(members[i]));
    var rendered := seq(|columns|, i requires 0 <= i < |columns| =>
                      "\"" + columns[i].name + "\"" + AnnotationText(columns[i]));
    forall i | 0 <= i < |columns|
      ensures printed[i] == rendered[i]
    {
      CanonicalNodeText(columns[i].kind);
    }
    assert printed == rendered;
  }

  // ---------------------------------------------------------------------------
  // getDeclaredType

  /** The member is a property signature with a type annotation whose key names `name`. */
  predicate Declares(m: TypeElement, name: string)
  {
    m.PropertySignature? && m.annotation.Some? && PropertyName(m.key) == Some(name)
  }

  /** The annotation of the first member that declares `name`. */
  function DeclaredType(name: string, members: seq<TypeElement>): (r: Option<Annotation>)
    ensures r.None? <==> forall i :: 0 <= i < |members| ==> !Declares(members[i], name)
    ensures r.Some? ==> exists i :: (0 <= i < |members| && Declares(members[i], name)
      && r.value == members[i].annotation.value
      && forall j :: 0 <= j < i ==> !Declares(members[j], name))
  {
    if |members| == 0 then None
    else if Declares(members[0], name) then members[0].annotation
    else
      var r := DeclaredType(name, members[1..]);
      assert forall i :: 1 <= i < |members| ==> members[i] == members[1..][i - 1];
      r
  }

  /** `getDeclaredType`: the search loop with an early return. */
  method GetDeclaredType(name: string, members: seq<TypeElement>) returns (r: Option<Annotation>)
    ensures r == DeclaredType(name, members)
  {
    for i := 0 to |members|
      invariant DeclaredType(name, members) == DeclaredType(name, members[i..])
    {
      assert members[i..][1..] == members[i + 1..];
      var member := members[i];
      if !member.PropertySignature? {
        continue;
      }
      if member.annotation.None? {
        continue;
      }
      var key := PropertyName(member.key);
      if key != Some(name) {
        continue;
      }
      return member.annotation;
    }
    return None;
  }

  // ---------------------------------------------------------------------------
  // The rule body

  /** A column passes: it is declared, and its declaration matches unless its kind includes Unknown. */
  predicate ColumnPasses(c: ResultColumn, members: seq<TypeElement>)
  {
    var declared := DeclaredType(c.name, members);
    declared.Some? && (Has(c.kind, Unknown) || DoesDeclaredTypeMatchColumn(declared.value.typeNode, c.kind))
  }

  /** The final value of `isValid`: one member per column, and every column passes. */
  predicate ResultDeclarationValid(columns: seq<ResultColumn>, members: seq<TypeElement>)
  {
    |members| == |columns| && forall i :: 0 <= i < |columns| ==> ColumnPasses(columns[i], members)
  }

  /** A column of unknown kind takes over the annotation the user declared for it. */
  function Annotated(c: ResultColumn, members: seq<TypeElement>): ResultColumn
  {
    var declared := DeclaredType(c.name, members);
    if declared.Some? && Has(c.kind, Unknown) then c.(userAnnotation := declared) else c
  }

  function AnnotateAll(columns: seq<ResultColumn>, members: seq<TypeElement>): (r: seq<ResultColumn>)
    ensures |r| == |columns|
    ensures forall i :: 0 <= i < |columns| ==> r[i] == Annotated(columns[i], members)
  {
    seq(|columns|, i requires 0 <= i < |columns| => Annotated(columns[i], members))
  }

  datatype ResultMessage = MissingResultType | IncorrectResultType | ExtraneousResultType

  /** The edit a report proposes, with the text it inserts. */
  datatype ResultFix =
    | InsertAfterCallee(text: string)
    | ReplaceTypeArguments(text: string)
    | InsertAfterFirstParam(text: string)
    | ReplaceResultParam(text: string)
      /** removes the text from the end of the input parameter to the end of the result parameter */
    | RemoveResultParam

  datatype ResultReport = ResultReport(message: ResultMessage, fix: ResultFix)

  /**
   * What the rule reports for inferred columns (None when there is no inference) and the
   * call's generic arguments (None when the call has none).
   */
  function ResultRule(columns: Option<seq<ColumnInfo>>, typeArgs: Option<seq<TypeNode>>): (r: Option<ResultReport>)
    ensures r.Some? ==> columns.Some?
    ensures r.Some? && r.value.message == ExtraneousResultType <==>
      columns.Some? && |columns.value| == 0 && typeArgs.Some? && |typeArgs.value| >= 2
    ensures r.Some? && r.value.message == MissingResultType <==>
      columns.Some? && |columns.value| > 0 && (typeArgs.None? || |typeArgs.value| < 2)
    ensures r.Some? && r.value.message == IncorrectResultType <==>
      && columns.Some? && |columns.value| > 0 && typeArgs.Some? && |typeArgs.value| >= 2
      && !(typeArgs.value[1].TypeLiteral? && ResultDeclarationValid(LiftAll(columns.value), typeArgs.value[1].members))
  {
    if columns.None? then None
    else
      var cs := LiftAll(columns.value);
      if |cs| == 0 then
        if typeArgs.Some? && |typeArgs.value| >= 2 then Some(ResultReport(ExtraneousResultType, RemoveResultParam))
        else None
      else if typeArgs.None? then
        Some(ResultReport(MissingResultType, InsertAfterCallee("<[], " + ColumnsToObjectLiteralText(cs) + ">")))
      else if |typeArgs.value| == 0 then
        Some(ResultReport(MissingResultType, ReplaceTypeArguments("<[], " + ColumnsToObjectLiteralText(cs) + ">")))
      else if |typeArgs.value| == 1 then
        Some(ResultReport(MissingResultType, InsertAfterFirstParam(", " + ColumnsToObjectLiteralText(cs))))
      else
        var resultParam := typeArgs.value[1];
        if !resultParam.TypeLiteral? then
          Some(ResultReport(IncorrectResultType, ReplaceResultParam(ColumnsToObjectLiteralText(cs))))
        else if !ResultDeclarationValid(cs, resultParam.members) then
          Some(ResultReport(IncorrectResultType,
            ReplaceResultParam(ColumnsToObjectLiteralText(AnnotateAll(cs, resultParam.members)))))
        else None
  }

  lemma AnnotateStep(lifted: seq<ResultColumn>, i: nat, members: seq<TypeElement>)
    requires i < |lifted|
    ensures AnnotateAll(lifted[..i + 1], members) + lifted[i + 1..]
      == (AnnotateAll(lifted[..i], members) + lifted[i..])[i := Annotated(lifted[i], members)]
  {
  }

  /**
   * The loop of the listener over the columns: clears `isValid` when a column is not
   * declared or its declaration does not match, and records the user's annotation on
   * columns of unknown kind, in place.
   */
  method AnnotateColumns(cols: array<ResultColumn>, members: seq<TypeElement>) returns (isValid: bool)
    modifies cols
    ensures cols[..] == AnnotateAll(old(cols[..]), members)
    ensures isValid <==> ResultDeclarationValid(old(cols[..]), members)
  {
    ghost var lifted := cols[..];
    isValid := |members| == cols.Length;
    for i := 0 to cols.Length
      invariant cols[..] == AnnotateAll(lifted[..i], members) + lifted[i..]
      invariant isValid <==> |members| == |lifted| && forall j :: 0 <= j < i ==> ColumnPasses(lifted[j], members)
    {
      ghost var before := cols[..];
      AnnotateStep(lifted, i, members);
      var column := cols[i];
      var declaredType := GetDeclaredType(column.name, members);
      if declaredType.None? {
        isValid := false;
        assert before[i := Annotated(lifted[i], members)] == before;
        continue;
      }
      if column.kind & Unknown != 0 {
        cols[i] := column.(userAnnotation := declaredType);
        continue;
      }
      if !DoesDeclaredTypeMatchColumn(declaredType.value.typeNode, column.kind) {
        isValid := false;
      }
      assert before[i := Annotated(lifted[i], members)] == before;
    }
    assert lifted[..|lifted|] == lifted && lifted[|lifted|..] == [];
  }

  /**
   * The rule's listener after the query text and database are known: the dispatch on the
   * generic arguments, then the loop over the columns that clears `isValid` and records
   * the user's annotation on columns of unknown kind, in place.
   */
  method CheckResultType(columns: Option<seq<ColumnInfo>>, typeArgs: Option<seq<TypeNode>>)
    returns (report: Option<ResultReport>)
    ensures report == ResultRule(columns, typeArgs)
  {
    if columns.None? {
      return None;
    }
    var infos := columns.value;
    if |infos| == 0 {
      if typeArgs.Some? && |typeArgs.value| >= 2 {
        return Some(ResultReport(ExtraneousResultType, RemoveResultParam));
      }
      return None;
    }
    var lifted := LiftAll(infos);
    if typeArgs.None? {
      return Some(ResultReport(MissingResultType, InsertAfterCallee("<[], " + ColumnsToObjectLiteralText(lifted) + ">")));
    }
    var params := typeArgs.value;
    if |params| == 0 {
      return Some(ResultReport(MissingResultType, ReplaceTypeArguments("<[], " + ColumnsToObjectLiteralText(lifted) + ">")));
    }
    if |params| == 1 {
      return Some(ResultReport(MissingResultType, InsertAfterFirstParam(", " + ColumnsToObjectLiteralText(lifted))));
    }
    var resultParam := params[1];
    if !resultParam.TypeLiteral? {
      return Some(ResultReport(IncorrectResultType, ReplaceResultParam(ColumnsToObjectLiteralText(lifted))));
    }
    var members := resultParam.members;
    var cols := new ResultColumn[|infos|](i requires 0 <= i < |infos| => Lift(infos[i]));
    assert cols[..] == lifted;
    var isValid := AnnotateColumns(cols, members);
    if !isValid {
      return Some(ResultReport(IncorrectResultType, ReplaceResultParam(ColumnsToObjectLiteralText(cols[..]))));
    }
    return None;
  }

  // ---------------------------------------------------------------------------
  // Applying a fix

  /**
   * The declaration the fix installs: the type literal the replacement text parses to,
   * built from the columns the listener holds when it reports.
   */
  function FixNode(columns: seq<ColumnInfo>, typeArgs: Option<seq<TypeNode>>): TypeNode
  {
    ResultFixNode(AnnotatedOrLifted(LiftAll(columns), typeArgs))
  }

  /** The generic arguments after the fix is applied, as nodes. */
  function FixedTypeArguments(columns: seq<ColumnInfo>, typeArgs: Option<seq<TypeNode>>): (r: seq<TypeNode>)
    ensures |r| >= 2 && r[1] == FixNode(columns, typeArgs)
  {
    var node := FixNode(columns, typeArgs);
    if typeArgs.None? || |typeArgs.value| == 0 then [TupleType([]), node]
    else if |typeArgs.value| == 1 then typeArgs.value + [node]
    else typeArgs.value[1 := node]
  }

  /**
   * The text each fix writes is the printed form of the arguments it installs: an empty
   * tuple for the input and the fix node for the result.
   */
  lemma ResultFixText(columns: seq<ColumnInfo>, typeArgs: Option<seq<TypeNode>>)
    requires ResultRule(Some(columns), typeArgs).Some?
    requires |columns| > 0
    ensures var fix := ResultRule(Some(columns), typeArgs).value.fix;
      && (fix.InsertAfterCallee? || fix.ReplaceTypeArguments? || fix.InsertAfterFirstParam? || fix.ReplaceResultParam?)
      && (fix.InsertAfterCallee? || fix.ReplaceTypeArguments? ==>
            fix.text == "<" + TypeText(TupleType([])) + ", " + TypeText(FixNode(columns, typeArgs)) + ">")
      && (fix.InsertAfterFirstParam? ==> fix.text == ", " + TypeText(FixNode(columns, typeArgs)))
      && (fix.ReplaceResultParam? ==> fix.text == TypeText(FixNode(columns, typeArgs)))
  {
    var fixed := AnnotatedOrLifted(LiftAll(columns), typeArgs);
    EmptyTupleText();
    ResultFixRendered(columns, typeArgs);
    assert TypeText(FixNode(columns, typeArgs)) == ColumnsToObjectLiteralText(fixed);
  }

  /** The text of each fix, in terms of the columns the listener holds when it reports. */
  lemma ResultFixRendered(columns: seq<ColumnInfo>, typeArgs: Option<seq<TypeNode>>)
    requires ResultRule(Some(columns), typeArgs).Some?
    requires |columns| > 0
    ensures var fix := ResultRule(Some(columns), typeArgs).value.fix;
      var text := ColumnsToObjectLiteralText(AnnotatedOrLifted(LiftAll(columns), typeArgs));
      && (fix.InsertAfterCallee? || fix.ReplaceTypeArguments? || fix.InsertAfterFirstParam? || fix.ReplaceResultParam?)
      && (fix.InsertAfterCallee? || fix.ReplaceTypeArguments? ==> fix.text == "<[], " + text + ">")
      && (fix.InsertAfterFirstParam? ==> fix.text == ", " + text)
      && (fix.ReplaceResultParam? ==> fix.text == text)
  {
  }

  lemma EmptyTupleText()
    ensures TypeText(TupleType([])) == "[]"
  {
  }

  /** The names are pairwise distinct. */
  predicate DistinctNames(cs: seq<ResultColumn>)
  {
    forall i, j :: 0 <= i < j < |cs| ==> cs[i].name != cs[j].name
  }

  /**
   * A column the rendering describes faithfully: of unknown kind, or of a non-empty kind
   * set without Any and carrying no user annotation.
   */
  predicate Renderable(c: ResultColumn)
  {
    Has(c.kind, Unknown) || (c.kind != 0 && !Has(c.kind, Any) && c.userAnnotation.None?)
  }

  /** Every name reads as itself between double quotes. */
  predicate PlainNames(cs: seq<ResultColumn>)
  {
    forall i :: 0 <= i < |cs| ==> IsPlainKeyText(cs[i].name)
  }

  /**
   * With distinct names that need no escaping, the member the fix writes for a column is
   * the one the search finds.
   */
  lemma FixMemberFound(cs: seq<ResultColumn>, i: nat)
    requires i < |cs| && DistinctNames(cs) && PlainNames(cs)
    ensures DeclaredType(cs[i].name, ResultFixNode(cs).members) == FixMember(cs[i]).annotation
  {
    var members := ResultFixNode(cs).members;
    var name := cs[i].name;
    assert Declares(members[i], name);
    forall j | 0 <= j < |cs| && j != i
      ensures !Declares(members[j], name)
    {
      assert PropertyName(members[j].key) == Some(cs[j].name);
    }
  }

  /** The declaration the fix writes is accepted for the columns it was written for. */
  lemma {:induction false} ResultFixNodeValid(cs: seq<ResultColumn>)
    requires DistinctNames(cs) && PlainNames(cs)
    requires forall i :: 0 <= i < |cs| ==> Renderable(cs[i])
    ensures ResultDeclarationValid(cs, ResultFixNode(cs).members)
  {
    var members := ResultFixNode(cs).members;
    forall i | 0 <= i < |cs|
      ensures ColumnPasses(cs[i], members)
    {
      FixMemberFound(cs, i);
      if !Has(cs[i].kind, Unknown) {
        CanonicalNodeMatches(cs[i].kind);
      }
    }
  }

  /**
   * Applying any fix the rule proposes for a query whose columns have distinct names that
   * need no escaping and renderable kinds yields generic arguments the rule accepts.
   */
  lemma {:induction false} ResultFixAccepted(columns: seq<ColumnInfo>, typeArgs: Option<seq<TypeNode>>)
    requires forall i, j :: 0 <= i < j < |columns| ==> columns[i].name != columns[j].name
    requires forall i :: 0 <= i < |columns| ==> IsPlainKeyText(columns[i].name)
    requires forall i :: 0 <= i < |columns| ==>
      Has(columns[i].kind, Unknown) || (columns[i].kind != 0 && !Has(columns[i].kind, Any))
    requires |columns| > 0 && ResultRule(Some(columns), typeArgs).Some?
    ensures ResultRule(Some(columns), Some(FixedTypeArguments(columns, typeArgs))) == None
  {
    var cs := LiftAll(columns);
    var args := FixedTypeArguments(columns, typeArgs);
    var fixed := AnnotatedOrLifted(cs, typeArgs);
    assert DistinctNames(fixed) && PlainNames(fixed);
    ResultFixNodeValid(fixed);
    var members := FixNode(columns, typeArgs).members;
    forall i | 0 <= i < |cs|
      ensures ColumnPasses(cs[i], members)
    {
      assert ColumnPasses(fixed[i], members);
    }
    assert ResultDeclarationValid(cs, args[1].members);
  }

  /**
   * When the query returns no columns, the fix removes the result argument only (the text
   * from the end of the first argument to the end of the second). The call is then
   * accepted exactly when it had two arguments; with more, a third one moves into second
   * place and is reported again.
   */
  lemma RemoveResultParamAccepted(typeArgs: seq<TypeNode>)
    requires ResultRule(Some([]), Some(typeArgs)).Some?
    ensures |typeArgs| >= 2
    ensures ResultRule(Some([]), Some(typeArgs)).value == ResultReport(ExtraneousResultType, RemoveResultParam)
    ensures ResultRule(Some([]), Some(typeArgs[..1] + typeArgs[2..])) == None <==> |typeArgs| == 2
  {
  }

  /**
   * The fix for the columns `inferQueryResult` returns is accepted once applied, whenever
   * no column is declared ANY in a STRICT table and every column name needs no escaping:
   * the inference itself guarantees distinct names.
   */
  lemma InferredFixAccepted(prepared: seq<InferQueryResult.ColumnDescriptor>, schema: InferQueryResult.Schema,
                            typeArgs: Option<seq<TypeNode>>)
    requires InferQueryResult.InferSpec(Some(prepared), schema).Success?
    requires forall i :: 0 <= i < |prepared| ==> !InferQueryResult.StrictAny(prepared[i], schema)
    requires forall i :: 0 <= i < |prepared| ==> IsPlainKeyText(prepared[i].name)
    requires var columns := InferQueryResult.InferSpec(Some(prepared), schema).value;
      |columns| > 0 && ResultRule(Some(columns), typeArgs).Some?
    ensures var columns := InferQueryResult.InferSpec(Some(prepared), schema).value;
      ResultRule(Some(columns), Some(FixedTypeArguments(columns, typeArgs))) == None
  {
    var columns := InferQueryResult.InferSpec(Some(prepared), schema).value;
    InferQueryResult.InferredColumnsRenderable(prepared, schema);
    forall k | 0 <= k < |columns|
      ensures IsPlainKeyText(columns[k].name)
    {
      InferQueryResult.CollectKindsFromColumns(prepared, schema, k);
    }
    ResultFixAccepted(columns, typeArgs);
  }

  /** The columns the fix is rendered from: annotated when the user wrote a type literal. */
  function AnnotatedOrLifted(cs: seq<ResultColumn>, typeArgs: Option<seq<TypeNode>>): (r: seq<ResultColumn>)
    ensures |r| == |cs|
    ensures forall i :: 0 <= i < |cs| ==> r[i].name == cs[i].name && r[i].kind == cs[i].kind
    ensures forall i :: 0 <= i < |cs| ==> r[i] == cs[i] || Has(cs[i].kind, Unknown)
  {
    if typeArgs.Some? && |typeArgs.value| >= 2 && typeArgs.value[1].TypeLiteral? then
      AnnotateAll(cs, typeArgs.value[1].members)
    else cs
  }
}
