/**
 * The syntactic nullability analysis of `is_column_nullable` (parser/src/nullable.rs): does
 * the WHERE clause, or the ON constraint of an inner join, of a SELECT force a column to be
 * NULL or NOT NULL? The SQL parser is not part of this model: the statement is given as
 * the abstract syntax the analysis reads, or None when the text does not parse to one.
 */
module Nullable {
  import opened Wrappers

  datatype NullableResult = NotNull | Null

  datatype Operator =
    | Equals | NotEquals | Greater | GreaterEquals | Less | LessEquals
    | Is | IsNot | And | Or
      /** every other binary operator (arithmetic, concatenation, bit operations, …) */
    | OtherOperator

  /** The expressions the analysis tells apart; every other kind is `OtherExpr`. */
  datatype Expr =
    | Id(name: string)
    | Qualified(qualifier: string, name: string)
    | Binary(left: Expr, op: Operator, right: Expr)
      /** `lhs [NOT] IN (…)`; the list is not looked at */
    | InList(lhs: Expr)
      /** `lhs [NOT] LIKE rhs` and the other pattern operators */
    | Like(lhs: Expr, rhs: Expr)
      /** `operand NOTNULL`, `operand NOT NULL` */
    | NotNullExpr(operand: Expr)
    | Parenthesized(exprs: seq<Expr>)
    | NullLiteral
    | OtherExpr

  datatype JoinType = Inner | Cross | OtherJoinType
  datatype JoinOperator = Comma | TypedJoin(joinType: Option<JoinType>)

  /** `AS alias`, or an alias written without AS. */
  datatype Alias = As(alias: string) | Elided(alias: string)

  /** A table of the FROM clause: a named table, or anything else (sub-query, function, …). */
  datatype SelectTable = Table(name: string, alias: Option<Alias>) | OtherTable

  datatype JoinConstraint = On(expr: Expr) | Using

  datatype JoinedSelectTable = JoinedSelectTable(operator: JoinOperator, table: SelectTable, constraint: Option<JoinConstraint>)

  datatype FromClause = FromClause(select: Option<SelectTable>, joins: Option<seq<JoinedSelectTable>>)

  /** The first statement of the text: a simple SELECT, or anything else. */
  datatype Statement = Select(from: Option<FromClause>, whereClause: Option<Expr>) | OtherStatement

  // ---------------------------------------------------------------------------
  // get_used_table_name

  /**
   * The join operators after which a constraint holds for every produced row: a comma, a
   * plain JOIN, INNER JOIN and CROSS JOIN.
   */
  predicate InnerLike(op: JoinOperator)
  {
    op == Comma || op == TypedJoin(None) || op == TypedJoin(Some(Inner)) || op == TypedJoin(Some(Cross))
  }

  /** The name the query uses for a named table: its alias if it has one, else its name. */
  function UsedName(t: SelectTable): string
    requires t.Table?
  {
    match t.alias
    case Some(As(a)) => a
    case Some(Elided(a)) => a
    case None => t.name
  }

  predicate IsTableNamed(t: SelectTable, tableName: string)
  {
    t.Table? && t.name == tableName
  }

  /** The join is inner-like and joins the named table. */
  predicate JoinsTable(j: JoinedSelectTable, tableName: string)
  {
    InnerLike(j.operator) && IsTableNamed(j.table, tableName)
  }

  /** The used name of the first inner-like join of the table. */
  function JoinedUsedName(tableName: string, joins: seq<JoinedSelectTable>): (r: Option<string>)
    ensures r.None? <==> forall i :: 0 <= i < |joins| ==> !JoinsTable(joins[i], tableName)
    ensures r.Some? ==> exists i :: (0 <= i < |joins| && JoinsTable(joins[i], tableName)
      && r.value == UsedName(joins[i].table)
      && forall k :: 0 <= k < i ==> !JoinsTable(joins[k], tableName))
  {
    if |joins| == 0 then None
    else if JoinsTable(joins[0], tableName) then Some(UsedName(joins[0].table))
    else
      var r := JoinedUsedName(tableName, joins[1..]);
      assert forall i :: 1 <= i < |joins| ==> joins[i] == joins[1..][i - 1];
      assert r.Some? ==> exists i :: (1 <= i < |joins| && JoinsTable(joins[i], tableName)
        && r.value == UsedName(joins[i].table)
        && forall k :: 0 <= k < i ==> !JoinsTable(joins[k], tableName)) by {
        if r.Some? {
          var i :| 0 <= i < |joins[1..]| && JoinsTable(joins[1..][i], tableName)
            && r.value == UsedName(joins[1..][i].table)
            && forall k :: 0 <= k < i ==> !JoinsTable(joins[1..][k], tableName);
          assert forall k :: 0 <= k < i + 1 ==> !JoinsTable(joins[k], tableName);
        }
      }
      r
  }

  /**
   * `get_used_table_name`: the used name of the table as the main table of the FROM
   * clause, else as the first inner-like join; other joins are not searched.
   */
  function GetUsedTableName(tableName: string, from: FromClause): (r: Option<string>)
    ensures from.select.Some? && IsTableNamed(from.select.value, tableName) ==>
      r == Some(UsedName(from.select.value))
    ensures !(from.select.Some? && IsTableNamed(from.select.value, tableName)) ==>
      r == if from.joins.Some? then JoinedUsedName(tableName, from.joins.value) else None
    ensures r.None? <==>
      (from.select.None? || !IsTableNamed(from.select.value, tableName))
      && (from.joins.None? || forall i :: 0 <= i < |from.joins.value| ==> !JoinsTable(from.joins.value[i], tableName))
  {
    if from.select.Some? && IsTableNamed(from.select.value, tableName) then Some(UsedName(from.select.value))
    else if from.joins.Some? then JoinedUsedName(tableName, from.joins.value)
    else None
  }

  // ---------------------------------------------------------------------------
  // expr_matches_name, test_expr

  /** A bare column identifier always names the column; a qualified one only under the used name. */
  predicate ExprMatchesName(column: string, tableName: string, e: Expr)
  {
    match e
    case Id(name) => name == column
    case Qualified(qualifier, name) => qualifier == tableName && name == column
    case _ => false
  }

  predicate IsComparison(op: Operator)
  {
    op == Equals || op == NotEquals || op == Greater || op == GreaterEquals || op == Less || op == LessEquals
  }

  /** The OR of two verdicts: a verdict only when both sides reach the same one. */
  function Agree(left: Option<NullableResult>, right: Option<NullableResult>): (r: Option<NullableResult>)
    ensures r.Some? <==> left.Some? && left == right
    ensures r.Some? ==> r == left
  {
    match (left, right)
    case (Some(NotNull), Some(NotNull)) => Some(NotNull)
    case (Some(Null), Some(Null)) => Some(Null)
    case _ => None
  }

  /**
   * The verdict common to all the results, None when they differ; no results give None.
   */
  function Common(results: seq<Option<NullableResult>>): (r: Option<NullableResult>)
    ensures |results| == 0 ==> r.None?
    ensures |results| > 0 && (forall i :: 0 <= i < |results| ==> results[i] == results[0]) ==> r == results[0]
    ensures |results| > 0 && (exists i :: 0 <= i < |results| && results[i] != results[0]) ==> r.None?
  {
    if |results| == 0 then None
    else if forall i :: 0 <= i < |results| ==> results[i] == results[0] then results[0]
    else None
  }

  /**
   * `test_expr`: the arms in the order the source tries them. An expression that never
   * mentions the column reaches no verdict about it.
   */
  function TestExpr(column: string, tableName: string, e: Expr): (r: Option<NullableResult>)
    ensures r.Some? ==> Mentions(column, tableName, e)
    decreases e
  {
    match e
    case Binary(left, op, right) =>
      if IsComparison(op) && (ExprMatchesName(column, tableName, left) || ExprMatchesName(column, tableName, right)) then
        Some(NotNull)
      else if op == Is && right == NullLiteral && ExprMatchesName(column, tableName, left) then Some(Null)
      else if op == Is && left == NullLiteral && ExprMatchesName(column, tableName, right) then Some(Null)
      else if op == IsNot && right == NullLiteral && ExprMatchesName(column, tableName, left) then Some(NotNull)
      else if op == IsNot && left == NullLiteral && ExprMatchesName(column, tableName, right) then Some(NotNull)
      else if op == And then
        var l := TestExpr(column, tableName, left);
        if l.Some? then l else TestExpr(column, tableName, right)
      else if op == Or then
        Agree(TestExpr(column, tableName, left), TestExpr(column, tableName, right))
      else None
    case InList(lhs) =>
      if ExprMatchesName(column, tableName, lhs) then Some(NotNull) else None
    case Like(lhs, rhs) =>
      if ExprMatchesName(column, tableName, lhs) || ExprMatchesName(column, tableName, rhs) then Some(NotNull)
      else None
    case NotNullExpr(operand) =>
      if ExprMatchesName(column, tableName, operand) then Some(NotNull) else None
    case Parenthesized(exprs) =>
      var results := seq(|exprs|, i requires 0 <= i < |exprs| => TestExpr(column, tableName, exprs[i]));
      assert |exprs| > 0 ==> results[0] == TestExpr(column, tableName, exprs[0]);
      Common(results)
    case _ => None
  }

  // ---------------------------------------------------------------------------
  // is_column_nullable

  /** The verdict the ON constraint of an inner-like join reaches; None for every other join. */
  function OnVerdict(column: string, usedName: string, j: JoinedSelectTable): Option<NullableResult>
  {
    if InnerLike(j.operator) && j.constraint.Some? && j.constraint.value.On? then
      TestExpr(column, usedName, j.constraint.value.expr)
    else None
  }

  /** `find_map` over the joins: the verdict of the first join that reaches one. */
  function JoinVerdict(column: string, usedName: string, joins: seq<JoinedSelectTable>): (r: Option<NullableResult>)
    ensures r.None? <==> forall i :: 0 <= i < |joins| ==> OnVerdict(column, usedName, joins[i]).None?
    ensures r.Some? ==> exists i :: (0 <= i < |joins| && r == OnVerdict(column, usedName, joins[i])
      && forall k :: 0 <= k < i ==> OnVerdict(column, usedName, joins[k]).None?)
  {
    if |joins| == 0 then None
    else
      var here := OnVerdict(column, usedName, joins[0]);
      if here.Some? then here
      else
        var r := JoinVerdict(column, usedName, joins[1..]);
        assert forall i :: 1 <= i < |joins| ==> joins[i] == joins[1..][i - 1];
        assert r.Some? ==> exists i :: (1 <= i < |joins| && r == OnVerdict(column, usedName, joins[i])
          && forall k :: 0 <= k < i ==> OnVerdict(column, usedName, joins[k]).None?) by {
          if r.Some? {
            var i :| 0 <= i < |joins[1..]| && r == OnVerdict(column, usedName, joins[1..][i])
              && forall k :: 0 <= k < i ==> OnVerdict(column, usedName, joins[1..][k]).None?;
            assert forall k :: 0 <= k < i + 1 ==> OnVerdict(column, usedName, joins[k]).None?;
          }
        }
        r
  }

  /**
   * `is_column_nullable`: None unless the statement is a SELECT with a FROM clause naming
   * the table; then the WHERE verdict if there is one, else the first join verdict.
   */
  function IsColumnNullable(column: string, tableName: string, parsed: Option<Statement>): (r: Option<NullableResult>)
    ensures r.Some? ==>
      && parsed.Some? && parsed.value.Select? && parsed.value.from.Some?
      && GetUsedTableName(tableName, parsed.value.from.value).Some?
  {
    if parsed.None? || !parsed.value.Select? || parsed.value.from.None? then None
    else
      var from := parsed.value.from.value;
      var usedName := GetUsedTableName(tableName, from);
      if usedName.None? then None
      else
        var whereVerdict := if parsed.value.whereClause.Some? then
            TestExpr(column, usedName.value, parsed.value.whereClause.value)
          else None;
        if whereVerdict.Some? then whereVerdict
        else if from.joins.Some? then JoinVerdict(column, usedName.value, from.joins.value)
        else None
  }

  // ---------------------------------------------------------------------------
  // What the analysis promises

  /** A comparison with the column on either side forces NOT NULL. */
  lemma ComparisonForcesNotNull(column: string, tableName: string, left: Expr, op: Operator, right: Expr)
    requires IsComparison(op)
    requires ExprMatchesName(column, tableName, left) || ExprMatchesName(column, tableName, right)
    ensures TestExpr(column, tableName, Binary(left, op, right)) == Some(NotNull)
  {
  }

  /** `col IS NULL` and `NULL IS col` force NULL; `col IS NOT NULL` and `NULL IS NOT col` force NOT NULL. */
  lemma IsNullForms(column: string, tableName: string, c: Expr)
    requires ExprMatchesName(column, tableName, c)
    ensures TestExpr(column, tableName, Binary(c, Is, NullLiteral)) == Some(Null)
    ensures TestExpr(column, tableName, Binary(NullLiteral, Is, c)) == Some(Null)
    ensures TestExpr(column, tableName, Binary(c, IsNot, NullLiteral)) == Some(NotNull)
    ensures TestExpr(column, tableName, Binary(NullLiteral, IsNot, c)) == Some(NotNull)
    ensures TestExpr(column, tableName, NotNullExpr(c)) == Some(NotNull)
  {
  }

  /** IN lists test their left side only; LIKE tests both sides. */
  lemma ListAndPatternForms(column: string, tableName: string, lhs: Expr, rhs: Expr)
    ensures TestExpr(column, tableName, InList(lhs)) ==
      if ExprMatchesName(column, tableName, lhs) then Some(NotNull) else None
    ensures TestExpr(column, tableName, Like(lhs, rhs)) ==
      if ExprMatchesName(column, tableName, lhs) || ExprMatchesName(column, tableName, rhs) then Some(NotNull) else None
  {
  }

  /**
   * AND takes the left verdict if there is one, else the right; OR only the verdict both
   * sides agree on.
   */
  lemma Combinators(column: string, tableName: string, left: Expr, right: Expr)
    ensures var l := TestExpr(column, tableName, left);
      var r := TestExpr(column, tableName, right);
      && TestExpr(column, tableName, Binary(left, And, right)) == (if l.Some? then l else r)
      && TestExpr(column, tableName, Binary(left, Or, right)) == (if l.Some? && l == r then l else None)
  {
  }

  /** A parenthesised list gives the verdict all its elements share; `()` gives none. */
  lemma ParenthesizedForms(column: string, tableName: string, exprs: seq<Expr>)
    ensures |exprs| == 0 ==> TestExpr(column, tableName, Parenthesized(exprs)).None?
    ensures |exprs| > 0 && (forall i :: 0 <= i < |exprs| ==>
        TestExpr(column, tableName, exprs[i]) == TestExpr(column, tableName, exprs[0])) ==>
      TestExpr(column, tableName, Parenthesized(exprs)) == TestExpr(column, tableName, exprs[0])
  {
    var results := seq(|exprs|, i requires 0 <= i < |exprs| => TestExpr(column, tableName, exprs[i]));
    assert forall i :: 0 <= i < |exprs| ==> results[i] == TestExpr(column, tableName, exprs[i]);
  }

  /** The column occurs in the expression as a name the analysis recognises. */
  predicate Mentions(column: string, tableName: string, e: Expr)
    decreases e
  {
    ExprMatchesName(column, tableName, e) ||
    match e
    case Binary(left, _, right) => Mentions(column, tableName, left) || Mentions(column, tableName, right)
    case InList(lhs) => Mentions(column, tableName, lhs)
    case Like(lhs, rhs) => Mentions(column, tableName, lhs) || Mentions(column, tableName, rhs)
    case NotNullExpr(operand) => Mentions(column, tableName, operand)
    case Parenthesized(exprs) => exists i :: 0 <= i < |exprs| && Mentions(column, tableName, exprs[i])
    case _ => false
  }

  /** `foo.id` does not name the column once the table is used under the alias `f`. */
  lemma QualifierMustBeUsedName()
    ensures IsColumnNullable("id", "foo",
      Some(Select(Some(FromClause(Some(Table("foo", Some(As("f")))), None)),
        Some(Binary(Qualified("foo", "id"), IsNot, NullLiteral))))) == None
    ensures IsColumnNullable("id", "foo",
      Some(Select(Some(FromClause(Some(Table("foo", Some(As("f")))), None)),
        Some(Binary(Qualified("f", "id"), IsNot, NullLiteral))))) == Some(NotNull)
  {
  }

  /**
   * A verdict from WHERE wins; when WHERE reaches none (or is absent), the verdict is the
   * one of the first inner-like ON constraint that reaches one, and None without joins.
   */
  lemma WhereThenJoins(column: string, tableName: string, from: FromClause, whereClause: Option<Expr>)
    requires GetUsedTableName(tableName, from).Some?
    ensures var used := GetUsedTableName(tableName, from).value;
      var r := IsColumnNullable(column, tableName, Some(Select(Some(from), whereClause)));
      && (whereClause.Some? && TestExpr(column, used, whereClause.value).Some? ==>
            r == TestExpr(column, used, whereClause.value))
      && (whereClause.None? || TestExpr(column, used, whereClause.value).None? ==>
            r == if from.joins.Some? then JoinVerdict(column, used, from.joins.value) else None)
  {
  }

  /** A LEFT (or other outer) join is not searched for the table. */
  lemma OuterJoinNotSearched(tableName: string, alias: Option<Alias>, constraint: Option<JoinConstraint>)
    ensures GetUsedTableName(tableName,
      FromClause(Some(OtherTable), Some([JoinedSelectTable(TypedJoin(Some(OtherJoinType)), Table(tableName, alias), constraint)])))
      == None
  {
  }
}
