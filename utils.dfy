/**
 * The call-site helpers of src/utils.ts: the dotted name of the database expression
 * (`stringifyNode`), and the query text of the argument of `prepare` (`getQueryValue`),
 * which accepts template literals whose placeholders are written
 * `xs.map(() => "?").join(",")`. The static evaluation and the scope lookup of
 * typescript-eslint are not part of this model; they are the oracles of `Env`.
 */
module CallSite {
  import opened Wrappers
  import opened Texts

  /** The JavaScript values a static evaluation can produce, as far as the helpers care. */
  datatype JsValue = StringValue(s: string) | OtherValue

  /** The expression forms the helpers distinguish; `OtherNode` covers the rest. */
  datatype JsNode =
    | Identifier(name: string)
    | PrivateIdentifier(name: string)
    | MemberExpression(obj: JsNode, property: JsNode, computed: bool)
      /** the cooked text of each quasi, and the embedded expressions */
    | TemplateLiteral(quasis: seq<string>, expressions: seq<JsNode>)
    | CallExpression(callee: JsNode, arguments: seq<JsNode>, optional: bool)
    | ArrowFunction(body: JsNode)
    | StringLiteral(value: string)
    | OtherNode

  /**
   * What the helpers ask typescript-eslint: `getStaticValue` in the scope of the call,
   * `getStaticValue` without a scope, and, for an identifier, the initializer of its
   * variable when it has exactly one definition, a `const` declaration of that identifier
   * with an initializer.
   */
  datatype Env = Env(
    staticValue: JsNode -> Option<JsValue>,
    unscopedStaticValue: JsNode -> Option<JsValue>,
    constInitializer: string -> Option<JsNode>)

  // ---------------------------------------------------------------------------
  // stringifyNode

  /**
   * `stringifyNode`: identifiers and member expressions of them, dotted; anything else
   * (`this`, calls, private names) is null, so a name exists exactly for identifier chains.
   */
  function StringifyNode(node: JsNode): (r: Option<string>)
    ensures r.Some? <==> IsNameChain(node)
  {
    match node
    case Identifier(name) => Some(name)
    case MemberExpression(obj, property, _) =>
      var objectName := StringifyNode(obj);
      var propertyName := StringifyNode(property);
      if objectName.None? || propertyName.None? then None
      else Some(objectName.value + "." + propertyName.value)
    case _ => None
  }

  /** `a.b.c` as the left-nested member expressions a parser builds for it. */
  function MemberChain(names: seq<string>): JsNode
    requires |names| > 0
  {
    if |names| == 1 then Identifier(names[0])
    else MemberExpression(MemberChain(names[..|names| - 1]), Identifier(names[|names| - 1]), false)
  }

  /** A chain of identifiers is rendered as its names joined by dots. */
  lemma {:induction false} StringifyMemberChain(names: seq<string>)
    requires |names| > 0
    ensures StringifyNode(MemberChain(names)) == Some(Join(names, "."))
  {
    if |names| > 1 {
      var init := names[..|names| - 1];
      StringifyMemberChain(init);
      JoinSnoc(init, names[|names| - 1], ".");
      assert init + [names[|names| - 1]] == names;
    }
  }

  /** `nested.db.users` is rendered as written. */
  lemma NestedMemberName()
    ensures StringifyNode(MemberChain(["nested", "db", "users"])) == Some("nested.db.users")
  {
    StringifyMemberChain(["nested", "db", "users"]);
    assert ["nested", "db", "users"][1..] == ["db", "users"];
    assert ["db", "users"][1..] == ["users"];
    assert ["users"][0] == "users";
    assert Join(["db", "users"], ".") == "db" + "." + "users" == "db.users";
    assert Join(["nested", "db", "users"], ".") == "nested" + "." + "db.users" == "nested.db.users";
  }

  /** Nodes built from identifiers by member access only. */
  predicate IsNameChain(node: JsNode)
  {
    match node
    case Identifier(_) => true
    case MemberExpression(obj, property, _) => IsNameChain(obj) && IsNameChain(property)
    case _ => false
  }

  // ---------------------------------------------------------------------------
  // isVariableParameterExpression

  /** `ASTUtils.getPropertyName` of a member expression. */
  function PropertyNameOf(member: JsNode, env: Env): Option<string>
    requires member.MemberExpression?
  {
    if !member.computed then
      if member.property.Identifier? then Some(member.property.name) else None
    else
      var v := env.unscopedStaticValue(member.property);
      if v.Some? && v.value.StringValue? then Some(v.value.s) else None
  }

  /** The static value of the node is a string that trims to `expected`. */
  predicate TrimsTo(node: JsNode, env: Env, expected: string)
  {
    var v := env.unscopedStaticValue(node);
    v.Some? && v.value.StringValue? && Trim(v.value.s) == expected
  }

  /**
   * `isVariableParameterExpression`: a non-optional call of `join` with a first argument
   * that trims to ",", on a non-optional call of `map` whose first argument is an arrow
   * function whose body trims to "?".
   */
  predicate IsVariableParameterExpression(expr: JsNode, env: Env)
  {
    && expr.CallExpression? && !expr.optional
    && expr.callee.MemberExpression?
    && |expr.arguments| > 0
    && PropertyNameOf(expr.callee, env) == Some("join")
    && TrimsTo(expr.arguments[0], env, ",")
    && expr.callee.obj.CallExpression? && !expr.callee.obj.optional
    && var mapCall := expr.callee.obj;
    && mapCall.callee.MemberExpression?
    && PropertyNameOf(mapCall.callee, env) == Some("map")
    && |mapCall.arguments| > 0
    && mapCall.arguments[0].ArrowFunction?
    && TrimsTo(mapCall.arguments[0].body, env, "?")
  }

  /** `receiver.map(() => mapBody).join(separator)`, written with literals. */
  function MapJoin(receiver: JsNode, mapBody: string, separator: seq<JsNode>, optionalJoin: bool): JsNode
  {
    CallExpression(
      MemberExpression(
        CallExpression(MemberExpression(receiver, Identifier("map"), false), [ArrowFunction(StringLiteral(mapBody))], false),
        Identifier("join"), false),
      separator, optionalJoin)
  }

  /** The static evaluation reads string literals as their values. */
  ghost predicate EvaluatesLiterals(env: Env)
  {
    forall s :: env.unscopedStaticValue(StringLiteral(s)) == Some(StringValue(s))
  }

  /**
   * `ids.map(() => body).join(separator)` with string literals is recognised exactly when
   * the separator trims to "," and the body trims to "?".
   */
  lemma RecognisesMapJoin(receiver: JsNode, env: Env, body: string, separator: string)
    requires EvaluatesLiterals(env)
    ensures IsVariableParameterExpression(MapJoin(receiver, body, [StringLiteral(separator)], false), env)
      <==> Trim(separator) == "," && Trim(body) == "?"
  {
    assert env.unscopedStaticValue(StringLiteral(separator)) == Some(StringValue(separator));
    assert env.unscopedStaticValue(StringLiteral(body)) == Some(StringValue(body));
  }

  /** `ids.map(() => " ? ").join(" , ")`: padding around the placeholder and the comma is trimmed. */
  lemma PaddedMapJoinRecognised(receiver: JsNode, env: Env)
    requires EvaluatesLiterals(env)
    ensures IsVariableParameterExpression(MapJoin(receiver, [' ', '?', ' '], [StringLiteral([' ', ',', ' '])], false), env)
  {
    PaddedCharTrims(',');
    PaddedCharTrims('?');
    RecognisesMapJoin(receiver, env, [' ', '?', ' '], [' ', ',', ' ']);
  }

  /** One character between two spaces trims to that character. */
  lemma PaddedCharTrims(c: char)
    requires !IsJsSpace(c)
    ensures Trim([' ', c, ' ']) == [c]
  {
    var pad := [' '];
    assert IsJsSpace(pad[0]);
    TrimRemovesPadding(pad, [c], pad);
    assert pad + [c] + pad == [' ', c, ' '];
  }

  /** A join without a separator argument, or called with `?.`, is not recognised. */
  lemma RejectsIncompleteMapJoin(receiver: JsNode, env: Env)
    ensures !IsVariableParameterExpression(MapJoin(receiver, "?", [], false), env)
    ensures !IsVariableParameterExpression(MapJoin(receiver, "?", [StringLiteral(",")], true), env)
  {
  }

  // ---------------------------------------------------------------------------
  // getQueryValue

  /**
   * `getQueryValue`: the static value if there is one; for a template literal of
   * placeholder lists, its quasis joined by "?"; for an identifier, the value of its
   * const initializer. A chain of const initializers longer than `fuel` gives None.
   */
  function GetQueryValue(arg: JsNode, env: Env, fuel: nat): (r: Option<JsValue>)
    ensures env.staticValue(arg).Some? ==> r == env.staticValue(arg)
    ensures env.staticValue(arg).None? && !arg.TemplateLiteral? && !arg.Identifier? ==> r.None?
    decreases fuel
  {
    var value := env.staticValue(arg);
    if value.Some? then value
    else if arg.TemplateLiteral? then
      if forall i :: 0 <= i < |arg.expressions| ==> IsVariableParameterExpression(arg.expressions[i], env) then
        Some(StringValue(Join(arg.quasis, "?")))
      else None
    else if arg.Identifier? then
      var init := env.constInitializer(arg.name);
      if init.Some? && fuel > 0 then GetQueryValue(init.value, env, fuel - 1) else None
    else None
  }

  /**
   * For an accepted template literal the text has exactly one inserted "?" per embedded
   * expression beside the ones its quasis hold.
   */
  lemma TemplatePlaceholders(quasis: seq<string>, expressions: seq<JsNode>, env: Env, fuel: nat)
    requires |quasis| == |expressions| + 1
    requires env.staticValue(TemplateLiteral(quasis, expressions)).None?
    requires forall i :: 0 <= i < |expressions| ==> IsVariableParameterExpression(expressions[i], env)
    ensures var v := GetQueryValue(TemplateLiteral(quasis, expressions), env, fuel);
      v.Some? && v.value.StringValue?
      && Occurrences(v.value.s, '?') == OccurrencesIn(quasis, '?') + |expressions|
  {
    JoinInsertsSeparators(quasis, '?');
  }

  /** A template literal with an embedded expression that is not a placeholder list gives nothing. */
  lemma TemplateRejected(quasis: seq<string>, expressions: seq<JsNode>, env: Env, fuel: nat, i: nat)
    requires env.staticValue(TemplateLiteral(quasis, expressions)).None?
    requires i < |expressions| && !IsVariableParameterExpression(expressions[i], env)
    ensures GetQueryValue(TemplateLiteral(quasis, expressions), env, fuel).None?
  {
  }

  /** An identifier is followed only through a const initializer. */
  lemma IdentifierFollowsConst(name: string, env: Env, fuel: nat)
    requires env.staticValue(Identifier(name)).None?
    ensures env.constInitializer(name).None? ==> GetQueryValue(Identifier(name), env, fuel).None?
    ensures env.constInitializer(name).Some? && fuel > 0 ==>
      GetQueryValue(Identifier(name), env, fuel) == GetQueryValue(env.constInitializer(name).value, env, fuel - 1)
  {
  }
}
