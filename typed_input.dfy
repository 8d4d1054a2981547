/**
 * The `typed-input` rule (src/rules/typed-input.ts): compares the first generic argument of
 * `db.prepare<Input, …>(query)` with the bind parameters of the query, described by their
 * number and their distinct names, and computes the replacement declaration when they
 * disagree.
 */
module TypedInput {
  import opened Wrappers
  import opened Texts
  import opened TypeNodes

  /** `QueryInput`: the number of bind slots and the distinct parameter names. */
  datatype QueryInput = QueryInput(count: nat, names: seq<string>)

  // ---------------------------------------------------------------------------
  // queryInputToText

  /** The entry written for a name: the user's annotation text if they declared one. */
  function EntryText(name: string, userTypes: map<string, string>): string
  {
    "\"" + name + "\"" + (if name in userTypes then userTypes[name] else ": unknown")
  }

  function ObjectText(names: seq<string>, userTypes: map<string, string>): string
  {
    "{" + Join(seq(|names|, i requires 0 <= i < |names| => EntryText(names[i], userTypes)), ", ") + "}"
  }

  /**
   * `queryInputToText`, with an empty map standing for an absent one. In the mixed case
   * `new Array(count - names.length)` throws a RangeError when there are more names than
   * slots; that outcome is None.
   */
  function QueryInputToText(q: QueryInput, userTypes: map<string, string>): (r: Option<string>)
    ensures r.None? <==> 0 < q.count < |q.names|
  {
    if q.count == 0 then Some("[]")
    else if |q.names| == 0 then Some("[" + Join(Repeat("unknown", q.count), ", ") + "]")
    else if q.count == |q.names| then Some(ObjectText(q.names, userTypes))
    else if q.count < |q.names| then None
    else Some("[" + Join(Repeat("unknown", q.count - |q.names|), ", ") + ", " + ObjectText(q.names, userTypes) + "]")
  }

  // ---------------------------------------------------------------------------
  // isDeclaredTypeCorrect

  /** The member is a property signature whose key names `name`; its type is not looked at. */
  predicate Keys(m: TypeElement, name: string)
  {
    m.PropertySignature? && PropertyName(m.key) == Some(name)
  }

  /** `members.some(member => …)` for one name. */
  predicate HasMemberNamed(members: seq<TypeElement>, name: string)
  {
    exists j :: 0 <= j < |members| && Keys(members[j], name)
  }

  /** Every name has a member. */
  predicate CoversNames(members: seq<TypeElement>, names: seq<string>)
  {
    forall i :: 0 <= i < |names| ==> HasMemberNamed(members, names[i])
  }

  /** A type literal with one member per name, covering every name. */
  predicate IsObjectFor(t: TypeNode, names: seq<string>)
  {
    t.TypeLiteral? && |t.members| == |names| && CoversNames(t.members, names)
  }

  /**
   * The four cases of `isDeclaredTypeCorrect`. Since `count` is never negative the
   * mixed case is everything the first three leave, and the final fall-through of the
   * source is unreachable. In the mixed case the tuple's length is not checked, and a
   * negative number of anonymous slots makes the lookup of the object slot fail.
   */
  predicate DeclaredTypeCorrect(q: QueryInput, t: TypeNode)
    ensures DeclaredTypeCorrect(q, t) && |q.names| == 0 ==>
      t.TupleType? && |t.elementTypes| == q.count && forall i :: 0 <= i < q.count ==> t.elementTypes[i] == UnknownKeyword
    ensures DeclaredTypeCorrect(q, t) && q.count > 0 && |q.names| > 0 ==>
      IsObjectFor(t, q.names)
      || (t.TupleType? && exists k :: 0 <= k < |t.elementTypes| && IsObjectFor(t.elementTypes[k], q.names))
  {
    if q.count == 0 then t.TupleType? && |t.elementTypes| == 0
    else if q.count == |q.names| then IsObjectFor(t, q.names)
    else if |q.names| == 0 then
      t.TupleType? && |t.elementTypes| == q.count
      && forall i :: 0 <= i < |t.elementTypes| ==> t.elementTypes[i] == UnknownKeyword
    else
      var anonymous: int := q.count - |q.names|;
      && t.TupleType?
      && 0 <= anonymous < |t.elementTypes|
      && (forall i :: 0 <= i < anonymous ==> t.elementTypes[i] == UnknownKeyword)
      && IsObjectFor(t.elementTypes[anonymous], q.names)
  }

  /** `members.some(…)` as the loop it stands for. */
  method SomeMemberNamed(members: seq<TypeElement>, name: string) returns (found: bool)
    ensures found == HasMemberNamed(members, name)
  {
    for j := 0 to |members|
      invariant forall k :: 0 <= k < j ==> !Keys(members[k], name)
    {
      var member := members[j];
      if member.PropertySignature? && PropertyName(member.key) == Some(name) {
        return true;
      }
    }
    return false;
  }

  /** The loop over the names that looks each one up among the members. */
  method CoversAllNames(members: seq<TypeElement>, names: seq<string>) returns (covered: bool)
    ensures covered == CoversNames(members, names)
  {
    for i := 0 to |names|
      invariant forall k :: 0 <= k < i ==> HasMemberNamed(members, names[k])
    {
      var found := SomeMemberNamed(members, names[i]);
      if !found {
        return false;
      }
    }
    return true;
  }

  /** `isDeclaredTypeCorrect`: the case split with its loops and early returns. */
  method IsDeclaredTypeCorrect(q: QueryInput, inputParam: TypeNode) returns (correct: bool)
    ensures correct == DeclaredTypeCorrect(q, inputParam)
  {
    if q.count == 0 {
      if !inputParam.TupleType? || |inputParam.elementTypes| != 0 {
        return false;
      }
      return true;
    }
    if q.count == |q.names| {
      if !inputParam.TypeLiteral? || |inputParam.members| != q.count {
        return false;
      }
      correct := CoversAllNames(inputParam.members, q.names);
      return;
    }
    if |q.names| == 0 {
      if !inputParam.TupleType? || |inputParam.elementTypes| != q.count {
        return false;
      }
      for i := 0 to |inputParam.elementTypes|
        invariant forall k :: 0 <= k < i ==> inputParam.elementTypes[k] == UnknownKeyword
      {
        if inputParam.elementTypes[i] != UnknownKeyword {
          return false;
        }
      }
      return true;
    }
    if !inputParam.TupleType? {
      return false;
    }
    var elements := inputParam.elementTypes;
    var anonymousCount: int := q.count - |q.names|;
    var i := 0;
    while i < anonymousCount
      invariant 0 <= i && (anonymousCount >= 0 ==> i <= anonymousCount)
      invariant forall k :: 0 <= k < i ==> k < |elements| && elements[k] == UnknownKeyword
    {
      if i >= |elements| || elements[i] != UnknownKeyword {
        return false;
      }
      i := i + 1;
    }
    if anonymousCount < 0 || anonymousCount >= |elements| {
      return false;
    }
    var objectType := elements[anonymousCount];
    if !objectType.TypeLiteral? || |objectType.members| != |q.names| {
      return false;
    }
    correct := CoversAllNames(objectType.members, q.names);
  }

  // ---------------------------------------------------------------------------
  // userDeclaredTypes

  /** The members the user's types are read from: the literal's, or the first literal element's. */
  function InputMembers(t: TypeNode): Option<seq<TypeElement>>
  {
    if t.TypeLiteral? then Some(t.members)
    else if t.TupleType? then FirstLiteralMembers(t.elementTypes)
    else None
  }

  /** `elementTypes.find(element => element is a type literal)?.members`. */
  function FirstLiteralMembers(elements: seq<TypeNode>): (r: Option<seq<TypeElement>>)
    ensures r.Some? <==> exists i :: 0 <= i < |elements| && elements[i].TypeLiteral?
    ensures r.Some? ==> exists i :: (0 <= i < |elements| && elements[i].TypeLiteral? && r.value == elements[i].members
      && forall k :: 0 <= k < i ==> !elements[k].TypeLiteral?)
  {
    if |elements| == 0 then None
    else if elements[0].TypeLiteral? then Some(elements[0].members)
    else
      var r := FirstLiteralMembers(elements[1..]);
      assert forall i :: 1 <= i < |elements| ==> elements[i] == elements[1..][i - 1];
      r
  }

  /** The name a member contributes to the map: annotated property signatures with a non-empty name. */
  function DeclaredName(m: TypeElement): Option<string>
  {
    if m.PropertySignature? && m.annotation.Some? && PropertyName(m.key).Some? && PropertyName(m.key).value != ""
    then PropertyName(m.key) else None
  }

  /** The map after the loop has run over `members`: a later member overwrites an earlier one. */
  function UserDeclaredTypes(members: seq<TypeElement>): map<string, string>
  {
    if |members| == 0 then map[]
    else
      var before := UserDeclaredTypes(members[..|members| - 1]);
      var m := members[|members| - 1];
      var name := DeclaredName(m);
      if name.Some? then before[name.value := m.annotation.value.text] else before
  }

  /** The loop filling `userDeclaredTypes` with `set`. */
  method CollectUserDeclaredTypes(members: Option<seq<TypeElement>>) returns (userTypes: map<string, string>)
    ensures userTypes == if members.Some? then UserDeclaredTypes(members.value) else map[]
  {
    userTypes := map[];
    if members.None? {
      return;
    }
    var ms := members.value;
    for i := 0 to |ms|
      invariant userTypes == UserDeclaredTypes(ms[..i])
    {
      assert ms[..i + 1][..i] == ms[..i];
      var member := ms[i];
      if !member.PropertySignature? {
        continue;
      }
      if member.annotation.None? {
        continue;
      }
      var name := PropertyName(member.key);
      if name.None? || name.value == "" {
        continue;
      }
      userTypes := userTypes[name.value := member.annotation.value.text];
    }
    assert ms[..|ms|] == ms;
  }

  /**
   * A name is in the map exactly when some member declares it, and its text is that of
   * the last member that does.
   */
  lemma {:induction false} UserDeclaredTypesLastWins(members: seq<TypeElement>, name: string)
    ensures name in UserDeclaredTypes(members) <==>
      exists j :: 0 <= j < |members| && DeclaredName(members[j]) == Some(name)
    ensures name in UserDeclaredTypes(members) ==>
      exists j :: (0 <= j < |members| && DeclaredName(members[j]) == Some(name)
        && UserDeclaredTypes(members)[name] == members[j].annotation.value.text
        && forall k :: j < k < |members| ==> DeclaredName(members[k]) != Some(name))
  {
    if |members| > 0 {
      var n := |members|;
      var p := members[..n - 1];
      UserDeclaredTypesLastWins(p, name);
      assert forall j :: 0 <= j < n - 1 ==> members[j] == p[j];
      if DeclaredName(members[n - 1]) != Some(name) && name in UserDeclaredTypes(members) {
        var j :| 0 <= j < |p| && DeclaredName(p[j]) == Some(name)
          && UserDeclaredTypes(p)[name] == p[j].annotation.value.text
          && forall k :: j < k < |p| ==> DeclaredName(p[k]) != Some(name);
        assert forall k :: j < k < n ==> DeclaredName(members[k]) != Some(name);
      }
    }
  }

  // ---------------------------------------------------------------------------
  // The rule

  datatype InputMessage = MissingInputType | IncorrectInputType

  /** The edit a report proposes, with the text it writes. */
  datatype InputFix =
    | InsertAfterCallee(text: string)
    | ReplaceTypeArguments(text: string)
    | ReplaceInputParam(text: string)

  datatype InputReport = InputReport(message: InputMessage, fix: InputFix)

  /** The rule throws when the fix text cannot be built (more names than slots). */
  datatype InputError = RangeError

  /**
   * What the rule does for the inferred parameters (None when there is no inference) and
   * the call's generic arguments (None when the call has none).
   */
  function InputRule(q: Option<QueryInput>, typeArgs: Option<seq<TypeNode>>): (r: Result<Option<InputReport>, InputError>)
    ensures r == Success(None) <==>
      q.None? || (typeArgs.Some? && |typeArgs.value| > 0 && DeclaredTypeCorrect(q.value, typeArgs.value[0]))
    ensures r.Failure? <==>
      && q.Some? && 0 < q.value.count < |q.value.names|
      && !(typeArgs.Some? && |typeArgs.value| > 0 && DeclaredTypeCorrect(q.value, typeArgs.value[0]))
    ensures r.Success? && r.value.Some? ==>
      (r.value.value.message == MissingInputType <==> typeArgs.None? || |typeArgs.value| == 0)
  {
    if q.None? then Success(None)
    else if typeArgs.None? || |typeArgs.value| == 0 then
      var text := QueryInputToText(q.value, map[]);
      if text.None? then Failure(RangeError)
      else if typeArgs.None? then Success(Some(InputReport(MissingInputType, InsertAfterCallee("<" + text.value + ">"))))
      else Success(Some(InputReport(MissingInputType, ReplaceTypeArguments("<" + text.value + ">"))))
    else
      var inputParam := typeArgs.value[0];
      if DeclaredTypeCorrect(q.value, inputParam) then Success(None)
      else
        var text := QueryInputToText(q.value, UserTypesOf(InputMembers(inputParam)));
        if text.None? then Failure(RangeError)
        else Success(Some(InputReport(IncorrectInputType, ReplaceInputParam(text.value))))
  }

  function UserTypesOf(members: Option<seq<TypeElement>>): map<string, string>
  {
    if members.Some? then UserDeclaredTypes(members.value) else map[]
  }

  /** The rule's listener once the query text and the parameters are known. */
  method CheckInputType(q: Option<QueryInput>, typeArgs: Option<seq<TypeNode>>)
    returns (outcome: Result<Option<InputReport>, InputError>)
    ensures outcome == InputRule(q, typeArgs)
  {
    if q.None? {
      return Success(None);
    }
    var queryInput := q.value;
    if typeArgs.None? || |typeArgs.value| == 0 {
      var text := QueryInputToText(queryInput, map[]);
      if text.None? {
        return Failure(RangeError);
      }
      if typeArgs.Some? {
        return Success(Some(InputReport(MissingInputType, ReplaceTypeArguments("<" + text.value + ">"))));
      }
      return Success(Some(InputReport(MissingInputType, InsertAfterCallee("<" + text.value + ">"))));
    }
    var inputParam := typeArgs.value[0];
    var correct := IsDeclaredTypeCorrect(queryInput, inputParam);
    if correct {
      return Success(None);
    }
    var userDeclaredTypes := CollectUserDeclaredTypes(InputMembers(inputParam));
    var text := QueryInputToText(queryInput, userDeclaredTypes);
    if text.None? {
      return Failure(RangeError);
    }
    return Success(Some(InputReport(IncorrectInputType, ReplaceInputParam(text.value))));
  }

  // ---------------------------------------------------------------------------
  // Round trip

  /** The member written for a name, as the text `"name"<annotation>` parses. */
  function EntryMember(name: string, userTypes: map<string, string>): TypeElement
  {
    if name in userTypes then
      PropertySignature(QuotedKey(name), Some(Annotation(userTypes[name], OtherType(userTypes[name]))))
    else
      PropertySignature(QuotedKey(name), Some(Annotation(": unknown", UnknownKeyword)))
  }

  function ObjectNode(names: seq<string>, userTypes: map<string, string>): TypeNode
  {
    TypeLiteral(seq(|names|, i requires 0 <= i < |names| => EntryMember(names[i], userTypes)))
  }

  function Unknowns(n: nat): (r: seq<TypeNode>)
    ensures |r| == n && forall i :: 0 <= i < n ==> r[i] == UnknownKeyword
  {
    seq(n, i => UnknownKeyword)
  }

  /** The declaration the text `queryInputToText(q, userTypes)` parses to. */
  function InputFixNode(q: QueryInput, userTypes: map<string, string>): TypeNode
    requires q.count == 0 || q.count >= |q.names|
  {
    if q.count == 0 then TupleType([])
    else if |q.names| == 0 then TupleType(Unknowns(q.count))
    else if q.count == |q.names| then ObjectNode(q.names, userTypes)
    else TupleType(Unknowns(q.count - |q.names|) + [ObjectNode(q.names, userTypes)])
  }

  lemma ObjectNodeText(names: seq<string>, userTypes: map<string, string>)
    ensures TypeText(ObjectNode(names, userTypes)) == ObjectText(names, userTypes)
  {
    var node := ObjectNode(names, userTypes);
    var printed := seq(|node.members|, i requires 0 <= i < |node.members| => MemberText(node.members[i]));
    assert printed == seq(|names|, i requires 0 <= i < |names| => EntryText(names[i], userTypes));
  }

  lemma UnknownsText(n: nat)
    ensures var us := Unknowns(n);
      seq(|us|, i requires 0 <= i < |us| => TypeText(us[i])) == Repeat("unknown", n)
  {
  }

  /** Whenever the text can be built, it is the printed form of the fix node. */
  lemma {:induction false} InputFixNodeText(q: QueryInput, userTypes: map<string, string>)
    requires QueryInputToText(q, userTypes).Some?
    ensures TypeText(InputFixNode(q, userTypes)) == QueryInputToText(q, userTypes).value
  {
    if q.count == 0 {
    } else if |q.names| == 0 {
      UnknownsText(q.count);
    } else if q.count == |q.names| {
      ObjectNodeText(q.names, userTypes);
    } else {
      MixedTupleText(q.count - |q.names|, q.names, userTypes);
    }
  }

  lemma MixedTupleText(n: nat, names: seq<string>, userTypes: map<string, string>)
    requires n > 0
    ensures TypeText(TupleType(Unknowns(n) + [ObjectNode(names, userTypes)]))
      == "[" + Join(Repeat("unknown", n), ", ") + ", " + ObjectText(names, userTypes) + "]"
  {
    var obj := ObjectNode(names, userTypes);
    var elements := Unknowns(n) + [obj];
    var printed := seq(|elements|, i requires 0 <= i < |elements| => TypeText(elements[i]));
    UnknownsText(n);
    assert printed == Repeat("unknown", n) + [TypeText(obj)];
    JoinSnoc(Repeat("unknown", n), TypeText(obj), ", ");
    ObjectNodeText(names, userTypes);
  }

  /** Every name reads as itself between double quotes. */
  predicate PlainNames(names: seq<string>)
  {
    forall i :: 0 <= i < |names| ==> IsPlainKeyText(names[i])
  }

  /** The object the fix writes declares every name, when no name needs escaping. */
  lemma ObjectNodeCovers(names: seq<string>, userTypes: map<string, string>)
    requires PlainNames(names)
    ensures IsObjectFor(ObjectNode(names, userTypes), names)
  {
    var members := ObjectNode(names, userTypes).members;
    forall i | 0 <= i < |names|
      ensures HasMemberNamed(members, names[i])
    {
      assert Keys(members[i], names[i]);
    }
  }

  /**
   * For every parameter shape with no more names than slots, none of them needing
   * escaping, and every map of user types, the declaration the fix writes is accepted.
   */
  lemma {:induction false} InputFixNodeAccepted(q: QueryInput, userTypes: map<string, string>)
    requires q.count >= |q.names| && PlainNames(q.names)
    ensures QueryInputToText(q, userTypes).Some?
    ensures DeclaredTypeCorrect(q, InputFixNode(q, userTypes))
  {
    if q.count != 0 && |q.names| != 0 {
      ObjectNodeCovers(q.names, userTypes);
    }
  }

  /** The generic arguments after the rule's fix is applied, as nodes. */
  function FixedInputArguments(q: QueryInput, typeArgs: Option<seq<TypeNode>>): seq<TypeNode>
    requires q.count >= |q.names|
  {
    if typeArgs.None? || |typeArgs.value| == 0 then [InputFixNode(q, map[])]
    else typeArgs.value[0 := InputFixNode(q, UserTypesOf(InputMembers(typeArgs.value[0])))]
  }

  /**
   * Every report's fix writes the printed form of the new first argument, and applying
   * it gives a call the rule accepts.
   */
  lemma InputFixAccepted(q: QueryInput, typeArgs: Option<seq<TypeNode>>)
    requires q.count >= |q.names| && PlainNames(q.names)
    ensures InputRule(Some(q), typeArgs).Success?
    ensures InputRule(Some(q), Some(FixedInputArguments(q, typeArgs))) == Success(None)
    ensures var report := InputRule(Some(q), typeArgs).value;
      report.Some? ==>
        var node := FixedInputArguments(q, typeArgs)[0];
        match report.value.fix
        case InsertAfterCallee(text) => text == "<" + TypeText(node) + ">"
        case ReplaceTypeArguments(text) => text == "<" + TypeText(node) + ">"
        case ReplaceInputParam(text) => text == TypeText(node)
  {
    InputFixNodeAccepted(q, map[]);
    InputFixNodeText(q, map[]);
    if typeArgs.Some? && |typeArgs.value| > 0 {
      var userTypes := UserTypesOf(InputMembers(typeArgs.value[0]));
      InputFixNodeAccepted(q, userTypes);
      InputFixNodeText(q, userTypes);
    }
  }

  /** With more names than slots the rule throws unless there is nothing to report. */
  lemma MoreNamesThanSlotsThrows(q: QueryInput, typeArgs: Option<seq<TypeNode>>)
    requires 0 < q.count < |q.names|
    ensures InputRule(Some(q), typeArgs) == Failure(RangeError)
  {
  }
}
