/**
 * The TypeScript type syntax that the two typing rules read from the generic arguments
 * of `db.prepare<…>(…)`, reduced to the node kinds the rules distinguish, and a printer
 * that gives the source text of the nodes the rules' fixes produce.
 */
module TypeNodes {
  import opened Wrappers
  import opened Texts

  /**
   * The key of a property signature: an identifier (`{ id: … }`, and also the computed
   * `{ [k]: … }`, whose key node is the identifier `k`) or any other expression
   * (`{ "id": … }`, `{ 1: … }`, `{ [a.b]: … }`), kept with its source text and the
   * result of `ASTUtils.getStringIfConstant` on it.
   */
  datatype PropertyKey =
    | KeyIdentifier(name: string)
    | KeyExpression(raw: string, constant: Option<string>)

  /** A `TSTypeAnnotation`: its source text, which starts with the colon, and its type. */
  datatype Annotation = Annotation(text: string, typeNode: TypeNode)

  datatype TypeElement =
    | PropertySignature(key: PropertyKey, annotation: Option<Annotation>)
      /** method, call, construct and index signatures, which no rule inspects */
    | OtherElement(text: string)

  /** The name of a type reference: an identifier, or a qualified name such as `A.B`. */
  datatype TypeName = IdentifierName(name: string) | QualifiedName(text: string)

  datatype TypeNode =
    | UnknownKeyword
    | NullKeyword
    | NumberKeyword
    | StringKeyword
    | TypeReference(typeName: TypeName)
    | UnionType(types: seq<TypeNode>)
    | TupleType(elementTypes: seq<TypeNode>)
    | TypeLiteral(members: seq<TypeElement>)
      /** every other type (`any`, literal types, arrays, …), kept as its source text */
    | OtherType(text: string)

  /**
   * The name a property key stands for. For an identifier key this is its name; for any
   * other key it is the constant string value, if there is one. (`getStringIfConstant`
   * called on an identifier without a scope gives null, so an identifier key is matched
   * by its name only.)
   */
  function PropertyName(k: PropertyKey): Option<string>
  {
    match k
    case KeyIdentifier(name) => Some(name)
    case KeyExpression(_, constant) => constant
  }

  /** A character that a double-quoted string literal holds as itself. */
  predicate IsLiteralChar(c: char)
  {
    c != '"' && c != '\\' && c != '\n' && c != '\r'
  }

  /** Text that reads as itself between double quotes. */
  predicate IsPlainKeyText(s: string)
  {
    forall i :: 0 <= i < |s| ==> IsLiteralChar(s[i])
  }

  /**
   * The value of a key written as a double-quoted string literal with no escape sequence;
   * None for any other text (escapes are not decoded here).
   */
  function StringLiteralValue(raw: string): Option<string>
  {
    if 2 <= |raw| && raw[0] == '"' && raw[|raw| - 1] == '"' && IsPlainKeyText(raw[1..|raw| - 1]) then
      Some(raw[1..|raw| - 1])
    else None
  }

  /**
   * The key `"name"` that the fixes write, quoting the name without escaping it. It reads
   * back as the name exactly when the name holds no quote, backslash or line break; any
   * such character either ends the literal early or is read as part of an escape.
   */
  function QuotedKey(name: string): (k: PropertyKey)
    ensures k.KeyExpression? && k.raw == "\"" + name + "\""
    ensures PropertyName(k) == Some(name) <==> IsPlainKeyText(name)
  {
    var raw := "\"" + name + "\"";
    assert raw[1..|raw| - 1] == name;
    KeyExpression(raw, StringLiteralValue(raw))
  }

  function KeyText(k: PropertyKey): string
  {
    match k
    case KeyIdentifier(name) => name
    case KeyExpression(raw, _) => raw
  }

  function MemberText(m: TypeElement): string
  {
    match m
    case PropertySignature(key, annotation) =>
      KeyText(key) + (if annotation.Some? then annotation.value.text else "")
    case OtherElement(text) => text
  }

  /** Source text of a type node, written the way the fixes write it. */
  function TypeText(t: TypeNode): string
  {
    match t
    case UnknownKeyword => "unknown"
    case NullKeyword => "null"
    case NumberKeyword => "number"
    case StringKeyword => "string"
    case TypeReference(IdentifierName(name)) => name
    case TypeReference(QualifiedName(text)) => text
    case UnionType(types) =>
      Join(seq(|types|, i requires 0 <= i < |types| => TypeText(types[i])), " | ")
    case TupleType(elements) =>
      "[" + Join(seq(|elements|, i requires 0 <= i < |elements| => TypeText(elements[i])), ", ") + "]"
    case TypeLiteral(members) =>
      "{" + Join(seq(|members|, i requires 0 <= i < |members| => MemberText(members[i])), ", ") + "}"
    case OtherType(text) => text
  }
}
