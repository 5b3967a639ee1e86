/** The values the delegation middleware works on: remote result data,
    resolver paths, errors, GraphQL type and value nodes, variables, and the
    part of a remote schema that a selection path is resolved against. */
module StitchingTypes {
  import opened Common

  /** A value in a remote result's data tree. */
  datatype Value =
    | Null
    | Scalar(text: string)
    | List(items: seq<Value>)
    | Map(entries: Dict)

  /** One key/value pair of a dictionary. */
  datatype Entry = Entry(key: string, value: Value)

  /** An `IReadOnlyDictionary<string, object>` in enumeration order, so that
      `First()` is `d[0]`. */
  type Dict = seq<Entry>

  /** One segment of a resolver's `Path`: a field name or a list index. */
  datatype PathSegment = FieldName(name: string) | ListIndex(index: int)

  /** A resolver path from the root; a field's path always starts with a name. */
  type Path = seq<PathSegment>

  predicate IsFieldPath(p: Path) {
    |p| > 0 && p[0].FieldName?
  }

  /** One element of an error's path (`IReadOnlyList<object>`): a string, an
      `int`, or any other object (a `long`, say). */
  datatype PathElement = StringElement(s: string) | IntElement(i: int) | OtherElement

  /** `Path.ToList()`: names become strings, indices become ints. */
  function PathToList(p: Path): (r: seq<PathElement>)
    ensures |r| == |p|
    ensures forall i :: 0 <= i < |p| ==>
      r[i] == (match p[i] case FieldName(n) => StringElement(n) case ListIndex(x) => IntElement(x))
  {
    seq(|p|, i requires 0 <= i < |p| =>
      match p[i] case FieldName(n) => StringElement(n) case ListIndex(x) => IntElement(x))
  }

  /** An error code; the HTTP transport code is told apart from all others. */
  datatype ErrorCode = HttpRequestException | Code(name: string)

  /** A source location in the query document. */
  datatype Location = Location(line: int, column: int)

  /** A GraphQL error as `IError` carries it. */
  datatype Error = Error(
    message: string,
    code: Option<ErrorCode>,
    path: Option<seq<PathElement>>,
    locations: seq<Location>,
    extensions: map<string, Extension>,
    exception: Option<string>)

  /** An extension value of an error. */
  datatype Extension = RemoteError(error: Error) | Text(text: string)

  /** A GraphQL type reference in a document: `T`, `[T]` or `T!`. */
  datatype TypeNode =
    | NamedTypeNode(name: string)
    | ListTypeNode(elementType: TypeNode)
    | NonNullTypeNode(innerType: TypeNode)

  /** The named type at the core of a type reference. */
  function NamedTypeName(t: TypeNode): string {
    match t
    case NamedTypeNode(n) => n
    case ListTypeNode(e) => NamedTypeName(e)
    case NonNullTypeNode(i) => NamedTypeName(i)
  }

  /** A literal value node of a query document. */
  datatype ValueNode = NullValueNode | LiteralNode(text: string)

  /** A `Delegation.VariableValue`: name, declared type, value and default. */
  datatype VariableValue = VariableValue(
    name: string,
    typ: TypeNode,
    value: ValueNode,
    defaultValue: Option<ValueNode>)

  /** A `VariableDefinitionNode` without location and directives. */
  datatype VariableDefinition = VariableDefinition(
    name: string,
    typ: TypeNode,
    defaultValue: Option<ValueNode>)

  /** A `$scope:name` reference in a delegation path argument. */
  datatype ScopedVariable = ScopedVariable(scope: string, name: string)

  datatype ArgumentValue = ScopedVariableNode(variable: ScopedVariable) | PlainValue(node: ValueNode)

  datatype Argument = Argument(name: string, value: ArgumentValue)

  /** One field of a delegation selection path with its arguments. */
  datatype SelectionPathComponent = SelectionPathComponent(name: string, arguments: seq<Argument>)

  /** The kind of a named output type of the remote schema. */
  datatype TypeKind = ObjectKind | InterfaceKind | OtherKind

  /** An output field of the remote schema: its type and its argument types. */
  datatype OutputField = OutputField(typ: TypeNode, arguments: map<string, TypeNode>)

  /** A named type of the remote schema with the fields it declares. */
  datatype NamedType = NamedType(name: string, kind: TypeKind, fields: map<string, OutputField>)

  /** The remote schema's types by name. */
  type Schema = map<string, NamedType>
}
