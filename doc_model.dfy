/**
 * The documentation model of one proto file: services with their endpoints,
 * and the standalone objects and enums. Fields keep their declared type name
 * unresolved; resolution happens against the enum and object catalogs when
 * the documentation is rendered.
 */
module DocModel {

  /** How the two sides of an rpc stream. */
  datatype RPCType = Unary | ServerStreaming | ClientStreaming | BidirectionalStreaming

  /** RPCType.String: the label printed for each streaming kind. */
  function RPCTypeString(t: RPCType): (r: string)
    ensures r != "unknown"
    ensures r == "unary" <==> t == Unary
  {
    match t
    case Unary => "unary"
    case ClientStreaming => "client-streaming"
    case ServerStreaming => "server-streaming"
    case BidirectionalStreaming => "bidirectional-streaming"
  }

  /** Different streaming kinds are printed differently. */
  lemma RPCTypeStringInjective(a: RPCType, b: RPCType)
    ensures RPCTypeString(a) == RPCTypeString(b) ==> a == b
  {
  }

  /** A field of a request, a response or an object; `enclosing` is the qualified name of its message. */
  datatype Field = Field(comment: string, name: string, typ: string, repeat: bool, enclosing: string)

  datatype Request = Request(params: seq<Field>, typ: string)

  datatype Response = Response(params: seq<Field>, typ: string)

  datatype Endpoint = Endpoint(
    packageName: string,
    serviceName: string,
    methodName: string,
    urlPath: string,
    httpMethod: string,
    comment: string,
    typ: RPCType,
    req: Request,
    res: Response)

  datatype Service = Service(comment: string, packageName: string, serviceName: string, infs: seq<Endpoint>)

  /** A message shown on its own; `name` is qualified by the enclosing messages. */
  datatype Object = Object(comment: string, name: string, attrs: seq<Field>)

  datatype EnumField = EnumField(comment: string, name: string, val: string, enclosing: string)

  datatype Enum = Enum(comment: string, name: string, constants: seq<EnumField>)

  /** Why building the model stops: an rpc names a message the file does not declare at top level. */
  datatype BuildError = MissingMessage(messageType: string)
}
