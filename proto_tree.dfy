/**
 * The syntax tree the schema parser hands to the documentation builder,
 * reduced to what the builder reads. Declarations the builder ignores
 * (syntax, imports, options, map and oneof fields, reserved ranges, ...)
 * are all `OtherDecl`.
 */
module ProtoTree {
  import opened Wrappers

  /** A comment block, as the lines the parser returns for it. */
  datatype Comment = Comment(lines: seq<string>)

  /** The request or the response side of an rpc: a message type name and a stream flag. */
  datatype RpcMessage = RpcMessage(messageType: string, isStream: bool)

  datatype Rpc = Rpc(
    rpcName: string,
    comments: seq<Comment>,
    inlineComment: Option<Comment>,
    request: RpcMessage,
    response: RpcMessage)

  /** An element of a service body: an rpc, or anything else (an option, an empty statement). */
  datatype ServiceElement = RpcElement(rpc: Rpc) | OtherServiceElement

  /** An element of an enum body: a constant, or anything else (an option, a reserved range). */
  datatype EnumElement =
    | EnumFieldElement(ident: string, number: string, comments: seq<Comment>, inlineComment: Option<Comment>)
    | OtherEnumElement

  /** An element of the file body or of a message body. */
  datatype Visitee =
    | PackageDecl(packageName: string)
    | ServiceDecl(serviceName: string, comments: seq<Comment>, serviceBody: seq<ServiceElement>)
    | MessageDecl(messageName: string, comments: seq<Comment>, messageBody: seq<Visitee>)
    | EnumDecl(enumName: string, comments: seq<Comment>, enumBody: seq<EnumElement>)
    | FieldDecl(fieldName: string, fieldType: string, isRepeated: bool, comments: seq<Comment>, inlineComment: Option<Comment>)
    | OtherDecl
}
