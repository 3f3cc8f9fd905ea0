/**
 The parsed protobuf definition the documentation is built from, as the
 external parser delivers it. Every element kind the builder does not look at
 is folded into an `Other…` variant that carries only the name of its kind.
 */
module Proto {
  import opened Wrappers

  /** A comment attached to an element: its raw source lines. */
  datatype Comment = Comment(lines: seq<string>)

  /** An `rpc` declaration inside a service. */
  datatype Rpc = Rpc(name: string, comment: Option<Comment>, requestType: string, returnsType: string)

  datatype ServiceElement =
    | RpcElement(rpc: Rpc)
    | OtherServiceElement(kind: string)   // options, comments, streams, ...

  datatype Service = Service(name: string, comment: Option<Comment>, elements: seq<ServiceElement>)

  /** A plain message field: `[repeated] <type> <name> = <sequence>;`. */
  datatype NormalField = NormalField(
    name: string,
    comment: Option<Comment>,
    fieldType: string,
    repeated: bool,
    sequence: int)

  datatype MessageElement =
    | NormalFieldElement(field: NormalField)
    | OtherMessageElement(kind: string)   // map fields, oneofs, nested messages and enums, reserved, ...

  datatype Message = Message(name: string, comment: Option<Comment>, elements: seq<MessageElement>)

  /** An enum constant: `<name> = <integer>;`. */
  datatype EnumField = EnumField(name: string, comment: Option<Comment>, integer: int)

  datatype EnumElement =
    | EnumFieldElement(field: EnumField)
    | OtherEnumElement(kind: string)      // options, reserved, ...

  datatype Enum = Enum(name: string, comment: Option<Comment>, elements: seq<EnumElement>)

  /** A top-level element of one parsed `.proto` file. */
  datatype Element =
    | Import(filename: string)
    | Package(name: string)
    | ServiceDecl(service: Service)
    | MessageDecl(message: Message)       // also `extend T { ... }`, which the parser delivers as a message
    | EnumDecl(enum: Enum)
    | OtherDecl(kind: string)             // syntax, options, top-level comments, ...

  /** One parsed `.proto` file. */
  datatype Definition = Definition(elements: seq<Element>)
}
