/** The flat documentation records handed to the template. */
module Records {

  /** Go's `uint8`. */
  type Uint8 = x: int | 0 <= x < 256

  /** Go's `uint8(x)` conversion: keeps the low eight bits, i.e. wraps modulo 256. */
  function ToUint8(x: int): (r: Uint8)
    ensures (x - r) % 256 == 0
  {
    x % 256
  }

  /** A value that already fits in eight bits survives the conversion unchanged. */
  lemma ToUint8InRange(x: int)
    requires 0 <= x < 256
    ensures ToUint8(x) == x
  {
  }

  /** A field of a message or an enum. `typeName` is the qualified type. */
  datatype FieldDoc = FieldDoc(
    fieldNumber: Uint8,
    name: string,
    description: string,
    typeName: string,
    isScalar: bool,
    isRepeated: bool)

  datatype MethodDoc = MethodDoc(name: string, description: string, input: string, output: string)

  datatype ServiceDoc = ServiceDoc(name: string, description: string, methods: seq<MethodDoc>)

  datatype MessageDoc = MessageDoc(name: string, description: string, fields: seq<FieldDoc>)

  datatype EnumDoc = EnumDoc(name: string, description: string, fields: seq<FieldDoc>)

  /** The three collections the traversal produces. */
  datatype Docs = Docs(services: seq<ServiceDoc>, messages: seq<MessageDoc>, enums: seq<EnumDoc>)
  {
    /** Collection-wise concatenation. */
    function Then(other: Docs): Docs
    {
      Docs(services + other.services, messages + other.messages, enums + other.enums)
    }
  }

  const NoDocs: Docs := Docs([], [], [])

  lemma ThenAssociative(a: Docs, b: Docs, c: Docs)
    ensures a.Then(b).Then(c) == a.Then(b.Then(c))
  {
  }

  lemma ThenNoDocs(a: Docs)
    ensures a.Then(NoDocs) == a && NoDocs.Then(a) == a
  {
  }
}
