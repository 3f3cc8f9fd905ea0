/**
 The records built for one service, message or enum: the three nested loops
 of the traversal, each of which keeps one element kind and drops the rest.
 */
module Containers {
  import opened Wrappers
  import opened Proto
  import opened Scalars
  import opened Names
  import opened Comments
  import opened Records
  import opened Filter

  function AsRpc(e: ServiceElement): Option<Rpc>
  {
    match e
    case RpcElement(rpc) => Some(rpc)
    case OtherServiceElement(_) => None
  }

  function AsNormalField(e: MessageElement): Option<NormalField>
  {
    match e
    case NormalFieldElement(f) => Some(f)
    case OtherMessageElement(_) => None
  }

  function AsEnumField(e: EnumElement): Option<EnumField>
  {
    match e
    case EnumFieldElement(f) => Some(f)
    case OtherEnumElement(_) => None
  }

  /** The record of one `rpc`; request and response types are qualified. */
  function MethodDocOf(text: Comment -> string, pkg: Option<string>, rpc: Rpc): (d: MethodDoc)
    ensures d.name == rpc.name
    ensures d.description == Describe(text, rpc.comment)
    ensures d.input == FullQualifiedName(pkg, rpc.requestType)
    ensures d.output == FullQualifiedName(pkg, rpc.returnsType)
    ensures pkg.Some? && pkg.value != "" ==>
      ('.' in d.input || IsScalarType(d.input)) && ('.' in d.output || IsScalarType(d.output))
  {
    NeverBareUnderPackage(pkg, rpc.requestType);
    NeverBareUnderPackage(pkg, rpc.returnsType);
    MethodDoc(
      rpc.name,
      Describe(text, rpc.comment),
      FullQualifiedName(pkg, rpc.requestType),
      FullQualifiedName(pkg, rpc.returnsType))
  }

  /** The record of one message field. */
  function MessageFieldDoc(text: Comment -> string, pkg: Option<string>, f: NormalField): (d: FieldDoc)
    ensures (f.sequence - d.fieldNumber) % 256 == 0
    ensures 0 <= f.sequence < 256 ==> d.fieldNumber == f.sequence
    ensures d.name == f.name && d.isRepeated == f.repeated
    ensures d.description == Describe(text, f.comment)
    ensures d.isScalar <==> f.fieldType in ScalarTypes
    ensures d.typeName == FullQualifiedName(pkg, f.fieldType)
    ensures d.isScalar ==> d.typeName == f.fieldType
    ensures d.typeName == f.fieldType || (pkg.Some? && d.typeName == pkg.value + "." + f.fieldType)
    ensures pkg.Some? && pkg.value != "" ==> '.' in d.typeName || d.isScalar
  {
    FieldDoc(
      ToUint8(f.sequence),
      f.name,
      Describe(text, f.comment),
      FullQualifiedName(pkg, f.fieldType),
      IsScalarType(f.fieldType),
      f.repeated)
  }

  /** The record of one enum constant; type, scalar and repeated keep their zero values. */
  function EnumFieldDoc(text: Comment -> string, f: EnumField): (d: FieldDoc)
    ensures (f.integer - d.fieldNumber) % 256 == 0
    ensures 0 <= f.integer < 256 ==> d.fieldNumber == f.integer
    ensures d.name == f.name
    ensures d.description == Describe(text, f.comment)
    ensures d.typeName == "" && !d.isScalar && !d.isRepeated
  {
    FieldDoc(ToUint8(f.integer), f.name, Describe(text, f.comment), "", false, false)
  }

  /** The methods of a service: one record per `rpc`, in declaration order, other kinds dropped. */
  function MethodDocs(text: Comment -> string, pkg: Option<string>, es: seq<ServiceElement>): (r: seq<MethodDoc>)
    ensures |r| == |Pick(es, AsRpc)|
    ensures forall i :: 0 <= i < |r| ==> r[i] == MethodDocOf(text, pkg, Pick(es, AsRpc)[i])
    decreases |es|
  {
    if es == [] then []
    else
      var init := es[..|es| - 1];
      assert es == init + [es[|es| - 1]];
      PickAppend(init, [es[|es| - 1]], AsRpc);
      var methods := MethodDocs(text, pkg, init);
      match es[|es| - 1]
      case RpcElement(rpc) => methods + [MethodDocOf(text, pkg, rpc)]
      case OtherServiceElement(_) => methods
  }

  /** The fields of a message: one record per plain field, in declaration order, other kinds dropped. */
  function MessageFieldDocs(text: Comment -> string, pkg: Option<string>, es: seq<MessageElement>): (r: seq<FieldDoc>)
    ensures |r| == |Pick(es, AsNormalField)|
    ensures forall i :: 0 <= i < |r| ==> r[i] == MessageFieldDoc(text, pkg, Pick(es, AsNormalField)[i])
    decreases |es|
  {
    if es == [] then []
    else
      var init := es[..|es| - 1];
      assert es == init + [es[|es| - 1]];
      PickAppend(init, [es[|es| - 1]], AsNormalField);
      var fields := MessageFieldDocs(text, pkg, init);
      match es[|es| - 1]
      case NormalFieldElement(f) => fields + [MessageFieldDoc(text, pkg, f)]
      case OtherMessageElement(_) => fields
  }

  /** The fields of an enum: one record per constant, in declaration order, other kinds dropped. */
  function EnumFieldDocs(text: Comment -> string, es: seq<EnumElement>): (r: seq<FieldDoc>)
    ensures |r| == |Pick(es, AsEnumField)|
    ensures forall i :: 0 <= i < |r| ==> r[i] == EnumFieldDoc(text, Pick(es, AsEnumField)[i])
    decreases |es|
  {
    if es == [] then []
    else
      var init := es[..|es| - 1];
      assert es == init + [es[|es| - 1]];
      PickAppend(init, [es[|es| - 1]], AsEnumField);
      var fields := EnumFieldDocs(text, init);
      match es[|es| - 1]
      case EnumFieldElement(f) => fields + [EnumFieldDoc(text, f)]
      case OtherEnumElement(_) => fields
  }

  /** The record of one service: its qualified name, its description and its methods. */
  function ServiceDocOf(text: Comment -> string, pkg: Option<string>, s: Service): (d: ServiceDoc)
    ensures d.name == FullQualifiedName(pkg, s.name)
    ensures d.description == Describe(text, s.comment)
    ensures d.methods == MethodDocs(text, pkg, s.elements)
    ensures |d.methods| == |Pick(s.elements, AsRpc)|
  {
    ServiceDoc(FullQualifiedName(pkg, s.name), Describe(text, s.comment), MethodDocs(text, pkg, s.elements))
  }

  /** The record of one message: its qualified name, its description and its plain fields. */
  function MessageDocOf(text: Comment -> string, pkg: Option<string>, m: Message): (d: MessageDoc)
    ensures d.name == FullQualifiedName(pkg, m.name)
    ensures d.description == Describe(text, m.comment)
    ensures d.fields == MessageFieldDocs(text, pkg, m.elements)
    ensures |d.fields| == |Pick(m.elements, AsNormalField)|
  {
    MessageDoc(FullQualifiedName(pkg, m.name), Describe(text, m.comment), MessageFieldDocs(text, pkg, m.elements))
  }

  /** The record of one enum: its qualified name, its description and its constants; only the name depends on the package. */
  function EnumDocOf(text: Comment -> string, pkg: Option<string>, e: Enum): (d: EnumDoc)
    ensures d.name == FullQualifiedName(pkg, e.name)
    ensures d.description == Describe(text, e.comment)
    ensures d.fields == EnumFieldDocs(text, e.elements)
    ensures |d.fields| == |Pick(e.elements, AsEnumField)|
  {
    EnumDoc(FullQualifiedName(pkg, e.name), Describe(text, e.comment), EnumFieldDocs(text, e.elements))
  }

  /**
   The methods of a service correspond one to one, in order, to its `rpc`
   elements: `idx` gives the position of each method's `rpc`.
   */
  lemma MethodsFollowDeclarations(text: Comment -> string, pkg: Option<string>, es: seq<ServiceElement>) returns (idx: seq<int>)
    ensures var r := MethodDocs(text, pkg, es);
      && |idx| == |r|
      && (forall k, l :: 0 <= k < l < |idx| ==> idx[k] < idx[l])
      && (forall k :: 0 <= k < |idx| ==>
            0 <= idx[k] < |es| && es[idx[k]].RpcElement? && r[k] == MethodDocOf(text, pkg, es[idx[k]].rpc))
      && (forall i :: 0 <= i < |es| && es[i].RpcElement? ==> i in idx)
  {
    idx := PickSelects(es, AsRpc);
    assert forall i :: 0 <= i < |es| ==> (es[i].RpcElement? <==> AsRpc(es[i]).Some?);
  }

  /** The fields of a message correspond one to one, in order, to its plain fields. */
  lemma MessageFieldsFollowDeclarations(text: Comment -> string, pkg: Option<string>, es: seq<MessageElement>) returns (idx: seq<int>)
    ensures var r := MessageFieldDocs(text, pkg, es);
      && |idx| == |r|
      && (forall k, l :: 0 <= k < l < |idx| ==> idx[k] < idx[l])
      && (forall k :: 0 <= k < |idx| ==>
            0 <= idx[k] < |es| && es[idx[k]].NormalFieldElement? && r[k] == MessageFieldDoc(text, pkg, es[idx[k]].field))
      && (forall i :: 0 <= i < |es| && es[i].NormalFieldElement? ==> i in idx)
  {
    idx := PickSelects(es, AsNormalField);
    assert forall i :: 0 <= i < |es| ==> (es[i].NormalFieldElement? <==> AsNormalField(es[i]).Some?);
  }

  /** The fields of an enum correspond one to one, in order, to its constants. */
  lemma EnumFieldsFollowDeclarations(text: Comment -> string, es: seq<EnumElement>) returns (idx: seq<int>)
    ensures var r := EnumFieldDocs(text, es);
      && |idx| == |r|
      && (forall k, l :: 0 <= k < l < |idx| ==> idx[k] < idx[l])
      && (forall k :: 0 <= k < |idx| ==>
            0 <= idx[k] < |es| && es[idx[k]].EnumFieldElement? && r[k] == EnumFieldDoc(text, es[idx[k]].field))
      && (forall i :: 0 <= i < |es| && es[i].EnumFieldElement? ==> i in idx)
  {
    idx := PickSelects(es, AsEnumField);
    assert forall i :: 0 <= i < |es| ==> (es[i].EnumFieldElement? <==> AsEnumField(es[i]).Some?);
  }
}
