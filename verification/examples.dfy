/** Worked instances of the general contracts, mirroring the unit tests of the Go package. */
module Examples {
  import opened Wrappers
  import opened Proto
  import opened Scalars
  import opened Names
  import opened Comments
  import opened Records
  import opened Containers
  import opened Traversal

  lemma ScalarExamples()
    ensures forall t :: t in ScalarTypes ==> IsScalarType(t)
    ensures !IsScalarType("Int32")
  {
    assert forall i :: 0 <= i < |ScalarTypes| ==> ScalarTypes[i] != "Int32";
  }

  lemma EmptyPackageExample(n: string)
    requires n == "MyMessage"
    ensures FullQualifiedName(Some(""), n) == "MyMessage"
    ensures FullQualifiedName(None, n) == "MyMessage"
  {
  }

  lemma MyMessageIsUserType(n: string)
    requires n == "MyMessage"
    ensures '.' !in n && !IsScalarType(n)
  {
    ScalarLength(n);
  }

  lemma QualifiedExample(p: string, n: string)
    requires p == "my.package" && n == "MyMessage"
    ensures FullQualifiedName(Some(p), n) == "my.package.MyMessage"
  {
    MyMessageIsUserType(n);
    assert p + "." + n == "my.package.MyMessage";
  }

  lemma ScalarExemptExample(p: string, n: string)
    requires p == "my.package" && n == "uint32"
    ensures FullQualifiedName(Some(p), n) == "uint32"
  {
    assert n == ScalarTypes[4];
  }

  lemma DottedExemptExample(p: string, n: string)
    requires p == "my.package" && n == "other.Type"
    ensures FullQualifiedName(Some(p), n) == "other.Type"
  {
    assert n[5] == '.';
  }

  lemma FieldNumberExamples()
    ensures ToUint8(7) == 7
    ensures ToUint8(300) == 44
    ensures ToUint8(-1) == 255
  {
  }

  lemma NoCommentExample(text: Comment -> string)
    ensures Describe(text, None) == ""
  {
  }

  /**
   A message declared before the `package` line is read without a package,
   and the package of the first file still qualifies the message of the second.
   */
  lemma PackageCarryOverExample(text: Comment -> string, a: Message, p: string, b: Message, c: Message)
    ensures var docs := GenerateDoc(text, [Definition([MessageDecl(a), Package(p), MessageDecl(b)]), Definition([MessageDecl(c)])]);
      && docs.messages == [MessageDocOf(text, None, a), MessageDocOf(text, Some(p), b), MessageDocOf(text, Some(p), c)]
      && docs.messages[0].name == a.name
      && docs.messages[2].name == FullQualifiedName(Some(p), c.name)
  {
    TwoFilesFlatten(a, p, b, c);
    CarryOverMessages(text, a, p, b, c);
  }

  lemma TwoFilesFlatten(a: Message, p: string, b: Message, c: Message)
    ensures Flatten([Definition([MessageDecl(a), Package(p), MessageDecl(b)]), Definition([MessageDecl(c)])])
      == [MessageDecl(a), Package(p), MessageDecl(b), MessageDecl(c)]
  {
    FlattenPair(Definition([MessageDecl(a), Package(p), MessageDecl(b)]), Definition([MessageDecl(c)]));
  }

  lemma CarryOverMessages(text: Comment -> string, a: Message, p: string, b: Message, c: Message)
    ensures Reference(text, None, [MessageDecl(a), Package(p), MessageDecl(b), MessageDecl(c)]).messages
      == [MessageDocOf(text, None, a), MessageDocOf(text, Some(p), b), MessageDocOf(text, Some(p), c)]
  {
    var pre := [MessageDecl(a)];
    var post := [MessageDecl(b), MessageDecl(c)];
    assert pre + [Package(p)] + post == [MessageDecl(a), Package(p), MessageDecl(b), MessageDecl(c)];
    PackageScopesForward(text, None, pre, p, post);
    var left := Reference(text, None, pre);
    var right := Reference(text, Some(p), post);
    assert Reference(text, None, pre + [Package(p)] + post).messages == left.messages + right.messages;
    TwoMessages(text, Some(p), b, c);
    ReferenceOne(text, None, MessageDecl(a));
    assert left.messages == [MessageDocOf(text, None, a)];
    PrependOne(MessageDocOf(text, None, a), MessageDocOf(text, Some(p), b), MessageDocOf(text, Some(p), c));
  }

  lemma PrependOne<T>(x: T, y: T, z: T)
    ensures [x] + [y, z] == [x, y, z]
  {
  }

  lemma JoinOne<T>(s: seq<T>, l: seq<T>, m: seq<T>, x: T, y: T)
    requires s == l + m && l == [x] && m == [y]
    ensures s == [x, y]
  {
  }

  lemma TwoMessages(text: Comment -> string, q: Option<string>, b: Message, c: Message)
    ensures Reference(text, q, [MessageDecl(b), MessageDecl(c)]).messages == [MessageDocOf(text, q, b), MessageDocOf(text, q, c)]
  {
    var x := Contribution(text, q, MessageDecl(b));
    var y := Contribution(text, q, MessageDecl(c));
    assert [MessageDecl(b)] + [MessageDecl(c)] == [MessageDecl(b), MessageDecl(c)];
    ReferenceCons(text, q, MessageDecl(b), [MessageDecl(c)]);
    ReferenceOne(text, q, MessageDecl(c));
    JoinOne(Reference(text, q, [MessageDecl(b), MessageDecl(c)]).messages, x.messages, y.messages,
      MessageDocOf(text, q, b), MessageDocOf(text, q, c));
  }

  /**
   In a later definition, a message ahead of that definition's `package` line
   is read under the package the earlier definition left behind.
   */
  lemma LaterFileInheritsExample(text: Comment -> string, a: string, m: Message, b: string)
    ensures GenerateDoc(text, [Definition([Package(a)]), Definition([MessageDecl(m), Package(b)])]).messages
      == [MessageDocOf(text, Some(a), m)]
  {
    var d1 := Definition([Package(a)]);
    var d2 := Definition([MessageDecl(m), Package(b)]);
    FlattenPair(d1, d2);
    var post := [MessageDecl(m), Package(b)];
    assert d1.elements + d2.elements == [] + [Package(a)] + post;
    PackageScopesForward(text, None, [], a, post);
    ThenNoDocs(Reference(text, Some(a), post));
    MessageThenPackage(text, Some(a), m, b);
  }

  lemma FlattenPair(d1: Definition, d2: Definition)
    ensures Flatten([d1, d2]) == d1.elements + d2.elements
  {
    FlattenAppend([d1], [d2]);
    FlattenSingle(d1);
    FlattenSingle(d2);
    assert [d1] + [d2] == [d1, d2];
  }

  lemma MessageThenPackage(text: Comment -> string, q: Option<string>, m: Message, b: string)
    ensures Reference(text, q, [MessageDecl(m), Package(b)]).messages == [MessageDocOf(text, q, m)]
  {
    assert [MessageDecl(m), Package(b)] == [MessageDecl(m)] + [Package(b)];
    ReferenceAppend(text, q, [MessageDecl(m)], [Package(b)]);
    ReferenceOne(text, q, MessageDecl(m));
    ReferenceOne(text, q, Package(b));
  }
}
