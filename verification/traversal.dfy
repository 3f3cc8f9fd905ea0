/**
 The walk over all top-level elements of all definitions. The active package
 is threaded through the walk; like the single `pkgName` variable of the Go
 code it is never reset between definitions.
 */
module Traversal {
  import opened Wrappers
  import opened Proto
  import opened Records
  import opened Filter
  import opened Containers

  /** The state of the walk: the active package and the records built so far. */
  datatype Walk = Walk(pkg: Option<string>, docs: Docs)

  /** The package in force after `e`: a `Package` element replaces it, anything else keeps it. */
  function PkgAfter(p: Option<string>, e: Element): (r: Option<string>)
    ensures e.Package? ==> r == Some(e.name)
    ensures !e.Package? ==> r == p
  {
    match e
    case Package(name) => Some(name)
    case _ => p
  }

  /** The package in force after all of `es`: the name of the last `Package` element, or `p` if there is none. */
  function LastPackage(p: Option<string>, es: seq<Element>): (r: Option<string>)
    ensures (forall i :: 0 <= i < |es| ==> !es[i].Package?) ==> r == p
    ensures forall i :: 0 <= i < |es| && es[i].Package? && (forall j :: i < j < |es| ==> !es[j].Package?) ==>
      r == Some(es[i].name)
    decreases |es|
  {
    if es == [] then p
    else
      assert forall j :: 0 < j < |es| ==> es[j] == es[1..][j - 1];
      LastPackage(PkgAfter(p, es[0]), es[1..])
  }

  /** The records one top-level element contributes when `p` is the active package. */
  function Contribution(text: Comment -> string, p: Option<string>, e: Element): (r: Docs)
    ensures e.ServiceDecl? ==> r == NoDocs.(services := [ServiceDocOf(text, p, e.service)])
    ensures e.MessageDecl? ==> r == NoDocs.(messages := [MessageDocOf(text, p, e.message)])
    ensures e.EnumDecl? ==> r == NoDocs.(enums := [EnumDocOf(text, p, e.enum)])
    ensures !(e.ServiceDecl? || e.MessageDecl? || e.EnumDecl?) ==> r == NoDocs
  {
    match e
    case Import(_) => NoDocs
    case Package(_) => NoDocs
    case ServiceDecl(s) => NoDocs.(services := [ServiceDocOf(text, p, s)])
    case MessageDecl(m) => NoDocs.(messages := [MessageDocOf(text, p, m)])
    case EnumDecl(en) => NoDocs.(enums := [EnumDocOf(text, p, en)])
    case OtherDecl(_) => NoDocs
  }

  /** One step of the walk: dispatch on the element kind. */
  function Visit(text: Comment -> string, w: Walk, e: Element): (v: Walk)
    ensures v.pkg == PkgAfter(w.pkg, e)
    ensures |w.docs.services| <= |v.docs.services| && v.docs.services[..|w.docs.services|] == w.docs.services
    ensures |w.docs.messages| <= |v.docs.messages| && v.docs.messages[..|w.docs.messages|] == w.docs.messages
    ensures |w.docs.enums| <= |v.docs.enums| && v.docs.enums[..|w.docs.enums|] == w.docs.enums
    ensures |v.docs.services| + |v.docs.messages| + |v.docs.enums|
      == |w.docs.services| + |w.docs.messages| + |w.docs.enums| + (if e.ServiceDecl? || e.MessageDecl? || e.EnumDecl? then 1 else 0)
    ensures e.ServiceDecl? ==> v.docs == w.docs.(services := w.docs.services + [ServiceDocOf(text, w.pkg, e.service)])
    ensures e.MessageDecl? ==> v.docs == w.docs.(messages := w.docs.messages + [MessageDocOf(text, w.pkg, e.message)])
    ensures e.EnumDecl? ==> v.docs == w.docs.(enums := w.docs.enums + [EnumDocOf(text, w.pkg, e.enum)])
    ensures e.Package? ==> v.docs == w.docs
    ensures e.Import? || e.OtherDecl? ==> v == w
  {
    Walk(PkgAfter(w.pkg, e), w.docs.Then(Contribution(text, w.pkg, e)))
  }

  /**
   The records of `es` read front to back, each element seeing the package
   declared before it. This is the reference the walk is measured against.
   */
  function Reference(text: Comment -> string, p: Option<string>, es: seq<Element>): (r: Docs)
    ensures |r.services| == |Pick(es, AsService)|
    ensures |r.messages| == |Pick(es, AsMessage)|
    ensures |r.enums| == |Pick(es, AsEnum)|
    decreases |es|
  {
    if es == [] then NoDocs
    else Contribution(text, p, es[0]).Then(Reference(text, PkgAfter(p, es[0]), es[1..]))
  }

  /** The loop over the elements of one definition, as a left fold. */
  function VisitAll(text: Comment -> string, w: Walk, es: seq<Element>): (r: Walk)
    ensures r.pkg == LastPackage(w.pkg, es)
    ensures r.docs == w.docs.Then(Reference(text, w.pkg, es))
    decreases |es|
  {
    if es == [] then w
    else
      var init := es[..|es| - 1];
      var last := es[|es| - 1];
      assert es == init + [last];
      var before := VisitAll(text, w, init);
      ReferenceOne(text, before.pkg, last);
      ReferenceAppend(text, w.pkg, init, [last]);
      LastPackageAppend(w.pkg, init, [last]);
      ThenAssociative(w.docs, Reference(text, w.pkg, init), Contribution(text, before.pkg, last));
      Visit(text, before, last)
  }

  /** All elements of all definitions, in order. */
  function Flatten(defs: seq<Definition>): (es: seq<Element>)
    decreases |defs|
  {
    if defs == [] then []
    else Flatten(defs[..|defs| - 1]) + defs[|defs| - 1].elements
  }

  /** The outer loop over definitions; the walk state, package included, carries from one to the next. */
  function VisitDefinitions(text: Comment -> string, w: Walk, defs: seq<Definition>): (r: Walk)
    ensures r.pkg == LastPackage(w.pkg, Flatten(defs))
    ensures r.docs == w.docs.Then(Reference(text, w.pkg, Flatten(defs)))
    decreases |defs|
  {
    if defs == [] then w
    else
      var init := defs[..|defs| - 1];
      var es := defs[|defs| - 1].elements;
      var before := VisitDefinitions(text, w, init);
      ReferenceAppend(text, w.pkg, Flatten(init), es);
      LastPackageAppend(w.pkg, Flatten(init), es);
      ThenAssociative(w.docs, Reference(text, w.pkg, Flatten(init)), Reference(text, before.pkg, es));
      VisitAll(text, before, es)
  }

  /**
   The services, messages and enums of all `defs`, starting with no package.
   Template parsing and rendering are not part of it.
   */
  function GenerateDoc(text: Comment -> string, defs: seq<Definition>): (r: Docs)
    ensures r == Reference(text, None, Flatten(defs))
  {
    VisitDefinitions(text, Walk(None, NoDocs), defs).docs
  }

  /** A single element contributes its own records and moves the package on. */
  lemma ReferenceOne(text: Comment -> string, p: Option<string>, e: Element)
    ensures Reference(text, p, [e]) == Contribution(text, p, e)
    ensures LastPackage(p, [e]) == PkgAfter(p, e)
  {
    assert [e][1..] == [];
    ThenNoDocs(Contribution(text, p, e));
  }

  /** Reading `[e] + rest` is reading `e`, then `rest` under the package `e` leaves. */
  lemma ReferenceCons(text: Comment -> string, p: Option<string>, e: Element, rest: seq<Element>)
    ensures Reference(text, p, [e] + rest) == Contribution(text, p, e).Then(Reference(text, PkgAfter(p, e), rest))
  {
    var es := [e] + rest;
    assert es[0] == e && es[1..] == rest;
  }

  lemma {:induction false} LastPackageAppend(p: Option<string>, a: seq<Element>, b: seq<Element>)
    ensures LastPackage(p, a + b) == LastPackage(LastPackage(p, a), b)
    decreases |a|
  {
    if a == [] {
      assert a + b == b;
    } else {
      assert (a + b)[1..] == a[1..] + b;
      LastPackageAppend(PkgAfter(p, a[0]), a[1..], b);
    }
  }

  /** Reading `a + b` is reading `a`, then reading `b` under the package `a` leaves behind. */
  lemma {:induction false} ReferenceAppend(text: Comment -> string, p: Option<string>, a: seq<Element>, b: seq<Element>)
    ensures Reference(text, p, a + b) == Reference(text, p, a).Then(Reference(text, LastPackage(p, a), b))
    decreases |a|
  {
    if a == [] {
      assert a + b == b;
      ThenNoDocs(Reference(text, p, b));
    } else {
      var q := PkgAfter(p, a[0]);
      var c := Contribution(text, p, a[0]);
      assert (a + b)[0] == a[0];
      assert (a + b)[1..] == a[1..] + b;
      assert Reference(text, p, a + b) == c.Then(Reference(text, q, a[1..] + b));
      ReferenceAppend(text, q, a[1..], b);
      assert LastPackage(p, a) == LastPackage(q, a[1..]);
      ThenAssociative(c, Reference(text, q, a[1..]), Reference(text, LastPackage(q, a[1..]), b));
    }
  }

  /** A `Package` element governs only what follows it; what precedes it was read under the older package. */
  lemma PackageScopesForward(text: Comment -> string, p: Option<string>, pre: seq<Element>, name: string, post: seq<Element>)
    ensures Reference(text, p, pre + [Package(name)] + post) == Reference(text, p, pre).Then(Reference(text, Some(name), post))
  {
    var q := LastPackage(p, pre);
    var tail := [Package(name)] + post;
    ConcatAssoc(pre, [Package(name)], post);
    ReferenceAppend(text, p, pre, tail);
    ReferenceCons(text, q, Package(name), post);
    ThenNoDocs(Reference(text, Some(name), post));
  }

  function AsService(e: Element): Option<Service>
  {
    match e
    case ServiceDecl(s) => Some(s)
    case _ => None
  }

  function AsMessage(e: Element): Option<Message>
  {
    match e
    case MessageDecl(m) => Some(m)
    case _ => None
  }

  function AsEnum(e: Element): Option<Enum>
  {
    match e
    case EnumDecl(en) => Some(en)
    case _ => None
  }

  /** Every element is read under the package in force just before it. */
  lemma ElementSeesPrecedingPackage(text: Comment -> string, p: Option<string>, es: seq<Element>, i: int)
    requires 0 <= i < |es|
    ensures var q := LastPackage(p, es[..i]);
      Reference(text, p, es) == Reference(text, p, es[..i]).Then(Contribution(text, q, es[i])).Then(Reference(text, PkgAfter(q, es[i]), es[i + 1..]))
  {
    SplitAround(es, i);
    ReferenceAround(text, p, es[..i], es[i], es[i + 1..]);
  }

  /** Reading `pre + [e] + post` is reading `pre`, then `e` under the package `pre` leaves, then `post`. */
  lemma ReferenceAround(text: Comment -> string, p: Option<string>, pre: seq<Element>, e: Element, post: seq<Element>)
    ensures var q := LastPackage(p, pre);
      Reference(text, p, pre + [e] + post) == Reference(text, p, pre).Then(Contribution(text, q, e)).Then(Reference(text, PkgAfter(q, e), post))
  {
    var q := LastPackage(p, pre);
    var tail := [e] + post;
    ConcatAssoc(pre, [e], post);
    ReferenceAppend(text, p, pre, tail);
    ReferenceCons(text, q, e, post);
    ThenAssociative(Reference(text, p, pre), Contribution(text, q, e), Reference(text, PkgAfter(q, e), post));
  }

  /**
   The message declared at position `i` becomes the message record right after
   those of the messages declared before it, built under the package in force
   at `i`. Likewise for services and enums.
   */
  lemma RecordsLandInOrder(text: Comment -> string, p: Option<string>, es: seq<Element>, i: int)
    requires 0 <= i < |es|
    ensures var docs := Reference(text, p, es);
      var q := LastPackage(p, es[..i]);
      && (es[i].ServiceDecl? ==> var k := |Pick(es[..i], AsService)|;
            k < |docs.services| && docs.services[k] == ServiceDocOf(text, q, es[i].service))
      && (es[i].MessageDecl? ==> var k := |Pick(es[..i], AsMessage)|;
            k < |docs.messages| && docs.messages[k] == MessageDocOf(text, q, es[i].message))
      && (es[i].EnumDecl? ==> var k := |Pick(es[..i], AsEnum)|;
            k < |docs.enums| && docs.enums[k] == EnumDocOf(text, q, es[i].enum))
  {
    ElementSeesPrecedingPackage(text, p, es, i);
  }

  /** Keeps every element except imports and unhandled kinds. */
  function Significant(e: Element): Option<Element>
  {
    match e
    case Import(_) => None
    case OtherDecl(_) => None
    case _ => Some(e)
  }

  /** Imports and unhandled kinds can be deleted without changing the records or the final package. */
  lemma {:induction false} IgnoredElementsAreInert(text: Comment -> string, p: Option<string>, es: seq<Element>)
    ensures Reference(text, p, Pick(es, Significant)) == Reference(text, p, es)
    ensures LastPackage(p, Pick(es, Significant)) == LastPackage(p, es)
    decreases |es|
  {
    if es != [] {
      var q := PkgAfter(p, es[0]);
      IgnoredElementsAreInert(text, q, es[1..]);
      var rest := Pick(es[1..], Significant);
      assert Pick(es, Significant) == Taken(es[0], Significant) + rest;
      if Significant(es[0]).None? {
        assert Pick(es, Significant) == rest;
        ThenNoDocs(Reference(text, q, es[1..]));
      } else {
        assert Pick(es, Significant) == [es[0]] + rest;
        assert ([es[0]] + rest)[1..] == rest;
      }
    }
  }

  lemma FlattenSingle(d: Definition)
    ensures Flatten([d]) == d.elements
  {
    assert [d][..0] == [];
  }

  lemma {:induction false} FlattenAppend(a: seq<Definition>, b: seq<Definition>)
    ensures Flatten(a + b) == Flatten(a) + Flatten(b)
    decreases |b|
  {
    if b == [] {
      assert a + b == a;
    } else {
      var init := b[..|b| - 1];
      var last := b[|b| - 1];
      assert (a + b)[..|a + b| - 1] == a + init;
      assert (a + b)[|a + b| - 1] == last;
      assert Flatten(a + b) == Flatten(a + init) + last.elements;
      FlattenAppend(a, init);
      assert Flatten(b) == Flatten(init) + last.elements;
    }
  }

  /**
   Appending definitions appends their records, read under the package the
   earlier definitions left behind: the package is not reset per file.
   */
  lemma GenerateDocAppend(text: Comment -> string, a: seq<Definition>, b: seq<Definition>)
    ensures GenerateDoc(text, a + b) == GenerateDoc(text, a).Then(Reference(text, LastPackage(None, Flatten(a)), Flatten(b)))
  {
    FlattenAppend(a, b);
    ReferenceAppend(text, None, Flatten(a), Flatten(b));
  }

  /** A definition that opens with its own `package` line is read independently of the ones before it. */
  lemma GenerateDocOwnPackage(text: Comment -> string, defs: seq<Definition>, d: Definition)
    requires d.elements != [] && d.elements[0].Package?
    ensures GenerateDoc(text, defs + [d]) == GenerateDoc(text, defs).Then(GenerateDoc(text, [d]))
  {
    GenerateDocAppend(text, defs, [d]);
    FlattenSingle(d);
    var q := LastPackage(None, Flatten(defs));
    assert Reference(text, q, d.elements) == Reference(text, None, d.elements);
  }
}
