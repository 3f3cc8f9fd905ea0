# grpcdoc documentation model, in Dafny

grpcdoc turns parsed protobuf definitions into an HTML page. Before anything is
rendered, `GenerateDoc` in `doc.go` walks every top-level element of every
definition. It builds flat records: `ServiceDoc` with its `MethodDoc`s,
`MessageDoc` with its `FieldDoc`s, and `EnumDoc` with its `FieldDoc`s. It relies on
three helpers:

- `isScalarType` tests exact membership in the fifteen proto3 scalar keywords.
- `fullQualifiedName` prefixes a type name with the active package, except for
  three cases: no or empty package, a dotted name, or a scalar keyword.
- `comment` turns a missing comment into the empty string.

This project models that transform as pure functions over immutable datatypes
and proves its properties.

Layout, one module per file:

- `wrappers.dfy`: `Option`, which stands in for Go's nil pointers.
- `proto.dfy`: the parsed input. Element kinds the code ignores are closed into
  `Other…` variants.
- `scalars.dfy`: the scalar keyword table and `IsScalarType`.
- `names.dfy`: `FullQualifiedName` and its properties.
- `comments.dfy`: `Describe`, which models `comment`.
- `records.dfy`: the output records, `Uint8` and the `uint8(...)` conversion.
- `filter.dfy`: `Pick`, a filter-map that keeps one element kind in order. It is
  the reference for the three nested loops.
- `containers.dfy`: the records of one service, message or enum.
- `traversal.dfy`: the walk over all definitions. The walk is a left fold that
  threads the active package as an `Option<string>`. It is proved equal to
  `Reference`, a front-to-back reading in which every element sees the package
  declared before it.
- `examples.dfy`: the unit-test cases of `doc_test.go`, plus a package
  carry-over example.

Two consequences of how the code is written:

- **Package carry-over.** `pkgName` is declared once, before the loop over
  definitions, and is never reset. So a package carries over into later
  definitions. An element before a `package` line is read under the package
  in force before that line; at the start of the first definition that is no
  package at all. See `GenerateDocAppend`, `PackageCarryOverExample` and
  `LaterFileInheritsExample`.
- **Field numbers.** Field numbers pass through `uint8(...)`: they wrap modulo
  256 and nothing is reported. See `ToUint8`, `MessageFieldDoc` and
  `EnumFieldDoc`.

## Model

| member | source | states |
|---|---|---|
| Scalars.Occurs | doc.go:196-201 | the scan answers true exactly when some entry of the list equals the name |
| Scalars.IsScalarType | doc.go:194-202 | true exactly when the name is, character for character, one of the listed scalar keywords |
| Scalars.ScalarHasNoDot | doc.go:22-25 | no scalar keyword contains a dot, so the dotted-name and scalar exemptions never overlap |
| Names.FullQualifiedName | doc.go:204-219 | the name comes back unchanged exactly when the package is absent or empty, the name holds a dot, or the name is a scalar; otherwise it is package + "." + name |
| Names.NeverBareUnderPackage | doc.go:209-219 | under a non-empty package the result always holds a dot or is a scalar keyword; it is never a bare user type |
| Names.FullQualifiedNameIdempotent | doc.go:209-219 | qualifying the result again with the same package changes nothing |
| Names.FullQualifiedNameKeepsName | doc.go:209-219 | the original name is always the tail of the result |
| Comments.Describe | doc.go:221-228 | a missing comment gives the empty string, and a present one gives its message text |
| Records.ToUint8 | doc.go:127 | the stored field number is the unique value in 0..255 congruent to the declared one modulo 256 |
| Records.ToUint8InRange | doc.go:126-127 | a declared number in 0..255 is stored exactly |
| Containers.MessageFieldDoc | doc.go:126-133 | the field number is the sequence modulo 256; name and repetition are copied; the type is fullQualifiedName of the declared type under the active package, so it is never bare under a non-empty package; IsScalar holds exactly when the unqualified type is a scalar keyword, and then the type is unchanged |
| Containers.EnumFieldDoc | doc.go:153-157 | the field number is the enum value modulo 256; type, IsScalar and IsRepeated keep their zero values |
| Containers.MethodDocOf | doc.go:103-108 | a method record copies the rpc name, describes its comment, and qualifies the request and response types with the active package; under a non-empty package neither type is bare |
| Containers.ServiceDocOf | doc.go:112-116 | a service record has the qualified service name, the described comment, and one method per rpc element |
| Containers.MessageDocOf | doc.go:138-142 | a message record has the qualified message name, the described comment, and one field per plain-field element |
| Containers.EnumDocOf | doc.go:161-165 | an enum record has the qualified enum name, the described comment, and one field per enum constant; its fields do not depend on the package |
| Containers.MethodDocs | doc.go:98-111 | one MethodDoc per rpc element, in the order the rpcs are picked, and nothing for other kinds |
| Containers.MessageFieldDocs | doc.go:120-136 | one FieldDoc per plain field, in the order the fields are picked, and nothing for other kinds |
| Containers.EnumFieldDocs | doc.go:148-160 | one FieldDoc per enum constant, in the order the constants are picked, and nothing for other kinds |
| Containers.MethodsFollowDeclarations | doc.go:99-111 | methods correspond one to one and in increasing position to exactly the rpc elements of the service |
| Containers.MessageFieldsFollowDeclarations | doc.go:121-136 | message fields correspond one to one and in increasing position to exactly the plain-field elements |
| Containers.EnumFieldsFollowDeclarations | doc.go:149-160 | enum fields correspond one to one and in increasing position to exactly the enum-constant elements |
| Traversal.PkgAfter | doc.go:92-94 | a Package element makes its name the active package; any other element leaves the package as it was |
| Traversal.Contribution | doc.go:88-168 | a service, message or enum element yields exactly one record of its own kind built under the active package; imports, packages and other kinds yield none |
| Traversal.Visit | doc.go:88-168 | one step of the walk: a service, message or enum appends exactly its own record, built under the package in force before the step, to its own collection and leaves the other two unchanged; a package line changes only the active package; an import or unhandled kind changes nothing; earlier records always stay as prefixes |
| Traversal.Reference | doc.go:86-168 | reading elements front to back yields as many service, message and enum records as there are service, message and enum elements |
| Traversal.LastPackage | doc.go:92-94 | the package after a run of elements is the name of the last Package element, or the incoming one if there is none |
| Traversal.LastPackageAppend | doc.go:82-94 | the active package after a + b is the package b leaves when started from a's |
| Traversal.VisitAll | doc.go:87-169 | walking one definition leaves the last package in force and appends exactly the records of the front-to-back reading |
| Traversal.VisitDefinitions | doc.go:86-170 | walking the definitions in turn, with the package carried along, is walking their concatenated elements |
| Traversal.GenerateDoc | doc.go:82-170 | the services, messages and enums produced are those of reading all elements of all definitions in order, starting with no package |
| Traversal.ReferenceAppend | doc.go:86-87 | reading a + b is reading a, then reading b under the package a leaves behind |
| Traversal.PackageScopesForward | doc.go:92-95 | a Package element changes the qualification of what follows it and not of what precedes it |
| Traversal.ElementSeesPrecedingPackage | doc.go:88-168 | each element contributes its records under the package in force just before it |
| Traversal.RecordsLandInOrder | doc.go:96-167 | the record of the i-th element comes right after those of the same kind declared before it, built with the package in force at i |
| Traversal.IgnoredElementsAreInert | doc.go:89-91 | deleting imports and unhandled element kinds changes neither the records nor the final package |
| Traversal.GenerateDocAppend | doc.go:82-86 | the records of more definitions extend those of the first ones, read under the package the first ones left behind |
| Traversal.GenerateDocOwnPackage | doc.go:86-95 | a definition that opens with its own package line is documented independently of those before it |
| Examples.ScalarExamples | doc_test.go:8-18 | every listed keyword is a scalar, and a differently cased keyword is not |
| Examples.MyMessageIsUserType | doc_test.go:15-17 | "MyMessage" has no dot and is not a scalar |
| Examples.EmptyPackageExample | doc_test.go:26 | ("", "MyMessage") and a nil package both give "MyMessage" |
| Examples.QualifiedExample | doc_test.go:27 | ("my.package", "MyMessage") gives "my.package.MyMessage" |
| Examples.ScalarExemptExample | doc_test.go:28 | ("my.package", "uint32") gives "uint32" |
| Examples.DottedExemptExample | doc.go:212-213 | ("my.package", "other.Type") gives "other.Type" |
| Examples.NoCommentExample | doc_test.go:44 | a nil comment gives "" |
| Examples.FieldNumberExamples | doc.go:127 | 7 is kept, 300 becomes 44 and -1 becomes 255 |
| Examples.CarryOverMessages | doc.go:92-95 | for message A, then package p, then messages B and C: A is read with no package, and B and C with p |
| Examples.LaterFileInheritsExample | doc.go:82-94 | a message ahead of a later definition's package line is qualified with the package of the definition before it |
| Examples.PackageCarryOverExample | doc.go:82-87 | the package declared in the first definition still qualifies a message of the second definition |

## Left out

- Template parsing and execution are not modelled: `template.New(...).Parse`, `t.Execute`, the `Data` record and its empty `Filename`. Neither are the embedded `internal/doc.html` and `internal/style.css`, or the choice between the custom and the default style. All of this is rendering through the Go template library. `GenerateDoc` returns the three record collections that `Data` would carry.
- The `println` diagnostics for imports and packages are left out. They are output side effects only.
- `proto.Comment.Message()` belongs to the parser library and is not part of this model. It is the parameter `text: Comment -> string`, and `Comments.Describe` applies it to a present comment.
- The paragraph-to-`<p>` formatting and `fullComment`, which the comment tests of `doc_test.go` expect, are not modelled. `doc.go` does not implement them: `comment` returns the message text unchanged.
- `main.go` is left out: flag parsing, file and standard-stream I/O, and the call into the external parser.
- Go's `int` width for field sequences and enum values is not modelled; both are unbounded `int`s. The low eight bits of a 64-bit value equal its value modulo 256, so the results agree.
- The record pointers (`[]*MethodDoc` and so on) are values here. Go's nil slice for a container with no matching elements is the empty sequence.
- Running `GenerateDoc` twice on the same input gives equal results because Dafny functions are deterministic. No separate lemma states it.
