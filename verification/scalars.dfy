/**
 The protobuf scalar value types (the proto3 "Scalar Value Types" table) and
 the exact-match test against them.
 */
module Scalars {

  /** The fifteen scalar keywords, in the order the source lists them. */
  const ScalarTypes: seq<string> := [
    "double", "float", "int32", "int64", "uint32", "uint64",
    "sint32", "sint64", "fixed32", "fixed64", "sfixed32", "sfixed64",
    "bool", "string", "bytes"]

  /** Linear scan of `list` for an entry equal to `t`. */
  function Occurs(t: string, list: seq<string>): (r: bool)
    ensures r <==> exists i :: 0 <= i < |list| && list[i] == t
  {
    if list == [] then false
    else if list[0] == t then true
    else
      assert forall i :: 0 < i < |list| ==> list[i] == list[1..][i - 1];
      Occurs(t, list[1..])
  }

  /** True exactly when `t` is, character for character, one of the scalar keywords. */
  function IsScalarType(t: string): (r: bool)
    ensures r <==> t in ScalarTypes
  {
    Occurs(t, ScalarTypes)
  }

  /** No scalar keyword contains a dot, so a dotted name is never taken for a scalar. */
  lemma ScalarHasNoDot(t: string)
    ensures IsScalarType(t) ==> '.' !in t
  {
    ScalarTypesUndotted();
  }

  lemma ScalarTypesUndotted()
    ensures forall i :: 0 <= i < |ScalarTypes| ==> '.' !in ScalarTypes[i]
  {
  }

  /** Helper: scalar keywords are four to eight characters long, so any other length rules a name out. */
  lemma ScalarLength(t: string)
    ensures IsScalarType(t) ==> 4 <= |t| <= 8
  {
  }
}
