/** Qualification of type names against the active package. */
module Names {
  import opened Wrappers
  import opened Scalars

  /**
   The cases in which a name is left as it is: no package or an empty one,
   a name that already holds a dot, or a scalar keyword.
   */
  predicate Exempt(pkg: Option<string>, name: string)
  {
    pkg.None? || pkg.value == "" || '.' in name || IsScalarType(name)
  }

  /** `name` qualified by `pkg`, unless one of the exemptions applies. */
  function FullQualifiedName(pkg: Option<string>, name: string): (r: string)
    ensures r == name <==> Exempt(pkg, name)
    ensures r != name ==> pkg.Some? && r == pkg.value + "." + name
  {
    if pkg.None? || pkg.value == "" then name
    else if '.' in name then name
    else if IsScalarType(name) then name
    else
      pkg.value + "." + name
  }

  /** Once a non-empty package is active, a result is either dotted or a scalar keyword, never a bare user type. */
  lemma NeverBareUnderPackage(pkg: Option<string>, name: string)
    ensures var r := FullQualifiedName(pkg, name);
      pkg.Some? && pkg.value != "" ==> '.' in r || IsScalarType(r)
  {
  }

  /** Qualifying an already qualified name with the same package changes nothing. */
  lemma FullQualifiedNameIdempotent(pkg: Option<string>, name: string)
    ensures FullQualifiedName(pkg, FullQualifiedName(pkg, name)) == FullQualifiedName(pkg, name)
  {
  }

  /** The original name is always recoverable as the tail of the result. */
  lemma FullQualifiedNameKeepsName(pkg: Option<string>, name: string)
    ensures var r := FullQualifiedName(pkg, name);
      |name| <= |r| && r[|r| - |name|..] == name
  {
  }
}
