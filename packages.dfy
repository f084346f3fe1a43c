/** `Package`, the wrapper of a PackageElement: its name, the root package,
    and how it names the source files and resources it asks the filer for. */
module Packages {
  import opened LangModel

  /** A Package; `packageElement` is None for the root package. */
  datatype Package = Package(packageElement: Option<Element>)

  /** The exception the wrapper rethrows an IOException as. */
  datatype RuntimeException = RuntimeException(cause: IOException)

  /** A Resource wrapping the file object the filer created. */
  datatype Resource = Resource(file: FileObject)

  function GetName(p: Package): (r: string)
    ensures p.packageElement.None? ==> r == ""
    ensures p.packageElement.Some? ==> r == p.packageElement.value.qualifiedName
  {
    match p.packageElement
    case None => ""
    case Some(e) => e.qualifiedName
  }

  predicate IsRoot(p: Package)
    ensures IsRoot(p) ==> GetName(p) == ""
  {
    p.packageElement.None?
  }

  /** The root package has the empty name (IsRoot's contract); the converse
      fails, since the element of the unnamed package is not null and has the
      empty name too. */
  lemma RootHasEmptyName(unnamed: Element)
    requires unnamed.qualifiedName == ""
    ensures GetName(Package(Some(unnamed))) == "" && !IsRoot(Package(Some(unnamed)))
  {
  }

  /** sourceName(relativeName): the name, a '.', then the relative name; just
      the relative name when the name is empty. */
  function SourceName(p: Package, relativeName: string): (r: string)
    ensures |r| >= |relativeName| && r[|r| - |relativeName|..] == relativeName
    ensures GetName(p) == "" ==> r == relativeName
    ensures GetName(p) != "" ==>
              |r| == |GetName(p)| + 1 + |relativeName| && r[..|GetName(p)|] == GetName(p) && r[|GetName(p)|] == '.'
  {
    var sourceName := GetName(p);
    var sourceName := if sourceName != "" then sourceName + "." else sourceName;
    sourceName + relativeName
  }

  /** The composition is exact: the name, the separator and the relative
      name, so distinct relative names give distinct source names. */
  lemma SourceNameExactly(p: Package, r1: string, r2: string)
    ensures GetName(p) != "" ==> SourceName(p, r1) == GetName(p) + "." + r1
    ensures SourceName(p, r1) == SourceName(p, r2) <==> r1 == r2
  {
    var n := GetName(p);
    var prefix := if n != "" then n + "." else "";
    var s1, s2 := SourceName(p, r1), SourceName(p, r2);
    assert s1 == prefix + r1 && s2 == prefix + r2;
    if s1 == s2 {
      assert s1[|prefix|..] == r1;
      assert s2[|prefix|..] == r2;
    }
  }

  /** createSource(relativeName): asks the filer for a source file named by
      sourceName; an IOException comes back wrapped in a RuntimeException. */
  function CreateSource(p: Package, filer: Filer, relativeName: string): (r: Result<Resource, RuntimeException>)
    ensures var made := filer.createSourceFile(SourceName(p, relativeName));
            (r.Ok? <==> made.Ok?)
            && (r.Ok? ==> r.value == Resource(made.value))
            && (r.Err? ==> r.error == RuntimeException(made.error))
  {
    match filer.createSourceFile(SourceName(p, relativeName))
    case Ok(file) => Ok(Resource(file))
    case Err(e) => Err(RuntimeException(e))
  }

  /** createResource(relativeName): asks the filer for CLASS_OUTPUT, this
      package's name and the relative name; an IOException comes back
      wrapped in a RuntimeException. */
  function CreateResource(p: Package, filer: Filer, relativeName: string): (r: Result<Resource, RuntimeException>)
    ensures var made := filer.createResource(CLASS_OUTPUT, GetName(p), relativeName);
            (r.Ok? <==> made.Ok?)
            && (r.Ok? ==> r.value == Resource(made.value))
            && (r.Err? ==> r.error == RuntimeException(made.error))
  {
    match filer.createResource(CLASS_OUTPUT, GetName(p), relativeName)
    case Ok(file) => Ok(Resource(file))
    case Err(e) => Err(RuntimeException(e))
  }

  /** toString of a plain Package: "Package:" and the name. */
  function ToString(p: Package): (r: string)
    ensures |r| == 8 + |GetName(p)| && r[..8] == "Package:" && r[8..] == GetName(p)
  {
    "Package:" + GetName(p)
  }

  /** Two packages print the same exactly when their names agree. */
  lemma ToStringInjective(p: Package, q: Package)
    ensures ToString(p) == ToString(q) <==> GetName(p) == GetName(q)
  {
    if ToString(p) == ToString(q) {
      assert ToString(p)[8..] == ToString(q)[8..];
    }
  }
}
