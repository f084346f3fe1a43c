/** `Elemental`, the base of every wrapper: modifier checks, diagnostics
    about the element, annotation lookup with the synthesized JavaDoc
    fallback, and reading a class-valued annotation attribute by name. */
module Elementals {
  import opened LangModel

  /** The qualified name of the wrapper's own JavaDoc annotation type. */
  const JAVA_DOC: string := "com.github.t1.exap.JavaDoc"

  // ---- modifiers ----

  /** is(modifier) */
  predicate Is(e: Element, m: Modifier)
    ensures Is(e, m) <==> m in e.modifiers
  {
    m in e.modifiers
  }

  predicate IsPublic(e: Element)
    ensures IsPublic(e) <==> PUBLIC in e.modifiers
  {
    Is(e, PUBLIC)
  }

  predicate IsStatic(e: Element)
    ensures IsStatic(e) <==> STATIC in e.modifiers
  {
    Is(e, STATIC)
  }

  predicate IsTransient(e: Element)
    ensures IsTransient(e) <==> TRANSIENT in e.modifiers
  {
    Is(e, TRANSIENT)
  }

  /** Each check looks at its own modifier only: adding or removing any other
      modifier leaves it unchanged. */
  lemma ModifierChecksIndependent(e: Element, m: Modifier)
    ensures m != PUBLIC ==>
              (IsPublic(e.(modifiers := e.modifiers + {m})) == IsPublic(e)
               && IsPublic(e.(modifiers := e.modifiers - {m})) == IsPublic(e))
    ensures m != STATIC ==>
              (IsStatic(e.(modifiers := e.modifiers + {m})) == IsStatic(e)
               && IsStatic(e.(modifiers := e.modifiers - {m})) == IsStatic(e))
    ensures m != TRANSIENT ==>
              (IsTransient(e.(modifiers := e.modifiers + {m})) == IsTransient(e)
               && IsTransient(e.(modifiers := e.modifiers - {m})) == IsTransient(e))
  {
  }

  // ---- diagnostics ----

  /** error(message): one ERROR diagnostic about this element. */
  method Error(messager: HostMessager, e: Element, message: string)
    modifies messager
    ensures messager.printed == old(messager.printed) + [Diagnostic(DiagnosticKind.ERROR, message, Some(e))]
  {
    messager.PrintMessage(DiagnosticKind.ERROR, message, e);
  }

  /** warning(message): one WARNING diagnostic about this element. */
  method Warning(messager: HostMessager, e: Element, message: string)
    modifies messager
    ensures messager.printed == old(messager.printed) + [Diagnostic(WARNING, message, Some(e))]
  {
    messager.PrintMessage(WARNING, message, e);
  }

  /** note(message): one NOTE diagnostic about this element. */
  method Note(messager: HostMessager, e: Element, message: string)
    modifies messager
    ensures messager.printed == old(messager.printed) + [Diagnostic(NOTE, message, Some(e))]
  {
    messager.PrintMessage(NOTE, message, e);
  }

  // ---- annotation types ----

  /** An AnnotationType, known by the qualified name of the annotation's
      type element. */
  datatype AnnotationType = AnnotationType(typeName: string)

  /** getAnnotationTypes */
  method GetAnnotationTypes(e: Element) returns (result: seq<AnnotationType>)
    ensures |result| == |e.annotationMirrors|
    ensures forall i :: 0 <= i < |result| ==> result[i] == AnnotationType(e.annotationMirrors[i].annotationTypeName)
  {
    var mirrors := e.annotationMirrors;
    result := [];
    var i := 0;
    while i < |mirrors|
      invariant 0 <= i <= |mirrors|
      invariant |result| == i
      invariant forall k :: 0 <= k < i ==> result[k] == AnnotationType(mirrors[k].annotationTypeName)
    {
      result := result + [AnnotationType(mirrors[i].annotationTypeName)];
      i := i + 1;
    }
  }

  // ---- getAnnotation and the JavaDoc fallback ----

  /** An annotation instance: one backed by a mirror on the element, or the
      JavaDoc the wrapper synthesizes from a doc comment. */
  datatype Annotation = Instance(mirror: AnnotationMirror) | JavaDoc(docComment: string)

  /** The first mirror in `ms` whose annotation type has the binary name
      `className`. */
  function FindMirror(ms: seq<AnnotationMirror>, className: string): (r: Option<AnnotationMirror>)
    ensures r.None? <==> forall m :: m in ms ==> m.annotationClassName != className
    ensures r.Some? ==> r.value in ms && r.value.annotationClassName == className
  {
    if ms == [] then None
    else if ms[0].annotationClassName == className then Some(ms[0])
    else FindMirror(ms[1..], className)
  }

  /** The host's Element.getAnnotation(type): the annotation whose type is
      the class `className` (its binary name), among the mirrors present on
      the element, inherited ones included. For a well-formed element each
      type occurs there at most once, so the first is the only one. */
  function HostAnnotation(elements: Elements, e: Element, className: string): Option<Annotation> {
    match FindMirror(elements.getAllAnnotationMirrors(e), className)
    case Some(m) => Some(Instance(m))
    case None => None
  }

  /** getAnnotation(type), where `className` is type.getName(): the host's
      annotation wins; a JavaDoc is synthesized only when there is none,
      JavaDoc is asked for and the element has a doc comment. */
  function GetAnnotation(elements: Elements, e: Element, className: string): (r: Option<Annotation>)
    ensures HostAnnotation(elements, e, className).Some? ==> r == HostAnnotation(elements, e, className)
    ensures (r.Some? && r.value.JavaDoc?) <==>
              HostAnnotation(elements, e, className).None? && className == JAVA_DOC && elements.getDocComment(e).Some?
    ensures r.Some? && r.value.JavaDoc? ==> elements.getDocComment(e) == Some(r.value.docComment)
    ensures r.Some? && r.value.Instance? ==>
              r.value.mirror in elements.getAllAnnotationMirrors(e) && r.value.mirror.annotationClassName == className
  {
    var annotation := HostAnnotation(elements, e, className);
    if annotation.None? && className == JAVA_DOC && elements.getDocComment(e).Some?
    then Some(JavaDoc(elements.getDocComment(e).value))
    else annotation
  }

  /** isAnnotated(type): getAnnotation(type) is not null. */
  predicate IsAnnotated(elements: Elements, e: Element, className: string)
    ensures IsAnnotated(elements, e, className) <==>
              (exists m :: m in elements.getAllAnnotationMirrors(e) && m.annotationClassName == className)
              || (className == JAVA_DOC && elements.getDocComment(e).Some?)
  {
    GetAnnotation(elements, e, className).Some?
  }

  // ---- JavaDoc summary ----

  /** String.indexOf(c): the first position of `c`, or -1. Positions count
      characters; Java counts UTF-16 code units, which differ once a
      character outside the Basic Multilingual Plane comes before `c`. */
  function IndexOf(s: string, c: char): (r: int)
    ensures -1 <= r < |s|
    ensures r == -1 <==> c !in s
    ensures r >= 0 ==> s[r] == c && c !in s[..r]
  {
    if s == [] then -1
    else if s[0] == c then 0
    else
      var k := IndexOf(s[1..], c);
      if k < 0 then -1
      else assert s[..k + 1] == [s[0]] + s[1..][..k]; k + 1
  }

  /** JavaDoc value(): the whole doc comment. */
  function Value(docComment: string): (r: string)
    ensures r == docComment
  {
    docComment
  }

  /** JavaDoc summary(): the doc comment up to its first '.', or all of it. */
  function Summary(docComment: string): (r: string)
    ensures r <= docComment && '.' !in r
  {
    var firstSentence := IndexOf(docComment, '.');
    if firstSentence < 0 then docComment else docComment[..firstSentence]
  }

  /** The summary is the first sentence of the value: a prefix of it with no
      '.', followed in the value by the first '.' when there is one. */
  lemma SummaryIsFirstSentence(docComment: string)
    ensures Summary(docComment) <= Value(docComment)
    ensures '.' !in Summary(docComment)
    ensures '.' !in docComment ==> Summary(docComment) == docComment
    ensures '.' in docComment ==> docComment[|Summary(docComment)|] == '.'
  {
  }

  // ---- class-valued annotation attributes ----

  predicate EndsWith(s: string, suffix: string) {
    |suffix| <= |s| && s[|s| - |suffix|..] == suffix
  }

  /** Drop a trailing ".class" (6 characters); anything else is unchanged. */
  function StripClassSuffix(value: string): (r: string)
    ensures EndsWith(value, ".class") ==> r + ".class" == value
    ensures !EndsWith(value, ".class") ==> r == value
  {
    if EndsWith(value, ".class") then value[..|value| - 6] else value
  }

  lemma StripClassSuffixRoundTrip(name: string)
    ensures StripClassSuffix(name + ".class") == name
  {
    var v := name + ".class";
    assert v[|v| - 6..] == ".class";
    assert v[..|v| - 6] == name;
  }

  /** The value of the first property named `name`. */
  function PropertyValue(ps: seq<AnnotationProperty>, name: string): (r: Option<string>)
    ensures r.None? <==> forall j :: 0 <= j < |ps| ==> ps[j].name != name
    ensures r.Some? ==> exists j :: 0 <= j < |ps| && ps[j].name == name && r.value == ps[j].value
                                     && forall k :: 0 <= k < j ==> ps[k].name != name
  {
    if ps == [] then None
    else if ps[0].name == name then Some(ps[0].value)
    else
      var r := PropertyValue(ps[1..], name);
      assert forall j :: 1 <= j < |ps| ==> ps[j] == ps[1..][j - 1];
      r
  }

  /** getAnnotationClassAttribute as a value: the first mirror of the
      annotation type that has a property `name` gives its value, without a
      trailing ".class". `typeName` is annotationType.getName(), the binary
      name, and it is compared with the printed, canonical name of each
      mirror's type, so a nested annotation type is never matched. */
  function ClassAttribute(ms: seq<AnnotationMirror>, typeName: string, name: string): (r: Option<string>)
    ensures r.Some? ==> exists m :: m in ms && m.annotationTypeName == typeName
  {
    if ms == [] then None
    else if ms[0].annotationTypeName == typeName && PropertyValue(ms[0].valuesWithDefaults, name).Some?
    then Some(StripClassSuffix(PropertyValue(ms[0].valuesWithDefaults, name).value))
    else ClassAttribute(ms[1..], typeName, name)
  }

  /** getAnnotationClassAttribute: the nested search with early return. */
  method GetAnnotationClassAttribute(elements: Elements, e: Element, typeName: string, name: string)
    returns (r: Option<string>)
    ensures r == ClassAttribute(elements.getAllAnnotationMirrors(e), typeName, name)
  {
    var ms := elements.getAllAnnotationMirrors(e);
    var i := 0;
    while i < |ms|
      invariant 0 <= i <= |ms|
      invariant ClassAttribute(ms, typeName, name) == ClassAttribute(ms[i..], typeName, name)
    {
      assert ms[i..][0] == ms[i] && ms[i..][1..] == ms[i + 1..];
      if ms[i].annotationTypeName == typeName {
        var ps := ms[i].valuesWithDefaults;
        var j := 0;
        while j < |ps|
          invariant 0 <= j <= |ps|
          invariant PropertyValue(ps, name) == PropertyValue(ps[j..], name)
        {
          assert ps[j..][0] == ps[j] && ps[j..][1..] == ps[j + 1..];
          if ps[j].name == name {
            var className := ps[j].value;
            if EndsWith(className, ".class") {
              className := className[..|className| - 6];
            }
            return Some(className);
          }
          j := j + 1;
        }
        assert ps[j..] == [];
      }
      i := i + 1;
    }
    assert ms[i..] == [];
    return None;
  }

  /** The attribute is null exactly when no mirror of the annotation type has
      a property of that name; otherwise it comes from the first such mirror,
      with a ".class" suffix removed. */
  lemma {:induction false} ClassAttributeExactly(ms: seq<AnnotationMirror>, typeName: string, name: string)
    ensures ClassAttribute(ms, typeName, name).None? <==>
              forall i :: 0 <= i < |ms| && ms[i].annotationTypeName == typeName ==>
                PropertyValue(ms[i].valuesWithDefaults, name).None?
    ensures ClassAttribute(ms, typeName, name).Some? ==>
              exists i :: 0 <= i < |ms| && ms[i].annotationTypeName == typeName
                && PropertyValue(ms[i].valuesWithDefaults, name).Some?
                && ClassAttribute(ms, typeName, name).value == StripClassSuffix(PropertyValue(ms[i].valuesWithDefaults, name).value)
                && forall k :: 0 <= k < i && ms[k].annotationTypeName == typeName ==>
                     PropertyValue(ms[k].valuesWithDefaults, name).None?
  {
    if ms != [] {
      ClassAttributeExactly(ms[1..], typeName, name);
      assert forall i :: 1 <= i < |ms| ==> ms[i] == ms[1..][i - 1];
      var r := ClassAttribute(ms, typeName, name);
      if !(ms[0].annotationTypeName == typeName && PropertyValue(ms[0].valuesWithDefaults, name).Some?) {
        if r.Some? {
          var i :| 0 <= i < |ms[1..]| && ms[1..][i].annotationTypeName == typeName
                   && PropertyValue(ms[1..][i].valuesWithDefaults, name).Some?
                   && r.value == StripClassSuffix(PropertyValue(ms[1..][i].valuesWithDefaults, name).value)
                   && forall k :: 0 <= k < i && ms[1..][k].annotationTypeName == typeName ==>
                        PropertyValue(ms[1..][k].valuesWithDefaults, name).None?;
          assert ms[i + 1] == ms[1..][i];
        }
      }
    }
  }

  /** The two lookups name an annotation type differently. For a nested
      annotation type, getAnnotation finds the annotation by the class's
      binary name, while getAnnotationClassAttribute finds it only by the
      canonical name, which getAnnotation does not match. */
  lemma NestedAnnotationTypeNames(elements: Elements, e: Element, m: AnnotationMirror, name: string)
    requires AnnotationsWellFormed(elements, e) && m in elements.getAllAnnotationMirrors(e)
    requires forall m' :: m' in elements.getAllAnnotationMirrors(e) ==>
               m'.annotationTypeName != m.annotationClassName && m'.annotationClassName != m.annotationTypeName
    requires m.annotationTypeName != JAVA_DOC
    requires PropertyValue(m.valuesWithDefaults, name).Some?
    ensures GetAnnotation(elements, e, m.annotationClassName) == Some(Instance(m))
    ensures ClassAttribute(elements.getAllAnnotationMirrors(e), m.annotationClassName, name).None?
    ensures GetAnnotation(elements, e, m.annotationTypeName).None?
    ensures ClassAttribute(elements.getAllAnnotationMirrors(e), m.annotationTypeName, name).Some?
  {
    var all := elements.getAllAnnotationMirrors(e);
    var found := FindMirror(all, m.annotationClassName);
    var j :| 0 <= j < |all| && all[j] == m;
    var i :| 0 <= i < |all| && all[i] == found.value;
    assert i == j;
    ClassAttributeExactly(all, m.annotationClassName, name);
    ClassAttributeExactly(all, m.annotationTypeName, name);
  }

  /** On a well-formed element, getAnnotation finds each directly present
      annotation (the ones getAnnotationTypes lists), and finds that very
      mirror, whatever the order of getAllAnnotationMirrors. */
  lemma DirectAnnotationIsFound(elements: Elements, e: Element, m: AnnotationMirror)
    requires AnnotationsWellFormed(elements, e) && m in e.annotationMirrors
    ensures GetAnnotation(elements, e, m.annotationClassName) == Some(Instance(m))
    ensures IsAnnotated(elements, e, m.annotationClassName)
  {
    var all := elements.getAllAnnotationMirrors(e);
    var found := FindMirror(all, m.annotationClassName);
    assert m in all;
    var j :| 0 <= j < |all| && all[j] == m;
    var i :| 0 <= i < |all| && all[i] == found.value;
    assert i == j;
  }
}
