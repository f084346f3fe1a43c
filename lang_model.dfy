/** The host compiler's annotation-processing API (javax.lang.model and
    javax.annotation.processing), abstracted as plain values. The wrapper
    layer only reads these objects, so each one becomes a datatype holding
    exactly the facts the wrapper asks of it. */
module LangModel {

  datatype Option<+T> = None | Some(value: T)

  /** A value, or the exception that a Java method throws instead. */
  datatype Result<+T, +E> = Ok(value: T) | Err(error: E)

  /** javax.lang.model.type.TypeKind, as of Java 9 (the release that added
      MODULE; later releases add no kind). */
  datatype TypeKind =
    | BOOLEAN | BYTE | SHORT | INT | LONG | CHAR | FLOAT | DOUBLE | VOID
    | NONE | NULL | ARRAY | DECLARED | ERROR | TYPEVAR | WILDCARD | PACKAGE
    | EXECUTABLE | OTHER | UNION | INTERSECTION | MODULE

  /** The name of a type kind, as Java's enum toString prints it. */
  function TypeKindName(k: TypeKind): string {
    match k
    case BOOLEAN => "BOOLEAN"
    case BYTE => "BYTE"
    case SHORT => "SHORT"
    case INT => "INT"
    case LONG => "LONG"
    case CHAR => "CHAR"
    case FLOAT => "FLOAT"
    case DOUBLE => "DOUBLE"
    case VOID => "VOID"
    case NONE => "NONE"
    case NULL => "NULL"
    case ARRAY => "ARRAY"
    case DECLARED => "DECLARED"
    case ERROR => "ERROR"
    case TYPEVAR => "TYPEVAR"
    case WILDCARD => "WILDCARD"
    case PACKAGE => "PACKAGE"
    case EXECUTABLE => "EXECUTABLE"
    case OTHER => "OTHER"
    case UNION => "UNION"
    case INTERSECTION => "INTERSECTION"
    case MODULE => "MODULE"
  }

  /** javax.lang.model.element.ElementKind, as of Java 9, the same release
      as TypeKind above. */
  datatype ElementKind =
    | PACKAGE | ENUM | CLASS | ANNOTATION_TYPE | INTERFACE | ENUM_CONSTANT
    | FIELD | PARAMETER | LOCAL_VARIABLE | EXCEPTION_PARAMETER | METHOD
    | CONSTRUCTOR | STATIC_INIT | INSTANCE_INIT | TYPE_PARAMETER | OTHER
    | RESOURCE_VARIABLE | MODULE

  /** The element kinds whose elements implement VariableElement in Java 9. */
  predicate IsVariableKind(k: ElementKind) {
    k == ENUM_CONSTANT || k == FIELD || k == PARAMETER || k == LOCAL_VARIABLE
    || k == EXCEPTION_PARAMETER || k == RESOURCE_VARIABLE
  }

  /** javax.lang.model.element.Modifier */
  datatype Modifier =
    | PUBLIC | PROTECTED | PRIVATE | ABSTRACT | DEFAULT | STATIC | FINAL
    | TRANSIENT | VOLATILE | SYNCHRONIZED | NATIVE | STRICTFP

  /** javax.tools.Diagnostic.Kind */
  datatype DiagnosticKind = ERROR | WARNING | MANDATORY_WARNING | NOTE | OTHER

  /** One property of an annotation mirror, as getElementValuesWithDefaults
      lists it: the simple name of the annotation method and the toString of
      its AnnotationValue. */
  datatype AnnotationProperty = AnnotationProperty(name: string, value: string)

  /** An AnnotationMirror. Its annotation type has two names: the binary
      name (`annotationClassName`, what Class.getName() gives and what the
      host's Element.getAnnotation matches on, `p.Outer$Inner` for a nested
      type) and the canonical name (`annotationTypeName`, what
      getAnnotationType().toString() prints and the type element's qualified
      name, `p.Outer.Inner`). The two agree for a top-level annotation type.
      Then come the properties with defaults in the host's order, and the
      mirror's own toString. */
  datatype AnnotationMirror = AnnotationMirror(
    annotationClassName: string,
    annotationTypeName: string,
    valuesWithDefaults: seq<AnnotationProperty>,
    display: string)

  /** An AnnotationValue, known only through its toString. */
  datatype AnnotationValue = AnnotationValue(display: string)

  /** A TypeMirror. `element` is what asElement() gives when the mirror is a
      DeclaredType, and None when it is not one (a cast to DeclaredType then
      fails); `component` is the component type when the mirror is an
      ArrayType, and None when it is not one. `display` is its toString. */
  datatype TypeMirror = TypeMirror(
    kind: TypeKind,
    display: string,
    element: Option<Element>,
    component: Option<TypeMirror>)

  /** A TypeParameterElement: its simple name and its declared bounds. */
  datatype TypeParameterElement = TypeParameterElement(simpleName: string, bounds: seq<TypeMirror>)

  /** An Element with everything the wrapper reads from it. For a TypeElement,
      `superclass` is the element of getSuperclass(), or None when that mirror
      has kind NONE (java.lang.Object, interfaces). */
  datatype Element = Element(
    kind: ElementKind,
    simpleName: string,
    qualifiedName: string,
    modifiers: set<Modifier>,
    annotationMirrors: seq<AnnotationMirror>,
    enclosedElements: seq<Element>,
    typeParameters: seq<TypeParameterElement>,
    asType: TypeMirror,
    superclass: Option<Element>)

  /** The javax.lang.model.util.Elements utility: code the model cannot see,
      so it is a pair of total functions supplied by the environment. */
  datatype Elements = Elements(
    getDocComment: Element -> Option<string>,
    getAllAnnotationMirrors: Element -> seq<AnnotationMirror>)

  /** What the host guarantees about an element's annotation mirrors: its
      directly present mirrors are among all of its mirrors, and each
      annotation type occurs at most once among all of them (an inherited
      annotation is listed only when the element has none of that type), so
      the order of that list does not matter. */
  predicate AnnotationsWellFormed(elements: Elements, e: Element) {
    (forall m :: m in e.annotationMirrors ==> m in elements.getAllAnnotationMirrors(e))
    && (forall i, j :: 0 <= i < j < |elements.getAllAnnotationMirrors(e)| ==>
          elements.getAllAnnotationMirrors(e)[i].annotationClassName
          != elements.getAllAnnotationMirrors(e)[j].annotationClassName)
  }

  /** javax.tools.StandardLocation (the locations the wrapper names). */
  datatype Location = SOURCE_OUTPUT | CLASS_OUTPUT

  /** A FileObject handed out by the filer, known only by identity. */
  datatype FileObject = FileObject(id: nat)

  /** A java.io.IOException, known only by its message. */
  datatype IOException = IOException(message: string)

  /** The javax.annotation.processing.Filer: both calls either hand out a
      file object or throw an IOException. */
  datatype Filer = Filer(
    createSourceFile: string -> Result<FileObject, IOException>,
    createResource: (Location, string, string) -> Result<FileObject, IOException>)

  /** One diagnostic handed to the host compiler's messager. */
  datatype Diagnostic = Diagnostic(kind: DiagnosticKind, text: string, element: Option<Element>)

  /** The host compiler's Messager, observed as the list of diagnostics it
      has been handed. */
  class HostMessager {
    var printed: seq<Diagnostic>

    constructor ()
      ensures printed == []
    {
      printed := [];
    }

    /** printMessage(kind, msg, e) */
    method PrintMessage(kind: DiagnosticKind, msg: string, e: Element)
      modifies this
      ensures printed == old(printed) + [Diagnostic(kind, msg, Some(e))]
    {
      printed := printed + [Diagnostic(kind, msg, Some(e))];
    }
  }
}
