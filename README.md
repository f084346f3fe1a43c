# Extended annotation processor: the reflection wrapper, modelled in Dafny

The extended annotation processor puts an object-oriented wrapper over the Java
annotation-processing API. `Type`, `Elemental` and `Package` wrap the
compiler's elements. `ReflectionMessager` is an in-memory messager that the
test environment uses in place of the compiler's own. Almost everything else
forwards to the platform. This project models the small layer of decisions and
bookkeeping that the wrapper does itself:

- `Type.of` turns a type kind into a reflection type, a wrapped type element,
  or an exception.
- The type classification predicates (`isInteger`, `isDecimal`, `isNumber`, ...).
- The queries that walk a type's enclosed elements (enum values, fields, type
  parameters), and the walk up the superclass chain.
- `Elemental`'s modifier checks and diagnostics, and the annotation lookup
  where the synthesized JavaDoc is only a fallback.
- The JavaDoc summary, and reading a class-valued annotation attribute.
- `ReflectionMessager`'s append-only message list and its filtered query.
- `Package`'s name, its source-file naming, and how it calls the filer.

The compiler's object graph is modelled as plain values (module `LangModel`).
An `Element` has a kind, names, modifiers, annotation mirrors, enclosed
elements, type parameters, its `asType()` mirror and an optional superclass.
A `TypeMirror` has a kind, its text, and the element or component type it
carries when it is a declared or array type. The platform's `Elements`
utility and the `Filer` are code the model cannot see. Each is a record of
total functions that the caller supplies. The host compiler's `Messager` is a
class that records the diagnostics it is handed.

The files follow the source:

- `lang_model.dfy`: the platform API.
- `seqs.dfy`: order-preserving filter and map, shared by the list-building loops.
- `types.dfy`: `Type.java`.
- `elementals.dfy`: `Elemental.java`.
- `messager.dfy`: `ReflectionMessager.java`.
- `packages.dfy`: `Package.java`.

The repository holds two diverging copies of the wrapper. `Type` and
`Elemental` are modelled from the copy under `src/main`. `ReflectionMessager`
and `Package` are modelled from the copy under `extended-annotation-processor`.
Each is modelled on its own terms.

Modelling decisions that go past the text of the source:

- A mirror whose `element` is None is one that is not a `DeclaredType`. The
  cast in `Type.of` then fails, and the model returns `ClassCastException`.
  It does not forbid that input. A real array mirror is not a
  `DeclaredType` and carries no element, so for it the model also gives
  `ClassCastException`. The model keeps the shape of the case table, in
  which any ARRAY or DECLARED mirror that carries an element is wrapped.
- `toType`, used by `elementType`, is not among the modelled files. The model
  takes it to be `Type.of`.
- An annotation type has two names in the model. The binary name
  (`p.Outer$Inner`) is what `Class.getName()` gives. The canonical name
  (`p.Outer.Inner`) is what a mirror's `getAnnotationType().toString()`
  prints. The platform's `Element.getAnnotation(type)` is modelled as the
  first mirror whose type has the binary name `type.getName()`. It searches
  the mirrors that `getAllAnnotationMirrors` lists, so inherited annotations
  count. `LangModel.AnnotationsWellFormed` states what the host guarantees:
  the directly present mirrors are among those, and each annotation type
  occurs at most once, so the order of that list does not matter.
  `DirectAnnotationIsFound` proves that under these conditions every
  directly present annotation is found. `getAnnotationClassAttribute`
  compares `type.getName()` with the canonical name, as the source does. The
  two names agree for a top-level annotation type. For a nested one
  `getAnnotation` finds the annotation and `getAnnotationClassAttribute`
  does not. `NestedAnnotationTypeNames` proves this for any well-formed
  element carrying such an annotation. It needs one more condition: no
  other annotation type on the element may have the nested type's binary
  name as its canonical name, or the reverse.
- `Type.isSubclassOf` compares the canonical `getQualifiedName()` with the
  binary `Class.getName()`. So a nested class is not a subclass of its own
  class. `NestedClassNames` shows this for any type where no type on its
  superclass chain has that binary name as its canonical name.
- Elements are values. `ReflectionMessager` compares wrappers with `equals`.
  The copy under `src/main` of `Elemental` does not override `equals`. The
  model assumes the same of the copy the messager uses, which is not part
  of this model. So wrappers are told apart by object identity. The model
  gives each `ElementalOf` wrapper an `id` that stands for that identity,
  and compares wrappers by `id` only (`SameObject`).
- `TypeKind` and `ElementKind` are the Java 9 sets, the release that added
  MODULE to both. `IsVariableKind` lists the kinds whose elements are
  `VariableElement`s in that release.
- Some facts that are easy to state as "iff" are one-way. `Package.getName`
  is empty for the root package. It is also empty for the unnamed package's
  element, which is not null. So an empty name does not imply `isRoot`, and
  `IsRoot`'s contract gives the first half and `RootHasEmptyName` the second.

## Model

| member | source | states |
|---|---|---|
| Types.Of | src/main/java/com/github/t1/exap/reflection/Type.java:13-53 | a reflection type comes back exactly for the nine primitive kinds, and its class stands for that same kind; a wrapped element comes back exactly for ARRAY/DECLARED mirrors that carry one; ERROR gives "error parameter kind: K: T", the nine unexpected kinds give "unexpected parameter kind: K: T", and any other kind gives the unsupported-operation exception |
| Types.KindTableIsTotal | src/main/java/com/github/t1/exap/reflection/Type.java:15-52 | every type kind falls in exactly one row of the case table |
| Types.OfPrimitiveInjective | src/main/java/com/github/t1/exap/reflection/Type.java:16-33 | two primitive kinds give the same reflection type only when they are the same kind |
| Types.IsInteger | src/main/java/com/github/t1/exap/reflection/Type.java:101-103 | an integer type is primitive and is none of boolean, char, void, float or double |
| Types.IsDecimal | src/main/java/com/github/t1/exap/reflection/Type.java:105-107 | a decimal type is primitive and never an integer type |
| Types.IsNumber | src/main/java/com/github/t1/exap/reflection/Type.java:97-99 | a number is exactly one of BYTE, SHORT, INT, LONG, FLOAT, DOUBLE |
| Types.KindPredicatesExclusive | src/main/java/com/github/t1/exap/reflection/Type.java:89-129 | integer and decimal never both hold; char, boolean and void are not numbers; void, boolean, number and array exclude each other |
| Types.ToString | src/main/java/com/github/t1/exap/reflection/Type.java:77-79 | the text is "Type:" followed by exactly the qualified name |
| Types.ToStringInjective | src/main/java/com/github/t1/exap/reflection/Type.java:77-79 | two types print the same iff their qualified names agree |
| Types.EnumConstantNames | src/main/java/com/github/t1/exap/reflection/Type.java:120-123 | there are no more enum values than enclosed elements |
| Types.GetEnumValues | src/main/java/com/github/t1/exap/reflection/Type.java:117-125 | null iff the type is not an enum; otherwise the simple names of the ENUM_CONSTANT enclosed elements in declaration order |
| Types.EnumConstantNamesExactly | src/main/java/com/github/t1/exap/reflection/Type.java:121-123 | a name is an enum value iff some enclosed enum constant has it; the values are a subsequence of the enclosed elements' names |
| Types.ElementType | src/main/java/com/github/t1/exap/reflection/Type.java:131-135 | null exactly when the type is not an array; for an array, the component mirror's result of Type.of, or its exception |
| Types.GetTypeParameters | src/main/java/com/github/t1/exap/reflection/Type.java:137-146 | the nested loop returns the specification value: one parameter per element with its bounds, or the first exception Type.of throws |
| Types.BoundsOf | src/main/java/com/github/t1/exap/reflection/Type.java:140-142 | specification of the inner loop: when the bounds convert there is one type per declared bound |
| Types.TypeParametersOf | src/main/java/com/github/t1/exap/reflection/Type.java:137-146 | specification of the outer loop: when the parameters convert there is one entry per type parameter |
| Types.BoundsOfExactly | src/main/java/com/github/t1/exap/reflection/Type.java:141-142 | the bounds convert iff each bound does; then one type per declared bound in order; otherwise the exception of the first failing bound |
| Types.TypeParametersOfExactly | src/main/java/com/github/t1/exap/reflection/Type.java:137-146 | the parameters convert iff every parameter's bounds do; then one entry per type parameter in order, with its simple name and its converted bounds; otherwise the exception of the first parameter whose bounds fail |
| Types.IsSubclassOf | src/main/java/com/github/t1/exap/reflection/Type.java:148-156 | a type is a subclass of the name getQualifiedName() gives; a type without a superclass is a subclass of nothing else |
| Types.NestedClassNames | src/main/java/com/github/t1/exap/reflection/Type.java:148-156 | when no type on the superclass chain has a given binary name as its canonical name, isSubclassOf of that binary name fails while isSubclassOf of the type's own canonical name holds |
| Types.SuperclassChain | src/main/java/com/github/t1/exap/reflection/Type.java:162-166 | the chain is non-empty and starts with the type itself |
| Types.SuperclassChainLinks | src/main/java/com/github/t1/exap/reflection/Type.java:162-166 | each type on the chain is followed by its superclass, and the chain ends at a superclass of kind NONE |
| Types.IsSubclassOfChain | src/main/java/com/github/t1/exap/reflection/Type.java:148-160 | isSubclassOf(c) iff some type on the superclass chain, the type itself included, has qualified name c |
| Types.FieldsOf | src/main/java/com/github/t1/exap/reflection/Type.java:168-174 | there are no more fields than enclosed elements |
| Types.GetFields | src/main/java/com/github/t1/exap/reflection/Type.java:168-174 | the loop returns exactly the variable elements among the enclosed elements, in order, as fields |
| Types.FieldsOfExactly | src/main/java/com/github/t1/exap/reflection/Type.java:170-172 | an element becomes a field iff it is enclosed and is a variable element, so enum constants are fields too; the fields keep the enclosed order |
| Elementals.Is | src/main/java/com/github/t1/exap/reflection/Elemental.java:78-80 | holds iff the modifier is in the element's modifier set |
| Elementals.IsPublic | src/main/java/com/github/t1/exap/reflection/Elemental.java:66-68 | holds iff PUBLIC is in the modifier set |
| Elementals.IsStatic | src/main/java/com/github/t1/exap/reflection/Elemental.java:70-72 | holds iff STATIC is in the modifier set |
| Elementals.IsTransient | src/main/java/com/github/t1/exap/reflection/Elemental.java:74-76 | holds iff TRANSIENT is in the modifier set |
| Elementals.ModifierChecksIndependent | src/main/java/com/github/t1/exap/reflection/Elemental.java:66-80 | adding or removing any other modifier does not change a check |
| Elementals.Error | src/main/java/com/github/t1/exap/reflection/Elemental.java:45-47 | exactly one ERROR diagnostic with the text, about this element, is appended |
| Elementals.Warning | src/main/java/com/github/t1/exap/reflection/Elemental.java:49-51 | exactly one WARNING diagnostic with the text, about this element, is appended |
| Elementals.Note | src/main/java/com/github/t1/exap/reflection/Elemental.java:53-55 | exactly one NOTE diagnostic with the text, about this element, is appended |
| Elementals.GetAnnotationTypes | src/main/java/com/github/t1/exap/reflection/Elemental.java:57-64 | one annotation type per annotation mirror, in mirror order |
| Elementals.FindMirror | src/main/java/com/github/t1/exap/reflection/Elemental.java:88 | the found mirror is among the searched mirrors and its type has the asked binary name; none is found iff no mirror has that type |
| Elementals.GetAnnotation | src/main/java/com/github/t1/exap/reflection/Elemental.java:87-92 | the host's annotation, inherited ones included, always wins; a JavaDoc comes back iff there is none, JavaDoc is asked for and a doc comment exists, and it carries that comment |
| Elementals.IsAnnotated | src/main/java/com/github/t1/exap/reflection/Elemental.java:82-85 | holds iff the element carries a mirror of that class, directly or inherited, or JavaDoc is asked for and a doc comment exists |
| Elementals.DirectAnnotationIsFound | src/main/java/com/github/t1/exap/reflection/Elemental.java:57-92 | on a well-formed element, every directly present annotation that getAnnotationTypes lists is found by getAnnotation as that very mirror, and isAnnotated holds |
| Elementals.IndexOf | src/main/java/com/github/t1/exap/reflection/Elemental.java:103 | -1 iff the character is absent; otherwise the position of its first occurrence, counted in characters |
| Elementals.Value | src/main/java/com/github/t1/exap/reflection/Elemental.java:115-118 | value() is the doc comment unchanged |
| Elementals.Summary | src/main/java/com/github/t1/exap/reflection/Elemental.java:110-113 | the summary is a prefix of the doc comment and contains no '.' |
| Elementals.SummaryIsFirstSentence | src/main/java/com/github/t1/exap/reflection/Elemental.java:102-118 | the summary is a prefix of value() without '.'; it is the whole comment when there is no '.', and is followed by the first '.' otherwise |
| Elementals.StripClassSuffix | src/main/java/com/github/t1/exap/reflection/Elemental.java:140-143 | a value ending in ".class" loses exactly those 6 characters; any other value is unchanged |
| Elementals.StripClassSuffixRoundTrip | src/main/java/com/github/t1/exap/reflection/Elemental.java:141-142 | appending ".class" and stripping gives the name back |
| Elementals.PropertyValue | src/main/java/com/github/t1/exap/reflection/Elemental.java:137-139 | null iff no property has the name; otherwise the value of the first property with that name |
| Elementals.GetAnnotationClassAttribute | src/main/java/com/github/t1/exap/reflection/Elemental.java:134-146 | the nested loop with early return gives the specification value over all annotation mirrors |
| Elementals.ClassAttribute | src/main/java/com/github/t1/exap/reflection/Elemental.java:134-146 | specification of the nested loop: an attribute is found only on a mirror whose printed type name equals the asked name |
| Elementals.ClassAttributeExactly | src/main/java/com/github/t1/exap/reflection/Elemental.java:134-146 | null iff no mirror of the annotation type has the property; otherwise the stripped value from the first mirror that has it |
| Elementals.NestedAnnotationTypeNames | src/main/java/com/github/t1/exap/reflection/Elemental.java:87-146 | on a well-formed element carrying an annotation whose binary and canonical names differ, and where no other of its annotation types uses either name crosswise: getAnnotation finds it by the binary name and getAnnotationClassAttribute does not; with the canonical name the reverse holds |
| ReflectionMessagers.ReflectionMessager.constructor | extended-annotation-processor/src/main/java/com/github/t1/exap/reflection/ReflectionMessager.java:16 | a new messager has a fresh, empty message list |
| ReflectionMessagers.ReflectionMessager.Message | extended-annotation-processor/src/main/java/com/github/t1/exap/reflection/ReflectionMessager.java:69-72 | exactly one message is appended at the end and the earlier ones are unchanged |
| ReflectionMessagers.ReflectionMessager.PrintMessage | extended-annotation-processor/src/main/java/com/github/t1/exap/reflection/ReflectionMessager.java:19-20 | one message with NO_ELEMENT, the same kind and the same text is appended, whatever the kind |
| ReflectionMessagers.ReflectionMessager.PrintMessageForElement | extended-annotation-processor/src/main/java/com/github/t1/exap/reflection/ReflectionMessager.java:39-42 | with e null, appends msg + " ### null" |
| ReflectionMessagers.ReflectionMessager.PrintMessageForMirror | extended-annotation-processor/src/main/java/com/github/t1/exap/reflection/ReflectionMessager.java:45-48 | with e null, appends msg + " ### null # " + a |
| ReflectionMessagers.ReflectionMessager.PrintMessageForValue | extended-annotation-processor/src/main/java/com/github/t1/exap/reflection/ReflectionMessager.java:51-54 | with e null, appends msg + " ### null # " + a + "=" + v |
| ReflectionMessagers.ReflectionMessager.GetMessages | extended-annotation-processor/src/main/java/com/github/t1/exap/reflection/ReflectionMessager.java:56-63 | the loop returns the texts of exactly the messages with that kind whose element is the target (or any element, for ANY_ELEMENT), in insertion order, and changes nothing |
| ReflectionMessagers.ReflectionMessager.GetAllMessages | extended-annotation-processor/src/main/java/com/github/t1/exap/reflection/ReflectionMessager.java:65-67 | the stored list object itself, not a copy |
| ReflectionMessagers.Selected | extended-annotation-processor/src/main/java/com/github/t1/exap/reflection/ReflectionMessager.java:57-62 | the result is no longer than the log |
| ReflectionMessagers.SelectedExactly | extended-annotation-processor/src/main/java/com/github/t1/exap/reflection/ReflectionMessager.java:58-61 | a text is found iff some stored message with that text is selected; the result is a subsequence of the log's texts |
| ReflectionMessagers.WrappersComparedByIdentity | extended-annotation-processor/src/main/java/com/github/t1/exap/reflection/ReflectionMessager.java:59 | a query about a wrapper selects a message about a wrapper exactly when they are the same object; a message about another wrapper of the same element is not found |
| ReflectionMessagers.AnyElementFindsMore | extended-annotation-processor/src/main/java/com/github/t1/exap/reflection/ReflectionMessager.java:59 | what a query for one element finds, the ANY_ELEMENT query of the same kind finds too, in the same order, so it finds at least as many |
| ReflectionMessagers.SelectedGrows | extended-annotation-processor/src/main/java/com/github/t1/exap/reflection/ReflectionMessager.java:56-72 | appending messages only extends a query's result: the old result is a prefix of the new one |
| Packages.GetName | extended-annotation-processor/src/main/java/com/github/t1/exap/reflection/Package.java:28-30 | "" for the root package, otherwise the element's qualified name |
| Packages.IsRoot | extended-annotation-processor/src/main/java/com/github/t1/exap/reflection/Package.java:32-34 | the root package has the empty name |
| Packages.RootHasEmptyName | extended-annotation-processor/src/main/java/com/github/t1/exap/reflection/Package.java:28-34 | an empty name does not imply isRoot: the unnamed package's element is not null and has the empty name |
| Packages.SourceName | extended-annotation-processor/src/main/java/com/github/t1/exap/reflection/Package.java:45-51 | always ends with the relative name; equals it when the name is empty; otherwise starts with the name and a '.' |
| Packages.SourceNameExactly | extended-annotation-processor/src/main/java/com/github/t1/exap/reflection/Package.java:45-51 | for a non-empty name n the result is n + "." + r; distinct relative names give distinct source names |
| Packages.CreateSource | extended-annotation-processor/src/main/java/com/github/t1/exap/reflection/Package.java:36-43 | asks the filer for a source file named sourceName(r); succeeds iff the filer does, with its file; an IOException comes back wrapped as a RuntimeException |
| Packages.CreateResource | extended-annotation-processor/src/main/java/com/github/t1/exap/reflection/Package.java:58-64 | asks the filer for CLASS_OUTPUT, getName() and r; succeeds iff the filer does, with its file; an IOException comes back wrapped as a RuntimeException |
| Packages.ToString | extended-annotation-processor/src/main/java/com/github/t1/exap/reflection/Package.java:70-73 | the text is "Package:" followed by exactly getName() |
| Packages.ToStringInjective | extended-annotation-processor/src/main/java/com/github/t1/exap/reflection/Package.java:70-73 | two packages print the same iff their names agree |

## Left out

- `Type.accept` and the visitor callbacks for methods: `Method` and the visitor are not part of this model.
- The `Error` re-wrapping in `isSubclassOf`. The model's superclass walk cannot fail, because a superclass mirror is either NONE or a declared type with its element.
- Superclass mirrors of other kinds, such as ERROR for an unresolved class. They are not represented, so `getSuperClass` never goes through `Type.of`.
- Types.IsSubclassOfChain: interfaces are not in the element model, because `isSubclassOf` never reads them (the source leaves interface checks as a TODO).
- `isVoid`, `isBoolean`, `isString`, `isEnum` and `isArray` are plain kind or name tests. They are stated only through `Types.KindPredicatesExclusive` and the members that use them.
- `getQualifiedName`, `getSimpleName`, `env()`, `getElement()`, `elements()`, `types()`, `messager()`, `docComment()`: field reads and delegation to the platform.
- `ReflectionType`, `AnnotationType`, `TypeParameter`, `Field`, `Resource`, `Message` and `TypeGenerator`: their classes are not part of this model. Each appears as a record that keeps only what the model reads. `AnnotationType` keeps the qualified name of its type element. `ReflectionType` keeps the primitive class and drops the processing environment, as do the others.
- `Package.openTypeGenerator`: `TypeGenerator` is not part of this model.
- `Package.getElement` and `Package`'s `Elemental` superclass: that version of `Elemental` is not part of this model.
- `Package.ToString`: a subclass of `Package` would print its own simple name. Only a plain `Package` is modelled.
- The slf4j logging in `ReflectionMessager`, including the log-level switch in `printMessage`: it does not affect the stored messages.
- ReflectionMessagers.ReflectionMessager.PrintMessageForElement, ReflectionMessagers.ReflectionMessager.PrintMessageForMirror, ReflectionMessagers.ReflectionMessager.PrintMessageForValue: the Java `assert e == null` becomes a precondition of each. With assertions disabled here, the element's own `toString` would be appended, and the model does not cover that.
- `ReflectionProcessingEnvironment`, `Round`, `SupportedAnnotationClasses` and the test annotation processor: delegation, metadata and I/O glue.
- Elementals.HostAnnotation: the host's rules for inherited annotations (only `@Inherited` types, only from superclasses of a class) are not derived. The model takes the mirrors that `getAllAnnotationMirrors` lists, in its order.
- The host compiler's own behaviour (type utilities, the real filer, the real messager, `getAllAnnotationMirrors`, `getDocComment`). These are parameters or recorded values, not verified behaviour.
