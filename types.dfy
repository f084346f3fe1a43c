/** The `Type` wrapper over a TypeElement: the kind dispatch of `Type.of`,
    the classification predicates, the enclosed-element queries and the
    walk up the superclass chain. */
module Types {
  import opened LangModel
  import Seqs

  /** The Java class objects `boolean.class` ... `void.class` that a
      ReflectionType is built from. */
  datatype PrimitiveClass =
    | BooleanClass | ByteClass | CharClass | DoubleClass | FloatClass
    | IntClass | LongClass | ShortClass | VoidClass

  /** The type kind a primitive class object stands for. */
  function PrimitiveKind(c: PrimitiveClass): TypeKind {
    match c
    case BooleanClass => BOOLEAN
    case ByteClass => BYTE
    case CharClass => CHAR
    case DoubleClass => DOUBLE
    case FloatClass => FLOAT
    case IntClass => INT
    case LongClass => LONG
    case ShortClass => SHORT
    case VoidClass => VOID
  }

  predicate IsPrimitiveKind(k: TypeKind) {
    k == BOOLEAN || k == BYTE || k == CHAR || k == DOUBLE || k == FLOAT
    || k == INT || k == LONG || k == SHORT || k == VOID
  }

  /** The kinds that `Type.of` rejects as unexpected. */
  predicate IsUnexpectedKind(k: TypeKind) {
    k == EXECUTABLE || k == INTERSECTION || k == NONE || k == NULL || k == TypeKind.OTHER
    || k == TypeKind.PACKAGE || k == TYPEVAR || k == UNION || k == WILDCARD
  }

  /** What `Type.of` returns: a reflection type for a primitive, or a `Type`
      wrapping a type element. */
  datatype Type = ReflectionType(javaClass: PrimitiveClass) | TypeOf(element: Element)

  /** The exceptions the wrapper throws. */
  datatype Exception =
    | RuntimeException(message: string)
    | UnsupportedOperationException(message: string)
    | ClassCastException

  /** "<word> parameter kind: <kind>: <mirror>" */
  function KindMessage(word: string, m: TypeMirror): string {
    word + " parameter kind: " + TypeKindName(m.kind) + ": " + m.display
  }

  /** Type.of: dispatch on the mirror's kind. */
  function Of(m: TypeMirror): (r: Result<Type, Exception>)
    ensures (r.Ok? && r.value.ReflectionType?) <==> IsPrimitiveKind(m.kind)
    ensures r.Ok? && r.value.ReflectionType? ==> PrimitiveKind(r.value.javaClass) == m.kind
    ensures (r.Ok? && r.value.TypeOf?) <==> (m.kind == ARRAY || m.kind == DECLARED) && m.element.Some?
    ensures r.Ok? && r.value.TypeOf? ==> m.element == Some(r.value.element)
    ensures (m.kind == ARRAY || m.kind == DECLARED) && m.element.None? ==> r == Err(ClassCastException)
    ensures m.kind == TypeKind.ERROR ==> r == Err(RuntimeException(KindMessage("error", m)))
    ensures IsUnexpectedKind(m.kind) ==> r == Err(RuntimeException(KindMessage("unexpected", m)))
    ensures m.kind == TypeKind.MODULE ==> r == Err(UnsupportedOperationException(KindMessage("unsupported", m)))
  {
    match m.kind
    case BOOLEAN => Ok(ReflectionType(BooleanClass))
    case BYTE => Ok(ReflectionType(ByteClass))
    case CHAR => Ok(ReflectionType(CharClass))
    case DOUBLE => Ok(ReflectionType(DoubleClass))
    case FLOAT => Ok(ReflectionType(FloatClass))
    case INT => Ok(ReflectionType(IntClass))
    case LONG => Ok(ReflectionType(LongClass))
    case SHORT => Ok(ReflectionType(ShortClass))
    case VOID => Ok(ReflectionType(VoidClass))
    case ARRAY => Declared(m)
    case DECLARED => Declared(m)
    case ERROR => Err(RuntimeException(KindMessage("error", m)))
    case EXECUTABLE => Unexpected(m)
    case INTERSECTION => Unexpected(m)
    case NONE => Unexpected(m)
    case NULL => Unexpected(m)
    case OTHER => Unexpected(m)
    case PACKAGE => Unexpected(m)
    case TYPEVAR => Unexpected(m)
    case UNION => Unexpected(m)
    case WILDCARD => Unexpected(m)
    case MODULE => Err(UnsupportedOperationException(KindMessage("unsupported", m)))
  }

  /** The ARRAY/DECLARED branch: cast to DeclaredType, then wrap asElement(). */
  function Declared(m: TypeMirror): Result<Type, Exception> {
    match m.element
    case Some(e) => Ok(TypeOf(e))
    case None => Err(ClassCastException)
  }

  function Unexpected(m: TypeMirror): Result<Type, Exception> {
    Err(RuntimeException(KindMessage("unexpected", m)))
  }

  /** Every type kind falls in exactly one row of the case table of Type.of. */
  lemma KindTableIsTotal(k: TypeKind)
    ensures IsPrimitiveKind(k) || k == ARRAY || k == DECLARED || k == TypeKind.ERROR
            || IsUnexpectedKind(k) || k == TypeKind.MODULE
    ensures IsPrimitiveKind(k) ==> !IsUnexpectedKind(k) && k !in {ARRAY, DECLARED, TypeKind.ERROR, TypeKind.MODULE}
    ensures IsUnexpectedKind(k) ==> k !in {ARRAY, DECLARED, TypeKind.ERROR, TypeKind.MODULE}
  {
  }

  /** Distinct primitive kinds give distinct reflection types. */
  lemma {:induction false} OfPrimitiveInjective(m1: TypeMirror, m2: TypeMirror)
    requires IsPrimitiveKind(m1.kind) && IsPrimitiveKind(m2.kind)
    requires Of(m1) == Of(m2)
    ensures m1.kind == m2.kind
  {
    assert PrimitiveKind(Of(m1).value.javaClass) == m1.kind;
    assert PrimitiveKind(Of(m2).value.javaClass) == m2.kind;
  }

  // ---- queries on a Type, i.e. on the TypeElement it wraps ----

  function TypeKindOf(t: Element): TypeKind {
    t.asType.kind
  }

  predicate IsVoid(t: Element) {
    TypeKindOf(t) == VOID
  }

  predicate IsBoolean(t: Element) {
    TypeKindOf(t) == BOOLEAN
  }

  predicate IsInteger(t: Element)
    ensures IsInteger(t) ==> IsPrimitiveKind(TypeKindOf(t)) && TypeKindOf(t) !in {BOOLEAN, CHAR, VOID, FLOAT, DOUBLE}
  {
    var k := TypeKindOf(t);
    k == BYTE || k == SHORT || k == INT || k == LONG
  }

  predicate IsDecimal(t: Element)
    ensures IsDecimal(t) ==> IsPrimitiveKind(TypeKindOf(t)) && !IsInteger(t)
  {
    var k := TypeKindOf(t);
    k == FLOAT || k == DOUBLE
  }

  predicate IsNumber(t: Element)
    ensures IsNumber(t) <==> TypeKindOf(t) in {BYTE, SHORT, INT, LONG, FLOAT, DOUBLE}
  {
    IsInteger(t) || IsDecimal(t)
  }

  predicate IsString(t: Element) {
    t.qualifiedName == "java.lang.String"
  }

  predicate IsEnum(t: Element) {
    t.kind == ENUM
  }

  predicate IsArray(t: Element) {
    TypeKindOf(t) == ARRAY
  }

  /** The classification predicates never overlap: a type is at most one of
      void, boolean, integer, decimal and array, and char, boolean and void
      are not numbers. */
  lemma KindPredicatesExclusive(t: Element)
    ensures !(IsInteger(t) && IsDecimal(t))
    ensures TypeKindOf(t) in {CHAR, BOOLEAN, VOID} ==> !IsNumber(t)
    ensures IsVoid(t) ==> !IsBoolean(t) && !IsNumber(t) && !IsArray(t)
    ensures IsBoolean(t) ==> !IsNumber(t) && !IsArray(t)
    ensures IsNumber(t) ==> !IsArray(t)
  {
  }

  /** toString: "Type:" followed by the qualified name. */
  function ToString(t: Element): (r: string)
    ensures |r| == 5 + |t.qualifiedName|
    ensures r[..5] == "Type:" && r[5..] == t.qualifiedName
  {
    "Type:" + t.qualifiedName
  }

  /** Two types print the same exactly when their qualified names agree. */
  lemma ToStringInjective(a: Element, b: Element)
    ensures ToString(a) == ToString(b) <==> a.qualifiedName == b.qualifiedName
  {
    if ToString(a) == ToString(b) {
      assert ToString(a)[5..] == ToString(b)[5..];
    }
  }

  // ---- enum constants ----

  predicate IsEnumConstant(e: Element) {
    e.kind == ENUM_CONSTANT
  }

  function SimpleName(e: Element): string {
    e.simpleName
  }

  /** The simple names of the enum constants among `s`, in order. */
  function EnumConstantNames(s: seq<Element>): (r: seq<string>)
    ensures |r| <= |s|
  {
    Seqs.Map(SimpleName, Seqs.Filter(s, IsEnumConstant))
  }

  /** getEnumValues */
  method GetEnumValues(t: Element) returns (r: Option<seq<string>>)
    ensures r.None? <==> !IsEnum(t)
    ensures r.Some? ==> r.value == EnumConstantNames(t.enclosedElements)
  {
    if !IsEnum(t) {
      return None;
    }
    var s := t.enclosedElements;
    var values: seq<string> := [];
    var i := 0;
    while i < |s|
      invariant 0 <= i <= |s|
      invariant values == EnumConstantNames(s[..i])
    {
      Seqs.MapFilterSnoc(SimpleName, s[..i], IsEnumConstant, s[i]);
      assert s[..i + 1] == s[..i] + [s[i]];
      if s[i].kind == ENUM_CONSTANT {
        values := values + [s[i].simpleName];
      }
      i := i + 1;
    }
    assert s[..i] == s;
    return Some(values);
  }

  /** A name is an enum value exactly when some enclosed enum constant has
      that simple name; the values are the constants' names in declaration
      order (a subsequence of all the enclosed elements' names). */
  lemma EnumConstantNamesExactly(s: seq<Element>, x: string)
    ensures x in EnumConstantNames(s) <==> exists e :: e in s && e.kind == ENUM_CONSTANT && e.simpleName == x
    ensures Seqs.IsSubsequence(EnumConstantNames(s), Seqs.Map(SimpleName, s))
  {
    var kept := Seqs.Filter(s, IsEnumConstant);
    if x in EnumConstantNames(s) {
      var i :| 0 <= i < |kept| && Seqs.Map(SimpleName, kept)[i] == x;
      assert kept[i] in kept;
    }
    if e :| e in s && e.kind == ENUM_CONSTANT && e.simpleName == x {
      Seqs.FilterKeeps(s, IsEnumConstant, e);
      var i :| 0 <= i < |kept| && kept[i] == e;
      assert Seqs.Map(SimpleName, kept)[i] == x;
    }
    Seqs.FilterIsSubsequence(s, IsEnumConstant);
    Seqs.MapSubsequence(SimpleName, kept, s);
  }

  // ---- array component ----

  /** elementType: the component type of an array type, and null otherwise.
      The component mirror goes through Type.of (as toType). */
  function ElementType(t: Element): (r: Result<Option<Type>, Exception>)
    ensures !IsArray(t) <==> r == Ok(None)
    ensures IsArray(t) && t.asType.component.None? ==> r == Err(ClassCastException)
    ensures IsArray(t) && t.asType.component.Some? ==>
              match Of(t.asType.component.value)
              case Ok(c) => r == Ok(Some(c))
              case Err(e) => r == Err(e)
  {
    if !IsArray(t) then Ok(None)
    else match t.asType.component
      case None => Err(ClassCastException)
      case Some(c) =>
        match Of(c)
        case Ok(x) => Ok(Some(x))
        case Err(e) => Err(e)
  }

  // ---- type parameters ----

  /** A TypeParameter: its simple name and its bounds as types. */
  datatype TypeParameter = TypeParameter(name: string, bounds: seq<Type>)

  /** `acc` placed before a successful result; an error goes through. */
  function Prefixed<T>(acc: seq<T>, r: Result<seq<T>, Exception>): Result<seq<T>, Exception> {
    match r
    case Ok(v) => Ok(acc + v)
    case Err(e) => Err(e)
  }

  lemma PrefixedNothing<T>(r: Result<seq<T>, Exception>)
    ensures Prefixed([], r) == r
  {
    if r.Ok? {
      assert [] + r.value == r.value;
    }
  }

  /** Type.of applied to each bound in order; the first exception wins. */
  function BoundsOf(bs: seq<TypeMirror>): (r: Result<seq<Type>, Exception>)
    ensures r.Ok? ==> |r.value| == |bs|
  {
    if bs == [] then Ok([])
    else match Of(bs[0])
      case Err(e) => Err(e)
      case Ok(b) => Prefixed([b], BoundsOf(bs[1..]))
  }

  /** getTypeParameters, as a value: one TypeParameter per element, with its
      bounds; the first exception from Type.of wins. */
  function TypeParametersOf(ps: seq<TypeParameterElement>): (r: Result<seq<TypeParameter>, Exception>)
    ensures r.Ok? ==> |r.value| == |ps|
  {
    if ps == [] then Ok([])
    else match BoundsOf(ps[0].bounds)
      case Err(e) => Err(e)
      case Ok(bounds) => Prefixed([TypeParameter(ps[0].simpleName, bounds)], TypeParametersOf(ps[1..]))
  }

  /** getTypeParameters: the nested loop; an exception from Type.of ends it. */
  method GetTypeParameters(t: Element) returns (r: Result<seq<TypeParameter>, Exception>)
    ensures r == TypeParametersOf(t.typeParameters)
  {
    var ps := t.typeParameters;
    var result: seq<TypeParameter> := [];
    var i := 0;
    assert ps[i..] == ps;
    PrefixedNothing(TypeParametersOf(ps));
    while i < |ps|
      invariant 0 <= i <= |ps|
      invariant TypeParametersOf(ps) == Prefixed(result, TypeParametersOf(ps[i..]))
    {
      var bs := ps[i].bounds;
      var bounds: seq<Type> := [];
      var j := 0;
      assert bs[j..] == bs;
      PrefixedNothing(BoundsOf(bs));
      while j < |bs|
        invariant 0 <= j <= |bs|
        invariant BoundsOf(bs) == Prefixed(bounds, BoundsOf(bs[j..]))
      {
        BoundsStep(bs, j);
        var b := Of(bs[j]);
        if b.Err? {
          ParametersStep(ps, i);
          return Err(b.error);
        }
        PrefixedSnoc(bounds, b.value, BoundsOf(bs[j + 1..]));
        bounds := bounds + [b.value];
        j := j + 1;
      }
      assert bs[j..] == [];
      assert bounds + [] == bounds;
      ParametersStep(ps, i);
      PrefixedSnoc(result, TypeParameter(ps[i].simpleName, bounds), TypeParametersOf(ps[i + 1..]));
      result := result + [TypeParameter(ps[i].simpleName, bounds)];
      i := i + 1;
    }
    assert ps[i..] == [];
    assert result + [] == result;
    return Ok(result);
  }

  lemma PrefixedSnoc<T>(acc: seq<T>, x: T, r: Result<seq<T>, Exception>)
    ensures Prefixed(acc, Prefixed([x], r)) == Prefixed(acc + [x], r)
  {
    if r.Ok? {
      assert acc + ([x] + r.value) == (acc + [x]) + r.value;
    }
  }

  lemma BoundsStep(bs: seq<TypeMirror>, j: nat)
    requires j < |bs|
    ensures BoundsOf(bs[j..]) == match Of(bs[j])
                                 case Err(e) => Err(e)
                                 case Ok(b) => Prefixed([b], BoundsOf(bs[j + 1..]))
  {
    assert bs[j..][0] == bs[j] && bs[j..][1..] == bs[j + 1..];
  }

  lemma ParametersStep(ps: seq<TypeParameterElement>, i: nat)
    requires i < |ps|
    ensures TypeParametersOf(ps[i..]) == match BoundsOf(ps[i].bounds)
                                         case Err(e) => Err(e)
                                         case Ok(bounds) => Prefixed([TypeParameter(ps[i].simpleName, bounds)], TypeParametersOf(ps[i + 1..]))
  {
    assert ps[i..][0] == ps[i] && ps[i..][1..] == ps[i + 1..];
  }

  /** BoundsOf succeeds exactly when every bound converts, and then holds
      one type per bound in order; otherwise it holds the exception of the
      first bound that does not convert. */
  lemma {:induction false} BoundsOfExactly(bs: seq<TypeMirror>)
    ensures BoundsOf(bs).Ok? <==> forall j :: 0 <= j < |bs| ==> Of(bs[j]).Ok?
    ensures BoundsOf(bs).Ok? ==>
              |BoundsOf(bs).value| == |bs| && forall j :: 0 <= j < |bs| ==> Of(bs[j]) == Ok(BoundsOf(bs).value[j])
    ensures BoundsOf(bs).Err? ==>
              exists j :: 0 <= j < |bs| && Of(bs[j]) == Err(BoundsOf(bs).error) && forall k :: 0 <= k < j ==> Of(bs[k]).Ok?
  {
    if bs != [] {
      BoundsOfExactly(bs[1..]);
      if Of(bs[0]).Ok? {
        var rest := BoundsOf(bs[1..]);
        if rest.Err? {
          var j :| 0 <= j < |bs[1..]| && Of(bs[1..][j]) == Err(rest.error)
                   && forall k :: 0 <= k < j ==> Of(bs[1..][k]).Ok?;
          assert Of(bs[j + 1]) == Err(BoundsOf(bs).error);
          assert forall k :: 0 <= k < j + 1 ==> Of(bs[k]).Ok? by {
            forall k | 0 <= k < j + 1 ensures Of(bs[k]).Ok? {
              if k > 0 { assert bs[k] == bs[1..][k - 1]; }
            }
          }
        } else {
          forall j | 0 <= j < |bs| ensures Of(bs[j]) == Ok(BoundsOf(bs).value[j]) {
            if j > 0 { assert bs[j] == bs[1..][j - 1]; }
          }
        }
        if forall j :: 0 <= j < |bs| ==> Of(bs[j]).Ok? {
          forall j | 0 <= j < |bs[1..]| ensures Of(bs[1..][j]).Ok? {
            assert bs[1..][j] == bs[j + 1];
          }
        }
      }
    }
  }

  /** getTypeParameters succeeds exactly when every bound of every parameter
      converts, and then yields one entry per parameter, in order, with the
      parameter's simple name and one type per declared bound. */
  lemma {:induction false} TypeParametersOfExactly(ps: seq<TypeParameterElement>)
    ensures TypeParametersOf(ps).Ok? <==> forall i :: 0 <= i < |ps| ==> BoundsOf(ps[i].bounds).Ok?
    ensures TypeParametersOf(ps).Ok? ==>
              |TypeParametersOf(ps).value| == |ps| &&
              forall i :: 0 <= i < |ps| ==>
                TypeParametersOf(ps).value[i] == TypeParameter(ps[i].simpleName, BoundsOf(ps[i].bounds).value)
    ensures TypeParametersOf(ps).Err? ==>
              exists i :: 0 <= i < |ps| && BoundsOf(ps[i].bounds) == Err(TypeParametersOf(ps).error)
                && forall k :: 0 <= k < i ==> BoundsOf(ps[k].bounds).Ok?
  {
    TypeParametersOfFirstError(ps);
    if ps != [] {
      TypeParametersOfExactly(ps[1..]);
      if BoundsOf(ps[0].bounds).Ok? {
        if TypeParametersOf(ps[1..]).Ok? {
          forall i | 0 <= i < |ps|
            ensures TypeParametersOf(ps).value[i] == TypeParameter(ps[i].simpleName, BoundsOf(ps[i].bounds).value)
          {
            if i > 0 { assert ps[i] == ps[1..][i - 1]; }
          }
        }
        if forall i :: 0 <= i < |ps| ==> BoundsOf(ps[i].bounds).Ok? {
          forall i | 0 <= i < |ps[1..]| ensures BoundsOf(ps[1..][i].bounds).Ok? {
            assert ps[1..][i] == ps[i + 1];
          }
        }
      }
    }
  }

  /** A failing getTypeParameters fails with the exception of the first
      parameter whose bounds do not convert. */
  lemma {:induction false} TypeParametersOfFirstError(ps: seq<TypeParameterElement>)
    ensures TypeParametersOf(ps).Err? ==>
              exists i :: 0 <= i < |ps| && BoundsOf(ps[i].bounds) == Err(TypeParametersOf(ps).error)
                && forall k :: 0 <= k < i ==> BoundsOf(ps[k].bounds).Ok?
  {
    if ps != [] {
      if BoundsOf(ps[0].bounds).Err? {
        assert BoundsOf(ps[0].bounds) == Err(TypeParametersOf(ps).error);
      } else {
        TypeParametersOfFirstError(ps[1..]);
        var rest := TypeParametersOf(ps[1..]);
        if rest.Err? {
          var i :| 0 <= i < |ps[1..]| && BoundsOf(ps[1..][i].bounds) == Err(rest.error)
                   && forall k :: 0 <= k < i ==> BoundsOf(ps[1..][k].bounds).Ok?;
          assert ps[i + 1] == ps[1..][i];
          assert TypeParametersOf(ps).error == rest.error;
          forall k | 0 <= k < i + 1 ensures BoundsOf(ps[k].bounds).Ok? {
            if k > 0 { assert ps[k] == ps[1..][k - 1]; }
          }
        }
      }
    }
  }

  // ---- superclass chain ----

  /** isSubclassOf(c): this type or a type up its superclass chain has the
      qualified name `c` (the Class object's getName()). */
  predicate IsSubclassOf(t: Element, c: string)
    ensures t.qualifiedName == c ==> IsSubclassOf(t, c)
    ensures t.superclass.None? ==> (IsSubclassOf(t, c) <==> t.qualifiedName == c)
  {
    t.qualifiedName == c || (t.superclass.Some? && IsSubclassOf(t.superclass.value, c))
  }

  /** Type.java compares the canonical getQualifiedName() with the binary
      Class.getName(). For a nested class the two differ, so isSubclassOf
      of its own class is false whenever no type up its superclass chain
      happens to carry the binary name as its canonical name. */
  lemma {:induction false} NestedClassNames(t: Element, binaryName: string)
    requires forall e :: e in SuperclassChain(t) ==> e.qualifiedName != binaryName
    ensures IsSubclassOf(t, t.qualifiedName) && !IsSubclassOf(t, binaryName)
  {
    IsSubclassOfChain(t, binaryName);
  }

  /** The superclass chain, starting with the type itself and ending with the
      first type whose superclass has kind NONE. */
  function SuperclassChain(t: Element): (r: seq<Element>)
    ensures |r| >= 1 && r[0] == t
  {
    [t] + match t.superclass
          case None => []
          case Some(s) => SuperclassChain(s)
  }

  /** The chain links each type to its superclass and stops at NONE. */
  lemma {:induction false} SuperclassChainLinks(t: Element)
    ensures var ch := SuperclassChain(t);
            ch[|ch| - 1].superclass.None? &&
            forall i :: 0 <= i < |ch| - 1 ==> ch[i].superclass == Some(ch[i + 1])
  {
    if t.superclass.Some? {
      var s := t.superclass.value;
      SuperclassChainLinks(s);
      var ch := SuperclassChain(t);
      assert ch == [t] + SuperclassChain(s);
      forall i | 0 <= i < |ch| - 1 ensures ch[i].superclass == Some(ch[i + 1]) {
        if i > 0 { assert ch[i] == SuperclassChain(s)[i - 1]; }
      }
    }
  }

  /** isSubclassOf holds exactly when some type on the chain carries the name. */
  lemma {:induction false} IsSubclassOfChain(t: Element, c: string)
    ensures IsSubclassOf(t, c) <==> exists e :: e in SuperclassChain(t) && e.qualifiedName == c
  {
    var ch := SuperclassChain(t);
    if t.superclass.None? {
      assert ch == [t];
    } else {
      var s := t.superclass.value;
      IsSubclassOfChain(s, c);
      assert ch == [t] + SuperclassChain(s);
      if IsSubclassOf(t, c) && t.qualifiedName != c {
        var e :| e in SuperclassChain(s) && e.qualifiedName == c;
        assert e in ch;
      }
    }
    if t.qualifiedName == c {
      assert t in ch;
    }
  }

  // ---- fields ----

  /** A Field, wrapping a VariableElement. */
  datatype Field = Field(element: Element)

  predicate IsVariableElement(e: Element) {
    IsVariableKind(e.kind)
  }

  function AsField(e: Element): Field {
    Field(e)
  }

  /** The enclosed elements that are variable elements, as fields, in order. */
  function FieldsOf(s: seq<Element>): (r: seq<Field>)
    ensures |r| <= |s|
  {
    Seqs.Map(AsField, Seqs.Filter(s, IsVariableElement))
  }

  /** getFields */
  method GetFields(t: Element) returns (fields: seq<Field>)
    ensures fields == FieldsOf(t.enclosedElements)
  {
    var s := t.enclosedElements;
    fields := [];
    var i := 0;
    while i < |s|
      invariant 0 <= i <= |s|
      invariant fields == FieldsOf(s[..i])
    {
      Seqs.MapFilterSnoc(AsField, s[..i], IsVariableElement, s[i]);
      assert s[..i + 1] == s[..i] + [s[i]];
      if IsVariableKind(s[i].kind) {
        fields := fields + [Field(s[i])];
      }
      i := i + 1;
    }
    assert s[..i] == s;
  }

  /** Exactly the variable elements become fields, in their order; enum
      constants, being variable elements, are among them. */
  lemma FieldsOfExactly(s: seq<Element>, e: Element)
    ensures Field(e) in FieldsOf(s) <==> e in s && IsVariableKind(e.kind)
    ensures e in s && e.kind == ENUM_CONSTANT ==> Field(e) in FieldsOf(s)
    ensures Seqs.IsSubsequence(FieldsOf(s), Seqs.Map(AsField, s))
  {
    var kept := Seqs.Filter(s, IsVariableElement);
    if Field(e) in FieldsOf(s) {
      var i :| 0 <= i < |kept| && Seqs.Map(AsField, kept)[i] == Field(e);
      assert kept[i] in kept;
    }
    if e in s && IsVariableKind(e.kind) {
      Seqs.FilterKeeps(s, IsVariableElement, e);
      var i :| 0 <= i < |kept| && kept[i] == e;
      assert Seqs.Map(AsField, kept)[i] == Field(e);
    }
    Seqs.FilterIsSubsequence(s, IsVariableElement);
    Seqs.MapSubsequence(AsField, kept, s);
  }
}
