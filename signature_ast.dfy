/**
 * The signature AST: the nodes a method type signature is built from, their descriptor
 * encoding (the text the grammar reads), their canonical rendering (`toString`), the class
 * names they reference and the type-variable occurrences they contain.
 *
 * The node classes (`TypeSignature`, `ClassRefTypeSignature`, `TypeVariableSignature`,
 * `ArrayTypeSignature`, `TypeArgument`, `TypeParameter`) live in TypeSignature.java,
 * ClassRefTypeSignature.java, TypeVariableSignature.java, ArrayTypeSignature.java,
 * TypeArgument.java and TypeParameter.java of the scanner's `typesignature` package, which are
 * not part of this model. They are modelled here on an ASSUMED grammar based on the
 * `JavaTypeSignature` grammar of section 4.7.9.1 of the Java Virtual Machine Specification
 * (it also accepts `V` wherever a base type may stand); that grammar, and the way each node is
 * rendered, are not taken from the source.
 *
 * Every node type is generic in `V`, the way a type-variable occurrence is held: as its name
 * (`V = string`, the value the specification functions work on), or as a
 * `TypeVariableSignature` object that carries the mutable back-links.
 */
module SignatureAst {
  import opened Wrappers

  /** A Java type signature: a base type, a class reference, a type variable or an array. */
  datatype Sig<V> =
    | BaseType(code: char)
    | ClassRef(className: string, typeArguments: seq<TypeArgument<V>>)
    | TypeVariable(variable: V)
    | ArrayOf(elementType: Sig<V>)

  datatype WildcardIndicator = NoWildcard | Extends | Super

  /** A type argument of a class reference: `*`, or a reference type with an optional `+`/`-`. */
  datatype TypeArgument<V> = Unbounded | Bounded(wildcard: WildcardIndicator, bound: Sig<V>)

  /** A type parameter: an identifier, an optional class bound and its interface bounds. */
  datatype TypeParameter<V> =
    TypeParameter(identifier: string, classBound: Option<Sig<V>>, interfaceBounds: seq<Sig<V>>)

  /** The four fields of a method type signature, as a value. */
  datatype MethodSig<V> = MethodSig(
    typeParameters: seq<TypeParameter<V>>,
    parameterTypes: seq<Sig<V>>,
    resultType: Sig<V>,
    throwsSignatures: seq<Sig<V>>)

  // ---------------------------------------------------------------------------------------
  // Lexical classes

  /** The base-type codes, `V` (void) included. */
  predicate IsBaseTypeCode(c: char)
  {
    c == 'B' || c == 'C' || c == 'D' || c == 'F' || c == 'I' || c == 'J' || c == 'S' || c == 'Z' || c == 'V'
  }

  /** Characters an identifier may contain (section 4.7.9.1 excludes `. ; [ / < > :`). */
  predicate IsIdentChar(c: char)
  {
    !(c == '.' || c == ';' || c == '[' || c == '/' || c == '<' || c == '>' || c == ':')
  }

  /** Characters of a binary class name in a signature: identifier characters and `/`. */
  predicate IsClassNameChar(c: char)
  {
    IsIdentChar(c) || c == '/'
  }

  predicate IsIdentifier(s: string)
  {
    |s| > 0 && forall k :: 0 <= k < |s| ==> IsIdentChar(s[k])
  }

  /** A class name as the AST holds it: package segments separated by `.` instead of `/`. */
  predicate IsClassName(s: string)
  {
    |s| > 0 && forall k :: 0 <= k < |s| ==> IsIdentChar(s[k]) || s[k] == '.'
  }

  /** `java/lang/String` becomes `java.lang.String`. */
  function DottedName(s: string): (r: string)
  {
    seq(|s|, k requires 0 <= k < |s| => if s[k] == '/' then '.' else s[k])
  }

  /** `java.lang.String` becomes `java/lang/String`. */
  function SlashedName(s: string): (r: string)
  {
    seq(|s|, k requires 0 <= k < |s| => if s[k] == '.' then '/' else s[k])
  }

  // ---------------------------------------------------------------------------------------
  // Descriptor encoding: the text of each node in the signature grammar

  function EncodeSig(x: Sig<string>): string
  {
    match x
    case BaseType(c) => [c]
    case ClassRef(n, args) =>
      "L" + SlashedName(n) + (if |args| == 0 then "" else "<" + EncodeArgs(args) + ">") + ";"
    case TypeVariable(v) => "T" + v + ";"
    case ArrayOf(e) => "[" + EncodeSig(e)
  }

  function EncodeArgs(xs: seq<TypeArgument<string>>): string
  {
    if |xs| == 0 then "" else EncodeArg(xs[0]) + EncodeArgs(xs[1..])
  }

  function EncodeArg(a: TypeArgument<string>): string
  {
    match a
    case Unbounded => "*"
    case Bounded(NoWildcard, b) => EncodeSig(b)
    case Bounded(Extends, b) => "+" + EncodeSig(b)
    case Bounded(Super, b) => "-" + EncodeSig(b)
  }

  function EncodeSigs(xs: seq<Sig<string>>): string
  {
    if |xs| == 0 then "" else EncodeSig(xs[0]) + EncodeSigs(xs[1..])
  }

  /** `:` and the bound for each interface bound. */
  function EncodeInterfaceBounds(xs: seq<Sig<string>>): string
  {
    if |xs| == 0 then "" else ":" + EncodeSig(xs[0]) + EncodeInterfaceBounds(xs[1..])
  }

  function EncodeTypeParameter(tp: TypeParameter<string>): string
  {
    tp.identifier + ":" + ClassBoundText(tp) + EncodeInterfaceBounds(tp.interfaceBounds)
  }

  /** The class bound's encoding, or nothing. */
  function ClassBoundText(tp: TypeParameter<string>): string
  {
    match tp.classBound case Some(b) => EncodeSig(b) case None => ""
  }

  lemma {:induction false} EncodeTypeParameterShape(tp: TypeParameter<string>)
    ensures EncodeTypeParameter(tp)
            == tp.identifier + ([':'] + (ClassBoundText(tp) + EncodeInterfaceBounds(tp.interfaceBounds)))
  {
  }

  function EncodeTypeParameterList(tps: seq<TypeParameter<string>>): string
  {
    if |tps| == 0 then "" else EncodeTypeParameter(tps[0]) + EncodeTypeParameterList(tps[1..])
  }

  /** Nothing at all when there are no type parameters. */
  function EncodeTypeParameters(tps: seq<TypeParameter<string>>): string
  {
    if |tps| == 0 then "" else "<" + EncodeTypeParameterList(tps) + ">"
  }

  /** `^` and the entry for each throws entry. */
  function EncodeThrows(xs: seq<Sig<string>>): string
  {
    if |xs| == 0 then "" else "^" + EncodeSig(xs[0]) + EncodeThrows(xs[1..])
  }

  /** The `MethodSignature` production: `[TypeParameters] ( {JavaTypeSignature} ) Result {ThrowsSignature}`. */
  function EncodeMethodSig(m: MethodSig<string>): string
  {
    EncodeTypeParameters(m.typeParameters) + "(" + EncodeSigs(m.parameterTypes) + ")"
    + EncodeSig(m.resultType) + EncodeThrows(m.throwsSignatures)
  }

  /** The encoding of a method signature as its type parameters followed by the rest. */
  lemma {:induction false} EncodeMethodSigParts(m: MethodSig<string>)
    ensures EncodeMethodSig(m)
            == EncodeTypeParameters(m.typeParameters)
               + ("(" + EncodeSigs(m.parameterTypes) + ")" + (EncodeSig(m.resultType) + EncodeThrows(m.throwsSignatures)))
  {
  }

  // ---------------------------------------------------------------------------------------
  // Well-formedness: the values the grammar can produce

  /** Class references, type variables and arrays (everything but a base type). */
  predicate IsReferenceType<V>(x: Sig<V>)
  {
    !x.BaseType?
  }

  /** What a throws entry may be. */
  predicate IsClassRefOrTypeVariable<V>(x: Sig<V>)
  {
    x.ClassRef? || x.TypeVariable?
  }

  predicate WellFormedSig(x: Sig<string>)
  {
    match x
    case BaseType(c) => IsBaseTypeCode(c)
    case ClassRef(n, args) => IsClassName(n) && forall k :: 0 <= k < |args| ==> WellFormedArg(args[k])
    case TypeVariable(v) => IsIdentifier(v)
    case ArrayOf(e) => WellFormedSig(e)
  }

  predicate WellFormedArg(a: TypeArgument<string>)
  {
    match a
    case Unbounded => true
    case Bounded(_, b) => IsReferenceType(b) && WellFormedSig(b)
  }

  predicate WellFormedTypeParameter(tp: TypeParameter<string>)
  {
    && IsIdentifier(tp.identifier)
    && (tp.classBound.Some? ==> IsReferenceType(tp.classBound.value) && WellFormedSig(tp.classBound.value))
    && forall k :: 0 <= k < |tp.interfaceBounds| ==>
         IsReferenceType(tp.interfaceBounds[k]) && WellFormedSig(tp.interfaceBounds[k])
  }

  /** The characters a reference type's encoding can start with. */
  predicate StartsReferenceType(c: char)
  {
    c == 'L' || c == 'T' || c == '['
  }

  predicate HasNoBound<V>(tp: TypeParameter<V>)
  {
    tp.classBound.None? && |tp.interfaceBounds| == 0
  }

  /** `x` starts with a character a reference type's encoding can start with. */
  predicate StartsLikeReferenceType(x: string)
  {
    |x| > 0 && StartsReferenceType(x[0])
  }

  /**
   * A type parameter with no bound at all is encoded as `Name:`; the grammar would read the
   * next parameter as its class bound if that parameter's name started like a reference type.
   */
  predicate WellFormedTypeParameters(tps: seq<TypeParameter<string>>)
    decreases |tps|
  {
    |tps| == 0 ||
    (&& WellFormedTypeParameter(tps[0])
     && (|tps| > 1 && HasNoBound(tps[0]) ==> !StartsLikeReferenceType(tps[1].identifier))
     && WellFormedTypeParameters(tps[1..]))
  }

  predicate WellFormedSigs(xs: seq<Sig<string>>)
  {
    forall k :: 0 <= k < |xs| ==> WellFormedSig(xs[k])
  }

  predicate WellFormedThrows(xs: seq<Sig<string>>)
  {
    forall k :: 0 <= k < |xs| ==> IsClassRefOrTypeVariable(xs[k]) && WellFormedSig(xs[k])
  }

  predicate WellFormedMethodSig(m: MethodSig<string>)
  {
    && WellFormedTypeParameters(m.typeParameters)
    && WellFormedSigs(m.parameterTypes)
    && WellFormedSig(m.resultType)
    && WellFormedThrows(m.throwsSignatures)
  }

  // ---------------------------------------------------------------------------------------
  // Type-variable occurrences, left to right (the order in which a parse creates them)

  function TypeVars<V>(x: Sig<V>): seq<V>
  {
    match x
    case BaseType(_) => []
    case ClassRef(_, args) => ArgsTypeVars(args)
    case TypeVariable(v) => [v]
    case ArrayOf(e) => TypeVars(e)
  }

  function ArgsTypeVars<V>(xs: seq<TypeArgument<V>>): seq<V>
  {
    if |xs| == 0 then [] else ArgTypeVars(xs[0]) + ArgsTypeVars(xs[1..])
  }

  function ArgTypeVars<V>(a: TypeArgument<V>): seq<V>
  {
    match a
    case Unbounded => []
    case Bounded(_, b) => TypeVars(b)
  }

  function SigsTypeVars<V>(xs: seq<Sig<V>>): seq<V>
  {
    if |xs| == 0 then [] else TypeVars(xs[0]) + SigsTypeVars(xs[1..])
  }

  function TypeParameterTypeVars<V>(tp: TypeParameter<V>): seq<V>
  {
    (match tp.classBound case Some(b) => TypeVars(b) case None => []) + SigsTypeVars(tp.interfaceBounds)
  }

  function TypeParametersTypeVars<V>(tps: seq<TypeParameter<V>>): seq<V>
  {
    if |tps| == 0 then [] else TypeParameterTypeVars(tps[0]) + TypeParametersTypeVars(tps[1..])
  }

  /** Every type-variable occurrence of a method signature, in text order. */
  function MethodTypeVars<V>(m: MethodSig<V>): seq<V>
  {
    TypeParametersTypeVars(m.typeParameters) + SigsTypeVars(m.parameterTypes)
    + TypeVars(m.resultType) + SigsTypeVars(m.throwsSignatures)
  }

  /** Appending a node appends its occurrences. */
  lemma {:induction false} SigsTypeVarsSnoc<V>(xs: seq<Sig<V>>, x: Sig<V>)
    ensures SigsTypeVars(xs + [x]) == SigsTypeVars(xs) + TypeVars(x)
    decreases |xs|
  {
    if |xs| == 0 {
      assert xs + [x] == [x];
    } else {
      assert (xs + [x])[1..] == xs[1..] + [x];
      SigsTypeVarsSnoc(xs[1..], x);
    }
  }

  // ---------------------------------------------------------------------------------------
  // Referenced class names (`getAllReferencedClassNames` of each node)

  function ClassNames<V>(x: Sig<V>): set<string>
  {
    match x
    case BaseType(_) => {}
    case ClassRef(n, args) => {n} + ArgsClassNames(args)
    case TypeVariable(_) => {}
    case ArrayOf(e) => ClassNames(e)
  }

  function ArgsClassNames<V>(xs: seq<TypeArgument<V>>): set<string>
  {
    if |xs| == 0 then {} else ArgClassNames(xs[0]) + ArgsClassNames(xs[1..])
  }

  function ArgClassNames<V>(a: TypeArgument<V>): set<string>
  {
    match a
    case Unbounded => {}
    case Bounded(_, b) => ClassNames(b)
  }

  function SigsClassNames<V>(xs: seq<Sig<V>>): set<string>
  {
    if |xs| == 0 then {} else ClassNames(xs[0]) + SigsClassNames(xs[1..])
  }

  function TypeParameterClassNames<V>(tp: TypeParameter<V>): set<string>
  {
    (match tp.classBound case Some(b) => ClassNames(b) case None => {}) + SigsClassNames(tp.interfaceBounds)
  }

  function TypeParametersClassNames<V>(tps: seq<TypeParameter<V>>): set<string>
  {
    if |tps| == 0 then {} else TypeParameterClassNames(tps[0]) + TypeParametersClassNames(tps[1..])
  }

  /** The class names referenced anywhere in a method signature. */
  function MethodClassNames<V>(m: MethodSig<V>): set<string>
  {
    TypeParametersClassNames(m.typeParameters) + SigsClassNames(m.parameterTypes)
    + ClassNames(m.resultType) + SigsClassNames(m.throwsSignatures)
  }

  lemma {:induction false} SigsClassNamesSnoc<V>(xs: seq<Sig<V>>, x: Sig<V>)
    ensures SigsClassNames(xs + [x]) == SigsClassNames(xs) + ClassNames(x)
    decreases |xs|
  {
    if |xs| == 0 {
      assert xs + [x] == [x];
    } else {
      assert (xs + [x])[1..] == xs[1..] + [x];
      SigsClassNamesSnoc(xs[1..], x);
    }
  }

  lemma {:induction false} TypeParametersClassNamesSnoc<V>(tps: seq<TypeParameter<V>>, tp: TypeParameter<V>)
    ensures TypeParametersClassNames(tps + [tp]) == TypeParametersClassNames(tps) + TypeParameterClassNames(tp)
    decreases |tps|
  {
    if |tps| == 0 {
      assert tps + [tp] == [tp];
    } else {
      assert (tps + [tp])[1..] == tps[1..] + [tp];
      TypeParametersClassNamesSnoc(tps[1..], tp);
    }
  }

  /** A class name is referenced by a list iff it is referenced by one of its nodes. */
  lemma {:induction false} SigsClassNamesMember<V>(xs: seq<Sig<V>>, n: string)
    ensures n in SigsClassNames(xs) <==> exists k :: 0 <= k < |xs| && n in ClassNames(xs[k])
    decreases |xs|
  {
    if |xs| > 0 {
      SigsClassNamesMember(xs[1..], n);
      if n in SigsClassNames(xs[1..]) {
        var k :| 0 <= k < |xs[1..]| && n in ClassNames(xs[1..][k]);
        assert n in ClassNames(xs[k + 1]);
      }
      if exists k :: 0 <= k < |xs| && n in ClassNames(xs[k]) {
        var k :| 0 <= k < |xs| && n in ClassNames(xs[k]);
        if k > 0 {
          assert n in ClassNames(xs[1..][k - 1]);
        }
      }
    }
  }

  lemma {:induction false} TypeParametersClassNamesMember<V>(tps: seq<TypeParameter<V>>, n: string)
    ensures n in TypeParametersClassNames(tps) <==> exists k :: 0 <= k < |tps| && n in TypeParameterClassNames(tps[k])
    decreases |tps|
  {
    if |tps| > 0 {
      TypeParametersClassNamesMember(tps[1..], n);
      if n in TypeParametersClassNames(tps[1..]) {
        var k :| 0 <= k < |tps[1..]| && n in TypeParameterClassNames(tps[1..][k]);
        assert n in TypeParameterClassNames(tps[k + 1]);
      }
      if exists k :: 0 <= k < |tps| && n in TypeParameterClassNames(tps[k]) {
        var k :| 0 <= k < |tps| && n in TypeParameterClassNames(tps[k]);
        if k > 0 {
          assert n in TypeParameterClassNames(tps[1..][k - 1]);
        }
      }
    }
  }

  /**
   * A class name is referenced by a method signature iff a type parameter, a parameter type,
   * the result type or a throws entry references it.
   */
  lemma {:induction false} MethodClassNamesMember<V>(m: MethodSig<V>, n: string)
    ensures n in MethodClassNames(m) <==>
      || (exists k :: 0 <= k < |m.typeParameters| && n in TypeParameterClassNames(m.typeParameters[k]))
      || (exists k :: 0 <= k < |m.parameterTypes| && n in ClassNames(m.parameterTypes[k]))
      || n in ClassNames(m.resultType)
      || (exists k :: 0 <= k < |m.throwsSignatures| && n in ClassNames(m.throwsSignatures[k]))
  {
    TypeParametersClassNamesMember(m.typeParameters, n);
    SigsClassNamesMember(m.parameterTypes, n);
    SigsClassNamesMember(m.throwsSignatures, n);
  }

  // ---------------------------------------------------------------------------------------
  // Canonical rendering (`toString` of each node)

  function BaseTypeName(c: char): string
  {
    match c
    case 'B' => "byte"
    case 'C' => "char"
    case 'D' => "double"
    case 'F' => "float"
    case 'I' => "int"
    case 'J' => "long"
    case 'S' => "short"
    case 'Z' => "boolean"
    case _ => "void"
  }

  /** The parts joined with `sep` between consecutive parts. */
  function Join(parts: seq<string>, sep: string): string
  {
    if |parts| == 0 then "" else if |parts| == 1 then parts[0] else parts[0] + sep + Join(parts[1..], sep)
  }

  lemma {:induction false} JoinSnoc(parts: seq<string>, sep: string, x: string)
    ensures Join(parts + [x], sep) == Join(parts, sep) + (if |parts| == 0 then "" else sep) + x
    decreases |parts|
  {
    if |parts| == 0 {
      assert parts + [x] == [x];
    } else if |parts| == 1 {
      assert (parts + [x])[1..] == [x];
    } else {
      assert (parts + [x])[1..] == parts[1..] + [x];
      JoinSnoc(parts[1..], sep, x);
    }
  }

  /** One more part joined onto a text that already holds `prefix` and the first `i` parts. */
  lemma {:induction false} JoinStep(prefix: string, parts: seq<string>, i: nat, sep: string)
    requires i < |parts|
    ensures i == 0 ==> prefix + Join(parts[..i + 1], sep) == prefix + Join(parts[..i], sep) + parts[i]
    ensures i > 0 ==> prefix + Join(parts[..i + 1], sep) == prefix + Join(parts[..i], sep) + sep + parts[i]
  {
    JoinSnoc(parts[..i], sep, parts[i]);
    assert parts[..i + 1] == parts[..i] + [parts[i]];
    var joined := Join(parts[..i], sep);
    if i == 0 {
      assert joined == "";
      assert prefix + "" == prefix;
    } else {
      assert prefix + (joined + sep + parts[i]) == prefix + joined + sep + parts[i];
    }
  }

  function Render(x: Sig<string>): string
  {
    match x
    case BaseType(c) => BaseTypeName(c)
    case ClassRef(n, args) =>
      n + (if |args| == 0 then "" else "<" + Join(seq(|args|, k requires 0 <= k < |args| => RenderArg(args[k])), ", ") + ">")
    case TypeVariable(v) => v
    case ArrayOf(e) => Render(e) + "[]"
  }

  function RenderArg(a: TypeArgument<string>): string
  {
    match a
    case Unbounded => "?"
    case Bounded(NoWildcard, b) => Render(b)
    case Bounded(Extends, b) => "? extends " + Render(b)
    case Bounded(Super, b) => "? super " + Render(b)
  }

  /** A well-formed node renders as a non-empty text that does not start with `<`. */
  lemma {:induction false} RenderStart(x: Sig<string>)
    requires WellFormedSig(x)
    ensures |Render(x)| > 0 && Render(x)[0] != '<'
  {
    match x
    case BaseType(c) =>
    case ClassRef(n, args) =>
      assert IsIdentChar(n[0]) || n[0] == '.';
    case TypeVariable(v) =>
      assert IsIdentChar(v[0]);
    case ArrayOf(e) =>
      RenderStart(e);
  }

  /** The rendering of each node of a list. */
  function RenderEach(xs: seq<Sig<string>>): (r: seq<string>)
    ensures |r| == |xs|
  {
    seq(|xs|, k requires 0 <= k < |xs| => Render(xs[k]))
  }

  /** `T`, or `T extends A & B` when the parameter has bounds. */
  function RenderTypeParameter(tp: TypeParameter<string>): string
  {
    var bounds := (match tp.classBound case Some(b) => [b] case None => []) + tp.interfaceBounds;
    tp.identifier + (if |bounds| == 0 then "" else " extends " + Join(RenderEach(bounds), " & "))
  }

  function RenderEachTypeParameter(tps: seq<TypeParameter<string>>): (r: seq<string>)
    ensures |r| == |tps|
  {
    seq(|tps|, k requires 0 <= k < |tps| => RenderTypeParameter(tps[k]))
  }

  /**
   * The canonical rendering of a method signature: `<A, B> ` only when there are type
   * parameters, the result type, ` (` the parameters joined by `, ` `)`, and ` throws ` with
   * the entries joined by `, ` only when there are throws entries.
   */
  function RenderMethodSig(m: MethodSig<string>): string
  {
    (if |m.typeParameters| == 0 then "" else "<" + Join(RenderEachTypeParameter(m.typeParameters), ", ") + "> ")
    + Render(m.resultType)
    + " (" + Join(RenderEach(m.parameterTypes), ", ") + ")"
    + (if |m.throwsSignatures| == 0 then "" else " throws " + Join(RenderEach(m.throwsSignatures), ", "))
  }

  /**
   * A rendering starts with `<` exactly when the signature has type parameters, so the
   * type-parameter part can be told apart from the result type that otherwise comes first.
   */
  lemma {:induction false} RenderMethodSigStart(m: MethodSig<string>)
    requires WellFormedSig(m.resultType)
    ensures var r := RenderMethodSig(m); |r| > 0 && (r[0] == '<' <==> |m.typeParameters| > 0)
  {
    RenderStart(m.resultType);
  }
}
