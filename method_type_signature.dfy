/**
 * The object model of a parsed method type signature: `MethodTypeSignature` with its four
 * fields, its `parse`, `equals`, `hashCode`, `toString` and `getAllReferencedClassNames`, and
 * the `TypeVariableSignature` nodes whose back-links the parse fills in.
 *
 * A node of the parsed tree holds each type-variable occurrence as a `TypeVariableSignature`
 * object (`Sig<TypeVariableSignature>`); its erasure (`EraseSig`), with each object replaced by
 * its name, is the value the grammar functions of SignatureGrammar speak about.
 */
module TypeSignature {
  import opened Wrappers
  import opened Cursor
  import opened SignatureAst
  import opened SignatureGrammar
  import RoundTrip
  import GrammarCompleteness

  /** The type signature of a class, as `ClassInfo.getTypeSignature` returns it (opaque here). */
  datatype ClassTypeSignature = ClassTypeSignature(descriptor: string)

  /** The containing class of a method: all the parse asks of it is its type signature, if any. */
  datatype ClassInfo = ClassInfo(typeSignature: Option<ClassTypeSignature>)

  /**
   * An occurrence of a type variable. The parse that creates it leaves both back-links empty;
   * `MethodTypeSignature.Parse` later points them at the method signature the occurrence is
   * part of, and at the type signature of the enclosing class when one is known.
   */
  class TypeVariableSignature {
    const name: string
    var containingMethodSignature: Option<MethodTypeSignature>
    var containingClassSignature: Option<ClassTypeSignature>

    constructor (name: string)
      ensures this.name == name
      ensures containingMethodSignature == None && containingClassSignature == None
    {
      this.name := name;
      containingMethodSignature := None;
      containingClassSignature := None;
    }
  }

  type Node = Sig<TypeVariableSignature>

  /** Neither back-link of `v` is set yet. */
  predicate Unlinked(v: TypeVariableSignature)
    reads v
  {
    v.containingMethodSignature == None && v.containingClassSignature == None
  }

  // ---------------------------------------------------------------------------------------
  // Erasure: each type-variable occurrence replaced by its name

  function EraseSig(x: Node): Sig<string>
  {
    match x
    case BaseType(c) => BaseType(c)
    case ClassRef(n, args) => ClassRef(n, EraseArgs(args))
    case TypeVariable(v) => TypeVariable(v.name)
    case ArrayOf(e) => ArrayOf(EraseSig(e))
  }

  function EraseArg(a: TypeArgument<TypeVariableSignature>): TypeArgument<string>
  {
    match a
    case Unbounded => Unbounded
    case Bounded(w, b) => Bounded(w, EraseSig(b))
  }

  function EraseArgs(xs: seq<TypeArgument<TypeVariableSignature>>): (r: seq<TypeArgument<string>>)
    ensures |r| == |xs|
  {
    seq(|xs|, k requires 0 <= k < |xs| => EraseArg(xs[k]))
  }

  function EraseSigs(xs: seq<Node>): (r: seq<Sig<string>>)
    ensures |r| == |xs|
  {
    seq(|xs|, k requires 0 <= k < |xs| => EraseSig(xs[k]))
  }

  function EraseTypeParameter(tp: TypeParameter<TypeVariableSignature>): TypeParameter<string>
  {
    TypeParameter(tp.identifier,
                  match tp.classBound case Some(b) => Some(EraseSig(b)) case None => None,
                  EraseSigs(tp.interfaceBounds))
  }

  function EraseTypeParameters(tps: seq<TypeParameter<TypeVariableSignature>>): (r: seq<TypeParameter<string>>)
    ensures |r| == |tps|
  {
    seq(|tps|, k requires 0 <= k < |tps| => EraseTypeParameter(tps[k]))
  }

  function EraseMethodSig(m: MethodSig<TypeVariableSignature>): MethodSig<string>
  {
    MethodSig(EraseTypeParameters(m.typeParameters), EraseSigs(m.parameterTypes),
              EraseSig(m.resultType), EraseSigs(m.throwsSignatures))
  }

  function EraseOutcome(r: Outcome<Node>): Outcome<Sig<string>>
  {
    match r
    case Fail(e) => Fail(e)
    case NoMatch => NoMatch
    case Match(x, j) => Match(EraseSig(x), j)
  }

  /** The type-variable occurrences a sub-parser's outcome holds. */
  function OutcomeTypeVars(r: Outcome<Node>): seq<TypeVariableSignature>
  {
    if r.Match? then TypeVars(r.value) else []
  }

  lemma {:induction false} EraseSigsSnoc(xs: seq<Node>, x: Node)
    ensures EraseSigs(xs + [x]) == EraseSigs(xs) + [EraseSig(x)]
  {
    assert forall k :: 0 <= k < |xs| ==> (xs + [x])[k] == xs[k];
  }

  /** Erasure keeps the kind of node, so a throws entry stays a class reference or type variable. */
  lemma {:induction false} EraseKeepsKind(x: Node)
    ensures IsClassRefOrTypeVariable(EraseSig(x)) <==> IsClassRefOrTypeVariable(x)
    ensures IsReferenceType(EraseSig(x)) <==> IsReferenceType(x)
  {
  }

  // ---------------------------------------------------------------------------------------
  // Building the nodes of a parsed value: one fresh TypeVariableSignature per occurrence,
  // recorded on the cursor in text order (what TypeVariableSignature.parse does)

  method BuildSig(p: Parser<TypeVariableSignature>, x: Sig<string>) returns (y: Node)
    modifies p
    ensures p.position == old(p.position)
    ensures EraseSig(y) == x
    ensures p.state == old(p.state) + TypeVars(y)
    ensures forall k :: |old(p.state)| <= k < |p.state| ==> fresh(p.state[k]) && Unlinked(p.state[k])
    decreases x
  {
    match x
    case BaseType(c) =>
      y := BaseType(c);
    case ClassRef(n, args) =>
      var ys := BuildArgs(p, args);
      y := ClassRef(n, ys);
    case TypeVariable(name) =>
      var v := new TypeVariableSignature(name);
      p.Record(v);
      y := TypeVariable(v);
    case ArrayOf(e) =>
      var z := BuildSig(p, e);
      y := ArrayOf(z);
  }

  method BuildArgs(p: Parser<TypeVariableSignature>, xs: seq<TypeArgument<string>>) returns (ys: seq<TypeArgument<TypeVariableSignature>>)
    modifies p
    ensures p.position == old(p.position)
    ensures EraseArgs(ys) == xs
    ensures p.state == old(p.state) + ArgsTypeVars(ys)
    ensures forall k :: |old(p.state)| <= k < |p.state| ==> fresh(p.state[k]) && Unlinked(p.state[k])
    decreases xs
  {
    if |xs| == 0 {
      ys := [];
    } else {
      var a: TypeArgument<TypeVariableSignature> := Unbounded;
      if xs[0].Bounded? {
        assert xs[0] in xs && xs[0].bound < xs[0];
        var z := BuildSig(p, xs[0].bound);
        a := Bounded(xs[0].wildcard, z);
      }
      var rest := BuildArgs(p, xs[1..]);
      GrammarCompleteness.AppendAssoc(old(p.state), ArgTypeVars(a), ArgsTypeVars(rest));
      ys := [a] + rest;
      assert forall k :: 0 < k < |ys| ==> ys[k] == rest[k - 1];
      assert EraseArgs(ys) == xs by {
        assert forall k :: 0 < k < |xs| ==> xs[k] == xs[1..][k - 1];
      }
    }
  }

  method BuildSigs(p: Parser<TypeVariableSignature>, xs: seq<Sig<string>>) returns (ys: seq<Node>)
    modifies p
    ensures p.position == old(p.position)
    ensures EraseSigs(ys) == xs
    ensures p.state == old(p.state) + SigsTypeVars(ys)
    ensures forall k :: |old(p.state)| <= k < |p.state| ==> fresh(p.state[k]) && Unlinked(p.state[k])
    decreases xs
  {
    if |xs| == 0 {
      ys := [];
    } else {
      var y := BuildSig(p, xs[0]);
      var rest := BuildSigs(p, xs[1..]);
      GrammarCompleteness.AppendAssoc(old(p.state), TypeVars(y), SigsTypeVars(rest));
      ys := [y] + rest;
      assert ys[0] == y && ys[1..] == rest;
      assert xs == [xs[0]] + xs[1..];
    }
  }

  method BuildTypeParameter(p: Parser<TypeVariableSignature>, tp: TypeParameter<string>)
    returns (y: TypeParameter<TypeVariableSignature>)
    modifies p
    ensures p.position == old(p.position)
    ensures EraseTypeParameter(y) == tp
    ensures p.state == old(p.state) + TypeParameterTypeVars(y)
    ensures forall k :: |old(p.state)| <= k < |p.state| ==> fresh(p.state[k]) && Unlinked(p.state[k])
  {
    var classBound: Option<Node> := None;
    if tp.classBound.Some? {
      var b := BuildSig(p, tp.classBound.value);
      classBound := Some(b);
    }
    var bounds := BuildSigs(p, tp.interfaceBounds);
    y := TypeParameter(tp.identifier, classBound, bounds);
  }

  method BuildTypeParameters(p: Parser<TypeVariableSignature>, tps: seq<TypeParameter<string>>)
    returns (ys: seq<TypeParameter<TypeVariableSignature>>)
    modifies p
    ensures p.position == old(p.position)
    ensures EraseTypeParameters(ys) == tps
    ensures p.state == old(p.state) + TypeParametersTypeVars(ys)
    ensures forall k :: |old(p.state)| <= k < |p.state| ==> fresh(p.state[k]) && Unlinked(p.state[k])
    decreases tps
  {
    if |tps| == 0 {
      ys := [];
    } else {
      var y := BuildTypeParameter(p, tps[0]);
      var rest := BuildTypeParameters(p, tps[1..]);
      GrammarCompleteness.AppendAssoc(old(p.state), TypeParameterTypeVars(y), TypeParametersTypeVars(rest));
      ys := [y] + rest;
      assert ys[0] == y && ys[1..] == rest;
      assert tps == [tps[0]] + tps[1..];
    }
  }

  // ---------------------------------------------------------------------------------------
  // The sub-parsers MethodTypeSignature.parse calls, each with the grammar function it follows

  /** The nodes of a grammar outcome at the cursor, the cursor moved past the text read. */
  method Adopt(p: Parser<TypeVariableSignature>, o: Outcome<Sig<string>>) returns (r: Outcome<Node>)
    requires p.Valid()
    requires o.Match? ==> p.position < o.next <= |p.input|
    modifies p
    ensures p.Valid()
    ensures EraseOutcome(r) == o
    ensures r.Match? ==> p.position == r.next
    ensures !r.Match? ==> p.position == old(p.position)
    ensures p.state == old(p.state) + OutcomeTypeVars(r)
    ensures forall k :: |old(p.state)| <= k < |p.state| ==> fresh(p.state[k]) && Unlinked(p.state[k])
  {
    match o
    case Fail(e) =>
      r := Fail(e);
    case NoMatch =>
      r := NoMatch;
    case Match(x, j) =>
      var y := BuildSig(p, x);
      p.SkipTo(j);
      r := Match(y, j);
  }

  /**
   * `TypeSignature.parse`: a base type or a reference type at the cursor. The nodes are built from the grammar's result; the sub-parser's own scanning is not
   * modelled (its source is not part of this model).
   */
  method ParseTypeSignature(p: Parser<TypeVariableSignature>) returns (r: Outcome<Node>)
    requires p.Valid()
    modifies p
    ensures p.Valid()
    ensures EraseOutcome(r) == SigAt(p.input, old(p.position))
    ensures r.Match? ==> p.position == r.next
    ensures !r.Match? ==> p.position == old(p.position)
    ensures p.state == old(p.state) + OutcomeTypeVars(r)
    ensures forall k :: |old(p.state)| <= k < |p.state| ==> fresh(p.state[k]) && Unlinked(p.state[k])
  {
    r := Adopt(p, SigAt(p.input, p.position));
  }

  /**
   * `ClassRefTypeSignature.parse`: a class reference at the cursor. The nodes are built from the grammar's result; the sub-parser's own scanning is not
   * modelled (its source is not part of this model).
   */
  method ParseClassRefTypeSignature(p: Parser<TypeVariableSignature>) returns (r: Outcome<Node>)
    requires p.Valid()
    modifies p
    ensures p.Valid()
    ensures EraseOutcome(r) == ClassRefAt(p.input, old(p.position))
    ensures r.Match? ==> p.position == r.next
    ensures !r.Match? ==> p.position == old(p.position)
    ensures p.state == old(p.state) + OutcomeTypeVars(r)
    ensures forall k :: |old(p.state)| <= k < |p.state| ==> fresh(p.state[k]) && Unlinked(p.state[k])
  {
    r := Adopt(p, ClassRefAt(p.input, p.position));
  }

  /**
   * `TypeVariableSignature.parse`: a type variable at the cursor. The nodes are built from the grammar's result; the sub-parser's own scanning is not
   * modelled (its source is not part of this model).
   */
  method ParseTypeVariableSignature(p: Parser<TypeVariableSignature>) returns (r: Outcome<Node>)
    requires p.Valid()
    modifies p
    ensures p.Valid()
    ensures EraseOutcome(r) == TypeVariableAt(p.input, old(p.position))
    ensures r.Match? ==> p.position == r.next
    ensures !r.Match? ==> p.position == old(p.position)
    ensures p.state == old(p.state) + OutcomeTypeVars(r)
    ensures forall k :: |old(p.state)| <= k < |p.state| ==> fresh(p.state[k]) && Unlinked(p.state[k])
  {
    r := Adopt(p, TypeVariableAt(p.input, p.position));
  }

  /**
   * `TypeParameter.parseList`: the type parameters at the cursor (none when no `<` is next). The nodes are built from the grammar's result; the sub-parser's own scanning is not
   * modelled (its source is not part of this model).
   */
  method ParseTypeParameterList(p: Parser<TypeVariableSignature>)
    returns (r: Result<seq<TypeParameter<TypeVariableSignature>>>)
    requires p.Valid()
    modifies p
    ensures p.Valid()
    ensures r.Err? ==> TypeParametersAt(p.input, old(p.position)) == Err(r.error) && p.state == old(p.state)
    ensures r.Ok? ==> TypeParametersAt(p.input, old(p.position)) == Ok(Parsed(EraseTypeParameters(r.value), p.position))
    ensures r.Ok? ==> p.state == old(p.state) + TypeParametersTypeVars(r.value)
    ensures forall k :: |old(p.state)| <= k < |p.state| ==> fresh(p.state[k]) && Unlinked(p.state[k])
  {
    match TypeParametersAt(p.input, p.position)
    case Err(e) =>
      r := Err(e);
    case Ok(parsed) =>
      var tps := BuildTypeParameters(p, parsed.value);
      p.SkipTo(parsed.next);
      r := Ok(tps);
  }
  /** A class reference, or a type variable read where a class reference was not found. */
  lemma {:induction false} ThrowsEntryKinds(s: string, i: nat)
    requires i <= |s|
    ensures ClassRefAt(s, i).Match? ==> ClassRefAt(s, i).value.ClassRef?
    ensures TypeVariableAt(s, i).Match? ==> TypeVariableAt(s, i).value.TypeVariable?
  {
  }

  /** What a throws entry may be (`ClassRefOrTypeVariableSignature`). */
  type ThrowsEntry = x: Node | IsClassRefOrTypeVariable(x) witness ClassRef("", [])

  // ---------------------------------------------------------------------------------------
  // Java `int` arithmetic and the hash codes of the nodes

  const IntRange: int := 0x1_0000_0000

  /** `x` wrapped into the 32-bit two's-complement range, as Java `int` arithmetic does. */
  function Int32(x: int): (r: int)
    ensures -0x8000_0000 <= r < 0x8000_0000
    ensures (x - r) % IntRange == 0
    ensures -0x8000_0000 <= x < 0x8000_0000 ==> r == x
  {
    var q := (x + 0x8000_0000) / IntRange;
    assert x + 0x8000_0000 == q * IntRange + (x + 0x8000_0000) % IntRange;
    (x + 0x8000_0000) % IntRange - 0x8000_0000
  }

  /** The hash folded over `hs` from `h`: 31 times the hash so far plus the next element, in `int`. */
  function HashFrom(h: int, hs: seq<int>): (r: int)
    requires -0x8000_0000 <= h < 0x8000_0000
    ensures -0x8000_0000 <= r < 0x8000_0000
    decreases |hs|
  {
    if |hs| == 0 then h else HashFrom(Int32(31 * h + hs[0]), hs[1..])
  }

  /** `List.hashCode` of a list whose elements hash to `hs`. */
  function ListHash(hs: seq<int>): (r: int)
    ensures -0x8000_0000 <= r < 0x8000_0000
  {
    HashFrom(1, hs)
  }

  /** `String.hashCode`, each character taken as its code point. */
  function StringHash(s: string): (r: int)
    ensures -0x8000_0000 <= r < 0x8000_0000
  {
    HashFrom(0, seq(|s|, k requires 0 <= k < |s| => s[k] as int))
  }

  /** The hash code of a node: the hash of its descriptor text. */
  function SigHash(x: Node): int
  {
    StringHash(EncodeSig(EraseSig(x)))
  }

  function SigHashes(xs: seq<Node>): (r: seq<int>)
    ensures |r| == |xs|
  {
    seq(|xs|, k requires 0 <= k < |xs| => SigHash(xs[k]))
  }

  function TypeParameterHashes(tps: seq<TypeParameter<TypeVariableSignature>>): (r: seq<int>)
    ensures |r| == |tps|
  {
    seq(|tps|, k requires 0 <= k < |tps| => StringHash(EncodeTypeParameter(EraseTypeParameter(tps[k]))))
  }

  /** Lists of nodes with the same erasure have the same element hashes. */
  lemma {:induction false} SigHashesOfErasure(xs: seq<Node>, ys: seq<Node>)
    requires EraseSigs(xs) == EraseSigs(ys)
    ensures SigHashes(xs) == SigHashes(ys)
  {
    forall k | 0 <= k < |xs| ensures SigHashes(xs)[k] == SigHashes(ys)[k] {
      assert EraseSig(xs[k]) == EraseSigs(xs)[k] == EraseSigs(ys)[k] == EraseSig(ys[k]);
    }
  }

  lemma {:induction false} TypeParameterHashesOfErasure(xs: seq<TypeParameter<TypeVariableSignature>>,
                                                        ys: seq<TypeParameter<TypeVariableSignature>>)
    requires EraseTypeParameters(xs) == EraseTypeParameters(ys)
    ensures TypeParameterHashes(xs) == TypeParameterHashes(ys)
  {
    forall k | 0 <= k < |xs| ensures TypeParameterHashes(xs)[k] == TypeParameterHashes(ys)[k] {
      assert EraseTypeParameter(xs[k]) == EraseTypeParameters(xs)[k] == EraseTypeParameters(ys)[k] == EraseTypeParameter(ys[k]);
    }
  }

  // ---------------------------------------------------------------------------------------
  // Referenced class names are those of the erasure

  lemma {:induction false} ClassNamesOfErasure(x: Node)
    ensures ClassNames(EraseSig(x)) == ClassNames(x)
    decreases x, 1
  {
    match x
    case BaseType(_) =>
    case ClassRef(n, args) => ArgsClassNamesOfErasure(args);
    case TypeVariable(_) =>
    case ArrayOf(e) => ClassNamesOfErasure(e);
  }

  lemma {:induction false} ArgsClassNamesOfErasure(xs: seq<TypeArgument<TypeVariableSignature>>)
    ensures ArgsClassNames(EraseArgs(xs)) == ArgsClassNames(xs)
    decreases xs, 0
  {
    if |xs| > 0 {
      assert EraseArgs(xs)[1..] == EraseArgs(xs[1..]);
      if xs[0].Bounded? {
        assert xs[0] in xs && xs[0].bound < xs[0];
        ClassNamesOfErasure(xs[0].bound);
      }
      ArgsClassNamesOfErasure(xs[1..]);
    }
  }

  lemma {:induction false} SigsClassNamesOfErasure(xs: seq<Node>)
    ensures SigsClassNames(EraseSigs(xs)) == SigsClassNames(xs)
    decreases |xs|
  {
    if |xs| > 0 {
      assert EraseSigs(xs)[1..] == EraseSigs(xs[1..]);
      ClassNamesOfErasure(xs[0]);
      SigsClassNamesOfErasure(xs[1..]);
    }
  }

  lemma {:induction false} TypeParametersClassNamesOfErasure(tps: seq<TypeParameter<TypeVariableSignature>>)
    ensures TypeParametersClassNames(EraseTypeParameters(tps)) == TypeParametersClassNames(tps)
    decreases |tps|
  {
    if |tps| > 0 {
      assert EraseTypeParameters(tps)[1..] == EraseTypeParameters(tps[1..]);
      if tps[0].classBound.Some? {
        ClassNamesOfErasure(tps[0].classBound.value);
      }
      SigsClassNamesOfErasure(tps[0].interfaceBounds);
      TypeParametersClassNamesOfErasure(tps[1..]);
    }
  }

  /**
   * A parsed method type signature. Its four lists are fixed at construction; what the parse
   * changes afterwards are the back-links of the type-variable occurrences inside them.
   */
  class MethodTypeSignature {
    const typeParameters: seq<TypeParameter<TypeVariableSignature>>
    const parameterTypeSignatures: seq<Node>
    const resultType: Node
    const throwsSignatures: seq<ThrowsEntry>

    constructor (typeParameters: seq<TypeParameter<TypeVariableSignature>>, paramTypes: seq<Node>,
                 resultType: Node, throwsSignatures: seq<ThrowsEntry>)
      ensures GetTypeParameters() == typeParameters && GetParameterTypeSignatures() == paramTypes
      ensures GetResultType() == resultType && GetThrowsSignatures() == throwsSignatures
    {
      this.typeParameters := typeParameters;
      this.parameterTypeSignatures := paramTypes;
      this.resultType := resultType;
      this.throwsSignatures := throwsSignatures;
    }

    function GetTypeParameters(): seq<TypeParameter<TypeVariableSignature>>
    {
      typeParameters
    }

    function GetParameterTypeSignatures(): seq<Node>
    {
      parameterTypeSignatures
    }

    function GetResultType(): Node
    {
      resultType
    }

    function GetThrowsSignatures(): seq<ThrowsEntry>
    {
      throwsSignatures
    }

    /** The four fields as one value. */
    function Fields(): MethodSig<TypeVariableSignature>
    {
      MethodSig(typeParameters, parameterTypeSignatures, resultType, throwsSignatures)
    }

    /** The signature this object stands for, each type-variable occurrence by its name. */
    function Value(): MethodSig<string>
    {
      EraseMethodSig(Fields())
    }

    /** Every type-variable occurrence inside the four fields, in text order. */
    function TypeVariables(): seq<TypeVariableSignature>
    {
      MethodTypeVars(Fields())
    }

    /**
     * Parses `typeDescriptor` as the grammar function `ParseMethodSignature` does, building the
     * nodes as it goes. On success, every type-variable occurrence of the result is a new
     * object whose method back-link is the result and whose class back-link is the type
     * signature of `classInfo` (none without one). No object that existed before is changed.
     */
    static method Parse(classInfo: Option<ClassInfo>, typeDescriptor: string) returns (r: Result<MethodTypeSignature>)
      ensures r.Err? ==> ParseMethodSignature(typeDescriptor) == Err(r.error)
      ensures r.Ok? ==> ParseMethodSignature(typeDescriptor) == Ok(r.value.Value())
      ensures r.Ok? ==> fresh(r.value)
      ensures r.Ok? ==> forall v :: v in r.value.TypeVariables() ==>
                && fresh(v)
                && v.containingMethodSignature == Some(r.value)
                && v.containingClassSignature == (if classInfo.Some? then classInfo.value.typeSignature else None)
    {
      var p := new Parser<TypeVariableSignature>(typeDescriptor);
      var typeParameters := ParseTypeParameterList(p);
      if typeParameters.Err? {
        return Err(typeParameters.error);
      }
      GrammarCompleteness.AppendEmpty(TypeParametersTypeVars(typeParameters.value));
      ghost var tps := Parsed(EraseTypeParameters(typeParameters.value), p.position);
      ghost var created := p.state;
      r := ParseAfterTypeParameters(p, typeParameters.value, tps, classInfo);
      if r.Ok? {
        assert forall v :: v in created ==> fresh(v);
      }
    }

    /**
     * The rest of `parse` once the type parameters `typeParameters` have been read (their
     * occurrences are the parser's state so far): the stages after them, the object, and
     * the back-links of every occurrence, those of the type parameters included. On an error
     * no occurrence, old or new, has been linked.
     */
    static method ParseAfterTypeParameters(p: Parser<TypeVariableSignature>,
                                           typeParameters: seq<TypeParameter<TypeVariableSignature>>,
                                           ghost tps: Parsed<seq<TypeParameter<string>>>, classInfo: Option<ClassInfo>)
      returns (r: Result<MethodTypeSignature>)
      requires p.Valid() && p.position == tps.next && tps.value == EraseTypeParameters(typeParameters)
      requires p.state == TypeParametersTypeVars(typeParameters)
      requires forall k :: 0 <= k < |p.state| ==> Unlinked(p.state[k])
      modifies p, set v | v in p.state
      ensures r.Err? ==> ParametersStage(p.input, tps) == Err(r.error)
      ensures r.Err? ==> forall k :: 0 <= k < |p.state| ==> Unlinked(p.state[k])
      ensures r.Ok? ==> ParametersStage(p.input, tps) == Ok(r.value.Value())
      ensures r.Ok? ==> fresh(r.value)
      ensures r.Ok? ==> forall v :: v in r.value.TypeVariables() ==>
                && (v in old(p.state) || fresh(v))
                && v.containingMethodSignature == Some(r.value)
                && v.containingClassSignature == (if classInfo.Some? then classInfo.value.typeSignature else None)
    {
      var rest := ParseParametersStage(p, tps);
      if rest.Err? {
        return Err(rest.error);
      }
      var (paramTypes, resultType, throwsSignatures) := rest.value;
      ghost var parts := MethodSig(typeParameters, paramTypes, resultType, throwsSignatures);
      assert EraseMethodSig(parts) == MethodSig(tps.value, EraseSigs(paramTypes), EraseSig(resultType), EraseSigs(throwsSignatures));
      var typeVariableSignatures := p.state;
      assert typeVariableSignatures == MethodTypeVars(parts);
      var methodSignature := Assemble(typeParameters, paramTypes, resultType, throwsSignatures,
                                      typeVariableSignatures, classInfo);
      r := Ok(methodSignature);
    }

    /**
     * The end of `parse`: the signature object built from its four parts, and every
     * type-variable occurrence in them linked back to it.
     */
    static method Assemble(typeParameters: seq<TypeParameter<TypeVariableSignature>>, paramTypes: seq<Node>,
                           resultType: Node, throwsSignatures: seq<ThrowsEntry>,
                           typeVariableSignatures: seq<TypeVariableSignature>, classInfo: Option<ClassInfo>)
      returns (m: MethodTypeSignature)
      requires typeVariableSignatures == MethodTypeVars(MethodSig(typeParameters, paramTypes, resultType, throwsSignatures))
      modifies set v | v in typeVariableSignatures
      ensures fresh(m) && m.Fields() == MethodSig(typeParameters, paramTypes, resultType, throwsSignatures)
      ensures m.TypeVariables() == typeVariableSignatures
      ensures forall v :: v in typeVariableSignatures ==>
                && v.containingMethodSignature == Some(m)
                && v.containingClassSignature
                   == (if classInfo.Some? then classInfo.value.typeSignature else old(v.containingClassSignature))
    {
      m := new MethodTypeSignature(typeParameters, paramTypes, resultType, throwsSignatures);
      LinkTypeVariables(typeVariableSignatures, m, classInfo);
    }

    /**
     * The part of `parse` after the type parameters `tps`: `(`, the parameter types, `)`, and
     * the rest, as the grammar function `ParametersStage` reads them.
     */
    static method ParseParametersStage(p: Parser<TypeVariableSignature>, ghost tps: Parsed<seq<TypeParameter<string>>>)
      returns (r: Result<(seq<Node>, Node, seq<ThrowsEntry>)>)
      requires p.Valid() && p.position == tps.next
      modifies p
      ensures p.Valid()
      ensures r.Err? ==> ParametersStage(p.input, tps) == Err(r.error)
      ensures r.Ok? ==> ParametersStage(p.input, tps)
                        == Ok(MethodSig(tps.value, EraseSigs(r.value.0), EraseSig(r.value.1), EraseSigs(r.value.2)))
      ensures r.Ok? ==> p.state == old(p.state) + SigsTypeVars(r.value.0) + TypeVars(r.value.1) + SigsTypeVars(r.value.2)
      ensures old(p.state) <= p.state
      ensures forall k :: |old(p.state)| <= k < |p.state| ==> fresh(p.state[k]) && Unlinked(p.state[k])
    {
      var err := p.Expect('(');
      if err.Some? {
        return Err(err.value);
      }
      var paramTypes := ParseParameterTypes(p);
      if paramTypes.Err? {
        return Err(paramTypes.error);
      }
      ghost var params := Parsed(EraseSigs(paramTypes.value), p.position);
      err := p.Expect(')');
      assert err == None;
      var tail := ParseResultStage(p, tps.value, params);
      if tail.Err? {
        return Err(tail.error);
      }
      var (resultType, throwsSignatures) := tail.value;
      r := Ok((paramTypes.value, resultType, throwsSignatures));
    }

    /**
     * The part of `parse` after the `)` at `params.next`: the result type, the throws entries,
     * and no extra characters, as the grammar function `ResultStage` reads them.
     */
    static method ParseResultStage(p: Parser<TypeVariableSignature>, ghost tps: seq<TypeParameter<string>>,
                                  ghost params: Parsed<seq<Sig<string>>>)
      returns (r: Result<(Node, seq<ThrowsEntry>)>)
      requires p.Valid() && params.next < |p.input| && p.position == params.next + 1
      modifies p
      ensures p.Valid()
      ensures r.Err? ==> ResultStage(p.input, tps, params) == Err(r.error)
      ensures r.Ok? ==> ResultStage(p.input, tps, params)
                        == Ok(MethodSig(tps, params.value, EraseSig(r.value.0), EraseSigs(r.value.1)))
      ensures r.Ok? ==> p.state == old(p.state) + TypeVars(r.value.0) + SigsTypeVars(r.value.1)
      ensures old(p.state) <= p.state
      ensures forall k :: |old(p.state)| <= k < |p.state| ==> fresh(p.state[k]) && Unlinked(p.state[k])
    {
      ghost var s := p.input;
      var resultType := ParseTypeSignature(p);
      if resultType.Fail? {
        return Err(resultType.error);
      }
      if resultType.NoMatch? {
        return Err(ParseException(p.position, MissingResultType));
      }
      ghost var result := SigAt(s, params.next + 1);
      RoundTrip.ResultStageStep(s, tps, params, result.value, result.next);
      ghost var throws := ThrowsAt(s, result.next);
      RoundTrip.ThrowsStageStep(s, tps, params.value, result.value, result.next, throws);
      var throwsSignatures := ParseThrowsSignatures(p);
      if throwsSignatures.Err? {
        return Err(throwsSignatures.error);
      }
      if p.HasMore() {
        return Err(ParseException(p.position, ExtraCharacters));
      }
      r := Ok((resultType.value, throwsSignatures.value));
    }

    /** The parameter types, up to the `)` that ends them (the first loop of `parse`). */
    static method ParseParameterTypes(p: Parser<TypeVariableSignature>) returns (r: Result<seq<Node>>)
      requires p.Valid()
      modifies p
      ensures p.Valid()
      ensures r.Err? ==> ParametersAt(p.input, old(p.position)) == Err(r.error)
      ensures r.Ok? ==> ParametersAt(p.input, old(p.position)) == Ok(Parsed(EraseSigs(r.value), p.position))
      ensures r.Ok? ==> p.state == old(p.state) + SigsTypeVars(r.value)
      ensures old(p.state) <= p.state
      ensures forall k :: |old(p.state)| <= k < |p.state| ==> fresh(p.state[k]) && Unlinked(p.state[k])
    {
      ghost var s := p.input;
      ghost var a := p.position;
      var paramTypes: seq<Node> := [];
      PrependNothing(ParametersAt(s, a));
      while p.Peek() != ')'
        invariant p.Valid() && p.input == s && a <= p.position
        invariant ParametersAt(s, a) == Prepend(EraseSigs(paramTypes), ParametersAt(s, p.position))
        invariant p.state == old(p.state) + SigsTypeVars(paramTypes)
        invariant old(p.state) <= p.state
        invariant forall k :: |old(p.state)| <= k < |p.state| ==> fresh(p.state[k]) && Unlinked(p.state[k])
        decreases |s| - p.position
      {
        if !p.HasMore() {
          return Err(ParseException(p.position, RanOutOfInput));
        }
        ghost var i := p.position;
        ghost var before := p.state;
        var paramType := ParseTypeSignature(p);
        if paramType.Fail? {
          return Err(paramType.error);
        }
        if paramType.NoMatch? {
          return Err(ParseException(p.position, MissingParameterType));
        }
        var t := paramType.value;
        assert p.state == before + TypeVars(t);
        GrammarCompleteness.AppendAssoc(old(p.state), SigsTypeVars(paramTypes), TypeVars(t));
        GrammarCompleteness.ParametersAtStep(s, i, EraseSig(t), p.position, ParametersAt(s, p.position));
        PrependAppend(EraseSigs(paramTypes), [EraseSig(t)], ParametersAt(s, p.position));
        EraseSigsSnoc(paramTypes, t);
        SigsTypeVarsSnoc(paramTypes, t);
        paramTypes := paramTypes + [t];
      }
      assert EraseSigs(paramTypes) + [] == EraseSigs(paramTypes);
      r := Ok(paramTypes);
    }

    /** The throws entries, each after a `^` (the second loop of `parse`). */
    static method ParseThrowsSignatures(p: Parser<TypeVariableSignature>) returns (r: Result<seq<ThrowsEntry>>)
      requires p.Valid()
      modifies p
      ensures p.Valid()
      ensures r.Err? ==> ThrowsAt(p.input, old(p.position)) == Err(r.error)
      ensures r.Ok? ==> ThrowsAt(p.input, old(p.position)) == Ok(Parsed(EraseSigs(r.value), p.position))
      ensures r.Ok? ==> p.state == old(p.state) + SigsTypeVars(r.value)
      ensures old(p.state) <= p.state
      ensures forall k :: |old(p.state)| <= k < |p.state| ==> fresh(p.state[k]) && Unlinked(p.state[k])
    {
      ghost var s := p.input;
      ghost var k := p.position;
      var throwsSignatures: seq<ThrowsEntry> := [];
      PrependNothing(ThrowsAt(s, k));
      if p.Peek() == '^' {
        while p.Peek() == '^'
          invariant p.Valid() && p.input == s && k <= p.position
          invariant ThrowsAt(s, k) == Prepend(EraseSigs(throwsSignatures), ThrowsAt(s, p.position))
          invariant p.state == old(p.state) + SigsTypeVars(throwsSignatures)
          invariant old(p.state) <= p.state
          invariant forall k :: |old(p.state)| <= k < |p.state| ==> fresh(p.state[k]) && Unlinked(p.state[k])
          decreases |s| - p.position
        {
          ghost var i := p.position;
          ghost var before := p.state;
          var err := p.Expect('^');
          assert err == None;
          ghost var e := p.position;
          var entry := ParseThrowsEntry(p);
          GrammarCompleteness.ThrowsAtEntry(s, i, e, ThrowsEntryAt(s, e));
          if entry.Fail? {
            return Err(entry.error);
          }
          if entry.NoMatch? {
            return Err(ParseException(p.position, MissingThrowsType));
          }
          var t: ThrowsEntry := entry.value;
          assert p.state == before + TypeVars(t);
          GrammarCompleteness.AppendAssoc(old(p.state), SigsTypeVars(throwsSignatures), TypeVars(t));
          PrependAppend(EraseSigs(throwsSignatures), [EraseSig(t)], ThrowsAt(s, p.position));
          EraseSigsSnoc(throwsSignatures, t);
          SigsTypeVarsSnoc(throwsSignatures, t);
          throwsSignatures := throwsSignatures + [t];
        }
      }
      assert EraseSigs(throwsSignatures) + [] == EraseSigs(throwsSignatures);
      r := Ok(throwsSignatures);
    }

    /**
     * One throws entry after its `^`: a class reference or, where none is found, a type
     * variable (the body of the second loop of `parse`).
     */
    static method ParseThrowsEntry(p: Parser<TypeVariableSignature>) returns (r: Outcome<Node>)
      requires p.Valid()
      modifies p
      ensures p.Valid()
      ensures r.Fail? ==> ThrowsEntryAt(p.input, old(p.position)) == Fail(r.error)
      ensures r.NoMatch? ==> ThrowsEntryAt(p.input, old(p.position)) == NoMatch
      ensures r.Match? ==> ThrowsEntryAt(p.input, old(p.position)) == Match(EraseSig(r.value), p.position)
      ensures r.Match? ==> p.position == r.next && IsClassRefOrTypeVariable(r.value)
      ensures !r.Match? ==> p.position == old(p.position)
      ensures p.state == old(p.state) + OutcomeTypeVars(r)
      ensures old(p.state) <= p.state
      ensures forall k :: |old(p.state)| <= k < |p.state| ==> fresh(p.state[k]) && Unlinked(p.state[k])
    {
      ThrowsEntryKinds(p.input, p.position);
      r := ParseClassRefTypeSignature(p);
      if r.NoMatch? {
        r := ParseTypeVariableSignature(p);
      }
      if r.Match? {
        EraseKeepsKind(r.value);
      }
    }

    /**
     * Points every node of `typeVariableSignatures` at `methodSignature` and, when `classInfo`
     * is given, at its type signature (the back-link loops at the end of `parse`).
     */
    static method LinkTypeVariables(typeVariableSignatures: seq<TypeVariableSignature>,
                                    methodSignature: MethodTypeSignature, classInfo: Option<ClassInfo>)
      modifies set v | v in typeVariableSignatures
      ensures forall v :: v in typeVariableSignatures ==>
                && v.containingMethodSignature == Some(methodSignature)
                && v.containingClassSignature
                   == (if classInfo.Some? then classInfo.value.typeSignature else old(v.containingClassSignature))
    {
      for i := 0 to |typeVariableSignatures|
        invariant forall j :: 0 <= j < i ==> typeVariableSignatures[j].containingMethodSignature == Some(methodSignature)
        invariant forall v :: v in typeVariableSignatures ==> v.containingClassSignature == old(v.containingClassSignature)
      {
        typeVariableSignatures[i].containingMethodSignature := Some(methodSignature);
      }
      if classInfo.Some? {
        var classSignature := classInfo.value.typeSignature;
        for i := 0 to |typeVariableSignatures|
          invariant forall j :: 0 <= j < i ==> typeVariableSignatures[j].containingClassSignature == classSignature
          invariant forall v :: v in typeVariableSignatures ==> v.containingMethodSignature == Some(methodSignature)
        {
          typeVariableSignatures[i].containingClassSignature := classSignature;
        }
      }
    }

    /** `parse(String)`: the parse without a containing class. */
    static method ParseDescriptor(typeDescriptor: string) returns (r: Result<MethodTypeSignature>)
      ensures r.Err? ==> ParseMethodSignature(typeDescriptor) == Err(r.error)
      ensures r.Ok? ==> ParseMethodSignature(typeDescriptor) == Ok(r.value.Value())
      ensures r.Ok? ==> fresh(r.value)
      ensures r.Ok? ==> forall v :: v in r.value.TypeVariables() ==>
                fresh(v) && v.containingMethodSignature == Some(r.value) && v.containingClassSignature == None
    {
      r := Parse(None, typeDescriptor);
    }

    /**
     * `equals`: `obj` is a method type signature whose four fields are equal to these, each
     * node compared by its erasure (the back-links of its type variables play no part).
     */
    function Equals(obj: object?): (r: bool)
      ensures r <==> obj is MethodTypeSignature && (obj as MethodTypeSignature).Value() == Value()
    {
      && obj is MethodTypeSignature
      && var o := obj as MethodTypeSignature;
      && EraseTypeParameters(o.typeParameters) == EraseTypeParameters(typeParameters)
      && EraseSigs(o.parameterTypeSignatures) == EraseSigs(parameterTypeSignatures)
      && EraseSig(o.resultType) == EraseSig(resultType)
      && EraseSigs(o.throwsSignatures) == EraseSigs(throwsSignatures)
    }

    /**
     * Two parsed signatures are equal exactly when they were parsed from the same descriptor:
     * `equals` loses nothing the descriptor says and adds nothing it does not.
     */
    lemma {:induction false} EqualsIffSameDescriptor(o: MethodTypeSignature, s: string, t: string)
      requires ParseMethodSignature(s) == Ok(Value()) && ParseMethodSignature(t) == Ok(o.Value())
      ensures Equals(o) <==> s == t
    {
      RoundTrip.ParseAcceptsExactlyEncodings(s, Value());
      RoundTrip.ParseAcceptsExactlyEncodings(t, o.Value());
    }

    /**
     * `hashCode`: the type parameters' list hash, plus 7 times the parameters' list hash, plus
     * 15 times the result type's hash, plus 31 times the throws list's hash, in `int` arithmetic.
     */
    function HashCode(): (h: int)
      ensures -0x8000_0000 <= h < 0x8000_0000
    {
      Int32(ListHash(TypeParameterHashes(typeParameters)) + ListHash(SigHashes(parameterTypeSignatures)) * 7
            + SigHash(resultType) * 15 + ListHash(SigHashes(throwsSignatures)) * 31)
    }

    /** Signatures that are equal have the same hash code. */
    lemma {:induction false} EqualsSameHashCode(o: MethodTypeSignature)
      requires Equals(o)
      ensures o.HashCode() == HashCode()
    {
      TypeParameterHashesOfErasure(o.typeParameters, typeParameters);
      SigHashesOfErasure(o.parameterTypeSignatures, parameterTypeSignatures);
      SigHashesOfErasure(o.throwsSignatures, throwsSignatures);
    }

    /**
     * `toString`: the type parameters in `<` `>` followed by a space when there are any, the
     * result type, the parameters in ` (` `)`, and ` throws ` with the throws entries when
     * there are any; lists joined by `, `.
     */
    method ToString() returns (str: string)
      ensures str == RenderMethodSig(Value())
    {
      var buf := "";
      ghost var typeParams := RenderEachTypeParameter(EraseTypeParameters(typeParameters));
      if |typeParameters| > 0 {
        buf := buf + "<";
        for i := 0 to |typeParameters|
          invariant buf == "<" + Join(typeParams[..i], ", ")
        {
          JoinStep("<", typeParams, i, ", ");
          if i > 0 {
            buf := buf + ", ";
          }
          buf := buf + RenderTypeParameter(EraseTypeParameter(typeParameters[i]));
        }
        assert typeParams[..|typeParameters|] == typeParams;
        buf := buf + ">";
      }
      if |buf| > 0 {
        GrammarCompleteness.AppendAssoc("<" + Join(typeParams, ", "), ">", " ");
        buf := buf + " ";
      }
      ghost var m := Value();
      assert buf == (if |m.typeParameters| == 0 then "" else "<" + Join(RenderEachTypeParameter(m.typeParameters), ", ") + "> ");
      buf := buf + Render(EraseSig(resultType));
      buf := buf + " (";
      ghost var open := buf;
      ghost var params := RenderEach(EraseSigs(parameterTypeSignatures));
      for i := 0 to |parameterTypeSignatures|
        invariant buf == open + Join(params[..i], ", ")
      {
        JoinStep(open, params, i, ", ");
        if i > 0 {
          buf := buf + ", ";
        }
        buf := buf + Render(EraseSig(parameterTypeSignatures[i]));
      }
      assert params[..|parameterTypeSignatures|] == params;
      buf := buf + ")";
      ghost var close := buf;
      GrammarCompleteness.AppendEmpty(close);
      if |throwsSignatures| > 0 {
        buf := buf + " throws ";
        ghost var throwsStart := buf;
        ghost var throws := RenderEach(EraseSigs(throwsSignatures));
        for i := 0 to |throwsSignatures|
          invariant buf == throwsStart + Join(throws[..i], ", ")
        {
          JoinStep(throwsStart, throws, i, ", ");
          if i > 0 {
            buf := buf + ", ";
          }
          buf := buf + Render(EraseSig(throwsSignatures[i]));
        }
        assert throws[..|throwsSignatures|] == throws;
        GrammarCompleteness.AppendAssoc(close, " throws ", Join(throws, ", "));
      }
      str := buf;
    }

    /**
     * `getAllReferencedClassNames`: `classNameListOut` with the class names referenced by the
     * type parameters, the parameters, the result type and the throws entries added.
     */
    method GetAllReferencedClassNames(classNameListOut: set<string>) returns (out: set<string>)
      ensures out == classNameListOut + MethodClassNames(Value())
    {
      out := classNameListOut;
      for i := 0 to |typeParameters|
        invariant out == classNameListOut + TypeParametersClassNames(typeParameters[..i])
      {
        TypeParametersClassNamesSnoc(typeParameters[..i], typeParameters[i]);
        assert typeParameters[..i + 1] == typeParameters[..i] + [typeParameters[i]];
        out := out + TypeParameterClassNames(typeParameters[i]);
      }
      assert typeParameters[..|typeParameters|] == typeParameters;
      ghost var afterTypeParameters := out;
      for i := 0 to |parameterTypeSignatures|
        invariant out == afterTypeParameters + SigsClassNames(parameterTypeSignatures[..i])
      {
        SigsClassNamesSnoc(parameterTypeSignatures[..i], parameterTypeSignatures[i]);
        assert parameterTypeSignatures[..i + 1] == parameterTypeSignatures[..i] + [parameterTypeSignatures[i]];
        out := out + ClassNames(parameterTypeSignatures[i]);
      }
      assert parameterTypeSignatures[..|parameterTypeSignatures|] == parameterTypeSignatures;
      out := out + ClassNames(resultType);
      ghost var afterResult := out;
      for i := 0 to |throwsSignatures|
        invariant out == afterResult + SigsClassNames(throwsSignatures[..i])
      {
        SigsClassNamesSnoc(throwsSignatures[..i], throwsSignatures[i]);
        assert throwsSignatures[..i + 1] == throwsSignatures[..i] + [throwsSignatures[i]];
        out := out + ClassNames(throwsSignatures[i]);
      }
      assert throwsSignatures[..|throwsSignatures|] == throwsSignatures;
      TypeParametersClassNamesOfErasure(typeParameters);
      SigsClassNamesOfErasure(parameterTypeSignatures);
      ClassNamesOfErasure(resultType);
      SigsClassNamesOfErasure(throwsSignatures);
    }
  }
}
