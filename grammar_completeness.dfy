/**
 * What the grammar accepts: every well-formed value is read back from its own descriptor
 * encoding, whatever text follows it (so long as that text cannot continue the value), and
 * the parse of a whole method signature fails with the messages of MethodTypeSignature.parse
 * exactly where the text departs from the `MethodSignature` production.
 */
module GrammarCompleteness {
  import opened Wrappers
  import opened Cursor
  import opened SignatureAst
  import opened SignatureGrammar

  /**
   * The text `e` occurs in `s` at position `i`, stated character by character (and not as an
   * equality of slices) so that it unfolds only as far as a proof asks.
   */
  predicate TextAt(s: string, i: nat, e: string)
    decreases |e|
  {
    if |e| == 0 then i <= |s| else i < |s| && s[i] == e[0] && TextAt(s, i + 1, e[1..])
  }

  lemma {:induction false} TextAtBound(s: string, i: nat, e: string)
    requires TextAt(s, i, e)
    ensures i + |e| <= |s|
    decreases |e|
  {
    if |e| > 0 { TextAtBound(s, i + 1, e[1..]); }
  }

  lemma {:induction false} TextAtSlice(s: string, i: nat, e: string)
    requires TextAt(s, i, e)
    ensures i + |e| <= |s| && s[i..i + |e|] == e
    decreases |e|
  {
    if |e| > 0 {
      TextAtSlice(s, i + 1, e[1..]);
      assert s[i..i + |e|] == [s[i]] + s[i + 1..i + |e|];
      ConsSplit(e);
    }
  }

  lemma {:induction false} TextAtSplit(s: string, i: nat, a: string, b: string)
    requires TextAt(s, i, a + b)
    ensures TextAt(s, i, a) && TextAt(s, i + |a|, b)
    decreases |a|
  {
    if |a| > 0 {
      assert (a + b)[0] == a[0] && (a + b)[1..] == a[1..] + b;
      TextAtSplit(s, i + 1, a[1..], b);
    } else {
      assert a + b == b;
      TextAtBound(s, i, b);
    }
  }

  lemma {:induction false} TextAtHead(s: string, i: nat, e: string)
    requires TextAt(s, i, e) && |e| > 0
    ensures PeekAt(s, i) == e[0]
  {
  }

  /** A scan over a text whose characters are all accepted stops right after it, if nothing accepted follows. */
  lemma {:induction false} ScanText(s: string, i: nat, e: string, accept: char -> bool)
    requires TextAt(s, i, e) && forall k :: 0 <= k < |e| ==> accept(e[k])
    requires i + |e| < |s| ==> !accept(s[i + |e|])
    ensures ScanEnd(s, i, accept) == i + |e|
    decreases |e|
  {
    TextAtBound(s, i, e);
    if |e| > 0 {
      assert forall k :: 0 <= k < |e[1..]| ==> accept(e[1..][k]) by {
        forall k | 0 <= k < |e[1..]| ensures accept(e[1..][k]) { assert e[1..][k] == e[k + 1]; }
      }
      assert accept(e[0]);
      ScanText(s, i + 1, e[1..], accept);
    }
  }

  // Solver aids: one-step sequence facts the proofs below cite where the solver needs them.

  lemma {:induction false} AppendEmpty<T>(a: seq<T>)
    ensures [] + a == a && a + [] == a
  {
  }

  lemma {:induction false} AppendAssoc<T>(a: seq<T>, b: seq<T>, c: seq<T>)
    ensures a + b + c == a + (b + c)
  {
  }

  lemma {:induction false} ConsSplit<T>(xs: seq<T>)
    requires |xs| > 0
    ensures [xs[0]] + xs[1..] == xs
  {
  }

  /** The first character of an encoding. */
  function SigHead(x: Sig<string>): char
  {
    match x
    case BaseType(c) => c
    case ClassRef(_, _) => 'L'
    case TypeVariable(_) => 'T'
    case ArrayOf(_) => '['
  }

  lemma {:induction false} EncodeSigHead(x: Sig<string>)
    ensures |EncodeSig(x)| > 0 && EncodeSig(x)[0] == SigHead(x)
    ensures IsReferenceType(x) ==> StartsReferenceType(SigHead(x)) && !IsBaseTypeCode(SigHead(x))
  {
  }

  /** Binary class names go back to the same dotted name. */
  lemma {:induction false} SlashedNameInverse(n: string)
    requires IsClassName(n)
    ensures var sn := SlashedName(n);
      |sn| == |n| && (forall k :: 0 <= k < |sn| ==> IsClassNameChar(sn[k])) && DottedName(sn) == n
  {
    var sn := SlashedName(n);
    assert forall k :: 0 <= k < |n| ==> DottedName(sn)[k] == n[k];
  }

  // ---------------------------------------------------------------------------------------
  // Node parsers read back the encoding of every well-formed node

  lemma {:induction false} TypeVariableAtComplete(s: string, i: nat, x: Sig<string>)
    requires x.TypeVariable? && WellFormedSig(x) && TextAt(s, i, EncodeSig(x))
    ensures TypeVariableAt(s, i) == Match(x, i + |EncodeSig(x)|)
  {
    var v := x.variable;
    assert EncodeSig(x) == "T" + v + ";";
    TextAtSplit(s, i, "T" + v, ";");
    TextAtSplit(s, i, "T", v);
    TextAtHead(s, i, "T");
    TextAtHead(s, i + 1 + |v|, ";");
    ScanText(s, i + 1, v, IsIdentChar);
    TextAtSlice(s, i + 1, v);
  }

  /** The text of a class reference, cut where ClassRefAt looks at it. */
  lemma {:induction false} ClassRefPieces(s: string, i: nat, n: string, a: string)
    requires IsClassName(n) && (a == "" || a[0] == '<') && TextAt(s, i, "L" + SlashedName(n) + a + ";")
    ensures var j := i + 1 + |n|;
      && PeekAt(s, i) == 'L' && ScanEnd(s, i + 1, IsClassNameChar) == j && DottedName(s[i + 1..j]) == n
      && TextAt(s, j, a) && PeekAt(s, j + |a|) == ';'
  {
    var sn := SlashedName(n);
    TextAtSplit(s, i, "L" + sn + a, ";");
    TextAtSplit(s, i, "L" + sn, a);
    TextAtSplit(s, i, "L", sn);
    TextAtHead(s, i, "L");
    var j := i + 1 + |sn|;
    TextAtHead(s, j + |a|, ";");
    SlashedNameInverse(n);
    if a != "" {
      TextAtHead(s, j, a);
    }
    ScanText(s, i + 1, sn, IsClassNameChar);
    TextAtSlice(s, i + 1, sn);
    TextAtBound(s, j + |a|, ";");
  }

  lemma {:induction false} ClassRefAtComplete(s: string, i: nat, x: Sig<string>)
    requires x.ClassRef? && WellFormedSig(x) && TextAt(s, i, EncodeSig(x))
    ensures ClassRefAt(s, i) == Match(x, i + |EncodeSig(x)|)
    decreases |s| - i, 1
  {
    var n, args := x.className, x.typeArguments;
    var j := i + 1 + |n|;
    var k := if |args| == 0 then j else j + 1 + |EncodeArgs(args)| + 1;
    ClassRefText(s, i, x, j, k);
    if |args| == 0 {
      ClassRefAtNoArguments(s, i, n, j);
    } else {
      TypeArgumentsAtComplete(s, j + 1, args);
      ClassRefAtArguments(s, i, n, j, args, k);
    }
  }

  /**
   * Where ClassRefAt finds the pieces of an encoded class reference: the name ends at `j`,
   * and the `;` is at `k`, after the type arguments if there are any.
   */
  lemma {:induction false} ClassRefText(s: string, i: nat, x: Sig<string>, j: nat, k: nat)
    requires x.ClassRef? && IsClassName(x.className) && TextAt(s, i, EncodeSig(x))
    requires j == i + 1 + |x.className|
    requires k == if |x.typeArguments| == 0 then j else j + 1 + |EncodeArgs(x.typeArguments)| + 1
    ensures i + 1 < j <= k < |s| && PeekAt(s, i) == 'L' && ScanEnd(s, i + 1, IsClassNameChar) == j
    ensures DottedName(s[i + 1..j]) == x.className && PeekAt(s, k) == ';' && k + 1 == i + |EncodeSig(x)|
    ensures |x.typeArguments| > 0 ==> PeekAt(s, j) == '<' && TextAt(s, j + 1, EncodeArgs(x.typeArguments) + ">")
  {
    var n, args := x.className, x.typeArguments;
    var a := if |args| == 0 then "" else "<" + EncodeArgs(args) + ">";
    ClassRefEncoding(x, a);
    ClassRefPieces(s, i, n, a);
    TextAtBound(s, i, EncodeSig(x));
    if |args| > 0 {
      AngleText(s, j, EncodeArgs(args), k);
    }
  }

  /** A class reference's encoding, with `a` the encoding of its type arguments. */
  lemma {:induction false} ClassRefEncoding(x: Sig<string>, a: string)
    requires x.ClassRef? && IsClassName(x.className)
    requires a == if |x.typeArguments| == 0 then "" else "<" + EncodeArgs(x.typeArguments) + ">"
    ensures EncodeSig(x) == "L" + SlashedName(x.className) + a + ";"
    ensures |EncodeSig(x)| == |x.className| + |a| + 2
  {
    SlashedNameInverse(x.className);
  }

  /** Text between `<` at `j` and `>` just before `k`. */
  lemma {:induction false} AngleText(s: string, j: nat, e: string, k: nat)
    requires TextAt(s, j, "<" + e + ">") && k == j + 1 + |e| + 1
    ensures PeekAt(s, j) == '<' && TextAt(s, j + 1, e + ">") && k == j + |"<" + e + ">"|
  {
    AppendAssoc("<", e, ">");
    TextAtSplit(s, j, "<", e + ">");
    TextAtHead(s, j, "<");
  }

  /** The two class references ClassRefAt builds: without type arguments ... */
  lemma {:induction false} ClassRefAtNoArguments(s: string, i: nat, n: string, j: nat)
    requires i + 1 < j <= |s| && PeekAt(s, i) == 'L' && ScanEnd(s, i + 1, IsClassNameChar) == j
    requires DottedName(s[i + 1..j]) == n && PeekAt(s, j) == ';'
    ensures ClassRefAt(s, i) == Match(ClassRef(n, []), j + 1)
  {
  }

  /** ... and with them. */
  lemma {:induction false} ClassRefAtArguments(s: string, i: nat, n: string, j: nat,
                                              args: seq<TypeArgument<string>>, k: nat)
    requires i + 1 < j < |s| && PeekAt(s, i) == 'L' && ScanEnd(s, i + 1, IsClassNameChar) == j
    requires DottedName(s[i + 1..j]) == n && PeekAt(s, j) == '<'
    requires TypeArgumentsAt(s, j + 1) == Ok(Parsed(args, k)) && PeekAt(s, k) == ';'
    ensures ClassRefAt(s, i) == Match(ClassRef(n, args), k + 1)
  {
  }

  lemma {:induction false} ArrayTypeAtComplete(s: string, i: nat, x: Sig<string>)
    requires x.ArrayOf? && WellFormedSig(x) && TextAt(s, i, EncodeSig(x))
    ensures ArrayTypeAt(s, i) == Match(x, i + |EncodeSig(x)|)
    decreases |s| - i, 1
  {
    TextAtSplit(s, i, "[", EncodeSig(x.elementType));
    TextAtHead(s, i, "[");
    SigAtComplete(s, i + 1, x.elementType);
  }

  lemma {:induction false} RefSigAtComplete(s: string, i: nat, x: Sig<string>)
    requires IsReferenceType(x) && WellFormedSig(x) && TextAt(s, i, EncodeSig(x))
    ensures RefSigAt(s, i) == Match(x, i + |EncodeSig(x)|)
    decreases |s| - i, 2
  {
    EncodeSigHead(x);
    TextAtHead(s, i, EncodeSig(x));
    match x
    case ClassRef(_, _) => ClassRefAtComplete(s, i, x);
    case TypeVariable(_) => TypeVariableAtComplete(s, i, x);
    case ArrayOf(_) => ArrayTypeAtComplete(s, i, x);
  }

  lemma {:induction false} SigAtComplete(s: string, i: nat, x: Sig<string>)
    requires WellFormedSig(x) && TextAt(s, i, EncodeSig(x))
    ensures SigAt(s, i) == Match(x, i + |EncodeSig(x)|)
    decreases |s| - i, 3
  {
    EncodeSigHead(x);
    TextAtHead(s, i, EncodeSig(x));
    if !x.BaseType? {
      RefSigAtComplete(s, i, x);
    }
  }

  lemma {:induction false} TypeArgumentAtComplete(s: string, i: nat, a: TypeArgument<string>)
    requires WellFormedArg(a) && TextAt(s, i, EncodeArg(a))
    ensures TypeArgumentAt(s, i) == Match(a, i + |EncodeArg(a)|)
    decreases |s| - i, 3
  {
    match a
    case Unbounded =>
      TextAtHead(s, i, "*");
    case Bounded(NoWildcard, b) =>
      EncodeSigHead(b);
      TextAtHead(s, i, EncodeSig(b));
      RefSigAtComplete(s, i, b);
    case Bounded(w, b) =>
      var c := if w == Extends then '+' else '-';
      assert EncodeArg(a) == [c] + EncodeSig(b);
      TextAtSplit(s, i, [c], EncodeSig(b));
      TextAtHead(s, i, [c]);
      RefSigAtComplete(s, i + 1, b);
  }

  /** The first character of a type argument's encoding is never the `>` that ends the list. */
  lemma {:induction false} EncodeArgHead(a: TypeArgument<string>)
    requires WellFormedArg(a)
    ensures |EncodeArg(a)| > 0 && EncodeArg(a)[0] != '>'
  {
    if a.Bounded? { EncodeSigHead(a.bound); }
  }

  lemma {:induction false} EncodeArgsHead(args: seq<TypeArgument<string>>)
    requires |args| > 0 && WellFormedArg(args[0])
    ensures |EncodeArgs(args)| > 0 && EncodeArgs(args)[0] != '>'
  {
    EncodeArgHead(args[0]);
  }

  lemma {:induction false} TypeArgumentsAtComplete(s: string, i: nat, args: seq<TypeArgument<string>>)
    requires |args| > 0 && (forall k :: 0 <= k < |args| ==> WellFormedArg(args[k]))
    requires TextAt(s, i, EncodeArgs(args) + ">")
    ensures TypeArgumentsAt(s, i) == Ok(Parsed(args, i + |EncodeArgs(args)| + 1))
    decreases |s| - i, 4
  {
    var first, rest := EncodeArg(args[0]), EncodeArgs(args[1..]);
    assert EncodeArgs(args) + ">" == first + (rest + ">");
    TextAtSplit(s, i, first, rest + ">");
    TypeArgumentAtComplete(s, i, args[0]);
    var j := i + |first|;
    if |args| == 1 {
      assert rest == "";
      TextAtHead(s, j, rest + ">");
      assert [args[0]] == args;
    } else {
      EncodeArgsHead(args[1..]);
      TextAtHead(s, j, rest + ">");
      TypeArgumentsAtComplete(s, j, args[1..]);
      assert [args[0]] + args[1..] == args;
    }
  }

  // ---------------------------------------------------------------------------------------
  // Type parameters

  /** Where no reference type starts, the reference-type parser does not match. */
  lemma {:induction false} RefSigAtNoStart(s: string, i: nat)
    requires i <= |s| && !StartsReferenceType(PeekAt(s, i))
    ensures RefSigAt(s, i) == NoMatch
  {
  }

  /** One step of the interface-bound list, in terms of the bound and the rest. */
  lemma {:induction false} InterfaceBoundsAtStep(s: string, i: nat, b: Sig<string>, j: nat, xs: seq<Sig<string>>, k: nat)
    requires i < j <= |s| && PeekAt(s, i) == ':' && RefSigAt(s, i + 1) == Match(b, j)
    requires InterfaceBoundsAt(s, j) == Ok(Parsed(xs, k))
    ensures InterfaceBoundsAt(s, i) == Ok(Parsed([b] + xs, k))
  {
  }

  lemma {:induction false} InterfaceBoundsAtComplete(s: string, i: nat, bs: seq<Sig<string>>)
    requires forall k :: 0 <= k < |bs| ==> IsReferenceType(bs[k]) && WellFormedSig(bs[k])
    requires TextAt(s, i, EncodeInterfaceBounds(bs)) && PeekAt(s, i + |EncodeInterfaceBounds(bs)|) != ':'
    ensures InterfaceBoundsAt(s, i) == Ok(Parsed(bs, i + |EncodeInterfaceBounds(bs)|))
    decreases |bs|
  {
    if |bs| == 0 {
      assert bs == [] && EncodeInterfaceBounds(bs) == "";
    } else {
      var j := i + 1 + |EncodeSig(bs[0])|;
      var n := j + |EncodeInterfaceBounds(bs[1..])|;
      InterfaceBoundsText(s, i, bs, j, n);
      RefSigAtComplete(s, i + 1, bs[0]);
      InterfaceBoundsAtComplete(s, j, bs[1..]);
      InterfaceBoundsAtStep(s, i, bs[0], j, bs[1..], n);
      ConsSplit(bs);
    }
  }

  /** Where the first interface bound of an encoded list ends, at `j`, and the list ends, at `n`. */
  lemma {:induction false} InterfaceBoundsText(s: string, i: nat, bs: seq<Sig<string>>, j: nat, n: nat)
    requires |bs| > 0 && forall k :: 0 <= k < |bs| ==> IsReferenceType(bs[k]) && WellFormedSig(bs[k])
    requires TextAt(s, i, EncodeInterfaceBounds(bs))
    requires j == i + 1 + |EncodeSig(bs[0])| && n == j + |EncodeInterfaceBounds(bs[1..])|
    ensures n == i + |EncodeInterfaceBounds(bs)| && i < j <= |s|
    ensures PeekAt(s, i) == ':' && TextAt(s, i + 1, EncodeSig(bs[0])) && TextAt(s, j, EncodeInterfaceBounds(bs[1..]))
    ensures IsReferenceType(bs[0]) && WellFormedSig(bs[0])
    ensures forall k :: 0 <= k < |bs[1..]| ==> IsReferenceType(bs[1..][k]) && WellFormedSig(bs[1..][k])
  {
    var b, rest := EncodeSig(bs[0]), EncodeInterfaceBounds(bs[1..]);
    assert EncodeInterfaceBounds(bs) == ":" + (b + rest);
    TextAtSplit(s, i, ":", b + rest);
    TextAtSplit(s, i + 1, b, rest);
    TextAtHead(s, i, ":");
    TextAtBound(s, j, rest);
    forall k | 0 <= k < |bs[1..]| ensures IsReferenceType(bs[1..][k]) && WellFormedSig(bs[1..][k]) {
      assert bs[1..][k] == bs[k + 1];
    }
  }

  /** One character between two texts, and what follows them. */
  lemma {:induction false} ThreePieces(s: string, i: nat, a: string, c: char, b: string, d: string)
    requires TextAt(s, i, a + ([c] + (b + d)))
    ensures TextAt(s, i, a) && PeekAt(s, i + |a|) == c && TextAt(s, i + |a| + 1, b) && TextAt(s, i + |a| + 1 + |b|, d)
  {
    TextAtSplit(s, i, a, [c] + (b + d));
    TextAtSplit(s, i + |a|, [c], b + d);
    TextAtSplit(s, i + |a| + 1, b, d);
    TextAtHead(s, i + |a|, [c]);
  }

  lemma {:induction false} TypeParameterText(s: string, i: nat, tp: TypeParameter<string>)
    requires TextAt(s, i, EncodeTypeParameter(tp))
    ensures var id, cb := tp.identifier, ClassBoundText(tp);
      && TextAt(s, i, id) && PeekAt(s, i + |id|) == ':' && TextAt(s, i + |id| + 1, cb)
      && TextAt(s, i + |id| + 1 + |cb|, EncodeInterfaceBounds(tp.interfaceBounds))
      && |EncodeTypeParameter(tp)| == |id| + 1 + |cb| + |EncodeInterfaceBounds(tp.interfaceBounds)|
  {
    EncodeTypeParameterShape(tp);
    ThreePieces(s, i, tp.identifier, ':', ClassBoundText(tp), EncodeInterfaceBounds(tp.interfaceBounds));
  }

  /** The type parameter TypeParameterAt builds from its pieces: with a class bound ... */
  lemma {:induction false} TypeParameterAtWithBound(s: string, i: nat, j: nat, id: string, b: Sig<string>, k: nat, bs: seq<Sig<string>>, n: nat)
    requires i < j < |s| && ScanEnd(s, i, IsIdentChar) == j && s[i..j] == id && PeekAt(s, j) == ':'
    requires RefSigAt(s, j + 1) == Match(b, k) && InterfaceBoundsAt(s, k) == Ok(Parsed(bs, n))
    ensures TypeParameterAt(s, i) == Match(TypeParameter(id, Some(b), bs), n)
  {
  }

  /** ... and without one. */
  lemma {:induction false} TypeParameterAtWithoutBound(s: string, i: nat, j: nat, id: string, bs: seq<Sig<string>>, n: nat)
    requires i < j < |s| && ScanEnd(s, i, IsIdentChar) == j && s[i..j] == id && PeekAt(s, j) == ':'
    requires RefSigAt(s, j + 1) == NoMatch && InterfaceBoundsAt(s, j + 1) == Ok(Parsed(bs, n))
    ensures TypeParameterAt(s, i) == Match(TypeParameter(id, None, bs), n)
  {
  }

  /**
   * A type parameter is read back when what follows can neither continue its bounds (a `:`)
   * nor, if it has no bound, be read as its class bound.
   */
  lemma {:induction false} TypeParameterAtComplete(s: string, i: nat, tp: TypeParameter<string>, n: nat)
    requires WellFormedTypeParameter(tp) && TextAt(s, i, EncodeTypeParameter(tp)) && n == i + |EncodeTypeParameter(tp)|
    requires PeekAt(s, n) != ':' && (HasNoBound(tp) ==> !StartsReferenceType(PeekAt(s, n)))
    ensures TypeParameterAt(s, i) == Match(tp, n)
  {
    var j := i + |tp.identifier|;
    var k := j + 1 + |ClassBoundText(tp)|;
    TypeParameterPieces(s, i, tp, j, k, n);
    if tp.classBound.Some? {
      TypeParameterAtBounded(s, i, tp, j, k, n);
    } else {
      TypeParameterAtUnbounded(s, i, tp, j, n);
    }
  }

  lemma {:induction false} TypeParameterAtBounded(s: string, i: nat, tp: TypeParameter<string>, j: nat, k: nat, n: nat)
    requires WellFormedTypeParameter(tp) && tp.classBound.Some?
    requires i < j < |s| && ScanEnd(s, i, IsIdentChar) == j && s[i..j] == tp.identifier && PeekAt(s, j) == ':'
    requires TextAt(s, j + 1, EncodeSig(tp.classBound.value)) && k == j + 1 + |EncodeSig(tp.classBound.value)|
    requires TextAt(s, k, EncodeInterfaceBounds(tp.interfaceBounds)) && n == k + |EncodeInterfaceBounds(tp.interfaceBounds)|
    requires PeekAt(s, n) != ':'
    ensures TypeParameterAt(s, i) == Match(tp, n)
  {
    RefSigAtComplete(s, j + 1, tp.classBound.value);
    InterfaceBoundsAtComplete(s, k, tp.interfaceBounds);
    TypeParameterAtWithBound(s, i, j, tp.identifier, tp.classBound.value, k, tp.interfaceBounds, n);
  }

  lemma {:induction false} TypeParameterAtUnbounded(s: string, i: nat, tp: TypeParameter<string>, j: nat, n: nat)
    requires WellFormedTypeParameter(tp) && tp.classBound.None?
    requires i < j < |s| && ScanEnd(s, i, IsIdentChar) == j && s[i..j] == tp.identifier && PeekAt(s, j) == ':'
    requires !StartsReferenceType(PeekAt(s, j + 1))
    requires TextAt(s, j + 1, EncodeInterfaceBounds(tp.interfaceBounds)) && n == j + 1 + |EncodeInterfaceBounds(tp.interfaceBounds)|
    requires PeekAt(s, n) != ':'
    ensures TypeParameterAt(s, i) == Match(tp, n)
  {
    RefSigAtNoStart(s, j + 1);
    InterfaceBoundsAtComplete(s, j + 1, tp.interfaceBounds);
    TypeParameterAtWithoutBound(s, i, j, tp.identifier, tp.interfaceBounds, n);
  }

  /**
   * Where TypeParameterAt finds the pieces of an encoded type parameter: the name ends at
   * `j`, the interface bounds start at `k` and end at `n`.
   */
  lemma {:induction false} TypeParameterPieces(s: string, i: nat, tp: TypeParameter<string>, j: nat, k: nat, n: nat)
    requires WellFormedTypeParameter(tp) && TextAt(s, i, EncodeTypeParameter(tp))
    requires j == i + |tp.identifier| && k == j + 1 + |ClassBoundText(tp)|
    requires n == i + |EncodeTypeParameter(tp)|
    requires PeekAt(s, n) != ':' && (HasNoBound(tp) ==> !StartsReferenceType(PeekAt(s, n)))
    ensures n == k + |EncodeInterfaceBounds(tp.interfaceBounds)|
    ensures i < j < |s| && ScanEnd(s, i, IsIdentChar) == j && s[i..j] == tp.identifier && PeekAt(s, j) == ':'
    ensures TextAt(s, k, EncodeInterfaceBounds(tp.interfaceBounds))
    ensures tp.classBound.Some? ==>
      TextAt(s, j + 1, EncodeSig(tp.classBound.value)) && k == j + 1 + |EncodeSig(tp.classBound.value)|
    ensures tp.classBound.None? ==> k == j + 1 && !StartsReferenceType(PeekAt(s, j + 1))
  {
    var id, ib := tp.identifier, EncodeInterfaceBounds(tp.interfaceBounds);
    TypeParameterText(s, i, tp);
    TextAtBound(s, k, ib);
    ScanText(s, i, id, IsIdentChar);
    TextAtSlice(s, i, id);
    if tp.classBound.None? && |tp.interfaceBounds| > 0 {
      TextAtHead(s, k, ib);
    }
  }

  /** The list's encoding starts with the first parameter's name. */
  lemma {:induction false} EncodeTypeParameterListHead(tps: seq<TypeParameter<string>>)
    requires |tps| > 0 && IsIdentifier(tps[0].identifier)
    ensures |EncodeTypeParameterList(tps)| > 0 && EncodeTypeParameterList(tps)[0] == tps[0].identifier[0]
  {
  }

  /** The two ways TypeParameterListAt goes on after one parameter: the end of the list ... */
  lemma {:induction false} TypeParameterListAtLast(s: string, i: nat, tp: TypeParameter<string>, j: nat)
    requires i <= |s| && TypeParameterAt(s, i) == Match(tp, j) && PeekAt(s, j) == '>'
    ensures TypeParameterListAt(s, i) == Ok(Parsed([tp], j + 1))
  {
  }

  /** ... or the parameters after it. */
  lemma {:induction false} TypeParameterListAtMore(s: string, i: nat, tp: TypeParameter<string>, j: nat, tps: seq<TypeParameter<string>>, n: nat)
    requires i <= |s| && TypeParameterAt(s, i) == Match(tp, j) && PeekAt(s, j) != '>'
    requires TypeParameterListAt(s, j) == Ok(Parsed(tps, n))
    ensures TypeParameterListAt(s, i) == Ok(Parsed([tp] + tps, n))
  {
  }

  /** An encoded list followed by `>` splits into its first parameter and the rest with the `>`. */
  lemma {:induction false} TypeParameterListSplit(s: string, i: nat, tps: seq<TypeParameter<string>>, j: nat, n: nat)
    requires |tps| > 0 && TextAt(s, i, EncodeTypeParameterList(tps) + ">")
    requires j == i + |EncodeTypeParameter(tps[0])| && n == j + |EncodeTypeParameterList(tps[1..])|
    ensures n == i + |EncodeTypeParameterList(tps)| && n < |s|
    ensures TextAt(s, i, EncodeTypeParameter(tps[0]))
    ensures TextAt(s, j, EncodeTypeParameterList(tps[1..]) + ">")
  {
    var first, rest := EncodeTypeParameter(tps[0]), EncodeTypeParameterList(tps[1..]);
    AppendAssoc(first, rest, ">");
    TextAtSplit(s, i, first, rest + ">");
    TextAtBound(s, j, rest + ">");
  }

  /** After the first of two or more parameters comes the second one's name. */
  lemma {:induction false} TypeParameterListNext(s: string, j: nat, tps: seq<TypeParameter<string>>)
    requires |tps| > 1 && WellFormedTypeParameters(tps)
    requires TextAt(s, j, EncodeTypeParameterList(tps[1..]) + ">")
    ensures WellFormedTypeParameters(tps[1..]) && IsIdentifier(tps[1].identifier)
    ensures PeekAt(s, j) == tps[1].identifier[0]
  {
    assert tps[1..][0] == tps[1];
    EncodeTypeParameterListHead(tps[1..]);
    TextAtHead(s, j, EncodeTypeParameterList(tps[1..]) + ">");
  }

  /**
   * Where the first type parameter of an encoded list (followed by `>`) ends, at `j`, and
   * the list ends, at `n`, just before its `>`.
   */
  lemma {:induction false} TypeParameterListText(s: string, i: nat, tps: seq<TypeParameter<string>>, j: nat, n: nat)
    requires |tps| > 0 && WellFormedTypeParameters(tps) && TextAt(s, i, EncodeTypeParameterList(tps) + ">")
    requires j == i + |EncodeTypeParameter(tps[0])| && n == j + |EncodeTypeParameterList(tps[1..])|
    ensures n == i + |EncodeTypeParameterList(tps)| && n < |s|
    ensures TextAt(s, i, EncodeTypeParameter(tps[0])) && WellFormedTypeParameter(tps[0])
    ensures |tps| == 1 ==> j == n && PeekAt(s, j) == '>'
    ensures |tps| > 1 ==>
      && PeekAt(s, j) != '>' && PeekAt(s, j) != ':'
      && (HasNoBound(tps[0]) ==> !StartsReferenceType(PeekAt(s, j)))
      && TextAt(s, j, EncodeTypeParameterList(tps[1..]) + ">") && WellFormedTypeParameters(tps[1..])
  {
    TypeParameterListSplit(s, i, tps, j, n);
    if |tps| == 1 {
      assert EncodeTypeParameterList(tps[1..]) == "";
      TextAtHead(s, j, EncodeTypeParameterList(tps[1..]) + ">");
    } else {
      TypeParameterListNext(s, j, tps);
    }
  }

  /** A list of type parameters and its `>` are read back up to `n`, just after the `>`. */
  lemma {:induction false} TypeParameterListAtComplete(s: string, i: nat, tps: seq<TypeParameter<string>>, n: nat)
    requires |tps| > 0 && WellFormedTypeParameters(tps) && TextAt(s, i, EncodeTypeParameterList(tps) + ">")
    requires n == i + |EncodeTypeParameterList(tps)| + 1
    ensures TypeParameterListAt(s, i) == Ok(Parsed(tps, n))
    decreases |tps|
  {
    var j := i + |EncodeTypeParameter(tps[0])|;
    TypeParameterListText(s, i, tps, j, n - 1);
    TypeParameterAtComplete(s, i, tps[0], j);
    if |tps| == 1 {
      TypeParameterListAtLast(s, i, tps[0], j);
      assert [tps[0]] == tps;
    } else {
      TypeParameterListAtComplete(s, j, tps[1..], n);
      TypeParameterListAtMore(s, i, tps[0], j, tps[1..], n);
    }
    ConsSplit(tps);
  }

  /** Type parameters are read back up to `n`, the end of their encoding. */
  lemma {:induction false} TypeParametersAtComplete(s: string, i: nat, tps: seq<TypeParameter<string>>, n: nat)
    requires WellFormedTypeParameters(tps) && TextAt(s, i, EncodeTypeParameters(tps))
    requires |tps| == 0 ==> PeekAt(s, i) != '<'
    requires n == i + |EncodeTypeParameters(tps)|
    ensures TypeParametersAt(s, i) == Ok(Parsed(tps, n))
  {
    if |tps| > 0 {
      TypeParametersText(s, i, tps, n);
      TypeParametersAtOpen(s, i);
      TypeParameterListAtComplete(s, i + 1, tps, n);
    } else {
      assert tps == [] && EncodeTypeParameters(tps) == "";
    }
  }

  /** The `<` of encoded type parameters, the list after it, and their end at `k`. */
  lemma {:induction false} TypeParametersText(s: string, i: nat, tps: seq<TypeParameter<string>>, k: nat)
    requires |tps| > 0 && TextAt(s, i, EncodeTypeParameters(tps)) && k == i + |EncodeTypeParameters(tps)|
    ensures PeekAt(s, i) == '<' && TextAt(s, i + 1, EncodeTypeParameterList(tps) + ">")
    ensures k == i + 1 + |EncodeTypeParameterList(tps)| + 1
  {
    var x := EncodeTypeParameterList(tps);
    assert EncodeTypeParameters(tps) == "<" + x + ">";
    AngleText(s, i, x, i + 1 + |x| + 1);
  }

  lemma {:induction false} TypeParametersAtOpen(s: string, i: nat)
    requires i <= |s| && PeekAt(s, i) == '<'
    ensures TypeParametersAt(s, i) == TypeParameterListAt(s, i + 1)
  {
  }

  // ---------------------------------------------------------------------------------------
  // The lists MethodTypeSignature.parse reads itself

  lemma {:induction false} ParametersAtStep(s: string, i: nat, x: Sig<string>, j: nat, tail: Result<Parsed<seq<Sig<string>>>>)
    requires i <= |s| && PeekAt(s, i) != ')' && SigAt(s, i) == Match(x, j) && ParametersAt(s, j) == tail
    ensures ParametersAt(s, i) == Prepend([x], tail)
  {
  }

  lemma {:induction false} ThrowsAtStep(s: string, i: nat, x: Sig<string>, j: nat, tail: Result<Parsed<seq<Sig<string>>>>)
    requires i < |s| && PeekAt(s, i) == '^' && ThrowsEntryAt(s, i + 1) == Match(x, j) && ThrowsAt(s, j) == tail
    ensures ThrowsAt(s, i) == Prepend([x], tail)
  {
  }

  lemma {:induction false} ThrowsAtEntry(s: string, i: nat, e: nat, o: Outcome<Sig<string>>)
    requires i < |s| && PeekAt(s, i) == '^' && e == i + 1 && ThrowsEntryAt(s, e) == o
    ensures o.Fail? ==> ThrowsAt(s, i) == Err(o.error)
    ensures o.NoMatch? ==> ThrowsAt(s, i) == Err(ParseException(e, MissingThrowsType))
    ensures o.Match? ==> ThrowsAt(s, i) == Prepend([o.value], ThrowsAt(s, o.next))
  {
  }

  /**
   * Reading parameters over the encoding of `xs` yields `xs` in front of whatever reading
   * what follows yields.
   */
  lemma {:induction false} ParametersAtPrefix(s: string, i: nat, xs: seq<Sig<string>>, tail: Result<Parsed<seq<Sig<string>>>>)
    requires WellFormedSigs(xs) && TextAt(s, i, EncodeSigs(xs))
    requires i + |EncodeSigs(xs)| <= |s| && ParametersAt(s, i + |EncodeSigs(xs)|) == tail
    ensures ParametersAt(s, i) == Prepend(xs, tail)
    decreases |xs|, 1
  {
    if |xs| == 0 {
      assert xs == [];
      PrependNothing(tail);
    } else {
      ParametersAtPrefixMore(s, i, xs, tail);
    }
  }

  lemma {:induction false} ParametersAtPrefixMore(s: string, i: nat, xs: seq<Sig<string>>, tail: Result<Parsed<seq<Sig<string>>>>)
    requires |xs| > 0 && WellFormedSigs(xs) && TextAt(s, i, EncodeSigs(xs))
    requires i + |EncodeSigs(xs)| <= |s| && ParametersAt(s, i + |EncodeSigs(xs)|) == tail
    ensures ParametersAt(s, i) == Prepend(xs, tail)
    decreases |xs|, 0
  {
    var first, rest := EncodeSig(xs[0]), EncodeSigs(xs[1..]);
    TextAtSplit(s, i, first, rest);
    EncodeSigHead(xs[0]);
    TextAtHead(s, i, first);
    var j := i + |first|;
    SigAtComplete(s, i, xs[0]);
    ParametersAtPrefix(s, j, xs[1..], tail);
    ParametersAtStep(s, i, xs[0], j, Prepend(xs[1..], tail));
    PrependTwice(xs[0], xs[1..], tail);
    ConsSplit(xs);
  }

  lemma {:induction false} ThrowsEntryAtComplete(s: string, i: nat, x: Sig<string>)
    requires IsClassRefOrTypeVariable(x) && WellFormedSig(x) && TextAt(s, i, EncodeSig(x))
    ensures ThrowsEntryAt(s, i) == Match(x, i + |EncodeSig(x)|)
  {
    EncodeSigHead(x);
    TextAtHead(s, i, EncodeSig(x));
    if x.ClassRef? {
      ClassRefAtComplete(s, i, x);
    } else {
      TypeVariableAtComplete(s, i, x);
    }
  }

  /** The same for the throws entries. */
  lemma {:induction false} ThrowsAtPrefix(s: string, i: nat, xs: seq<Sig<string>>, n: nat, tail: Result<Parsed<seq<Sig<string>>>>)
    requires WellFormedThrows(xs) && TextAt(s, i, EncodeThrows(xs))
    requires n == i + |EncodeThrows(xs)| <= |s| && ThrowsAt(s, n) == tail
    ensures ThrowsAt(s, i) == Prepend(xs, tail)
    decreases |xs|, 1
  {
    if |xs| == 0 {
      assert xs == [];
      PrependNothing(tail);
    } else {
      ThrowsAtPrefixMore(s, i, xs, n, tail);
    }
  }

  /** An encoded throws list splits into `^`, its first entry ending at `j`, and the rest ending at `n`. */
  lemma {:induction false} ThrowsPieces(s: string, i: nat, xs: seq<Sig<string>>, j: nat, n: nat)
    requires |xs| > 0 && WellFormedThrows(xs) && TextAt(s, i, EncodeThrows(xs))
    requires j == i + 1 + |EncodeSig(xs[0])| && n == i + |EncodeThrows(xs)|
    ensures i < |s| && PeekAt(s, i) == '^' && n == j + |EncodeThrows(xs[1..])|
    ensures TextAt(s, i + 1, EncodeSig(xs[0])) && TextAt(s, j, EncodeThrows(xs[1..]))
    ensures IsClassRefOrTypeVariable(xs[0]) && WellFormedSig(xs[0]) && WellFormedThrows(xs[1..])
  {
    var first, rest := EncodeSig(xs[0]), EncodeThrows(xs[1..]);
    AppendAssoc("^", first, rest);
    TextAtSplit(s, i, "^", first + rest);
    TextAtSplit(s, i + 1, first, rest);
    TextAtHead(s, i, "^");
    assert forall k :: 0 <= k < |xs[1..]| ==> xs[1..][k] == xs[k + 1];
  }

  lemma {:induction false} ThrowsAtPrefixMore(s: string, i: nat, xs: seq<Sig<string>>, n: nat, tail: Result<Parsed<seq<Sig<string>>>>)
    requires |xs| > 0 && WellFormedThrows(xs) && TextAt(s, i, EncodeThrows(xs))
    requires n == i + |EncodeThrows(xs)| <= |s| && ThrowsAt(s, n) == tail
    ensures ThrowsAt(s, i) == Prepend(xs, tail)
    decreases |xs|, 0
  {
    var j := i + 1 + |EncodeSig(xs[0])|;
    ThrowsPieces(s, i, xs, j, n);
    ThrowsEntryAtComplete(s, i + 1, xs[0]);
    ThrowsAtPrefix(s, j, xs[1..], n, tail);
    ThrowsAtStep(s, i, xs[0], j, Prepend(xs[1..], tail));
    PrependTwice(xs[0], xs[1..], tail);
    ConsSplit(xs);
  }
}
