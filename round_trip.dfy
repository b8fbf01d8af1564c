/**
 * What MethodTypeSignature.parse accepts, stated over whole inputs: it accepts exactly the
 * encodings of well-formed method signatures and returns the signature encoded, and on the
 * inputs it refuses it raises the message and position of the first thing that goes wrong,
 * each error the method raises itself being shown here for the inputs that provoke it.
 */
module RoundTrip {
  import opened Wrappers
  import opened Cursor
  import opened SignatureAst
  import opened SignatureGrammar
  import opened GrammarSoundness
  import opened GrammarCompleteness

  /** A character a type signature (with `V` accepted) can start with. */
  predicate StartsSig(c: char)
  {
    IsBaseTypeCode(c) || StartsReferenceType(c)
  }

  lemma {:induction false} TextAtFromSlice(s: string, i: nat, e: string)
    requires i + |e| <= |s| && s[i..i + |e|] == e
    ensures TextAt(s, i, e)
    decreases |e|
  {
    if |e| > 0 {
      assert s[i] == s[i..i + |e|][0];
      assert s[i + 1..i + 1 + |e[1..]|] == s[i..i + |e|][1..];
      TextAtFromSlice(s, i + 1, e[1..]);
    }
  }

  /** The text of a middle part can be read where it sits. */
  lemma {:induction false} TextAtIn(a: string, e: string, rest: string)
    ensures TextAt(a + e + rest, |a|, e)
  {
    assert (a + e + rest)[|a|..|a| + |e|] == e;
    TextAtFromSlice(a + e + rest, |a|, e);
  }

  /** The text of a prefix can be read at the start of the whole. */
  lemma {:induction false} TextAtStart(e: string, rest: string)
    ensures TextAt(e + rest, 0, e)
  {
    TextAtIn("", e, rest);
    assert "" + e + rest == e + rest;
  }

  /** Nothing but a base type code or the start of a reference type begins a type signature. */
  lemma {:induction false} SigAtNoStart(s: string, i: nat)
    requires i <= |s| && !StartsSig(PeekAt(s, i))
    ensures SigAt(s, i) == NoMatch
  {
    assert ClassRefAt(s, i) == NoMatch;
    assert TypeVariableAt(s, i) == NoMatch;
    assert ArrayTypeAt(s, i) == NoMatch;
    assert RefSigAt(s, i) == NoMatch;
  }

  // ---------------------------------------------------------------------------------------
  // One stage of the parse at a time, over what the stages before it returned

  lemma {:induction false} ParseStartStep(s: string, tps: Parsed<seq<TypeParameter<string>>>)
    requires TypeParametersAt(s, 0) == Ok(tps)
    ensures ParseMethodSignature(s) == ParametersStage(s, tps)
  {
  }

  lemma {:induction false} ParametersStageStep(s: string, tps: Parsed<seq<TypeParameter<string>>>,
                            params: Result<Parsed<seq<Sig<string>>>>)
    requires tps.next < |s| && s[tps.next] == '(' && ParametersAt(s, tps.next + 1) == params
    ensures params.Err? ==> ParametersStage(s, tps) == Err(params.error)
    ensures params.Ok? ==> params.value.next < |s| && ParametersStage(s, tps) == ResultStage(s, tps.value, params.value)
  {
  }

  lemma {:induction false} ResultStageStep(s: string, tps: seq<TypeParameter<string>>, params: Parsed<seq<Sig<string>>>,
                        result: Sig<string>, k: nat)
    requires params.next < |s| && SigAt(s, params.next + 1) == Match(result, k)
    ensures k <= |s| && ResultStage(s, tps, params) == ThrowsStage(s, tps, params.value, result, k)
  {
  }

  lemma {:induction false} ThrowsStageStep(s: string, tps: seq<TypeParameter<string>>, params: seq<Sig<string>>,
                        result: Sig<string>, k: nat, throws: Result<Parsed<seq<Sig<string>>>>)
    requires k <= |s| && ThrowsAt(s, k) == throws
    ensures ThrowsStage(s, tps, params, result, k) ==
      match throws
      case Err(e) => Err(e)
      case Ok(t) =>
        if t.next < |s| then Err(ParseException(t.next, ExtraCharacters))
        else Ok(MethodSig(tps, params, result, t.value))
  {
  }

  lemma {:induction false} ParametersAtClose(s: string, j: nat)
    requires j < |s| && s[j] == ')'
    ensures ParametersAt(s, j) == Ok(Parsed([], j))
  {
  }

  lemma {:induction false} ThrowsAtEnd(s: string, n: nat)
    requires n <= |s| && PeekAt(s, n) != '^'
    ensures ThrowsAt(s, n) == Ok(Parsed([], n))
  {
  }

  // ---------------------------------------------------------------------------------------
  // Where the pieces of a text sit, for pieces of any content

  /** A text starts with itself. */
  lemma {:induction false} TextAtWhole(s: string)
    ensures TextAt(s, 0, s)
  {
    TextAtStart(s, "");
    assert s + "" == s;
  }

  lemma {:induction false} TextThenChar(s: string, i: nat, t: string, c: char)
    requires TextAt(s, i, t + [c])
    ensures TextAt(s, i, t) && i + |t| < |s| && s[i + |t|] == c
  {
    TextAtSplit(s, i, t, [c]);
    TextAtHead(s, i + |t|, [c]);
    TextAtBound(s, i + |t|, [c]);
  }

  lemma {:induction false} OpenThenText(s: string, t: string, p: string, a: nat, j: nat)
    requires TextAt(s, 0, t + "(" + p) && a == |t| && j == a + 1 + |p|
    ensures TextAt(s, 0, t + "(") && TextAt(s, a + 1, p) && j <= |s|
  {
    TextAtBound(s, 0, t + "(" + p);
    TextAtSplit(s, 0, t + "(", p);
  }

  lemma {:induction false} TextThenClose(s: string, t: string, p: string, a: nat, j: nat)
    requires TextAt(s, 0, t + "(" + p + ")") && a == |t| && j == a + 1 + |p|
    ensures TextAt(s, 0, t + "(" + p) && j < |s| && s[j] == ')'
  {
    TextThenChar(s, 0, t + "(" + p, ')');
  }

  /**
   * The pieces of a text laid out as an encoded method signature is, with `a`, `b`, `c` and
   * `n` the positions of its `(`, of its `)`, of its last piece and of its end.
   */
  lemma {:induction false} SignaturePieces(s: string, t: string, p: string, r: string, h: string,
                                          a: nat, b: nat, c: nat, n: nat)
    requires TextAt(s, 0, t + "(" + p + ")" + r + h)
    requires a == |t| && b == a + 1 + |p| && c == b + 1 + |r| && n == c + |h|
    ensures TextAt(s, 0, t + "(" + p + ")") && TextAt(s, b + 1, r) && TextAt(s, c, h)
    ensures n == |t + "(" + p + ")" + r + h| <= |s|
  {
    TextAtBound(s, 0, t + "(" + p + ")" + r + h);
    TextAtSplit(s, 0, t + "(" + p + ")" + r, h);
    TextAtSplit(s, 0, t + "(" + p + ")", r);
  }

  // ---------------------------------------------------------------------------------------
  // What the stages read over encoded text

  /** Encoded type parameters followed by `(` are read up to the `(` at `a`. */
  lemma {:induction false} TypeParametersRead(s: string, tps: seq<TypeParameter<string>>, a: nat)
    requires WellFormedTypeParameters(tps) && TextAt(s, 0, EncodeTypeParameters(tps) + "(")
    requires a == |EncodeTypeParameters(tps)|
    ensures a < |s| && s[a] == '(' && TypeParametersAt(s, 0) == Ok(Parsed(tps, a))
  {
    var t := EncodeTypeParameters(tps);
    TextThenChar(s, 0, t, '(');
    if |tps| == 0 {
      assert t == "";
    }
    TypeParametersAtComplete(s, 0, tps, a);
  }

  /** Encoded parameter types from `i` to `j` are read as the front of the list read from `i`. */
  lemma {:induction false} ParametersTextRead(s: string, ps: seq<Sig<string>>, i: nat, j: nat)
    requires WellFormedSigs(ps) && TextAt(s, i, EncodeSigs(ps)) && j == i + |EncodeSigs(ps)| <= |s|
    ensures ParametersAt(s, i) == Prepend(ps, ParametersAt(s, j))
  {
    ParametersAtPrefix(s, i, ps, ParametersAt(s, j));
  }

  /**
   * Over encoded type parameters, `(` at `a` and encoded parameters up to `j`, the first two
   * stages read them.
   */
  lemma {:induction false} ParametersPrefixRead(s: string, tps: seq<TypeParameter<string>>, ps: seq<Sig<string>>,
                                               a: nat, j: nat)
    requires WellFormedTypeParameters(tps) && WellFormedSigs(ps)
    requires TextAt(s, 0, EncodeTypeParameters(tps) + "(" + EncodeSigs(ps))
    requires a == |EncodeTypeParameters(tps)| && j == a + 1 + |EncodeSigs(ps)|
    ensures j <= |s| && a < |s| && s[a] == '(' && TypeParametersAt(s, 0) == Ok(Parsed(tps, a))
    ensures ParametersAt(s, a + 1) == Prepend(ps, ParametersAt(s, j))
  {
    OpenThenText(s, EncodeTypeParameters(tps), EncodeSigs(ps), a, j);
    TypeParametersRead(s, tps, a);
    ParametersTextRead(s, ps, a + 1, j);
  }

  lemma {:induction false} PrependClosed(ps: seq<Sig<string>>, b: nat)
    ensures Prepend(ps, Ok(Parsed([], b))) == Ok(Parsed(ps, b))
  {
    assert ps + [] == ps;
  }

  /** The same, when a `)` follows the parameters, at `b`. */
  lemma {:induction false} ParametersRead(s: string, tps: seq<TypeParameter<string>>, ps: seq<Sig<string>>,
                                         a: nat, b: nat)
    requires WellFormedTypeParameters(tps) && WellFormedSigs(ps)
    requires TextAt(s, 0, EncodeTypeParameters(tps) + "(" + EncodeSigs(ps) + ")")
    requires a == |EncodeTypeParameters(tps)| && b == a + 1 + |EncodeSigs(ps)|
    ensures b < |s| && a < |s| && s[a] == '(' && TypeParametersAt(s, 0) == Ok(Parsed(tps, a))
    ensures ParametersAt(s, a + 1) == Ok(Parsed(ps, b))
  {
    TextThenClose(s, EncodeTypeParameters(tps), EncodeSigs(ps), a, b);
    ParametersPrefixRead(s, tps, ps, a, b);
    ParametersAtClose(s, b);
    PrependClosed(ps, b);
  }

  /**
   * The whole parse, from what each of its stages reads: the type parameters up to `a`, the
   * `(` at `a`, the parameters, the result type and the throws entries.
   */
  lemma {:induction false} ParseOfStages(s: string, tps: seq<TypeParameter<string>>, a: nat, ps: seq<Sig<string>>, b: nat,
                      result: Sig<string>, c: nat, throws: Result<Parsed<seq<Sig<string>>>>)
    requires TypeParametersAt(s, 0) == Ok(Parsed(tps, a)) && a < |s| && s[a] == '('
    requires ParametersAt(s, a + 1) == Ok(Parsed(ps, b)) && b < |s|
    requires SigAt(s, b + 1) == Match(result, c) && c <= |s| && ThrowsAt(s, c) == throws
    ensures ParseMethodSignature(s) ==
      match throws
      case Err(e) => Err(e)
      case Ok(t) =>
        if t.next < |s| then Err(ParseException(t.next, ExtraCharacters))
        else Ok(MethodSig(tps, ps, result, t.value))
  {
    ParseStartStep(s, Parsed(tps, a));
    ParametersStageStep(s, Parsed(tps, a), Ok(Parsed(ps, b)));
    ResultStageStep(s, tps, Parsed(ps, b), result, c);
    ThrowsStageStep(s, tps, ps, result, c, throws);
  }

  // ---------------------------------------------------------------------------------------
  // The stages over a text that starts with an encoded signature `m`, with `a`, `b`, `c` and
  // `n` the positions of its `(`, of its `)`, of its first throws entry and of its end

  lemma {:induction false} MethodSigLayout(s: string, m: MethodSig<string>, a: nat, b: nat, c: nat, n: nat)
    requires TextAt(s, 0, EncodeMethodSig(m))
    requires a == |EncodeTypeParameters(m.typeParameters)| && b == a + 1 + |EncodeSigs(m.parameterTypes)|
    requires c == b + 1 + |EncodeSig(m.resultType)| && n == c + |EncodeThrows(m.throwsSignatures)|
    ensures TextAt(s, 0, EncodeTypeParameters(m.typeParameters) + "(" + EncodeSigs(m.parameterTypes) + ")")
    ensures TextAt(s, b + 1, EncodeSig(m.resultType)) && TextAt(s, c, EncodeThrows(m.throwsSignatures))
    ensures n == |EncodeMethodSig(m)| <= |s|
  {
    SignaturePieces(s, EncodeTypeParameters(m.typeParameters), EncodeSigs(m.parameterTypes),
                    EncodeSig(m.resultType), EncodeThrows(m.throwsSignatures), a, b, c, n);
  }

  lemma {:induction false} MethodSigParametersRead(s: string, m: MethodSig<string>, a: nat, b: nat)
    requires WellFormedMethodSig(m)
    requires TextAt(s, 0, EncodeTypeParameters(m.typeParameters) + "(" + EncodeSigs(m.parameterTypes) + ")")
    requires a == |EncodeTypeParameters(m.typeParameters)| && b == a + 1 + |EncodeSigs(m.parameterTypes)|
    ensures TypeParametersAt(s, 0) == Ok(Parsed(m.typeParameters, a)) && a < |s| && s[a] == '('
    ensures ParametersAt(s, a + 1) == Ok(Parsed(m.parameterTypes, b)) && b < |s|
  {
    ParametersRead(s, m.typeParameters, m.parameterTypes, a, b);
  }

  lemma {:induction false} MethodSigResultRead(s: string, m: MethodSig<string>, b: nat, c: nat)
    requires WellFormedMethodSig(m)
    requires TextAt(s, b + 1, EncodeSig(m.resultType)) && c == b + 1 + |EncodeSig(m.resultType)|
    ensures SigAt(s, b + 1) == Match(m.resultType, c)
  {
    SigAtComplete(s, b + 1, m.resultType);
  }

  lemma {:induction false} MethodSigThrowsRead(s: string, m: MethodSig<string>, c: nat, n: nat)
    requires WellFormedMethodSig(m)
    requires TextAt(s, c, EncodeThrows(m.throwsSignatures)) && n == c + |EncodeThrows(m.throwsSignatures)| <= |s|
    ensures ThrowsAt(s, c) == Prepend(m.throwsSignatures, ThrowsAt(s, n))
  {
    ThrowsAtPrefix(s, c, m.throwsSignatures, n, ThrowsAt(s, n));
  }

  /** The whole parse of a text that starts with an encoded signature, up to what follows it. */
  lemma {:induction false} ParseEncodingThen(s: string, m: MethodSig<string>)
    requires WellFormedMethodSig(m) && TextAt(s, 0, EncodeMethodSig(m))
    ensures |EncodeMethodSig(m)| <= |s|
    ensures ParseMethodSignature(s) ==
        match Prepend(m.throwsSignatures, ThrowsAt(s, |EncodeMethodSig(m)|))
        case Err(e) => Err(e)
        case Ok(t) =>
          if t.next < |s| then Err(ParseException(t.next, ExtraCharacters))
          else Ok(MethodSig(m.typeParameters, m.parameterTypes, m.resultType, t.value))
  {
    var a := |EncodeTypeParameters(m.typeParameters)|;
    var b := a + 1 + |EncodeSigs(m.parameterTypes)|;
    var c := b + 1 + |EncodeSig(m.resultType)|;
    var n := c + |EncodeThrows(m.throwsSignatures)|;
    MethodSigLayout(s, m, a, b, c, n);
    MethodSigParametersRead(s, m, a, b);
    MethodSigResultRead(s, m, b, c);
    MethodSigThrowsRead(s, m, c, n);
    ParseOfStages(s, m.typeParameters, a, m.parameterTypes, b, m.resultType, c,
                  Prepend(m.throwsSignatures, ThrowsAt(s, n)));
  }

  // ---------------------------------------------------------------------------------------
  // Accepted inputs

  /**
   * The encoding of a well-formed signature parses back to that signature, and anything after
   * it that does not start another throws entry is refused as extra characters at the first
   * of them.
   */
  lemma {:induction false} ParseEncodingWithSuffix(m: MethodSig<string>, rest: string)
    requires WellFormedMethodSig(m) && (rest == "" || rest[0] != '^')
    ensures var e := EncodeMethodSig(m);
      ParseMethodSignature(e + rest) ==
        if rest == "" then Ok(m) else Err(ParseException(|e|, ExtraCharacters))
  {
    var e := EncodeMethodSig(m);
    var s := e + rest;
    TextAtStart(e, rest);
    ParseEncodingThen(s, m);
    if rest != "" {
      assert s[|e|] == rest[0];
    }
    ThrowsAtEnd(s, |e|);
    assert m.throwsSignatures + [] == m.throwsSignatures;
  }

  /** Parsing inverts encoding on well-formed signatures. */
  lemma {:induction false} ParseEncoding(m: MethodSig<string>)
    requires WellFormedMethodSig(m)
    ensures ParseMethodSignature(EncodeMethodSig(m)) == Ok(m)
  {
    ParseEncodingWithSuffix(m, "");
    assert EncodeMethodSig(m) + "" == EncodeMethodSig(m);
  }

  /** The parse accepts `s` with result `m` exactly when `s` is the encoding of well-formed `m`. */
  lemma {:induction false} ParseAcceptsExactlyEncodings(s: string, m: MethodSig<string>)
    ensures ParseMethodSignature(s) == Ok(m) <==> WellFormedMethodSig(m) && EncodeMethodSig(m) == s
  {
    ParseMethodSignatureSound(s);
    if WellFormedMethodSig(m) && EncodeMethodSig(m) == s {
      ParseEncoding(m);
    }
  }

  // ---------------------------------------------------------------------------------------
  // Each stage after the type parameters accepts exactly the encoding of what it returns

  /** A suffix `x + y` from `i`: `x` sits at `i` and `y` is all that follows it. */
  lemma {:induction false} SuffixParts(s: string, i: nat, x: string, y: string)
    requires i <= |s| && s[i..] == x + y
    ensures i + |x| <= |s| && TextAt(s, i, x) && s[i + |x|..] == y
  {
    assert s[i..i + |x|] == s[i..][..|x|] == (x + y)[..|x|] == x;
    TextAtFromSlice(s, i, x);
    assert s[i + |x|..] == s[i..][|x|..] == (x + y)[|x|..] == y;
  }

  /** Encoded throws entries running to the end of the input are read by the last stage. */
  lemma {:induction false} ThrowsStageOfEncoding(s: string, k: nat, m: MethodSig<string>)
    requires k <= |s| && WellFormedThrows(m.throwsSignatures) && s[k..] == EncodeThrows(m.throwsSignatures)
    ensures ThrowsStage(s, m.typeParameters, m.parameterTypes, m.resultType, k) == Ok(m)
  {
    var xs := m.throwsSignatures;
    SuffixParts(s, k, EncodeThrows(xs), "");
    ThrowsAtEnd(s, |s|);
    ThrowsAtPrefix(s, k, xs, |s|, Ok(Parsed([], |s|)));
    PrependClosed(xs, |s|);
  }

  /**
   * The last stage succeeds with `m` exactly when `m` keeps the parts read before and the
   * rest of the input from `k` is the encoding of well-formed throws entries, those of `m`.
   */
  lemma {:induction false} ThrowsStageAcceptsEncodings(s: string, tps: seq<TypeParameter<string>>, params: seq<Sig<string>>,
                                                       result: Sig<string>, k: nat, m: MethodSig<string>)
    requires k <= |s|
    ensures ThrowsStage(s, tps, params, result, k) == Ok(m)
            <==> && m.typeParameters == tps && m.parameterTypes == params && m.resultType == result
                 && WellFormedThrows(m.throwsSignatures) && s[k..] == EncodeThrows(m.throwsSignatures)
  {
    if ThrowsStage(s, tps, params, result, k) == Ok(m) {
      ThrowsStageSound(s, tps, params, result, k);
    }
    if m.typeParameters == tps && m.parameterTypes == params && m.resultType == result
       && WellFormedThrows(m.throwsSignatures) && s[k..] == EncodeThrows(m.throwsSignatures) {
      ThrowsStageOfEncoding(s, k, m);
    }
  }

  /** An encoded type from `i` is read up to `k`, where the rest of the text follows. */
  lemma {:induction false} SigThenRest(s: string, i: nat, x: Sig<string>, rest: string, k: nat)
    requires i <= |s| && WellFormedSig(x) && s[i..] == EncodeSig(x) + rest && k == i + |EncodeSig(x)|
    ensures k <= |s| && SigAt(s, i) == Match(x, k) && s[k..] == rest
  {
    SuffixParts(s, i, EncodeSig(x), rest);
    SigAtComplete(s, i, x);
  }

  /** An encoded result type and encoded throws entries after the `)` are read by the result stage. */
  lemma {:induction false} ResultStageOfEncoding(s: string, params: Parsed<seq<Sig<string>>>, m: MethodSig<string>)
    requires params.next < |s| && m.parameterTypes == params.value
    requires WellFormedSig(m.resultType) && WellFormedThrows(m.throwsSignatures)
    requires s[params.next + 1..] == EncodeSig(m.resultType) + EncodeThrows(m.throwsSignatures)
    ensures ResultStage(s, m.typeParameters, params) == Ok(m)
  {
    var k := params.next + 1 + |EncodeSig(m.resultType)|;
    SigThenRest(s, params.next + 1, m.resultType, EncodeThrows(m.throwsSignatures), k);
    ResultStageStep(s, m.typeParameters, params, m.resultType, k);
    ThrowsStageOfEncoding(s, k, m);
  }

  /**
   * After the `)` at `params.next`, the stage succeeds with `m` exactly when `m` keeps the
   * parts read before and the rest of the input is the encoding of its well-formed result type
   * followed by that of its well-formed throws entries.
   */
  lemma {:induction false} ResultStageAcceptsEncodings(s: string, tps: seq<TypeParameter<string>>,
                                                       params: Parsed<seq<Sig<string>>>, m: MethodSig<string>)
    requires params.next < |s|
    ensures ResultStage(s, tps, params) == Ok(m)
            <==> && m.typeParameters == tps && m.parameterTypes == params.value
                 && WellFormedSig(m.resultType) && WellFormedThrows(m.throwsSignatures)
                 && s[params.next + 1..] == EncodeSig(m.resultType) + EncodeThrows(m.throwsSignatures)
  {
    if ResultStage(s, tps, params) == Ok(m) {
      ResultStageSound(s, tps, params);
    }
    if m.typeParameters == tps && m.parameterTypes == params.value
       && WellFormedSig(m.resultType) && WellFormedThrows(m.throwsSignatures)
       && s[params.next + 1..] == EncodeSig(m.resultType) + EncodeThrows(m.throwsSignatures) {
      ResultStageOfEncoding(s, params, m);
    }
  }

  /** `(`, encoded parameter types and `)` from `a`, read up to the `)` at `b`. */
  lemma {:induction false} ParenthesisedParameters(s: string, a: nat, ps: seq<Sig<string>>, rest: string, b: nat)
    requires a <= |s| && WellFormedSigs(ps) && s[a..] == "(" + EncodeSigs(ps) + ")" + rest
    requires b == a + 1 + |EncodeSigs(ps)|
    ensures b < |s| && s[a] == '(' && ParametersAt(s, a + 1) == Ok(Parsed(ps, b)) && s[b + 1..] == rest
  {
    var p := EncodeSigs(ps);
    SuffixParts(s, a, "(" + p + ")", rest);
    TextThenChar(s, a, "(" + p, ')');
    TextAtSplit(s, a, "(", p);
    TextAtHead(s, a, "(");
    ParametersAtPrefix(s, a + 1, ps, ParametersAt(s, b));
    ParametersAtClose(s, b);
    PrependClosed(ps, b);
  }

  /** Encoded `(`, parameters, `)`, result type and throws entries are read by the stage after the type parameters. */
  lemma {:induction false} ParametersStageOfEncoding(s: string, tps: Parsed<seq<TypeParameter<string>>>, m: MethodSig<string>)
    requires tps.next <= |s| && m.typeParameters == tps.value
    requires WellFormedSigs(m.parameterTypes) && WellFormedSig(m.resultType) && WellFormedThrows(m.throwsSignatures)
    requires s[tps.next..] == "(" + EncodeSigs(m.parameterTypes) + ")"
                              + (EncodeSig(m.resultType) + EncodeThrows(m.throwsSignatures))
    ensures ParametersStage(s, tps) == Ok(m)
  {
    var b := tps.next + 1 + |EncodeSigs(m.parameterTypes)|;
    ParenthesisedParameters(s, tps.next, m.parameterTypes, EncodeSig(m.resultType) + EncodeThrows(m.throwsSignatures), b);
    ResultStageOfEncoding(s, Parsed(m.parameterTypes, b), m);
    ParametersStageStep(s, tps, Ok(Parsed(m.parameterTypes, b)));
  }

  /**
   * After the type parameters, the stage succeeds with `m` exactly when `m` keeps them and the
   * rest of the input is `(`, the encoding of its well-formed parameter types, `)`, and the
   * encodings of its well-formed result type and throws entries.
   */
  lemma {:induction false} ParametersStageAcceptsEncodings(s: string, tps: Parsed<seq<TypeParameter<string>>>,
                                                           m: MethodSig<string>)
    requires tps.next <= |s|
    ensures ParametersStage(s, tps) == Ok(m)
            <==> && m.typeParameters == tps.value
                 && WellFormedSigs(m.parameterTypes) && WellFormedSig(m.resultType)
                 && WellFormedThrows(m.throwsSignatures)
                 && s[tps.next..] == "(" + EncodeSigs(m.parameterTypes) + ")"
                                     + (EncodeSig(m.resultType) + EncodeThrows(m.throwsSignatures))
  {
    if ParametersStage(s, tps) == Ok(m) {
      ParametersStageSound(s, tps);
    }
    if && m.typeParameters == tps.value
       && WellFormedSigs(m.parameterTypes) && WellFormedSig(m.resultType)
       && WellFormedThrows(m.throwsSignatures)
       && s[tps.next..] == "(" + EncodeSigs(m.parameterTypes) + ")"
                           + (EncodeSig(m.resultType) + EncodeThrows(m.throwsSignatures)) {
      ParametersStageOfEncoding(s, tps, m);
    }
  }

  /** Two well-formed signatures with the same text are the same signature. */
  lemma {:induction false} EncodingInjective(m1: MethodSig<string>, m2: MethodSig<string>)
    requires WellFormedMethodSig(m1) && WellFormedMethodSig(m2) && EncodeMethodSig(m1) == EncodeMethodSig(m2)
    ensures m1 == m2
  {
    ParseEncoding(m1);
    ParseEncoding(m2);
  }

  // ---------------------------------------------------------------------------------------
  // Refused inputs: the errors MethodTypeSignature.parse raises itself

  /** Without `(` after the type parameters, the parse stops there expecting one. */
  lemma {:induction false} ParseMissingOpenParenthesis(tps: seq<TypeParameter<string>>, rest: string)
    requires WellFormedTypeParameters(tps)
    requires rest == "" || (rest[0] != '(' && (|tps| == 0 ==> rest[0] != '<'))
    ensures ParseMethodSignature(EncodeTypeParameters(tps) + rest)
         == Err(ParseException(|EncodeTypeParameters(tps)|, ExpectedMessage('(')))
  {
    var t := EncodeTypeParameters(tps);
    var s := t + rest;
    TextAtStart(t, rest);
    if |tps| == 0 {
      assert t == "" && s == rest;
    }
    TypeParametersAtComplete(s, 0, tps, |t|);
    if rest != "" {
      assert s[|t|] == rest[0];
    }
    ParseStartStep(s, Parsed(tps, |t|));
  }

  /** The parse of `s` once the parameters from `a + 1` have failed. */
  lemma {:induction false} ParseOfFailedParameters(s: string, tps: seq<TypeParameter<string>>, a: nat, params: Result<Parsed<seq<Sig<string>>>>)
    requires TypeParametersAt(s, 0) == Ok(Parsed(tps, a)) && a < |s| && s[a] == '('
    requires ParametersAt(s, a + 1) == params && params.Err?
    ensures ParseMethodSignature(s) == Err(params.error)
  {
    ParseStartStep(s, Parsed(tps, a));
    ParametersStageStep(s, Parsed(tps, a), params);
  }

  /** Input that ends among the parameter types runs out at its end. */
  lemma {:induction false} ParseRanOutOfInput(tps: seq<TypeParameter<string>>, ps: seq<Sig<string>>)
    requires WellFormedTypeParameters(tps) && WellFormedSigs(ps)
    ensures var s := EncodeTypeParameters(tps) + "(" + EncodeSigs(ps);
      ParseMethodSignature(s) == Err(ParseException(|s|, RanOutOfInput))
  {
    var s := EncodeTypeParameters(tps) + "(" + EncodeSigs(ps);
    TextAtWhole(s);
    RanOutAt(s, tps, ps);
  }

  lemma {:induction false} RanOutAt(s: string, tps: seq<TypeParameter<string>>, ps: seq<Sig<string>>)
    requires WellFormedTypeParameters(tps) && WellFormedSigs(ps)
    requires TextAt(s, 0, EncodeTypeParameters(tps) + "(" + EncodeSigs(ps))
    requires |s| == |EncodeTypeParameters(tps)| + 1 + |EncodeSigs(ps)|
    ensures ParseMethodSignature(s) == Err(ParseException(|s|, RanOutOfInput))
  {
    var a := |EncodeTypeParameters(tps)|;
    ParametersPrefixRead(s, tps, ps, a, |s|);
    ParametersAtEnd(s);
    ParseOfFailedParameters(s, tps, a, Prepend(ps, ParametersAt(s, |s|)));
  }

  lemma {:induction false} ParametersAtEnd(s: string)
    ensures ParametersAt(s, |s|) == Err(ParseException(|s|, RanOutOfInput))
  {
  }

  /**
   * A character among the parameter types that is neither `)` nor the start of a type is
   * refused as a missing parameter type, at that character.
   */
  lemma {:induction false} ParseMissingParameterType(tps: seq<TypeParameter<string>>, ps: seq<Sig<string>>, rest: string)
    requires WellFormedTypeParameters(tps) && WellFormedSigs(ps)
    requires rest != "" && rest[0] != ')' && !StartsSig(rest[0])
    ensures var t := EncodeTypeParameters(tps);
      ParseMethodSignature(t + "(" + EncodeSigs(ps) + rest)
        == Err(ParseException(|t| + 1 + |EncodeSigs(ps)|, MissingParameterType))
  {
    var x := EncodeTypeParameters(tps) + "(" + EncodeSigs(ps);
    TextAtStart(x, rest);
    assert (x + rest)[|x|] == rest[0];
    MissingParameterAt(x + rest, tps, ps, |EncodeTypeParameters(tps)|, |x|);
  }

  lemma {:induction false} MissingParameterAt(s: string, tps: seq<TypeParameter<string>>, ps: seq<Sig<string>>,
                                             a: nat, j: nat)
    requires WellFormedTypeParameters(tps) && WellFormedSigs(ps)
    requires TextAt(s, 0, EncodeTypeParameters(tps) + "(" + EncodeSigs(ps))
    requires a == |EncodeTypeParameters(tps)| && j == a + 1 + |EncodeSigs(ps)|
    requires j < |s| && s[j] != ')' && !StartsSig(s[j])
    ensures ParseMethodSignature(s) == Err(ParseException(j, MissingParameterType))
  {
    ParametersPrefixRead(s, tps, ps, a, j);
    ParametersAtMissing(s, j);
    ParseOfFailedParameters(s, tps, a, Prepend(ps, ParametersAt(s, j)));
  }

  lemma {:induction false} ParametersAtMissing(s: string, j: nat)
    requires j < |s| && s[j] != ')' && !StartsSig(s[j])
    ensures ParametersAt(s, j) == Err(ParseException(j, MissingParameterType))
  {
    SigAtNoStart(s, j);
  }

  /** The parse of `s` when no type starts after the `)` at `b`. */
  lemma {:induction false} ParseOfMissingResult(s: string, tps: seq<TypeParameter<string>>, a: nat, ps: seq<Sig<string>>, b: nat)
    requires TypeParametersAt(s, 0) == Ok(Parsed(tps, a)) && a < |s| && s[a] == '('
    requires ParametersAt(s, a + 1) == Ok(Parsed(ps, b)) && b < |s| && !StartsSig(PeekAt(s, b + 1))
    ensures ParseMethodSignature(s) == Err(ParseException(b + 1, MissingResultType))
  {
    ResultStageMissing(s, tps, Parsed(ps, b));
    ParseStartStep(s, Parsed(tps, a));
    ParametersStageStep(s, Parsed(tps, a), Ok(Parsed(ps, b)));
  }

  lemma {:induction false} ResultStageMissing(s: string, tps: seq<TypeParameter<string>>, params: Parsed<seq<Sig<string>>>)
    requires params.next < |s| && !StartsSig(PeekAt(s, params.next + 1))
    ensures ResultStage(s, tps, params) == Err(ParseException(params.next + 1, MissingResultType))
  {
    SigAtNoStart(s, params.next + 1);
  }

  /** Anything after `)` that does not start a type is refused as a missing result type. */
  lemma {:induction false} ParseMissingResultType(tps: seq<TypeParameter<string>>, ps: seq<Sig<string>>, rest: string)
    requires WellFormedTypeParameters(tps) && WellFormedSigs(ps)
    requires rest == "" || !StartsSig(rest[0])
    ensures var t := EncodeTypeParameters(tps);
      ParseMethodSignature(t + "(" + EncodeSigs(ps) + ")" + rest)
        == Err(ParseException(|t| + |EncodeSigs(ps)| + 2, MissingResultType))
  {
    var x := EncodeTypeParameters(tps) + "(" + EncodeSigs(ps) + ")";
    TextAtStart(x, rest);
    if rest != "" {
      assert (x + rest)[|x|] == rest[0];
    }
    MissingResultAt(x + rest, tps, ps, |EncodeTypeParameters(tps)|, |x| - 1);
  }

  lemma {:induction false} MissingResultAt(s: string, tps: seq<TypeParameter<string>>, ps: seq<Sig<string>>,
                                          a: nat, b: nat)
    requires WellFormedTypeParameters(tps) && WellFormedSigs(ps)
    requires TextAt(s, 0, EncodeTypeParameters(tps) + "(" + EncodeSigs(ps) + ")")
    requires a == |EncodeTypeParameters(tps)| && b == a + 1 + |EncodeSigs(ps)|
    requires !StartsSig(PeekAt(s, b + 1))
    ensures ParseMethodSignature(s) == Err(ParseException(b + 1, MissingResultType))
  {
    ParametersRead(s, tps, ps, a, b);
    ParseOfMissingResult(s, tps, a, ps, b);
  }

  /**
   * A `^` after an encoded signature that is followed by neither `L` nor `T` (or by nothing)
   * is refused as a missing throws type, just after the `^`.
   */
  lemma {:induction false} ParseMissingThrowsType(m: MethodSig<string>, rest: string)
    requires WellFormedMethodSig(m) && (rest == "" || (rest[0] != 'L' && rest[0] != 'T'))
    ensures var e := EncodeMethodSig(m);
      ParseMethodSignature(e + "^" + rest) == Err(ParseException(|e| + 1, MissingThrowsType))
  {
    var e := EncodeMethodSig(m);
    var s := e + ("^" + rest);
    assert s == e + "^" + rest;
    TextAtStart(e, "^" + rest);
    ParseEncodingThen(s, m);
    assert s[|e|] == '^';
    if rest != "" {
      assert s[|e| + 1] == rest[0];
    }
    ThrowsAtMissingEntry(s, |e|);
  }

  /**
   * A `^` after an encoded signature whose entry starts like a class reference or a type
   * variable but is malformed (so that the entry parser fails with an error, as in `^Lfoo` or
   * `^T;`) gives the error of the entry parser itself.
   */
  lemma {:induction false} ParseMalformedThrowsEntry(s: string, m: MethodSig<string>)
    requires WellFormedMethodSig(m)
    requires |EncodeMethodSig(m)| < |s| && s[..|EncodeMethodSig(m)|] == EncodeMethodSig(m)
    requires s[|EncodeMethodSig(m)|] == '^' && ThrowsEntryAt(s, |EncodeMethodSig(m)| + 1).Fail?
    ensures ParseMethodSignature(s) == Err(ThrowsEntryAt(s, |EncodeMethodSig(m)| + 1).error)
  {
    var n := |EncodeMethodSig(m)|;
    assert s[0..n] == s[..n];
    TextAtFromSlice(s, 0, EncodeMethodSig(m));
    ThrowsAtFailedEntry(s, n);
    ParseOfThrowsError(s, m, ThrowsEntryAt(s, n + 1).error);
  }

  /** A text that starts with an encoded signature whose throws list fails has the parse fail the same way. */
  lemma {:induction false} ParseOfThrowsError(s: string, m: MethodSig<string>, err: ParseException)
    requires WellFormedMethodSig(m) && TextAt(s, 0, EncodeMethodSig(m))
    requires |EncodeMethodSig(m)| <= |s| && ThrowsAt(s, |EncodeMethodSig(m)|) == Err(err)
    ensures ParseMethodSignature(s) == Err(err)
  {
    ParseEncodingThen(s, m);
  }

  lemma {:induction false} ThrowsAtFailedEntry(s: string, n: nat)
    requires n < |s| && s[n] == '^' && ThrowsEntryAt(s, n + 1).Fail?
    ensures ThrowsAt(s, n) == Err(ThrowsEntryAt(s, n + 1).error)
  {
  }

  lemma {:induction false} ThrowsAtMissingEntry(s: string, n: nat)
    requires n < |s| && s[n] == '^' && PeekAt(s, n + 1) != 'L' && PeekAt(s, n + 1) != 'T'
    ensures ThrowsAt(s, n) == Err(ParseException(n + 1, MissingThrowsType))
  {
  }

  // ---------------------------------------------------------------------------------------
  // Examples

  /** `()V`: no type parameters, no parameters, a `void` result and no throws entries. */
  lemma {:induction false} ParseVoidExample()
    ensures ParseMethodSignature("()V") == Ok(MethodSig([], [], BaseType('V'), []))
  {
    var m := MethodSig([], [], BaseType('V'), []);
    assert EncodeMethodSig(m) == "()V";
    ParseEncoding(m);
  }

  /** `(I` runs out of input at its end, still among the parameter types. */
  lemma {:induction false} ParseUnterminatedExample()
    ensures ParseMethodSignature("(I") == Err(ParseException(2, RanOutOfInput))
  {
    ParseRanOutOfInput([], [BaseType('I')]);
    assert EncodeTypeParameters([]) + "(" + EncodeSigs([BaseType('I')]) == "(I";
  }

  /** `()` has no result type. */
  lemma {:induction false} ParseNoResultExample()
    ensures ParseMethodSignature("()") == Err(ParseException(2, MissingResultType))
  {
    ParseMissingResultType([], [], "");
    assert EncodeTypeParameters([]) + "(" + EncodeSigs([]) + ")" + "" == "()";
  }

  /** `()V extra` is refused at the space after the result type. */
  lemma {:induction false} ParseTrailingTextExample()
    ensures ParseMethodSignature("()V extra") == Err(ParseException(3, ExtraCharacters))
  {
    var m := MethodSig([], [], BaseType('V'), []);
    assert EncodeMethodSig(m) == "()V";
    ParseEncodingWithSuffix(m, " extra");
    assert "()V" + " extra" == "()V extra";
  }
}
