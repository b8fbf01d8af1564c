/**
 * What a successful parse means: every parser of the grammar that matches has read exactly the
 * descriptor encoding of the well-formed value it returns. For the whole method signature this
 * says that a successful parse consumed the entire input, and that the type parameters, the
 * parameter types and the throws entries are the ones written in the text, in text order.
 */
module GrammarSoundness {
  import opened Wrappers
  import opened Cursor
  import opened SignatureAst
  import opened SignatureGrammar

  predicate SigSound(s: string, i: nat, r: Outcome<Sig<string>>)
  {
    r.Match? ==> i <= r.next <= |s| && s[i..r.next] == EncodeSig(r.value) && WellFormedSig(r.value)
  }

  predicate RefSigSound(s: string, i: nat, r: Outcome<Sig<string>>)
  {
    SigSound(s, i, r) && (r.Match? ==> IsReferenceType(r.value))
  }

  // Solver aid: a slice is the concatenation of its two halves.
  lemma {:induction false} SliceSplit(s: string, i: nat, j: nat, k: nat)
    requires i <= j <= k <= |s|
    ensures s[i..k] == s[i..j] + s[j..k]
  {
  }

  /** The characters `ScanEnd` accepted, as a slice. */
  lemma {:induction false} ScannedSlice(s: string, i: nat, accept: char -> bool)
    requires i <= |s|
    ensures forall k :: 0 <= k < |s[i..ScanEnd(s, i, accept)]| ==> accept(s[i..ScanEnd(s, i, accept)][k])
  {
    var j := ScanEnd(s, i, accept);
    forall k | 0 <= k < |s[i..j]| ensures accept(s[i..j][k]) {
      assert s[i..j][k] == s[i + k];
    }
  }

  /** Reading a binary class name and writing it back gives the same text. */
  lemma {:induction false} DottedNameInverse(x: string)
    requires |x| > 0 && forall k :: 0 <= k < |x| ==> IsClassNameChar(x[k])
    ensures SlashedName(DottedName(x)) == x && IsClassName(DottedName(x))
  {
    var d := DottedName(x);
    assert forall k :: 0 <= k < |x| ==> d[k] == (if x[k] == '/' then '.' else x[k]);
  }

  lemma {:induction false} TypeVariableAtSound(s: string, i: nat)
    requires i <= |s|
    ensures RefSigSound(s, i, TypeVariableAt(s, i))
    ensures TypeVariableAt(s, i).Match? ==> TypeVariableAt(s, i).value.TypeVariable?
  {
    var r := TypeVariableAt(s, i);
    if r.Match? {
      var j := ScanEnd(s, i + 1, IsIdentChar);
      ScannedSlice(s, i + 1, IsIdentChar);
      assert s[i..j + 1] == [s[i]] + s[i + 1..j] + [s[j]];
    }
  }

  /** The text of a class reference, pieced together from what each step of its parse read. */
  lemma {:induction false} ClassRefText(s: string, i: nat, j: nat, n: nat, args: string)
    requires i < j <= n < |s| && s[i] == 'L' && s[n] == ';'
    requires j < n ==> s[j] == '<' && s[j + 1..n] == args + ">"
    ensures j == n ==> s[i..n + 1] == "L" + s[i + 1..j] + ";"
    ensures j < n ==> s[i..n + 1] == "L" + s[i + 1..j] + ("<" + args + ">") + ";"
  {
    SliceSplit(s, i, i + 1, j);
    SliceSplit(s, i, j, n);
    SliceSplit(s, i, n, n + 1);
    if j < n {
      SliceSplit(s, j, j + 1, n);
    }
  }

  lemma {:induction false} ClassRefAtSound(s: string, i: nat)
    requires i <= |s|
    ensures RefSigSound(s, i, ClassRefAt(s, i))
    ensures ClassRefAt(s, i).Match? ==> ClassRefAt(s, i).value.ClassRef?
    decreases |s| - i, 0
  {
    var r := ClassRefAt(s, i);
    if r.Match? {
      var j := ScanEnd(s, i + 1, IsClassNameChar);
      var text := s[i + 1..j];
      ScannedSlice(s, i + 1, IsClassNameChar);
      DottedNameInverse(text);
      if PeekAt(s, j) == '<' {
        TypeArgumentsAtSound(s, j + 1);
        var args := TypeArgumentsAt(s, j + 1).value;
        ClassRefText(s, i, j, args.next, EncodeArgs(args.value));
      } else {
        ClassRefText(s, i, j, j, "");
      }
    }
  }

  lemma {:induction false} ArrayTypeAtSound(s: string, i: nat)
    requires i <= |s|
    ensures RefSigSound(s, i, ArrayTypeAt(s, i))
    decreases |s| - i, 0
  {
    if PeekAt(s, i) == '[' {
      SigAtSound(s, i + 1);
      var r := ArrayTypeAt(s, i);
      if r.Match? {
        assert s[i..r.next] == [s[i]] + s[i + 1..r.next];
      }
    }
  }

  lemma {:induction false} RefSigAtSound(s: string, i: nat)
    requires i <= |s|
    ensures RefSigSound(s, i, RefSigAt(s, i))
    decreases |s| - i, 1
  {
    ClassRefAtSound(s, i);
    TypeVariableAtSound(s, i);
    ArrayTypeAtSound(s, i);
  }

  lemma {:induction false} SigAtSound(s: string, i: nat)
    requires i <= |s|
    ensures SigSound(s, i, SigAt(s, i))
    decreases |s| - i, 2
  {
    if IsBaseTypeCode(PeekAt(s, i)) {
      assert s[i..i + 1] == [s[i]];
    } else {
      RefSigAtSound(s, i);
    }
  }

  lemma {:induction false} TypeArgumentAtSound(s: string, i: nat)
    requires i <= |s|
    ensures var r := TypeArgumentAt(s, i);
      r.Match? ==> i <= r.next <= |s| && s[i..r.next] == EncodeArg(r.value) && WellFormedArg(r.value)
    decreases |s| - i, 2
  {
    var c := PeekAt(s, i);
    if c == '+' || c == '-' {
      RefSigAtSound(s, i + 1);
      var r := TypeArgumentAt(s, i);
      if r.Match? {
        assert s[i..r.next] == [s[i]] + s[i + 1..r.next];
      }
    } else if c == '*' {
      assert s[i..i + 1] == [s[i]];
    } else {
      RefSigAtSound(s, i);
    }
  }

  lemma {:induction false} TypeArgumentsAtSound(s: string, i: nat)
    requires i <= |s|
    ensures var r := TypeArgumentsAt(s, i);
      r.Ok? ==> && i <= r.value.next <= |s| && |r.value.value| > 0
                && s[i..r.value.next] == EncodeArgs(r.value.value) + ">"
                && forall k :: 0 <= k < |r.value.value| ==> WellFormedArg(r.value.value[k])
    decreases |s| - i, 3
  {
    TypeArgumentAtSound(s, i);
    var r := TypeArgumentsAt(s, i);
    if r.Ok? {
      var a := TypeArgumentAt(s, i);
      var j := a.next;
      if PeekAt(s, j) == '>' {
        assert r.value.value == [a.value];
        assert EncodeArgs([a.value]) == EncodeArg(a.value) + EncodeArgs([]);
        assert s[i..j + 1] == s[i..j] + [s[j]];
      } else {
        TypeArgumentsAtSound(s, j);
        var rest := TypeArgumentsAt(s, j).value;
        var xs := [a.value] + rest.value;
        assert xs[0] == a.value && xs[1..] == rest.value;
        SliceSplit(s, i, j, rest.next);
        forall k | 0 <= k < |xs| ensures WellFormedArg(xs[k]) {
          if k > 0 { assert xs[k] == rest.value[k - 1]; }
        }
      }
    }
  }

  // ---------------------------------------------------------------------------------------
  // Type parameters

  /** "No match" for a reference type means no reference type starts here. */
  lemma {:induction false} RefSigAtNoMatch(s: string, i: nat)
    requires i <= |s|
    ensures RefSigAt(s, i).NoMatch? ==> !StartsReferenceType(PeekAt(s, i))
  {
    var c := PeekAt(s, i);
    if c == 'L' {
      assert !ClassRefAt(s, i).NoMatch?;
    } else if c == 'T' {
      assert ClassRefAt(s, i).NoMatch? && !TypeVariableAt(s, i).NoMatch?;
    } else if c == '[' {
      assert ClassRefAt(s, i).NoMatch? && TypeVariableAt(s, i).NoMatch? && !ArrayTypeAt(s, i).NoMatch?;
    }
  }

  lemma {:induction false} InterfaceBoundsAtSound(s: string, i: nat)
    requires i <= |s|
    ensures var r := InterfaceBoundsAt(s, i);
      r.Ok? ==> && i <= r.value.next <= |s| && PeekAt(s, r.value.next) != ':'
                && s[i..r.value.next] == EncodeInterfaceBounds(r.value.value)
                && forall k :: 0 <= k < |r.value.value| ==>
                     IsReferenceType(r.value.value[k]) && WellFormedSig(r.value.value[k])
    decreases |s| - i
  {
    if PeekAt(s, i) == ':' && RefSigAt(s, i + 1).Match? {
      RefSigAtSound(s, i + 1);
      var b := RefSigAt(s, i + 1);
      InterfaceBoundsAtSound(s, b.next);
      if InterfaceBoundsAt(s, b.next).Ok? {
        InterfaceBoundsCons(s, i, b.value, b.next, InterfaceBoundsAt(s, b.next).value);
      }
    }
  }

  /** An interface bound followed by more of them. */
  lemma {:induction false} InterfaceBoundsCons(s: string, i: nat, x: Sig<string>, j: nat,
                                              rest: Parsed<seq<Sig<string>>>)
    requires i < j <= rest.next <= |s| && s[i] == ':'
    requires s[i + 1..j] == EncodeSig(x) && IsReferenceType(x) && WellFormedSig(x)
    requires s[j..rest.next] == EncodeInterfaceBounds(rest.value)
    requires forall k :: 0 <= k < |rest.value| ==> IsReferenceType(rest.value[k]) && WellFormedSig(rest.value[k])
    ensures s[i..rest.next] == EncodeInterfaceBounds([x] + rest.value)
    ensures forall k :: 0 <= k < |[x] + rest.value| ==>
              IsReferenceType(([x] + rest.value)[k]) && WellFormedSig(([x] + rest.value)[k])
  {
    var xs := [x] + rest.value;
    assert xs[0] == x && xs[1..] == rest.value;
    CharThenSlice(s, i, j, ':', EncodeSig(x));
    SliceSplit(s, i, j, rest.next);
    forall k | 0 <= k < |xs| ensures IsReferenceType(xs[k]) && WellFormedSig(xs[k]) {
      if k > 0 { assert xs[k] == rest.value[k - 1]; }
    }
  }

  /** Text read as one piece, one separator character, and two more pieces. */
  lemma {:induction false} PiecesText(s: string, i: nat, j: nat, k: nat, n: nat, c: char, x: string, y: string)
    requires i <= j < k <= n <= |s| && s[j] == c && s[j + 1..k] == x && s[k..n] == y
    ensures s[i..n] == s[i..j] + [c] + x + y
  {
    SliceSplit(s, i, j, n);
    SliceSplit(s, j, j + 1, n);
    SliceSplit(s, j + 1, k, n);
  }

  lemma {:induction false} TypeParameterAtSound(s: string, i: nat)
    requires i <= |s|
    ensures var r := TypeParameterAt(s, i);
      r.Match? ==> && i <= r.next <= |s|
                   && s[i..r.next] == EncodeTypeParameter(r.value) && WellFormedTypeParameter(r.value)
                   && (HasNoBound(r.value) ==> !StartsReferenceType(PeekAt(s, r.next)))
  {
    var r := TypeParameterAt(s, i);
    if r.Match? {
      var j := ScanEnd(s, i, IsIdentChar);
      ScannedSlice(s, i, IsIdentChar);
      var cb := RefSigAt(s, j + 1);
      RefSigAtSound(s, j + 1);
      RefSigAtNoMatch(s, j + 1);
      var k := if cb.Match? then cb.next else j + 1;
      InterfaceBoundsAtSound(s, k);
      var bounds := InterfaceBoundsAt(s, k).value;
      var classBound := if cb.Match? then Some(cb.value) else None;
      assert r == Match(TypeParameter(s[i..j], classBound, bounds.value), bounds.next);
      var cbText := match classBound case Some(b) => EncodeSig(b) case None => "";
      PiecesText(s, i, j, j + 1, k, ':', "", cbText);
      PiecesText(s, i, j, k, bounds.next, ':', cbText, EncodeInterfaceBounds(bounds.value));
    }
  }

  lemma {:induction false} TypeParameterListAtSound(s: string, i: nat)
    requires i <= |s|
    ensures var r := TypeParameterListAt(s, i);
      r.Ok? ==> && i <= r.value.next <= |s| && |r.value.value| > 0
                && s[i..r.value.next] == EncodeTypeParameterList(r.value.value) + ">"
                && WellFormedTypeParameters(r.value.value)
    decreases |s| - i
  {
    TypeParameterAtSound(s, i);
    if TypeParameterAt(s, i).Match? {
      var tp := TypeParameterAt(s, i);
      if PeekAt(s, tp.next) == '>' {
        TypeParameterListOne(s, i, tp.value, tp.next);
      } else {
        TypeParameterListAtSound(s, tp.next);
        if TypeParameterListAt(s, tp.next).Ok? {
          TypeParameterListCons(s, i, tp.value, tp.next, TypeParameterListAt(s, tp.next).value);
        }
      }
    }
  }

  /** A type parameter followed by `>` is a list of one. */
  lemma {:induction false} TypeParameterListOne(s: string, i: nat, x: TypeParameter<string>, j: nat)
    requires i <= j < |s| && s[i..j] == EncodeTypeParameter(x) && WellFormedTypeParameter(x) && s[j] == '>'
    ensures s[i..j + 1] == EncodeTypeParameterList([x]) + ">" && WellFormedTypeParameters([x])
  {
    assert EncodeTypeParameterList([x]) == EncodeTypeParameter(x) + EncodeTypeParameterList([]);
    assert s[i..j + 1] == s[i..j] + [s[j]];
    assert [x][1..] == [];
  }

  /** A type parameter followed by a list of them is a longer list. */
  lemma {:induction false} TypeParameterListCons(s: string, i: nat, x: TypeParameter<string>, j: nat,
                                                rest: Parsed<seq<TypeParameter<string>>>)
    requires i <= j <= rest.next <= |s| && s[i..j] == EncodeTypeParameter(x) && WellFormedTypeParameter(x)
    requires HasNoBound(x) ==> !StartsReferenceType(PeekAt(s, j))
    requires |rest.value| > 0 && s[j..rest.next] == EncodeTypeParameterList(rest.value) + ">"
    requires WellFormedTypeParameters(rest.value)
    ensures s[i..rest.next] == EncodeTypeParameterList([x] + rest.value) + ">"
    ensures WellFormedTypeParameters([x] + rest.value)
  {
    var xs := [x] + rest.value;
    assert xs[0] == x && xs[1..] == rest.value;
    SliceSplit(s, i, j, rest.next);
    // the next parameter starts with the first character of its name
    assert s[j..rest.next][0] == rest.value[0].identifier[0];
    assert xs[1] == rest.value[0];
  }

  lemma {:induction false} TypeParametersAtSound(s: string, i: nat)
    requires i <= |s|
    ensures var r := TypeParametersAt(s, i);
      r.Ok? ==> && i <= r.value.next <= |s|
                && s[i..r.value.next] == EncodeTypeParameters(r.value.value)
                && WellFormedTypeParameters(r.value.value)
  {
    if PeekAt(s, i) == '<' {
      TypeParameterListAtSound(s, i + 1);
      var r := TypeParameterListAt(s, i + 1);
      if r.Ok? {
        CharThenSlice(s, i, r.value.next, '<', EncodeTypeParameterList(r.value.value) + ">");
        assert ['<'] + (EncodeTypeParameterList(r.value.value) + ">") == EncodeTypeParameters(r.value.value);
      }
    }
  }

  /** Text read as one character followed by one piece. */
  lemma {:induction false} CharThenSlice(s: string, i: nat, n: nat, c: char, x: string)
    requires i < n <= |s| && s[i] == c && s[i + 1..n] == x
    ensures s[i..n] == [c] + x
  {
    assert s[i..n] == [s[i]] + s[i + 1..n];
  }

  // ---------------------------------------------------------------------------------------
  // The lists MethodTypeSignature.parse reads itself, and the whole parse

  lemma {:induction false} ParametersAtSound(s: string, i: nat)
    requires i <= |s|
    ensures var r := ParametersAt(s, i);
      r.Ok? ==> && i <= r.value.next <= |s|
                && s[i..r.value.next] == EncodeSigs(r.value.value)
                && WellFormedSigs(r.value.value)
    decreases |s| - i
  {
    var r := ParametersAt(s, i);
    if r.Ok? && PeekAt(s, i) != ')' {
      SigAtSound(s, i);
      var t := SigAt(s, i);
      ParametersAtSound(s, t.next);
      var rest := ParametersAt(s, t.next).value;
      var xs := [t.value] + rest.value;
      assert xs[0] == t.value && xs[1..] == rest.value;
      SliceSplit(s, i, t.next, rest.next);
      forall k | 0 <= k < |xs| ensures WellFormedSig(xs[k]) {
        if k > 0 { assert xs[k] == rest.value[k - 1]; }
      }
    }
  }

  lemma {:induction false} ThrowsEntryAtSound(s: string, i: nat)
    requires i <= |s|
    ensures var r := ThrowsEntryAt(s, i);
      SigSound(s, i, r) && (r.Match? ==> IsClassRefOrTypeVariable(r.value))
  {
    ClassRefAtSound(s, i);
    if ClassRefAt(s, i).NoMatch? {
      TypeVariableAtSound(s, i);
    }
  }

  lemma {:induction false} ThrowsAtSound(s: string, i: nat)
    requires i <= |s|
    ensures var r := ThrowsAt(s, i);
      r.Ok? ==> && i <= r.value.next <= |s|
                && s[i..r.value.next] == EncodeThrows(r.value.value)
                && WellFormedThrows(r.value.value)
    decreases |s| - i
  {
    if PeekAt(s, i) == '^' && ThrowsEntryAt(s, i + 1).Match? {
      var t := ThrowsEntryAt(s, i + 1);
      ThrowsEntryAtSound(s, i + 1);
      ThrowsAtSound(s, t.next);
      if ThrowsAt(s, t.next).Ok? {
        var rest := ThrowsAt(s, t.next).value;
        ThrowsAtStep(s, i, t.value, t.next, rest);
        ThrowsConsText(s, i, t.value, t.next, rest);
      }
    }
  }

  /** One throws entry read at `i`, followed by the entries read after it. */
  lemma {:induction false} ThrowsAtStep(s: string, i: nat, x: Sig<string>, j: nat, rest: Parsed<seq<Sig<string>>>)
    requires i < |s| && s[i] == '^' && ThrowsEntryAt(s, i + 1) == Match(x, j) && ThrowsAt(s, j) == Ok(rest)
    ensures ThrowsAt(s, i) == Ok(Parsed([x] + rest.value, rest.next))
  {
  }

  lemma {:induction false} ThrowsConsText(s: string, i: nat, x: Sig<string>, j: nat, rest: Parsed<seq<Sig<string>>>)
    requires i < j <= rest.next <= |s| && s[i] == '^'
    requires s[i + 1..j] == EncodeSig(x) && IsClassRefOrTypeVariable(x) && WellFormedSig(x)
    requires s[j..rest.next] == EncodeThrows(rest.value) && WellFormedThrows(rest.value)
    ensures s[i..rest.next] == EncodeThrows([x] + rest.value) && WellFormedThrows([x] + rest.value)
  {
    CharThenSlice(s, i, j, '^', EncodeSig(x));
    SliceSplit(s, i, j, rest.next);
    ThrowsCons(x, rest.value);
  }

  /** The encoding and well-formedness of a throws list with one more entry in front. */
  lemma {:induction false} ThrowsCons(x: Sig<string>, xs: seq<Sig<string>>)
    ensures EncodeThrows([x] + xs) == "^" + EncodeSig(x) + EncodeThrows(xs)
    ensures IsClassRefOrTypeVariable(x) && WellFormedSig(x) && WellFormedThrows(xs) ==> WellFormedThrows([x] + xs)
  {
    var ys := [x] + xs;
    assert ys[0] == x && ys[1..] == xs;
    if IsClassRefOrTypeVariable(x) && WellFormedSig(x) && WellFormedThrows(xs) {
      forall k | 0 <= k < |ys| ensures IsClassRefOrTypeVariable(ys[k]) && WellFormedSig(ys[k]) {
        if k > 0 { assert ys[k] == xs[k - 1]; }
      }
    }
  }

  lemma {:induction false} ThrowsStageSound(s: string, tps: seq<TypeParameter<string>>, params: seq<Sig<string>>,
                                             result: Sig<string>, k: nat)
    requires k <= |s|
    ensures var r := ThrowsStage(s, tps, params, result, k);
      r.Ok? ==> && r.value.typeParameters == tps && r.value.parameterTypes == params && r.value.resultType == result
                && s[k..] == EncodeThrows(r.value.throwsSignatures) && WellFormedThrows(r.value.throwsSignatures)
  {
    ThrowsAtSound(s, k);
  }

  lemma {:induction false} ResultStageSound(s: string, tps: seq<TypeParameter<string>>, params: Parsed<seq<Sig<string>>>)
    requires params.next < |s|
    ensures var r := ResultStage(s, tps, params);
      r.Ok? ==> && r.value.typeParameters == tps && r.value.parameterTypes == params.value
                && s[params.next + 1..] == EncodeSig(r.value.resultType) + EncodeThrows(r.value.throwsSignatures)
                && WellFormedSig(r.value.resultType) && WellFormedThrows(r.value.throwsSignatures)
  {
    if SigAt(s, params.next + 1).Match? {
      var result := SigAt(s, params.next + 1);
      SigAtSound(s, params.next + 1);
      ThrowsStageSound(s, tps, params.value, result.value, result.next);
      var r := ThrowsStage(s, tps, params.value, result.value, result.next);
      if r.Ok? {
        TextThenRest(s, params.next + 1, result.next, EncodeSig(result.value), EncodeThrows(r.value.throwsSignatures));
      }
    }
  }

  /** Text read as one piece followed by all the rest. */
  lemma {:induction false} TextThenRest(s: string, i: nat, j: nat, x: string, y: string)
    requires i <= j <= |s| && s[i..j] == x && s[j..] == y
    ensures s[i..] == x + y
  {
    assert s[i..] == s[i..j] + s[j..];
  }

  /** The text from an opening `(` on: the parameters, the `)` and what follows it. */
  lemma {:induction false} ParenthesisedText(s: string, a: nat, b: nat, x: string, y: string)
    requires a < b < |s| && s[a] == '(' && s[a + 1..b] == x && s[b] == ')' && s[b + 1..] == y
    ensures s[a..] == "(" + x + ")" + y
  {
    SliceSplit(s, a, a + 1, |s|);
    SliceSplit(s, a + 1, b, |s|);
    SliceSplit(s, b, b + 1, |s|);
    assert s[a..a + 1] == "(" && s[b..b + 1] == ")";
  }

  lemma {:induction false} ParametersStageSound(s: string, tps: Parsed<seq<TypeParameter<string>>>)
    requires tps.next <= |s|
    ensures var r := ParametersStage(s, tps);
      r.Ok? ==> && r.value.typeParameters == tps.value
                && s[tps.next..] == "(" + EncodeSigs(r.value.parameterTypes) + ")"
                                    + (EncodeSig(r.value.resultType) + EncodeThrows(r.value.throwsSignatures))
                && WellFormedSigs(r.value.parameterTypes) && WellFormedSig(r.value.resultType)
                && WellFormedThrows(r.value.throwsSignatures)
  {
    var r := ParametersStage(s, tps);
    if r.Ok? {
      ParametersAtSound(s, tps.next + 1);
      var params := ParametersAt(s, tps.next + 1).value;
      ResultStageSound(s, tps.value, params);
      ParenthesisedText(s, tps.next, params.next, EncodeSigs(params.value),
                        EncodeSig(r.value.resultType) + EncodeThrows(r.value.throwsSignatures));
    }
  }

  /** A text cut in two at `k` is the concatenation of the two pieces. */
  lemma {:induction false} Rejoin(s: string, k: nat, x: string, y: string)
    requires k <= |s| && s[..k] == x && s[k..] == y
    ensures s == x + y
  {
    assert s == s[..k] + s[k..];
  }

  /**
   * A successful parse read the whole input, and the input is exactly the encoding of the
   * well-formed signature returned: the parts it holds are those of the text, in text order.
   */
  lemma {:induction false} ParseMethodSignatureSound(s: string)
    ensures var r := ParseMethodSignature(s);
      r.Ok? ==> WellFormedMethodSig(r.value) && EncodeMethodSig(r.value) == s
  {
    var r := ParseMethodSignature(s);
    if r.Ok? {
      TypeParametersAtSound(s, 0);
      var tps := TypeParametersAt(s, 0).value;
      ParametersStageSound(s, tps);
      var m := r.value;
      EncodeMethodSigParts(m);
      assert s[..tps.next] == s[0..tps.next];
      Rejoin(s, tps.next, EncodeTypeParameters(m.typeParameters),
             "(" + EncodeSigs(m.parameterTypes) + ")" + (EncodeSig(m.resultType) + EncodeThrows(m.throwsSignatures)));
    }
  }
}
