/**
 * The signature grammar as functions of the input text and a position: what each parser of
 * the parse reads from position `i` of `s`. These are the specifications the imperative
 * parsers in module TypeSignature are proved against.
 *
 * `ParseMethodSignature` and the two lists it reads directly (`ParametersAt`, `ThrowsAt`)
 * follow MethodTypeSignature.parse. The parsers of the nodes (`SigAt` and what it calls, and
 * the type-parameter list) stand for `TypeSignature.parse`, `ClassRefTypeSignature.parse`,
 * `TypeVariableSignature.parse` and `TypeParameter.parseList`, whose files are not part of this
 * model: they follow the ASSUMED grammar described in SignatureAst, and their messages are
 * assumed too. Their one contract the method parser needs is that a match
 * always moves strictly forward (so that its loops terminate) and that "no match" means
 * nothing was consumed.
 */
module SignatureGrammar {
  import opened Wrappers
  import opened Cursor
  import opened SignatureAst

  // Messages raised by MethodTypeSignature.parse itself.
  const RanOutOfInput := "Ran out of input while parsing method signature"
  const MissingParameterType := "Missing method parameter type signature"
  const MissingResultType := "Missing method result type signature"
  const MissingThrowsType := "Missing type variable signature"
  const ExtraCharacters := "Extra characters at end of type descriptor"

  // Messages of the node parsers (assumed).
  const MissingClassName := "Missing class name"
  const MissingTypeVariableName := "Missing type variable name"
  const MissingArrayElementType := "Missing array element type signature"
  const MissingTypeArgument := "Missing type argument"
  const MissingWildcardBound := "Missing type argument bound"
  const MissingTypeParameter := "Missing type parameter"
  const MissingInterfaceBound := "Missing interface bound"

  // ---------------------------------------------------------------------------------------
  // Node parsers (assumed)

  /** `T` Identifier `;` */
  function TypeVariableAt(s: string, i: nat): (r: Outcome<Sig<string>>)
    requires i <= |s|
    ensures r.Match? ==> i < r.next <= |s|
  {
    if PeekAt(s, i) != 'T' then NoMatch
    else
      var j := ScanEnd(s, i + 1, IsIdentChar);
      if j == i + 1 then Fail(ParseException(j, MissingTypeVariableName))
      else if PeekAt(s, j) != ';' then Fail(ParseException(j, ExpectedMessage(';')))
      else Match(TypeVariable(s[i + 1..j]), j + 1)
  }

  /** `L` ClassName [`<` TypeArgument {TypeArgument} `>`] `;` */
  function ClassRefAt(s: string, i: nat): (r: Outcome<Sig<string>>)
    requires i <= |s|
    ensures r.Match? ==> i < r.next <= |s|
    decreases |s| - i, 0
  {
    if PeekAt(s, i) != 'L' then NoMatch
    else
      var j := ScanEnd(s, i + 1, IsClassNameChar);
      if j == i + 1 then Fail(ParseException(j, MissingClassName))
      else if PeekAt(s, j) == '<' then
        match TypeArgumentsAt(s, j + 1)
        case Err(e) => Fail(e)
        case Ok(args) =>
          if PeekAt(s, args.next) != ';' then Fail(ParseException(args.next, ExpectedMessage(';')))
          else Match(ClassRef(DottedName(s[i + 1..j]), args.value), args.next + 1)
      else if PeekAt(s, j) != ';' then Fail(ParseException(j, ExpectedMessage(';')))
      else Match(ClassRef(DottedName(s[i + 1..j]), []), j + 1)
  }

  /** `[` JavaTypeSignature */
  function ArrayTypeAt(s: string, i: nat): (r: Outcome<Sig<string>>)
    requires i <= |s|
    ensures r.Match? ==> i < r.next <= |s|
    decreases |s| - i, 0
  {
    if PeekAt(s, i) != '[' then NoMatch
    else
      match SigAt(s, i + 1)
      case Fail(e) => Fail(e)
      case NoMatch => Fail(ParseException(i + 1, MissingArrayElementType))
      case Match(e, j) => Match(ArrayOf(e), j)
  }

  /** ReferenceTypeSignature: a class reference, a type variable or an array type. */
  function RefSigAt(s: string, i: nat): (r: Outcome<Sig<string>>)
    requires i <= |s|
    ensures r.Match? ==> i < r.next <= |s|
    decreases |s| - i, 1
  {
    match ClassRefAt(s, i)
    case NoMatch =>
      (match TypeVariableAt(s, i)
       case NoMatch => ArrayTypeAt(s, i)
       case other => other)
    case other => other
  }

  /** JavaTypeSignature (with `V` accepted too): a base type or a reference type. */
  function SigAt(s: string, i: nat): (r: Outcome<Sig<string>>)
    requires i <= |s|
    ensures r.Match? ==> i < r.next <= |s|
    decreases |s| - i, 2
  {
    if IsBaseTypeCode(PeekAt(s, i)) then Match(BaseType(PeekAt(s, i)), i + 1)
    else RefSigAt(s, i)
  }

  /** `*`, or [`+` | `-`] ReferenceTypeSignature */
  function TypeArgumentAt(s: string, i: nat): (r: Outcome<TypeArgument<string>>)
    requires i <= |s|
    ensures r.Match? ==> i < r.next <= |s|
    decreases |s| - i, 2
  {
    var c := PeekAt(s, i);
    if c == '*' then Match(Unbounded, i + 1)
    else if c == '+' || c == '-' then
      match RefSigAt(s, i + 1)
      case Fail(e) => Fail(e)
      case NoMatch => Fail(ParseException(i + 1, MissingWildcardBound))
      case Match(b, j) => Match(Bounded(if c == '+' then Extends else Super, b), j)
    else
      match RefSigAt(s, i)
      case Fail(e) => Fail(e)
      case NoMatch => NoMatch
      case Match(b, j) => Match(Bounded(NoWildcard, b), j)
  }

  /** TypeArgument {TypeArgument} `>`, read after the opening `<`. */
  function TypeArgumentsAt(s: string, i: nat): (r: Result<Parsed<seq<TypeArgument<string>>>>)
    requires i <= |s|
    ensures r.Ok? ==> i < r.value.next <= |s|
    decreases |s| - i, 3
  {
    match TypeArgumentAt(s, i)
    case Fail(e) => Err(e)
    case NoMatch => Err(ParseException(i, MissingTypeArgument))
    case Match(a, j) =>
      if PeekAt(s, j) == '>' then Ok(Parsed([a], j + 1))
      else
        match TypeArgumentsAt(s, j)
        case Err(e) => Err(e)
        case Ok(rest) => Ok(Parsed([a] + rest.value, rest.next))
  }

  /** {`:` ReferenceTypeSignature} */
  function InterfaceBoundsAt(s: string, i: nat): (r: Result<Parsed<seq<Sig<string>>>>)
    requires i <= |s|
    ensures r.Ok? ==> i <= r.value.next <= |s|
    decreases |s| - i
  {
    if PeekAt(s, i) != ':' then Ok(Parsed([], i))
    else
      match RefSigAt(s, i + 1)
      case Fail(e) => Err(e)
      case NoMatch => Err(ParseException(i + 1, MissingInterfaceBound))
      case Match(b, j) =>
        match InterfaceBoundsAt(s, j)
        case Err(e) => Err(e)
        case Ok(rest) => Ok(Parsed([b] + rest.value, rest.next))
  }

  /** Identifier `:` [ReferenceTypeSignature] {`:` ReferenceTypeSignature} */
  function TypeParameterAt(s: string, i: nat): (r: Outcome<TypeParameter<string>>)
    requires i <= |s|
    ensures r.Match? ==> i < r.next <= |s|
  {
    var j := ScanEnd(s, i, IsIdentChar);
    if j == i then NoMatch
    else if PeekAt(s, j) != ':' then Fail(ParseException(j, ExpectedMessage(':')))
    else
      var classBound := RefSigAt(s, j + 1);
      if classBound.Fail? then Fail(classBound.error)
      else
        var k := if classBound.Match? then classBound.next else j + 1;
        match InterfaceBoundsAt(s, k)
        case Err(e) => Fail(e)
        case Ok(bounds) =>
          Match(TypeParameter(s[i..j], if classBound.Match? then Some(classBound.value) else None, bounds.value),
                bounds.next)
  }

  /** TypeParameter {TypeParameter} `>`, read after the opening `<`. */
  function TypeParameterListAt(s: string, i: nat): (r: Result<Parsed<seq<TypeParameter<string>>>>)
    requires i <= |s|
    ensures r.Ok? ==> i < r.value.next <= |s|
    decreases |s| - i
  {
    match TypeParameterAt(s, i)
    case Fail(e) => Err(e)
    case NoMatch => Err(ParseException(i, MissingTypeParameter))
    case Match(tp, j) =>
      if PeekAt(s, j) == '>' then Ok(Parsed([tp], j + 1))
      else
        match TypeParameterListAt(s, j)
        case Err(e) => Err(e)
        case Ok(rest) => Ok(Parsed([tp] + rest.value, rest.next))
  }

  /** [`<` TypeParameter {TypeParameter} `>`]: the empty list when no `<` comes next. */
  function TypeParametersAt(s: string, i: nat): (r: Result<Parsed<seq<TypeParameter<string>>>>)
    requires i <= |s|
    ensures r.Ok? ==> i <= r.value.next <= |s|
  {
    if PeekAt(s, i) != '<' then Ok(Parsed([], i)) else TypeParameterListAt(s, i + 1)
  }

  // ---------------------------------------------------------------------------------------
  // MethodTypeSignature.parse

  /**
   * The parameter types up to (not including) the closing `)`: running out of input first is
   * one error, a position where no type starts is another.
   */
  function ParametersAt(s: string, i: nat): (r: Result<Parsed<seq<Sig<string>>>>)
    requires i <= |s|
    ensures r.Ok? ==> i <= r.value.next < |s| && s[r.value.next] == ')'
    decreases |s| - i
  {
    if PeekAt(s, i) == ')' then Ok(Parsed([], i))
    else if i >= |s| then Err(ParseException(i, RanOutOfInput))
    else
      match SigAt(s, i)
      case Fail(e) => Err(e)
      case NoMatch => Err(ParseException(i, MissingParameterType))
      case Match(t, j) =>
        match ParametersAt(s, j)
        case Err(e) => Err(e)
        case Ok(rest) => Ok(Parsed([t] + rest.value, rest.next))
  }

  /** A class reference or, failing that, a type variable. */
  function ThrowsEntryAt(s: string, i: nat): (r: Outcome<Sig<string>>)
    requires i <= |s|
    ensures r.Match? ==> i < r.next <= |s|
  {
    match ClassRefAt(s, i)
    case NoMatch => TypeVariableAt(s, i)
    case other => other
  }

  /** {`^` ThrowsEntry}: the empty list when no `^` comes next. */
  function ThrowsAt(s: string, i: nat): (r: Result<Parsed<seq<Sig<string>>>>)
    requires i <= |s|
    ensures r.Ok? ==> i <= r.value.next <= |s|
    decreases |s| - i
  {
    if PeekAt(s, i) != '^' then Ok(Parsed([], i))
    else
      match ThrowsEntryAt(s, i + 1)
      case Fail(e) => Err(e)
      case NoMatch => Err(ParseException(i + 1, MissingThrowsType))
      case Match(t, j) =>
        match ThrowsAt(s, j)
        case Err(e) => Err(e)
        case Ok(rest) => Ok(Parsed([t] + rest.value, rest.next))
  }

  /**
   * The whole parse, in the order MethodTypeSignature.parse runs it: type parameters, `(`,
   * the parameters, `)`, exactly one result type, the throws entries, and a check that nothing
   * is left over. Each stage after the first is a function of its own.
   */
  function ParseMethodSignature(s: string): (r: Result<MethodSig<string>>)
  {
    match TypeParametersAt(s, 0)
    case Err(e) => Err(e)
    case Ok(tps) => ParametersStage(s, tps)
  }

  /** `(`, the parameter types, and what follows the `)` that ends them. */
  function ParametersStage(s: string, tps: Parsed<seq<TypeParameter<string>>>): (r: Result<MethodSig<string>>)
    requires tps.next <= |s|
  {
    if PeekAt(s, tps.next) != '(' then Err(ParseException(tps.next, ExpectedMessage('(')))
    else
      match ParametersAt(s, tps.next + 1)
      case Err(e) => Err(e)
      case Ok(params) => ResultStage(s, tps.value, params)
  }

  /** Exactly one result type after the `)` at `params.next`. */
  function ResultStage(s: string, tps: seq<TypeParameter<string>>, params: Parsed<seq<Sig<string>>>)
    : (r: Result<MethodSig<string>>)
    requires params.next < |s|
  {
    match SigAt(s, params.next + 1)
    case Fail(e) => Err(e)
    case NoMatch => Err(ParseException(params.next + 1, MissingResultType))
    case Match(result, k) => ThrowsStage(s, tps, params.value, result, k)
  }

  /** The throws entries from `k`, then the check that the input is used up. */
  function ThrowsStage(s: string, tps: seq<TypeParameter<string>>, params: seq<Sig<string>>, result: Sig<string>, k: nat)
    : (r: Result<MethodSig<string>>)
    requires k <= |s|
  {
    match ThrowsAt(s, k)
    case Err(e) => Err(e)
    case Ok(throws) =>
      if throws.next < |s| then Err(ParseException(throws.next, ExtraCharacters))
      else Ok(MethodSig(tps, params, result, throws.value))
  }
}
