# MethodTypeSignature of fast-classpath-scanner, in Dafny

This project models `MethodTypeSignature` of fast-classpath-scanner. That class parses the
generic signature of a Java method from its class-file text, for example
`<T:Ljava/lang/Object;>(Ljava/lang/String;I)V^Ljava/lang/Exception;`, into:

- its type parameters,
- its parameter types,
- exactly one result type,
- its throws entries.

After the parse it sets the back-links of every type-variable occurrence: each one points at the
method signature it belongs to and, when a containing class is known, at that class's type
signature. The class also provides structural `equals` and `hashCode`, a canonical `toString`,
and the collection of the class names it references.

The project has these modules:

- `Wrappers`: `Option`.
- `Cursor`: the forward-only `Parser` cursor (position, one-character peek, `expect`, and the
  side channel on which sub-parsers record the type-variable nodes they create), the
  `ParseException` error, and the `Outcome` of a sub-parser (a failure, no match, or a match).
- `SignatureAst`: the signature nodes, generic in how a type-variable occurrence is held. There
  are four things defined on them:
  - their descriptor encoding;
  - their well-formedness;
  - their canonical rendering;
  - the class names and type-variable occurrences they contain.
- `SignatureGrammar`: the grammar as pure functions of the text and a position.
  `ParseMethodSignature` and its stages follow `MethodTypeSignature.parse` branch by branch,
  with the same messages and the same error positions.
- `GrammarSoundness`, `GrammarCompleteness`, `RoundTrip`: what the grammar accepts, proved
  in three parts:
  - anything it accepts is well formed and is the encoding of the result;
  - every well-formed signature is read back from its encoding;
  - each error `parse` raises itself is produced exactly where the code raises it.
- `TypeSignature`: the heap-level model.
  - `TypeVariableSignature` is a class whose two back-link fields are updated.
  - `MethodTypeSignature` is a class with the four `final` fields.
  - `Parse` works over a `Parser` object and is proved against `ParseMethodSignature`. It does
    this through the nodes' erasure, where each type-variable object is replaced by its name.

`parse` calls four sub-parsers of the scanner's `typesignature` package, which are not part of
this model:

- `TypeParameter.parseList` (TypeParameter.java)
- `TypeSignature.parse` (TypeSignature.java)
- `ClassRefTypeSignature.parse` (ClassRefTypeSignature.java)
- `TypeVariableSignature.parse` (TypeVariableSignature.java)

They are modelled on an assumed grammar based on the `JavaTypeSignature` grammar of section
4.7.9.1 of the Java Virtual Machine Specification. Each sub-parser is a grammar function, plus a
method that builds fresh nodes for the part the function read. This grammar, the messages of
these sub-parsers, and the node-level `toString`/`hashCode` are assumptions of the model (see
"Left out").

Path `MethodTypeSignature.java` below stands for
`src/main/java/io/github/lukehutch/fastclasspathscanner/typesignature/MethodTypeSignature.java`.

## Model

| member | source | states |
|---|---|---|
| TypeSignature.MethodTypeSignature.Parse | src/main/java/io/github/lukehutch/fastclasspathscanner/typesignature/MethodTypeSignature.java:212-274 | An error exactly when the grammar refuses the text, with the grammar's position and message. Otherwise the new signature's value is what the grammar read. Every type-variable occurrence inside it is a new object whose method back-link is the result. Its class back-link is the containing class's type signature when a class is given, and none otherwise. |
| TypeSignature.MethodTypeSignature.ParseDescriptor | src/main/java/io/github/lukehutch/fastclasspathscanner/typesignature/MethodTypeSignature.java:197-199 | `parse(String)` is the parse without a class: the same outcome, and no class back-link is set. |
| TypeSignature.MethodTypeSignature.ParseAfterTypeParameters | src/main/java/io/github/lukehutch/fastclasspathscanner/typesignature/MethodTypeSignature.java:216-272 | After the type parameters, the rest of the parse has the grammar's outcome. On success every occurrence, those of the type parameters included, is linked to the new object. On an error no occurrence, old or new, is linked. |
| TypeSignature.MethodTypeSignature.ParseParametersStage | src/main/java/io/github/lukehutch/fastclasspathscanner/typesignature/MethodTypeSignature.java:216-228 | `(`, the parameter types and `)`, then the rest. A missing `(` is an "Expected '('" error at that position, and the outcome is the grammar stage's. Only occurrences created by this call are added to the cursor's side channel. They are new and have no links. |
| TypeSignature.MethodTypeSignature.ParseParameterTypes | src/main/java/io/github/lukehutch/fastclasspathscanner/typesignature/MethodTypeSignature.java:217-227 | The loop reads parameter types until `)` is next and stops before it. The end of input is "Ran out of input while parsing method signature", and a position where no type starts is "Missing method parameter type signature". The parameter list and the position reached are those of the grammar's `ParametersAt`. |
| TypeSignature.MethodTypeSignature.ParseResultStage | src/main/java/io/github/lukehutch/fastclasspathscanner/typesignature/MethodTypeSignature.java:229-255 | Exactly one result type, or "Missing method result type signature" just after `)`. The throws entries follow, then "Extra characters at end of type descriptor" where input is left over. The outcome is the grammar's. |
| TypeSignature.MethodTypeSignature.ParseThrowsSignatures | src/main/java/io/github/lukehutch/fastclasspathscanner/typesignature/MethodTypeSignature.java:233-252 | The empty list when no `^` is next. Otherwise one entry per `^`, each a class reference or a type variable, as the grammar's `ThrowsAt` reads them, with the same errors. |
| TypeSignature.MethodTypeSignature.ParseThrowsEntry | src/main/java/io/github/lukehutch/fastclasspathscanner/typesignature/MethodTypeSignature.java:237-248 | After `^`: a class reference if one starts here, else a type variable, else no match ("Missing type variable signature" in the caller). A no-match leaves the cursor where it was. |
| TypeSignature.MethodTypeSignature.Assemble | src/main/java/io/github/lukehutch/fastclasspathscanner/typesignature/MethodTypeSignature.java:256-272 | The object is new, its fields are the four parsed parts, and its occurrences are exactly the cursor's side channel. Each gets the method back-link. It gets the class back-link only when a class is given, and keeps the old one otherwise. |
| TypeSignature.MethodTypeSignature.LinkTypeVariables | src/main/java/io/github/lukehutch/fastclasspathscanner/typesignature/MethodTypeSignature.java:258-272 | Every listed occurrence gets the method back-link. It gets the class back-link only when a class is given, and keeps the old one otherwise. Nothing else is changed. |
| TypeSignature.MethodTypeSignature.constructor | src/main/java/io/github/lukehutch/fastclasspathscanner/typesignature/MethodTypeSignature.java:64-106 | The four getters return exactly the four arguments. |
| TypeSignature.MethodTypeSignature.Equals | src/main/java/io/github/lukehutch/fastclasspathscanner/typesignature/MethodTypeSignature.java:134-143 | True iff the other object is a `MethodTypeSignature` whose four fields equal these. Nodes are compared structurally, and back-links play no part. |
| TypeSignature.MethodTypeSignature.EqualsIffSameDescriptor | src/main/java/io/github/lukehutch/fastclasspathscanner/typesignature/MethodTypeSignature.java:134-143 | Two parsed signatures are equal iff they were parsed from the same text. |
| TypeSignature.MethodTypeSignature.HashCode | src/main/java/io/github/lukehutch/fastclasspathscanner/typesignature/MethodTypeSignature.java:128-132 | `typeParameters.hashCode() + 7 * params + 15 * result + 31 * throws`, computed in Java `int` arithmetic, so the result is in the 32-bit range. |
| TypeSignature.MethodTypeSignature.EqualsSameHashCode | src/main/java/io/github/lukehutch/fastclasspathscanner/typesignature/MethodTypeSignature.java:128-143 | Equal signatures have equal hash codes. |
| TypeSignature.Int32 | src/main/java/io/github/lukehutch/fastclasspathscanner/typesignature/MethodTypeSignature.java:130-131 | Java `int` wrap-around: the result is in range, differs from the input by a multiple of 2^32, and is the input itself when that is already in range. |
| TypeSignature.MethodTypeSignature.ToString | src/main/java/io/github/lukehutch/fastclasspathscanner/typesignature/MethodTypeSignature.java:145-185 | The loops build `RenderMethodSig` of the value: `<A, B> ` only with type parameters, then the result type, then ` (P1, P2)`, then ` throws E1, E2` only with throws entries. |
| SignatureAst.RenderMethodSigStart | src/main/java/io/github/lukehutch/fastclasspathscanner/typesignature/MethodTypeSignature.java:149-164 | The rendering starts with `<` iff there are type parameters. The separating space is added because `buf` is non-empty exactly then. |
| SignatureAst.RenderStart | src/main/java/io/github/lukehutch/fastclasspathscanner/typesignature/MethodTypeSignature.java:164 | A well-formed result type renders as non-empty text that does not start with `<`. |
| TypeSignature.MethodTypeSignature.GetAllReferencedClassNames | src/main/java/io/github/lukehutch/fastclasspathscanner/typesignature/MethodTypeSignature.java:108-126 | The names already in the set, together with every class name referenced by the type parameters, the parameters, the result type and the throws entries, and nothing else. |
| SignatureAst.MethodClassNamesMember | src/main/java/io/github/lukehutch/fastclasspathscanner/typesignature/MethodTypeSignature.java:108-126 | A name is referenced iff some type parameter, parameter type, the result type or some throws entry references it. |
| SignatureAst.TypeParametersClassNamesMember | src/main/java/io/github/lukehutch/fastclasspathscanner/typesignature/MethodTypeSignature.java:110-114 | A name is referenced by the type parameters iff one of them references it. |
| SignatureAst.SigsClassNamesMember | src/main/java/io/github/lukehutch/fastclasspathscanner/typesignature/MethodTypeSignature.java:115-124 | A name is referenced by a list of nodes iff one of them references it. |
| RoundTrip.ParametersStageAcceptsEncodings | src/main/java/io/github/lukehutch/fastclasspathscanner/typesignature/MethodTypeSignature.java:216-255 | After the type parameters, the rest of the parse yields `m` iff `m` keeps those type parameters, its other parts are well formed, and the rest of the input is `(`, the encoding of its parameter types, `)`, then the encodings of its result type and its throws entries. |
| RoundTrip.ResultStageAcceptsEncodings | src/main/java/io/github/lukehutch/fastclasspathscanner/typesignature/MethodTypeSignature.java:229-255 | After the `)`, the rest of the parse yields `m` iff `m` keeps the parts read before, its result type and throws entries are well formed, and the rest of the input is exactly their encodings, one after the other. |
| RoundTrip.ThrowsStageAcceptsEncodings | src/main/java/io/github/lukehutch/fastclasspathscanner/typesignature/MethodTypeSignature.java:233-255 | After the result type, the rest of the parse yields `m` iff `m` keeps the parts read before and the rest of the input is exactly the encoding of its well-formed throws entries. |
| SignatureGrammar.ParametersAt | src/main/java/io/github/lukehutch/fastclasspathscanner/typesignature/MethodTypeSignature.java:217-227 | On success the list ends at a `)` of the input, at or after where it started. |
| SignatureGrammar.ThrowsAt | src/main/java/io/github/lukehutch/fastclasspathscanner/typesignature/MethodTypeSignature.java:233-252 | On success the position moves forward and stays within the input. |
| SignatureGrammar.ThrowsEntryAt | src/main/java/io/github/lukehutch/fastclasspathscanner/typesignature/MethodTypeSignature.java:238-248 | A match consumes at least one character, so the throws loop terminates. |
| TypeSignature.ThrowsEntryKinds | src/main/java/io/github/lukehutch/fastclasspathscanner/typesignature/MethodTypeSignature.java:238-244 | A throws entry is a class reference when the class-reference parser matched, and a type variable when the type-variable parser did. |
| TypeSignature.ParseTypeParameterList | src/main/java/io/github/lukehutch/fastclasspathscanner/typesignature/MethodTypeSignature.java:215 | The type parameters and the position as the grammar reads them; on an error the side channel is unchanged. |
| TypeSignature.ParseTypeSignature | src/main/java/io/github/lukehutch/fastclasspathscanner/typesignature/MethodTypeSignature.java:222-223 | One node, with the grammar's `SigAt` outcome. No match leaves the cursor where it was. |
| TypeSignature.ParseClassRefTypeSignature | src/main/java/io/github/lukehutch/fastclasspathscanner/typesignature/MethodTypeSignature.java:238 | The grammar's `ClassRefAt` outcome, with new nodes for what it read. |
| TypeSignature.ParseTypeVariableSignature | src/main/java/io/github/lukehutch/fastclasspathscanner/typesignature/MethodTypeSignature.java:242 | The grammar's `TypeVariableAt` outcome, with one new unlinked occurrence recorded on the side channel. |
| GrammarSoundness.ParseMethodSignatureSound | src/main/java/io/github/lukehutch/fastclasspathscanner/typesignature/MethodTypeSignature.java:212-255 | Whatever the parse accepts is well formed, and the accepted text is exactly its encoding. |
| RoundTrip.ParseEncoding | src/main/java/io/github/lukehutch/fastclasspathscanner/typesignature/MethodTypeSignature.java:212-255 | Every well-formed signature is parsed back from its encoding. |
| RoundTrip.ParseAcceptsExactlyEncodings | src/main/java/io/github/lukehutch/fastclasspathscanner/typesignature/MethodTypeSignature.java:212-255 | The parse yields `m` from `s` iff `m` is well formed and `s` is its encoding. |
| RoundTrip.EncodingInjective | src/main/java/io/github/lukehutch/fastclasspathscanner/typesignature/MethodTypeSignature.java:212-255 | Distinct well-formed signatures have distinct texts. |
| RoundTrip.ParseEncodingWithSuffix | src/main/java/io/github/lukehutch/fastclasspathscanner/typesignature/MethodTypeSignature.java:253-255 | An encoding followed by anything that does not start with `^` is "Extra characters at end of type descriptor", at the first extra character. |
| RoundTrip.ParseMissingOpenParenthesis | src/main/java/io/github/lukehutch/fastclasspathscanner/typesignature/MethodTypeSignature.java:215-216 | Type parameters not followed by `(` give "Expected '('" at the position just after them. |
| RoundTrip.ParseRanOutOfInput | src/main/java/io/github/lukehutch/fastclasspathscanner/typesignature/MethodTypeSignature.java:218-221 | Text that ends among the parameter types gives "Ran out of input while parsing method signature" at its end. |
| RoundTrip.ParseMissingParameterType | src/main/java/io/github/lukehutch/fastclasspathscanner/typesignature/MethodTypeSignature.java:222-225 | A character among the parameters that is neither `)` nor the start of a type gives "Missing method parameter type signature" at that character. |
| RoundTrip.ParseMissingResultType | src/main/java/io/github/lukehutch/fastclasspathscanner/typesignature/MethodTypeSignature.java:229-232 | Anything after `)` that does not start a type gives "Missing method result type signature" just after the `)`. |
| RoundTrip.ParseMissingThrowsType | src/main/java/io/github/lukehutch/fastclasspathscanner/typesignature/MethodTypeSignature.java:234-247 | A `^` followed by neither `L` nor `T` (or by nothing) gives "Missing type variable signature" just after the `^`. |
| RoundTrip.ParseMalformedThrowsEntry | src/main/java/io/github/lukehutch/fastclasspathscanner/typesignature/MethodTypeSignature.java:237-248 | After an encoded signature, a `^` whose entry the class-reference or type-variable parser refuses with an error (such as `^Lfoo` or `^T;`) makes the parse fail with that parser's own error, not with "Missing type variable signature". |
| RoundTrip.ParseVoidExample | src/main/java/io/github/lukehutch/fastclasspathscanner/typesignature/MethodTypeSignature.java:212-256 | `()V` has no type parameters, no parameters, a `void` result, and an empty (not absent) throws list. |
| RoundTrip.ParseUnterminatedExample | src/main/java/io/github/lukehutch/fastclasspathscanner/typesignature/MethodTypeSignature.java:218-221 | `(I` runs out of input at position 2. |
| RoundTrip.ParseNoResultExample | src/main/java/io/github/lukehutch/fastclasspathscanner/typesignature/MethodTypeSignature.java:229-232 | `()` is missing its result type at position 2. |
| RoundTrip.ParseTrailingTextExample | src/main/java/io/github/lukehutch/fastclasspathscanner/typesignature/MethodTypeSignature.java:253-255 | `()V extra` has extra characters from position 3. |

## Left out

- The sub-parsers `TypeParameter.parseList`, `TypeSignature.parse`, `ClassRefTypeSignature.parse` and `TypeVariableSignature.parse` live in TypeParameter.java, TypeSignature.java, ClassRefTypeSignature.java and TypeVariableSignature.java, which are not part of this model. They are modelled on an assumed grammar that differs from section 4.7.9.1 of the Java Virtual Machine Specification as follows:
  - `V` is accepted wherever a base type is, so also as a parameter type and as an array element type (`(V)V` and `([V)V` are accepted). `parse` reads parameter types and the result type, which may be `void`, with the same `TypeSignature.parse` (lines 222 and 229), so it accepts a `V` parameter too;
  - a type parameter with neither a class bound nor an interface bound (`A:`) cannot be followed by a type parameter whose name starts with `T`, `L` or `[`, because the class-bound parser reads that name as the bound: `<A:T:Ljava/lang/Object;>()V` is refused with "Missing type variable name" at position 4, although section 4.7.9.1 allows it. `WellFormedTypeParameters` leaves such lists out of the round trip;
  - class references have no inner-class (`.`) suffixes;
  - type parameter lists must be non-empty;
  - each array node has one `[`;
  - their error messages are assumed.
- The `Parser` cursor (`io.github.lukehutch.fastclasspathscanner.utils.Parser`, Parser.java) is not part of this model. It is modelled as assumed: `peek` gives `'\0'` at the end of input, `expect(c)` does not move on a mismatch, and its message is then `Expected '<c>'` (`Cursor.ExpectedMessage`).
- The node classes' `toString`, `hashCode`, `equals` and `getAllReferencedClassNames` live in their own files of the `typesignature` package (TypeSignature.java, ClassRefTypeSignature.java, TypeVariableSignature.java, ArrayTypeSignature.java, TypeArgument.java, TypeParameter.java), which are not part of this model. They are assumed as follows:
  - `equals` compares the nodes structurally, with type variables compared by name;
  - a node's hash code is Java's `String.hashCode` of its descriptor text;
  - the rendering is a canonical `toString` of the assumed node shapes.
- TypeSignature.StringHash: characters are taken as code points, not as UTF-16 units.
- Error positions (`ParseException.position`) count characters as Unicode code points, not as Java's UTF-16 units, so after a supplementary character in an identifier a position is one less per such character than Java's.
- `ClassInfo` is reduced to the one thing `parse` asks of it, its type signature (which may be absent). `getTypeSignature()` is not otherwise modelled.
- TypeSignature.MethodTypeSignature.GetAllReferencedClassNames: returns the extended set as a value instead of adding to the caller's `Set` in place. Any aliasing of that set is not modelled.
- The `null` checks inside the loops of `getAllReferencedClassNames` are absent, because the modelled lists cannot hold `null`. The `null` check on the parser state is also absent, because the state is an empty sequence rather than `null`.
- `getTypeParameters` and the other getters are plain functions returning the fields. Their contract is stated once, on the constructor.
- Thread safety and the sharing of the finished signature across threads are not modelled.
- TypeSignature.MethodTypeSignature.HashCode: its own contract states only the `int` range. Its agreement with `equals` is `EqualsSameHashCode`.
