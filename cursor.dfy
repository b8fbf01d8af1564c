/**
 * The forward-only cursor that every sub-parser advances (the `Parser` utility class of the
 * scanner), its error type, and the outcomes the sub-parsers report.
 *
 * The cursor is `io.github.lukehutch.fastclasspathscanner.utils.Parser` (Parser.java), which is
 * not part of this model; its behaviour is assumed, and the contracts here are the ones the
 * method-signature parser relies on: `Peek` never fails (it yields `EndOfInput` past the end),
 * `Expect` advances by one exactly when the expected character is next, and the side-channel
 * `state` only grows.
 */
module Cursor {
  import opened Wrappers

  /** A grammar error: the cursor position at which it was raised and a human-readable message. */
  datatype ParseException = ParseException(position: nat, message: string)

  /**
   * What a sub-parser reports: a hard failure, "this alternative does not start here" (the
   * Java sub-parsers return null; the cursor has not moved), or a node together with the
   * position just after it.
   */
  datatype Outcome<T> = Fail(error: ParseException) | NoMatch | Match(value: T, next: nat)

  /** A value together with the position just after the text it was parsed from. */
  datatype Parsed<T> = Parsed(value: T, next: nat)

  /** The result of a parse that either succeeds or throws a `ParseException`. */
  datatype Result<T> = Ok(value: T) | Err(error: ParseException)

  /** A list read after `xs`: the same outcome, with `xs` in front of the elements on success. */
  function Prepend<T>(xs: seq<T>, r: Result<Parsed<seq<T>>>): (q: Result<Parsed<seq<T>>>)
    ensures q.Err? <==> r.Err?
    ensures q.Err? ==> q.error == r.error
    ensures q.Ok? ==> q.value.value == xs + r.value.value && q.value.next == r.value.next
  {
    match r
    case Err(e) => Err(e)
    case Ok(p) => Ok(Parsed(xs + p.value, p.next))
  }

  // Solver aids: one-step facts about `Prepend` that the list proofs cite.

  lemma {:induction false} PrependNothing<T>(r: Result<Parsed<seq<T>>>)
    ensures Prepend([], r) == r
  {
    if r.Ok? { assert [] + r.value.value == r.value.value; }
  }

  lemma {:induction false} PrependTwice<T>(x: T, ys: seq<T>, r: Result<Parsed<seq<T>>>)
    ensures Prepend([x], Prepend(ys, r)) == Prepend([x] + ys, r)
  {
    if r.Ok? { assert [x] + (ys + r.value.value) == ([x] + ys) + r.value.value; }
  }

  lemma {:induction false} PrependAppend<T>(xs: seq<T>, ys: seq<T>, r: Result<Parsed<seq<T>>>)
    ensures Prepend(xs, Prepend(ys, r)) == Prepend(xs + ys, r)
  {
    if r.Ok? { assert xs + (ys + r.value.value) == (xs + ys) + r.value.value; }
  }

  /** What `Peek` yields once the whole input has been consumed. */
  const EndOfInput: char := '\0'

  /** The character at position `i` of `s`, or `EndOfInput` when there is none. */
  function PeekAt(s: string, i: nat): char
  {
    if i < |s| then s[i] else EndOfInput
  }

  /** The message of the error raised when `Expect(c)` finds something else. */
  function ExpectedMessage(c: char): string
  {
    "Expected '" + [c] + "'"
  }

  /**
   * The end of the longest run of characters satisfying `accept` that starts at `i`:
   * every character in between is accepted and the one at the end (if any) is not.
   */
  function ScanEnd(s: string, i: nat, accept: char -> bool): (j: nat)
    requires i <= |s|
    ensures i <= j <= |s|
    ensures forall k :: i <= k < j ==> accept(s[k])
    ensures j < |s| ==> !accept(s[j])
    decreases |s| - i
  {
    if i < |s| && accept(s[i]) then ScanEnd(s, i + 1, accept) else i
  }

  /**
   * A cursor over one input string. `state` is the side channel on which sub-parsers record
   * the nodes they create (the type-variable occurrences), in creation order.
   */
  class Parser<S> {
    const input: string
    var position: nat
    var state: seq<S>

    ghost predicate Valid()
      reads this
    {
      position <= |input|
    }

    constructor (input: string)
      ensures Valid()
      ensures this.input == input && position == 0 && state == []
    {
      this.input := input;
      position := 0;
      state := [];
    }

    /** The next character, or `EndOfInput` at the end. */
    function Peek(): char
      reads this
    {
      PeekAt(input, position)
    }

    /** Whether any input remains. */
    predicate HasMore()
      reads this
    {
      position < |input|
    }

    /** Moves past `c` when it is the next character; otherwise reports where it was missing. */
    method Expect(c: char) returns (err: Option<ParseException>)
      requires Valid()
      modifies this
      ensures Valid() && state == old(state)
      ensures old(HasMore()) && old(Peek()) == c ==> err == None && position == old(position) + 1
      ensures !(old(HasMore()) && old(Peek()) == c) ==>
                err == Some(ParseException(old(position), ExpectedMessage(c))) && position == old(position)
    {
      if HasMore() && Peek() == c {
        position := position + 1;
        err := None;
      } else {
        err := Some(ParseException(position, ExpectedMessage(c)));
      }
    }

    /** Moves forward to `j`, past the text a sub-parser has read. */
    method SkipTo(j: nat)
      requires Valid() && position <= j <= |input|
      modifies this
      ensures Valid() && position == j && state == old(state)
    {
      position := j;
    }

    /** Records `x` on the side channel. */
    method Record(x: S)
      modifies this
      ensures position == old(position) && state == old(state) + [x]
    {
      state := state + [x];
    }
  }
}
