/**
 The equivalence check used to compare ropes: a received value passes
 against an expected rope when it is a rope of the same length whose
 characters agree at every index, as read through `Length` and `CharAt`.
 */
module Matchers {
  import opened Wrappers
  import opened Ropes
  import opened Validation

  /** Why a comparison failed, or that it passed. */
  datatype MatchResult =
    | NotARope
    | LengthMismatch(receivedLength: nat, expectedLength: nat)
    | CharMismatch(index: nat, receivedChar: Option<char>, expectedChar: Option<char>)
    | Pass

  /**
   Compares `received` against `expected`: rejects a non-rope at once,
   then compares lengths, then walks the indices from 0 upward and stops at
   the first one where the characters differ. It passes exactly when the
   two logical strings are equal, whatever the shapes of the trees.
   */
  method ToBeEquivalentTo(received: Value, expected: Rope) returns (result: MatchResult)
    ensures result == NotARope <==> !IsRope(received)
    ensures result.Pass? <==> IsRope(received) && Equivalent(ToRope(received).value, expected)
    ensures IsRope(received) ==>
              (result.LengthMismatch? <==> Length(ToRope(received).value) != Length(expected))
    ensures result.LengthMismatch? ==>
              && IsRope(received)
              && result.receivedLength == Length(ToRope(received).value)
              && result.expectedLength == Length(expected)
    ensures result.CharMismatch? ==>
              && IsRope(received)
              && var r := ToRope(received).value;
              && Length(r) == Length(expected)
              && result.index < Length(r)
              && result.receivedChar == CharAt(result.index, r)
              && result.expectedChar == CharAt(result.index, expected)
              && result.receivedChar != result.expectedChar
              && ToString(r)[..result.index] == ToString(expected)[..result.index]
  {
    if !IsRope(received) {
      return NotARope;
    }
    var r := ToRope(received).value;
    var expectedLen := Length(expected);
    var len := Length(r);
    if expectedLen != len {
      CharAtDeterminesContent(r, expected);
      return LengthMismatch(len, expectedLen);
    }
    var i := 0;
    while i < len
      invariant 0 <= i <= len
      invariant forall j :: 0 <= j < i ==> CharAt(j, r) == CharAt(j, expected)
    {
      var chReceived := CharAt(i, r);
      var chExpected := CharAt(i, expected);
      if chReceived != chExpected {
        CharAtDeterminesContent(r, expected);
        PrefixAgreement(r, expected, i);
        return CharMismatch(i, chReceived, chExpected);
      }
      i := i + 1;
    }
    CharAtDeterminesContent(r, expected);
    return Pass;
  }

  /** Agreement of `CharAt` below `n` is agreement of the logical strings' first `n` characters. */
  lemma PrefixAgreement(a: Rope, b: Rope, n: nat)
    requires n <= Length(a) && n <= Length(b)
    ensures (forall j :: 0 <= j < n ==> CharAt(j, a) == CharAt(j, b)) ==>
              ToString(a)[..n] == ToString(b)[..n]
    ensures ToString(a)[..n] == ToString(b)[..n] ==>
              forall j :: 0 <= j < n ==> CharAt(j, a) == CharAt(j, b)
  {
    if forall j :: 0 <= j < n ==> CharAt(j, a) == CharAt(j, b) {
      forall j | 0 <= j < n
        ensures ToString(a)[..n][j] == ToString(b)[..n][j]
      {
        assert CharAt(j, a) == CharAt(j, b);
      }
    }
    if ToString(a)[..n] == ToString(b)[..n] {
      forall j | 0 <= j < n
        ensures CharAt(j, a) == CharAt(j, b)
      {
        assert ToString(a)[..n][j] == ToString(b)[..n][j];
      }
    }
  }
}
