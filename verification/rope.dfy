/**
 A rope is an immutable binary concatenation tree whose leaves hold string
 fragments. Every operation returns a new value; nothing is mutated.

 `ToString` is the abstraction function: the logical string a rope stands
 for, read off by an in-order traversal of its leaves. The contracts below
 state each operation's meaning in terms of that string.
 */
module Ropes {
  import opened Wrappers

  /** A rope is either a leaf holding a fragment or a node joining two ropes. */
  datatype Rope = Leaf(s: string) | Node(left: Rope, right: Rope)

  /** The logical string of a rope: its leaves' contents, left to right. */
  function ToString(r: Rope): string
  {
    match r
    case Leaf(s) => s
    case Node(left, right) => ToString(left) + ToString(right)
  }

  /** The canonical empty rope: a leaf holding no characters. */
  function Empty(): (r: Rope)
    ensures IsLeaf(r)
    ensures ToString(r) == ""
    ensures Length(r) == 0
    ensures forall i :: CharAt(i, r) == None
  {
    Leaf("")
  }

  /** A rope whose content is exactly `s`. */
  function FromString(s: string): (r: Rope)
    ensures ToString(r) == s
    ensures Length(r) == |s|
    ensures s != "" ==> r != Empty()
  {
    Leaf(s)
  }

  predicate IsLeaf(r: Rope)
  {
    r.Leaf?
  }

  predicate IsNode(r: Rope)
  {
    r.Node?
  }

  /** Every rope is exactly one of the two cases. */
  lemma ExactlyOneCase(r: Rope)
    ensures IsLeaf(r) != IsNode(r)
    ensures IsLeaf(r) <==> exists s :: r == FromString(s)
  {
    if IsLeaf(r) {
      assert r == FromString(r.s);
    }
  }

  /** Number of characters, recomputed by a full traversal. */
  function Length(r: Rope): (n: nat)
    ensures n == |ToString(r)|
  {
    match r
    case Leaf(s) => |s|
    case Node(left, right) => Length(left) + Length(right)
  }

  /**
   Joins two ropes. The empty rope is absorbed on either side, so no node
   ever wraps it; otherwise a new node is built without looking inside.
   */
  function Concat(a: Rope, b: Rope): (r: Rope)
    ensures ToString(r) == ToString(a) + ToString(b)
    ensures Length(r) == Length(a) + Length(b)
    ensures a == Empty() ==> r == b
    ensures b == Empty() ==> r == a
  {
    if a == Empty() then b
    else if b == Empty() then a
    else Node(a, b)
  }

  /**
   No node has the empty rope as a child. Ropes built only from `Empty`,
   `FromString` and `Concat` stay in this form, which keeps emptiness
   structurally canonical.
   */
  predicate Canonical(r: Rope)
  {
    match r
    case Leaf(_) => true
    case Node(left, right) =>
      left != Empty() && right != Empty() && Canonical(left) && Canonical(right)
  }

  /** `Concat` keeps canonical inputs canonical: it never wraps the empty rope in a node. */
  lemma ConcatPreservesCanonical(a: Rope, b: Rope)
    requires Canonical(a) && Canonical(b)
    ensures Canonical(Concat(a, b))
  {
  }

  /** In canonical form the empty rope is the only rope of length 0. */
  lemma {:induction false} CanonicalEmptyIffZeroLength(r: Rope)
    requires Canonical(r)
    ensures Length(r) == 0 <==> r == Empty()
  {
    match r
    case Leaf(s) =>
      if |s| == 0 {
        assert s == "";
      }
    case Node(left, right) =>
      CanonicalEmptyIffZeroLength(left);
      CanonicalEmptyIffZeroLength(right);
  }

  /**
   The character at index `i`, or `None` when `i` is negative or not below
   the length. At a node the index is routed by the left child's length:
   indices in [0, leftLen) go left, all others go right shifted by leftLen.
   */
  function CharAt(i: int, r: Rope): (c: Option<char>)
    ensures c == if 0 <= i < Length(r) then Some(ToString(r)[i]) else None
    decreases r
  {
    match r
    case Leaf(s) => if 0 <= i < |s| then Some(s[i]) else None
    case Node(left, right) =>
      var leftLen := Length(left);
      if 0 <= i < leftLen then CharAt(i, left) else CharAt(i - leftLen, right)
  }

  /** Two ropes are equivalent when they stand for the same string, whatever their shapes. */
  predicate Equivalent(a: Rope, b: Rope)
  {
    ToString(a) == ToString(b)
  }

  /**
   `Length` and `CharAt` together determine a rope's content: two ropes
   are equivalent exactly when they have the same length and agree at every
   index below it.
   */
  lemma CharAtDeterminesContent(a: Rope, b: Rope)
    ensures Equivalent(a, b) ==>
              && Length(a) == Length(b)
              && forall i :: 0 <= i < Length(a) ==> CharAt(i, a) == CharAt(i, b)
    ensures (&& Length(a) == Length(b)
             && forall i :: 0 <= i < Length(a) ==> CharAt(i, a) == CharAt(i, b)) ==> Equivalent(a, b)
  {
    if Length(a) == Length(b) && forall i :: 0 <= i < Length(a) ==> CharAt(i, a) == CharAt(i, b) {
      forall i | 0 <= i < Length(a)
        ensures ToString(a)[i] == ToString(b)[i]
      {
        assert CharAt(i, a) == CharAt(i, b);
      }
      assert ToString(a) == ToString(b);
    }
    if Equivalent(a, b) {
      assert Length(a) == Length(b);
      forall i | 0 <= i < Length(a)
        ensures CharAt(i, a) == CharAt(i, b)
      {
      }
      assert forall i :: 0 <= i < Length(a) ==> CharAt(i, a) == CharAt(i, b);
    }
  }
}
