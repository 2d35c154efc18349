/**
 The concrete cases the repository's behavioural tests pin down, each
 stated as a lemma about the model.
 */
module RopeScenarios {
  import opened Wrappers
  import opened Ropes
  import opened Validation

  /** The empty rope: a leaf of length 0, absorbed by concatenation, with no characters. */
  lemma EmptyRopeCases()
    ensures IsLeaf(Empty()) && !IsNode(Empty())
    ensures Length(Empty()) == 0
    ensures Concat(Empty(), Empty()) == Empty()
    ensures CharAt(0, Empty()) == None && CharAt(1, Empty()) == None
  {
  }

  /** Ropes built from "test string" and "1234", alone and concatenated. */
  lemma ShortRopeCases()
    ensures FromString("test string") != Empty()
    ensures Length(FromString("test string")) == |"test string"| == 11
    ensures Length(Concat(Empty(), FromString("test string"))) == Length(FromString("test string"))
    ensures Length(Concat(FromString("test string"), Empty())) == Length(FromString("test string"))
    ensures var big := Concat(FromString("test string"), FromString("1234"));
            && Length(big) == Length(FromString("test string")) + Length(FromString("1234")) == 15
            && CharAt(5, big) == Some('s')
            && CharAt(12, big) == Some('2')
  {
  }

  /** The shapes the boundary check must accept or reject. */
  lemma IsRopeCases(v: Value)
    ensures !IsRope(VNum)
    ensures !IsRope(VFun)
    ensures !IsRope(VObj(None, Some(ValueOf(Empty()))))
    ensures !IsRope(VObj(Some(ValueOf(Empty())), None))
    ensures !IsRope(VObj(Some(VNum), Some(ValueOf(Empty()))))
    ensures !IsRope(VObj(Some(ValueOf(Empty())), Some(VNum)))
    ensures IsRope(VStr("a string"))
    ensures !IsRope(VObj(Some(VNull), Some(v)))
    ensures !IsRope(VObj(Some(v), Some(VNull)))
  {
  }

  /** A string is a leaf; a `{left, right}` record of strings is a node. */
  lemma IsNodeCases()
    ensures !IsNode(FromString("test"))
    ensures var v := VObj(Some(VStr("something")), Some(VStr("else")));
            && IsRope(v)
            && IsNode(ToRope(v).value)
  {
  }
}
