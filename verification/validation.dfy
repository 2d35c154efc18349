/**
 Boundary validation of untrusted values. A small dynamic `Value` type
 stands for the JavaScript values a caller may hand in; `IsRope` decides
 whether such a value has the shape of a rope, and `ToRope` reads the rope
 back out of it.
 */
module Validation {
  import opened Wrappers
  import opened Ropes

  /**
   The runtime kinds the boundary distinguishes. A record's `left` or
   `right` is `None` when the field is missing; a field holding `null`
   is `Some(VNull)`.
   */
  datatype Value =
    | VNum
    | VFun
    | VNull
    | VStr(str: string)
    | VObj(left: Option<Value>, right: Option<Value>)

  /**
   A value is a rope when it is a string, or a record whose `left` and
   `right` fields are both present and are themselves ropes. Every other
   shape is rejected with `false`; nothing raises.
   */
  predicate IsRope(v: Value)
  {
    match v
    case VStr(_) => true
    case VObj(Some(l), Some(r)) => IsRope(l) && IsRope(r)
    case _ => false
  }

  /** How a rope looks as a runtime value: a leaf is its string, a node a `{left, right}` record. */
  function ValueOf(r: Rope): (v: Value)
    ensures IsRope(v)
  {
    match r
    case Leaf(s) => VStr(s)
    case Node(left, right) => VObj(Some(ValueOf(left)), Some(ValueOf(right)))
  }

  /**
   The typed reading of a validated value: `Some` exactly when the value
   passes `IsRope`, and then the rope whose runtime form is that very value.
   */
  function ToRope(v: Value): (r: Option<Rope>)
    ensures r.Some? <==> IsRope(v)
    ensures r.Some? ==> ValueOf(r.value) == v
  {
    match v
    case VStr(s) => Some(Leaf(s))
    case VObj(Some(l), Some(r)) =>
      (match (ToRope(l), ToRope(r))
       case (Some(lr), Some(rr)) => Some(Node(lr, rr))
       case _ => None)
    case _ => None
  }

  /** Reading back the runtime form of a rope yields that rope. */
  lemma {:induction false} ToRopeOfValueOf(r: Rope)
    ensures ToRope(ValueOf(r)) == Some(r)
  {
    match r
    case Leaf(s) =>
    case Node(left, right) =>
      ToRopeOfValueOf(left);
      ToRopeOfValueOf(right);
  }

  /** `IsRope` accepts exactly the runtime forms of ropes. */
  lemma IsRopeIffRuntimeForm(v: Value)
    ensures IsRope(v) <==> exists r :: ValueOf(r) == v
  {
    if IsRope(v) {
      assert ValueOf(ToRope(v).value) == v;
    }
  }
}
