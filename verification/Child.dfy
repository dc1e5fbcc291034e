/** The entry of one 512-frame child and its two transitions (src/child.c, src/child.h). */
module Children {
  import opened Base

  datatype Child = Child(free: nat, huge: bool)

  const FULL: Child := Child(CHILD_SIZE, false)
  const TAKEN: Child := Child(0, true)

  /** `(uint16_t)(1u << order)` */
  function Frames16(order: nat): nat
  {
    Pow2(order) % 0x1_0000
  }

  function ChildDec(c: Child, order: nat): Option<Child>
  {
    if !c.huge && c.free >= Frames16(order) then Some(Child(c.free - Frames16(order), false)) else None
  }

  function ChildInc(c: Child, order: nat): Option<Child>
  {
    if c.huge || (c.free + Frames16(order)) % 0x1_0000 > CHILD_SIZE then None
    else Some(Child((c.free + Frames16(order)) % 0x1_0000, false))
  }

  /** Below the order of a whole child nothing is truncated, and each transition undoes the other. */
  lemma {:induction false} ChildTransitions(c: Child, order: nat)
    requires order < HUGE_ORDER && c.free <= CHILD_SIZE
    ensures ChildDec(c, order) == if !c.huge &&
            c.free >= Pow2(order) then Some(Child(c.free - Pow2(order), false)) else None
    ensures ChildInc(c, order) == if !c.huge &&
            c.free + Pow2(order) <= CHILD_SIZE then Some(Child(c.free + Pow2(order), false)) else None
    ensures ChildDec(c, order).Some? ==> ChildInc(ChildDec(c, order).value, order) == Some(c)
    ensures ChildInc(c, order).Some? ==> ChildDec(ChildInc(c, order).value, order) == Some(c)
  {
    hide Pow2, ChildDec, ChildInc;
    SmallPow(order);
    var p := Pow2(order);
    assert p <= 256;
    ChildDecIs(c, order, p);
    ChildIncIs(c, order, p);
    if !c.huge && c.free >= p {
      ChildIncIs(Child(c.free - p, false), order, p);
    }
    if !c.huge && c.free + p <= CHILD_SIZE {
      ChildDecIs(Child(c.free + p, false), order, p);
    }
  }

  lemma ChildDecIs(c: Child, order: nat, p: nat)
    requires p == Pow2(order) <= 256 && c.free <= CHILD_SIZE
    ensures ChildDec(c, order) == if !c.huge && c.free >= p then Some(Child(c.free - p, false)) else None
  {
    hide Pow2;
  }

  lemma ChildIncIs(c: Child, order: nat, p: nat)
    requires p == Pow2(order) <= 256 && c.free <= CHILD_SIZE
    ensures ChildInc(c, order) == if !c.huge && c.free + p <= CHILD_SIZE then Some(Child(c.free + p, false)) else None
  {
    hide Pow2;
  }

  /** The copy of one entry that a callback of `atom_update` works on. */
  class ChildCell {
    var free: nat
    var huge: bool

    constructor (c: Child)
      ensures Value() == c
    {
      free, huge := c.free, c.huge;
    }

    function Value(): Child
      reads this
    {
      Child(free, huge)
    }

    method Inc(order: nat) returns (ok: bool)
      modifies this
      ensures ok <==> ChildInc(old(Value()), order).Some?
      ensures Value() == if ok then ChildInc(old(Value()), order).value else old(Value())
    {
      var numPages := Pow2(order) % 0x1_0000;
      if huge || (free + numPages) % 0x1_0000 > CHILD_SIZE {
        return false;
      }
      free := (free + numPages) % 0x1_0000;
      return true;
    }

    method Dec(order: nat) returns (ok: bool)
      modifies this
      ensures ok <==> ChildDec(old(Value()), order).Some?
      ensures Value() == if ok then ChildDec(old(Value()), order).value else old(Value())
    {
      var numPages := Pow2(order) % 0x1_0000;
      if !huge && free >= numPages {
        free := free - numPages;
        return true;
      }
      return false;
    }
  }
}
