/** 32-bit registers and the masks the driver applies to them: what setting, clearing and
    testing some bits does to the others. */
module Bits {

  datatype Reg = Reg(bits: bv32)

  const NONE: Reg := Reg(0)

  function Meet(v: bv32, m: bv32): bv32 { v & m }

  function Join(v: bv32, m: bv32): bv32 { v | m }

  function Less(v: bv32, m: bv32): bv32 { v & !m }

  function And(v: Reg, m: Reg): Reg { Reg(Meet(v.bits, m.bits)) }

  function Or(v: Reg, m: Reg): Reg { Reg(Join(v.bits, m.bits)) }

  function Without(v: Reg, m: Reg): Reg { Reg(Less(v.bits, m.bits)) }

  /** Some bit of the mask is set. */
  predicate Test(v: Reg, m: Reg) { And(v, m) != NONE }

  lemma DistributeRaw(v: bv32, m: bv32, n: bv32)
    ensures v & (m | n) == (v & m) | (v & n)
  {}

  lemma DistributeLeft(v: bv32, m: bv32, n: bv32)
    ensures Meet(v, Join(m, n)) == Join(Meet(v, m), Meet(v, n))
  {
    DistributeRaw(v, m, n);
  }

  lemma MeetCommutes(v: bv32, m: bv32)
    ensures Meet(v, m) == Meet(m, v)
  {}

  lemma DistributeRight(v: bv32, m: bv32, n: bv32)
    ensures Meet(Join(v, m), n) == Join(Meet(v, n), Meet(m, n))
  {
    hide Meet, Join;
    DistributeLeft(n, v, m);
    MeetCommutes(Join(v, m), n);
    MeetCommutes(v, n);
    MeetCommutes(m, n);
  }

  lemma LessMoves(v: bv32, m: bv32, n: bv32)
    ensures Meet(Less(v, m), n) == Meet(v, Less(n, m))
  {}

  lemma LessIsMeet(v: bv32, m: bv32)
    ensures Less(v, m) == Meet(v, !m)
  {}

  lemma JoinLess(v: bv32, m: bv32, n: bv32)
    ensures Less(Join(v, m), n) == Join(Less(v, n), Less(m, n))
  {
    hide Meet, Join, Less;
    DistributeRight(v, m, !n);
    LessIsMeet(Join(v, m), n);
    LessIsMeet(v, n);
    LessIsMeet(m, n);
  }

  lemma JoinZero(m: bv32, n: bv32)
    ensures Join(m, n) == 0 <==> m == 0 && n == 0
    ensures Join(m, 0) == m
  {}

  lemma LessNothing(n: bv32, m: bv32)
    requires Meet(m, n) == 0
    ensures Less(n, m) == n
  {}

  lemma EitherBit(v: Reg, m: Reg, n: Reg)
    ensures Test(v, Or(m, n)) <==> Test(v, m) || Test(v, n)
  {
    hide Meet, Join;
    DistributeLeft(v.bits, m.bits, n.bits);
    JoinZero(Meet(v.bits, m.bits), Meet(v.bits, n.bits));
  }

  lemma OtherBits(v: Reg, m: Reg, n: Reg)
    requires And(m, n) == NONE
    ensures And(Or(v, m), n) == And(v, n) && And(Without(v, m), n) == And(v, n)
  {
    hide Meet, Join, Less;
    DistributeRight(v.bits, m.bits, n.bits);
    LessMoves(v.bits, m.bits, n.bits);
    JoinZero(Meet(v.bits, n.bits), 0);
    LessNothing(n.bits, m.bits);
  }

  lemma OwnBits(v: Reg, m: Reg)
    ensures And(Or(v, m), m) == m && And(Without(v, m), m) == NONE
  {}

  lemma Within(v: Reg, m: Reg, n: Reg)
    requires And(m, n) == m
    ensures And(And(v, n), m) == And(v, m)
  {}

  /** Setting some bits and clearing others commute. */
  lemma Commute(v: Reg, m: Reg, n: Reg)
    requires And(n, m) == NONE
    ensures Or(Without(v, n), m) == Without(Or(v, m), n)
  {
    hide Meet, Join, Less;
    JoinLess(v.bits, m.bits, n.bits);
    LessNothing(m.bits, n.bits);
  }

  lemma TestOther(v: Reg, m: Reg, n: Reg)
    requires And(m, n) == NONE
    ensures Test(Or(v, m), n) == Test(v, n) && Test(Without(v, m), n) == Test(v, n)
  {
    hide And, Or, Without;
    OtherBits(v, m, n);
  }

  lemma TestOwn(v: Reg, m: Reg)
    requires m != NONE
    ensures Test(Or(v, m), m) && !Test(Without(v, m), m)
  {
    hide And, Or, Without;
    OwnBits(v, m);
  }

  lemma LessSwap(v: bv32, m: bv32, n: bv32)
    ensures Less(Less(v, m), n) == Less(Less(v, n), m)
  {}

  lemma MeetNothing(v: bv32)
    ensures Meet(v, 0) == 0
  {}

  lemma OutsideRaw(v: bv32, m: bv32, outer: bv32)
    requires Less(m, outer) == 0
    ensures Less(Join(v, m), outer) == Less(v, outer) && Less(Less(v, m), outer) == Less(v, outer)
  {
    hide Meet, Join, Less;
    JoinLess(v, m, outer);
    JoinZero(Less(v, outer), 0);
    LessSwap(v, m, outer);
    LessMoves(v, outer, m);
    MeetNothing(v);
    MeetCommutes(Less(v, outer), m);
    LessNothing(Less(v, outer), m);
  }

  /** Bits outside a mask do not notice changes inside it. */
  lemma OutsideBits(v: Reg, m: Reg, outer: Reg)
    requires Without(m, outer) == NONE
    ensures Without(Or(v, m), outer) == Without(v, outer) && Without(Without(v, m), outer) == Without(v, outer)
  {
    hide Join, Less;
    OutsideRaw(v.bits, m.bits, outer.bits);
  }
}
