/** The two-level software/firmware semaphore: several drivers and the firmware interleave
    single register accesses to SWSM and SW_FW_SYNC. */
module Semaphore {
  import opened Bits

  datatype Resource = Eeprom | Phy0 | Phy1 | Csr

  function Mask(r: Resource): Reg {
    match r
    case Eeprom => Reg(0x01)
    case Phy0 => Reg(0x02)
    case Phy1 => Reg(0x04)
    case Csr => Reg(0x08)
  }

  function FwMask(r: Resource): Reg {
    match r
    case Eeprom => Reg(0x01_0000)
    case Phy0 => Reg(0x02_0000)
    case Phy1 => Reg(0x04_0000)
    case Csr => Reg(0x08_0000)
  }

  // ----- SW_FW_SYNC: software bits in the low half, firmware bits in the high half -----

  const SW_HALF: Reg := Reg(0x0000_FFFF)
  const FW_HALF: Reg := Reg(0xFFFF_0000)

  predicate Has(v: Reg, r: Resource) { Test(v, Mask(r)) }

  predicate HasFw(v: Reg, r: Resource) { Test(v, FwMask(r)) }

  /** The test of the acquire routine. */
  predicate Busy(v: Reg, r: Resource) { Test(v, Or(FwMask(r), Mask(r))) }

  function SetSw(v: Reg, r: Resource): Reg { Or(v, Mask(r)) }

  function ClearSw(v: Reg, r: Resource): Reg { Without(v, Mask(r)) }

  function FwBits(v: Reg): Reg { And(v, FW_HALF) }

  function SwBits(v: Reg): Reg { And(v, SW_HALF) }

  lemma Masks(r: Resource, q: Resource)
    ensures And(Mask(r), FwMask(q)) == NONE && And(Mask(r), FW_HALF) == NONE && And(Mask(r), SW_HALF) == Mask(r)
    ensures r != q ==> And(Mask(r), Mask(q)) == NONE
    ensures Mask(r) != NONE
  {}

  lemma BusyBits(v: Reg, r: Resource)
    ensures Busy(v, r) <==> Has(v, r) || HasFw(v, r)
  {
    hide And, Or;
    EitherBit(v, FwMask(r), Mask(r));
  }

  /** Setting a resource's bit changes no other resource and no firmware bit. */
  lemma SetBits(v: Reg, r: Resource, q: Resource)
    ensures Has(SetSw(v, r), q) <==> q == r || Has(v, q)
    ensures HasFw(SetSw(v, r), q) == HasFw(v, q)
    ensures FwBits(SetSw(v, r)) == FwBits(v)
  {
    hide And, Or, Mask, FwMask;
    Masks(r, q);
    OwnBits(v, Mask(r));
    OtherBits(v, Mask(r), FwMask(q));
    OtherBits(v, Mask(r), FW_HALF);
    if q != r {
      OtherBits(v, Mask(r), Mask(q));
    }
  }

  lemma ClearBits(v: Reg, r: Resource, q: Resource)
    ensures Has(ClearSw(v, r), q) <==> q != r && Has(v, q)
    ensures HasFw(ClearSw(v, r), q) == HasFw(v, q)
    ensures FwBits(ClearSw(v, r)) == FwBits(v)
  {
    hide And, Or, Without, Mask, FwMask;
    Masks(r, q);
    OwnBits(v, Mask(r));
    OtherBits(v, Mask(r), FwMask(q));
    OtherBits(v, Mask(r), FW_HALF);
    if q != r {
      OtherBits(v, Mask(r), Mask(q));
    }
  }

  lemma SoftwareHalf(v: Reg, w: Reg, r: Resource)
    requires SwBits(v) == SwBits(w)
    ensures Has(v, r) == Has(w, r)
  {
    hide And, Mask, FwMask;
    Masks(r, r);
    Within(v, Mask(r), SW_HALF);
    Within(w, Mask(r), SW_HALF);
  }

  // ----- The machine -----

  datatype Goal = Acquire | Release

  datatype Why = Failed | Contended | Finished

  /** The next register access of a driver. */
  datatype Pc =
    | Idle
    | SmbiRead(goal: Goal, res: Resource)
    | SwesmbiRead(goal: Goal, res: Resource)
    | SwesmbiWrite(goal: Goal, res: Resource, smbi: bool)
    | SwesmbiCheck(goal: Goal, res: Resource)
    | SyncRead(goal: Goal, res: Resource)
    | SyncWrite(goal: Goal, res: Resource, value: Reg)
    | PutRead(why: Why, goal: Goal, res: Resource)
    | PutWrite(why: Why, goal: Goal, res: Resource)

  datatype Driver = Driver(pc: Pc, holds: set<Resource>)

  datatype Firmware = FwIdle | FwOwner | FwLoaded(value: Reg)

  /** `fwBits` is what the firmware last stored in its half of SW_FW_SYNC. */
  datatype State = State(smbi: bool, swesmbi: bool, sync: Reg, drivers: seq<Driver>, fw: Firmware, fwBits: Reg)

  datatype Label =
    | Begin(d: nat, goal: Goal, res: Resource)
    | Tick(d: nat, giveUp: bool)
    | FwTake
    | FwLoad
    | FwStore(value: Reg)
    | FwDrop

  /** Reading SWSM returns SMBI and sets it. */
  function ReadSwsm(s: State): State { s.(smbi := true) }

  /** Writing SWSM clears the bits written as 0; SWESMBI latches unless the firmware owns. */
  function WriteSwsm(s: State, smbi: bool, swesmbi: bool): State {
    s.(smbi := s.smbi && smbi, swesmbi := swesmbi && (s.swesmbi || s.fw == FwIdle))
  }

  function At(s: State, d: nat, pc: Pc): State
    requires d < |s.drivers|
  {
    s.(drivers := s.drivers[d := s.drivers[d].(pc := pc)])
  }

  function Holding(s: State, d: nat, pc: Pc, holds: set<Resource>): State
    requires d < |s.drivers|
  {
    s.(drivers := s.drivers[d := Driver(pc, holds)])
  }

  /** One register access of driver `d`; `giveUp` says that the enclosing retry loop has used
      up its attempts. */
  function Access(s: State, d: nat, giveUp: bool): State
    requires d < |s.drivers|
  {
    match s.drivers[d].pc
    case Idle => s
    case SmbiRead(goal, res) =>
      if !s.smbi then At(ReadSwsm(s), d, SwesmbiRead(goal, res))
      else At(ReadSwsm(s), d, if giveUp && goal == Acquire then Idle else SmbiRead(goal, res))
    case SwesmbiRead(goal, res) =>
      At(ReadSwsm(s), d, SwesmbiWrite(goal, res, s.smbi))
    case SwesmbiWrite(goal, res, smbi) =>
      At(WriteSwsm(s, smbi, true), d, SwesmbiCheck(goal, res))
    case SwesmbiCheck(goal, res) =>
      At(ReadSwsm(s), d,
         if s.swesmbi then SyncRead(goal, res)
         else if giveUp then PutRead(Failed, goal, res)
         else SwesmbiRead(goal, res))
    case SyncRead(goal, res) =>
      At(s, d, if goal == Acquire && Busy(s.sync, res) then PutRead(Contended, goal, res)
               else SyncWrite(goal, res, s.sync))
    case SyncWrite(goal, res, value) =>
      (match goal
       case Acquire =>
         Holding(s.(sync := SetSw(value, res)), d, PutRead(Finished, goal, res), s.drivers[d].holds + {res})
       case Release =>
         Holding(s.(sync := ClearSw(value, res)), d, PutRead(Finished, goal, res), s.drivers[d].holds - {res}))
    case PutRead(why, goal, res) =>
      At(ReadSwsm(s), d, PutWrite(why, goal, res))
    case PutWrite(why, goal, res) =>
      At(WriteSwsm(s, false, false), d,
         match why
         case Finished => Idle
         case Contended => if giveUp then Idle else SmbiRead(goal, res)
         case Failed => if goal == Acquire then Idle else SmbiRead(goal, res))
  }

  ghost predicate Step(s: State, l: Label, s': State) {
    match l
    case Begin(d, goal, res) =>
      && d < |s.drivers| && s.drivers[d].pc == Idle
      && (goal == Release ==> res in s.drivers[d].holds)
      && s' == At(s, d, SmbiRead(goal, res))
    case Tick(d, giveUp) =>
      d < |s.drivers| && s' == Access(s, d, giveUp)
    case FwTake =>
      s.fw == FwIdle && !s.swesmbi && s' == s.(fw := FwOwner)
    case FwLoad =>
      s.fw == FwOwner && s' == s.(fw := FwLoaded(s.sync))
    case FwStore(value) =>
      // The firmware changes its own half only, and takes no resource that is in use.
      && s.fw.FwLoaded?
      && SwBits(value) == SwBits(s.fw.value)
      && (forall r :: HasFw(value, r) && !HasFw(s.fw.value, r) ==> !Has(s.fw.value, r))
      && s' == s.(sync := value, fw := FwOwner, fwBits := FwBits(value))
    case FwDrop =>
      s.fw == FwOwner && s' == s.(fw := FwIdle)
  }

  ghost predicate Init(s: State) {
    && !s.smbi && !s.swesmbi && s.sync == NONE && s.fw == FwIdle && s.fwBits == NONE
    && (forall d :: 0 <= d < |s.drivers| ==> s.drivers[d] == Driver(Idle, {}))
  }

  // ----- Invariant -----

  /** The driver owns SWSM: it is past the read that found SMBI clear. */
  predicate Owns(p: Driver) { !p.pc.Idle? && !p.pc.SmbiRead? }

  predicate Putting(p: Driver) { p.pc.PutRead? || p.pc.PutWrite? }

  /** The driver owns both bits and may touch SW_FW_SYNC. */
  predicate Latched(p: Driver) {
    p.pc.SyncRead? || p.pc.SyncWrite? || (Putting(p) && p.pc.why != Failed)
  }

  ghost predicate SomeOwner(s: State) {
    exists d :: 0 <= d < |s.drivers| && Owns(s.drivers[d])
  }

  ghost predicate AtMostOneOwner(s: State) {
    forall d, e :: 0 <= d < |s.drivers| && 0 <= e < |s.drivers| && Owns(s.drivers[d]) && Owns(s.drivers[e]) ==> d == e
  }

  ghost predicate Ownership(s: State) {
    && AtMostOneOwner(s)
    && (s.smbi <==> SomeOwner(s))
    && (s.swesmbi ==> SomeOwner(s) && s.fw == FwIdle)
  }

  /** A pending release is for a resource the driver still holds. */
  predicate ReleasePending(p: Driver) {
    && p.pc != Idle && p.pc.goal == Release
    && (Putting(p) ==> p.pc.why == Failed)
  }

  predicate DriverOk(swesmbi: bool, sync: Reg, p: Driver) {
    && (Latched(p) ==> swesmbi)
    && (p.pc.SwesmbiWrite? ==> p.pc.smbi)
    && (p.pc.SyncWrite? ==> p.pc.value == sync)
    && (p.pc.SyncWrite? && p.pc.goal == Acquire ==> !Busy(sync, p.pc.res))
    && (ReleasePending(p) ==> p.pc.res in p.holds)
    && (Putting(p) && p.pc.why == Contended ==> p.pc.goal == Acquire)
    && (Putting(p) && p.pc.why == Finished ==> (Has(sync, p.pc.res) <==> p.pc.goal == Acquire))
  }

  ghost predicate DriversOk(s: State) {
    forall d :: 0 <= d < |s.drivers| ==> DriverOk(s.swesmbi, s.sync, s.drivers[d])
  }

  ghost predicate Exclusive(s: State) {
    forall d, e, r ::
      (0 <= d < |s.drivers| && 0 <= e < |s.drivers| && r in s.drivers[d].holds && r in s.drivers[e].holds) ==> d == e
  }

  ghost predicate HeldBySome(s: State, r: Resource) {
    exists d :: 0 <= d < |s.drivers| && r in s.drivers[d].holds
  }

  /** A software bit is set exactly when a driver holds the resource, and then the firmware does not. */
  ghost predicate BitsTrackHolders(s: State) {
    forall r :: (Has(s.sync, r) <==> HeldBySome(s, r)) && !(Has(s.sync, r) && HasFw(s.sync, r))
  }

  ghost predicate FirmwareOk(s: State) {
    FwBits(s.sync) == s.fwBits && (s.fw.FwLoaded? ==> s.fw.value == s.sync)
  }

  ghost predicate Inv(s: State) {
    Ownership(s) && DriversOk(s) && Exclusive(s) && BitsTrackHolders(s) && FirmwareOk(s)
  }

  // ----- Every step keeps the invariant -----

  lemma InitInv(s: State)
    requires Init(s)
    ensures Inv(s)
  {
    forall r: Resource ensures !Has(s.sync, r) {}
  }

  /** What a step by driver `d` may have changed. */
  predicate OnlyDriver(s: State, s': State, d: nat)
    requires d < |s.drivers|
  {
    && |s'.drivers| == |s.drivers|
    && (forall e :: 0 <= e < |s.drivers| && e != d ==> s'.drivers[e] == s.drivers[e])
    && s'.fw == s.fw && s'.fwBits == s.fwBits
  }

  /** A step that keeps SW_FW_SYNC and the holdings concerns ownership only. */
  lemma SyncUntouched(s: State, s': State, d: nat)
    requires Inv(s) && d < |s.drivers| && OnlyDriver(s, s', d)
    requires s'.sync == s.sync && s'.drivers[d].holds == s.drivers[d].holds
    ensures Exclusive(s') && BitsTrackHolders(s') && FirmwareOk(s')
  {
    forall e | 0 <= e < |s.drivers| ensures s'.drivers[e].holds == s.drivers[e].holds {}
    forall r ensures HeldBySome(s', r) == HeldBySome(s, r) {
      if HeldBySome(s, r) {
        var e :| 0 <= e < |s.drivers| && r in s.drivers[e].holds;
        assert r in s'.drivers[e].holds;
      }
    }
  }

  /** Only the owner can be between its SWSM reads and writes, so it may change SWSM and
      SW_FW_SYNC without upsetting the others. */
  lemma OthersOk(s: State, s': State, d: nat)
    requires Inv(s) && d < |s.drivers| && OnlyDriver(s, s', d)
    requires Owns(s.drivers[d]) || (s'.swesmbi == s.swesmbi && s'.sync == s.sync)
    requires DriverOk(s'.swesmbi, s'.sync, s'.drivers[d])
    ensures DriversOk(s')
  {
    forall e | 0 <= e < |s'.drivers| ensures DriverOk(s'.swesmbi, s'.sync, s'.drivers[e]) {
      if e != d {
        assert DriverOk(s.swesmbi, s.sync, s.drivers[e]);
        assert Owns(s.drivers[d]) ==> !Owns(s.drivers[e]);
      }
    }
  }

  lemma OwnerRemains(s: State, s': State, d: nat)
    requires Inv(s) && d < |s.drivers| && OnlyDriver(s, s', d)
    requires Owns(s.drivers[d]) && Owns(s'.drivers[d]) && s'.smbi
    requires s'.swesmbi ==> s.fw == FwIdle
    ensures Ownership(s')
  {
    forall e | 0 <= e < |s.drivers| && e != d ensures !Owns(s'.drivers[e]) {}
  }

  lemma NobodyElse(s: State, s': State, d: nat)
    requires Inv(s) && d < |s.drivers| && OnlyDriver(s, s', d) && Owns(s.drivers[d])
    requires !Owns(s'.drivers[d]) && !s'.smbi && !s'.swesmbi
    ensures Ownership(s')
  {
    forall e | 0 <= e < |s.drivers| ensures !Owns(s'.drivers[e]) {}
  }

  /** Beginning an operation, or polling SMBI. */
  lemma OutsiderKeeps(s: State, s': State, d: nat)
    requires Inv(s) && d < |s.drivers| && OnlyDriver(s, s', d)
    requires !Owns(s.drivers[d]) && s'.sync == s.sync && s'.swesmbi == s.swesmbi
    requires s'.drivers[d].holds == s.drivers[d].holds
    requires DriverOk(s'.swesmbi, s'.sync, s'.drivers[d])
    requires if Owns(s'.drivers[d]) then !s.smbi && s'.smbi else s'.smbi == s.smbi
    ensures Inv(s')
  {
    SyncUntouched(s, s', d);
    OthersOk(s, s', d);
    if Owns(s'.drivers[d]) {
      forall e | 0 <= e < |s.drivers| ensures !Owns(s.drivers[e]) {}
    } else if SomeOwner(s) {
      var o :| 0 <= o < |s.drivers| && Owns(s.drivers[o]);
      assert Owns(s'.drivers[o]);
    }
  }

  lemma BeginKeeps(s: State, d: nat, goal: Goal, res: Resource)
    requires Inv(s) && d < |s.drivers| && s.drivers[d].pc == Idle
    requires goal == Release ==> res in s.drivers[d].holds
    ensures Inv(At(s, d, SmbiRead(goal, res)))
  {
    OutsiderKeeps(s, At(s, d, SmbiRead(goal, res)), d);
  }

  lemma PollLocally(s: State, d: nat, giveUp: bool)
    requires d < |s.drivers| && s.drivers[d].pc.SmbiRead? && DriverOk(s.swesmbi, s.sync, s.drivers[d])
    ensures var s' := Access(s, d, giveUp);
      && OnlyDriver(s, s', d) && s'.sync == s.sync && s'.swesmbi == s.swesmbi
      && s'.drivers[d].holds == s.drivers[d].holds
      && DriverOk(s'.swesmbi, s'.sync, s'.drivers[d])
      && (if Owns(s'.drivers[d]) then !s.smbi && s'.smbi else s'.smbi == s.smbi)
  {
    hide Busy;
  }

  lemma PollKeeps(s: State, d: nat, giveUp: bool)
    requires Inv(s) && d < |s.drivers| && s.drivers[d].pc.SmbiRead?
    ensures Inv(Access(s, d, giveUp))
  {
    hide Access;
    PollLocally(s, d, giveUp);
    OutsiderKeeps(s, Access(s, d, giveUp), d);
  }

  /** The owner's reads and writes of SWSM, and its read of SW_FW_SYNC: what they do to the
      owner itself. */
  lemma OwnerLocally(s: State, d: nat, giveUp: bool)
    requires d < |s.drivers| && Owns(s.drivers[d]) && !s.drivers[d].pc.SyncWrite?
    requires DriverOk(s.swesmbi, s.sync, s.drivers[d]) && s.smbi && (s.swesmbi ==> s.fw == FwIdle)
    ensures var s' := Access(s, d, giveUp);
      && OnlyDriver(s, s', d) && s'.sync == s.sync
      && s'.drivers[d].holds == s.drivers[d].holds
      && DriverOk(s'.swesmbi, s'.sync, s'.drivers[d])
      && (if Owns(s'.drivers[d]) then s'.smbi && (s'.swesmbi ==> s.fw == FwIdle) else !s'.smbi && !s'.swesmbi)
  {
    hide Busy;
    match s.drivers[d].pc
    case SwesmbiRead(_, _) =>
    case SwesmbiWrite(_, _, _) =>
    case SwesmbiCheck(_, _) =>
    case SyncRead(_, _) =>
    case PutRead(_, _, _) =>
    case PutWrite(_, _, _) =>
  }

  lemma OwnerKeeps(s: State, d: nat, giveUp: bool)
    requires Inv(s) && d < |s.drivers| && Owns(s.drivers[d]) && !s.drivers[d].pc.SyncWrite?
    ensures Inv(Access(s, d, giveUp))
  {
    hide Access, DriverOk;
    var s' := Access(s, d, giveUp);
    OwnerLocally(s, d, giveUp);
    SyncUntouched(s, s', d);
    OthersOk(s, s', d);
    if Owns(s'.drivers[d]) {
      OwnerRemains(s, s', d);
    } else {
      NobodyElse(s, s', d);
    }
  }

  lemma GrantKeeps(s: State, d: nat, giveUp: bool)
    requires Inv(s) && d < |s.drivers| && s.drivers[d].pc.SyncWrite? && s.drivers[d].pc.goal == Acquire
    ensures Inv(Access(s, d, giveUp))
  {
    hide Busy, Has, HasFw, SetSw, ClearSw, FwBits;
    var s', r := Access(s, d, giveUp), s.drivers[d].pc.res;
    assert DriverOk(s.swesmbi, s.sync, s.drivers[d]);
    BusyBits(s.sync, r);
    assert !HeldBySome(s, r);
    forall q ensures (Has(s'.sync, q) <==> HeldBySome(s', q)) && !(Has(s'.sync, q) && HasFw(s'.sync, q)) {
      SetBits(s.sync, r, q);
      if q == r {
        assert r in s'.drivers[d].holds;
      } else if HeldBySome(s, q) {
        var e :| 0 <= e < |s.drivers| && q in s.drivers[e].holds;
        assert q in s'.drivers[e].holds;
      }
    }
    SetBits(s.sync, r, r);
    OthersOk(s, s', d);
    OwnerRemains(s, s', d);
  }

  lemma DropKeeps(s: State, d: nat, giveUp: bool)
    requires Inv(s) && d < |s.drivers| && s.drivers[d].pc.SyncWrite? && s.drivers[d].pc.goal == Release
    ensures Inv(Access(s, d, giveUp))
  {
    hide Busy, Has, HasFw, SetSw, ClearSw, FwBits;
    var s', r := Access(s, d, giveUp), s.drivers[d].pc.res;
    assert DriverOk(s.swesmbi, s.sync, s.drivers[d]);
    forall q ensures (Has(s'.sync, q) <==> HeldBySome(s', q)) && !(Has(s'.sync, q) && HasFw(s'.sync, q)) {
      ClearBits(s.sync, r, q);
      if q != r && HeldBySome(s, q) {
        var e :| 0 <= e < |s.drivers| && q in s.drivers[e].holds;
        assert q in s'.drivers[e].holds;
      }
    }
    ClearBits(s.sync, r, r);
    OthersOk(s, s', d);
    OwnerRemains(s, s', d);
  }

  lemma TickKeeps(s: State, d: nat, giveUp: bool)
    requires Inv(s) && d < |s.drivers|
    ensures Inv(Access(s, d, giveUp))
  {
    match s.drivers[d].pc
    case Idle =>
    case SmbiRead(_, _) => PollKeeps(s, d, giveUp);
    case SyncWrite(goal, _, _) =>
      if goal == Acquire { GrantKeeps(s, d, giveUp); } else { DropKeeps(s, d, giveUp); }
    case _ => OwnerKeeps(s, d, giveUp);
  }

  lemma FirmwareKeeps(s: State, l: Label, s': State)
    requires Inv(s) && Step(s, l, s') && (l.FwTake? || l.FwLoad? || l.FwDrop?)
    ensures Inv(s')
  {
    assert s'.drivers == s.drivers;
    assert SomeOwner(s') == SomeOwner(s);
    forall r ensures HeldBySome(s', r) == HeldBySome(s, r) {}
  }

  /** While the firmware owns SW_FW_SYNC no driver is latched, so its store loses no update. */
  lemma FirmwareStoreKeeps(s: State, value: Reg, s': State)
    requires Inv(s) && Step(s, FwStore(value), s')
    ensures Inv(s') && SwBits(s'.sync) == SwBits(s.sync)
  {
    assert s'.drivers == s.drivers;
    assert SomeOwner(s') == SomeOwner(s);
    forall r ensures HeldBySome(s', r) == HeldBySome(s, r) && Has(s'.sync, r) == Has(s.sync, r) {
      SoftwareHalf(s'.sync, s.sync, r);
    }
    forall d | 0 <= d < |s.drivers| ensures DriverOk(s'.swesmbi, s'.sync, s'.drivers[d]) {
      assert DriverOk(s.swesmbi, s.sync, s.drivers[d]);
    }
  }

  /** The firmware is never shut out for good: with SWESMBI clear it takes SW_FW_SYNC, stores what
      it may store, and leaves. */
  lemma FirmwareAlone(s: State, value: Reg)
    requires s.fw == FwIdle && !s.swesmbi && SwBits(value) == SwBits(s.sync)
    requires forall r :: HasFw(value, r) && !HasFw(s.sync, r) ==> !Has(s.sync, r)
    ensures exists s1, s2, s3, s4 ::
              && Step(s, FwTake, s1) && Step(s1, FwLoad, s2) && Step(s2, FwStore(value), s3) && Step(s3, FwDrop, s4)
              && s4 == s.(sync := value, fwBits := FwBits(value))
  {
    hide Has, HasFw, SwBits, FwBits;
    var s1 := s.(fw := FwOwner);
    var s2 := s1.(fw := FwLoaded(s.sync));
    var s3 := s2.(sync := value, fw := FwOwner, fwBits := FwBits(value));
    var s4 := s3.(fw := FwIdle);
    assert Step(s, FwTake, s1) && Step(s1, FwLoad, s2) && Step(s2, FwStore(value), s3) && Step(s3, FwDrop, s4);
  }

  lemma StepKeeps(s: State, l: Label, s': State)
    requires Inv(s) && Step(s, l, s')
    ensures Inv(s')
  {
    match l
    case Begin(d, goal, res) => BeginKeeps(s, d, goal, res);
    case Tick(d, giveUp) => TickKeeps(s, d, giveUp);
    case FwStore(value) => FirmwareStoreKeeps(s, value, s');
    case _ => FirmwareKeeps(s, l, s');
  }

  // ----- Main results -----

  ghost predicate IsRun(run: seq<State>, labels: seq<Label>) {
    && |run| == |labels| + 1
    && Init(run[0])
    && forall i :: 0 <= i < |labels| ==> Step(run[i], labels[i], run[i + 1])
  }

  lemma {:induction false} RunKeeps(run: seq<State>, labels: seq<Label>, i: nat)
    requires IsRun(run, labels) && i < |run|
    ensures Inv(run[i])
  {
    if i == 0 {
      InitInv(run[0]);
    } else {
      RunKeeps(run, labels, i - 1);
      assert Step(run[i - 1], labels[i - 1], run[i]);
      StepKeeps(run[i - 1], labels[i - 1], run[i]);
    }
  }

  /** Over every run of any number of drivers and the firmware: one owner of SWSM at most, one
      holder of a resource at most, and the register says exactly who is busy. */
  lemma MutualExclusion(run: seq<State>, labels: seq<Label>, i: nat)
    requires IsRun(run, labels) && i < |run|
    ensures AtMostOneOwner(run[i]) && (run[i].smbi <==> SomeOwner(run[i]))
    ensures Exclusive(run[i])
    ensures forall r :: Has(run[i].sync, r) <==> exists d :: 0 <= d < |run[i].drivers| && r in run[i].drivers[d].holds
    ensures forall r :: Has(run[i].sync, r) ==> !HasFw(run[i].sync, r)
    ensures FwBits(run[i].sync) == run[i].fwBits
  {
    RunKeeps(run, labels, i);
    forall r ensures Has(run[i].sync, r) <==> exists d :: 0 <= d < |run[i].drivers| && r in run[i].drivers[d].holds {
      assert Has(run[i].sync, r) <==> HeldBySome(run[i], r);
    }
  }

  /** No update of SW_FW_SYNC is lost: a driver's access changes the bit of the resource it takes
      or drops and no other bit, and only when its write goes out. */
  lemma NoLostUpdate(s: State, d: nat, giveUp: bool)
    requires Inv(s) && d < |s.drivers|
    ensures var p, s' := s.drivers[d], Access(s, d, giveUp);
      && FwBits(s'.sync) == FwBits(s.sync)
      && (forall q :: Has(s'.sync, q) ==
            (if p.pc.SyncWrite? && q == p.pc.res then p.pc.goal == Acquire else Has(s.sync, q)))
      && (forall q :: HasFw(s'.sync, q) == HasFw(s.sync, q))
  {
    var p, s' := s.drivers[d], Access(s, d, giveUp);
    assert DriverOk(s.swesmbi, s.sync, p);
    if p.pc.SyncWrite? {
      forall q
        ensures Has(s'.sync, q) == (if q == p.pc.res then p.pc.goal == Acquire else Has(s.sync, q))
        ensures HasFw(s'.sync, q) == HasFw(s.sync, q) && FwBits(s'.sync) == FwBits(s.sync)
      {
        SetBits(s.sync, p.pc.res, q);
        ClearBits(s.sync, p.pc.res, q);
      }
      assert FwBits(s'.sync) == FwBits(s.sync) by { SetBits(s.sync, p.pc.res, Csr); ClearBits(s.sync, p.pc.res, Csr); }
    }
  }

  /** A resource is granted only while neither a driver nor the firmware has it. */
  lemma GrantedWhenFree(s: State, d: nat, giveUp: bool)
    requires Inv(s) && d < |s.drivers|
    requires exists r :: r in Access(s, d, giveUp).drivers[d].holds && r !in s.drivers[d].holds
    ensures s.drivers[d].pc.SyncWrite? && s.drivers[d].pc.goal == Acquire
    ensures !HeldBySome(s, s.drivers[d].pc.res) && !HasFw(s.sync, s.drivers[d].pc.res)
  {
    assert DriverOk(s.swesmbi, s.sync, s.drivers[d]);
    if s.drivers[d].pc.SyncWrite? {
      BusyBits(s.sync, s.drivers[d].pc.res);
    }
  }

  // ----- How an operation ends -----

  /** What an operation is for. */
  function Outcome(goal: Goal, res: Resource, holds: set<Resource>): set<Resource> {
    if goal == Acquire then holds + {res} else holds - {res}
  }

  /** A driver in the middle of an operation it began with `holds`; `late` says that one of its
      retry loops has used up its attempts. */
  predicate Underway(p: Driver, goal: Goal, res: Resource, holds: set<Resource>, late: bool) {
    && p.pc != Idle && p.pc.goal == goal && p.pc.res == res
    && p.holds == (if Putting(p) && p.pc.why == Finished then Outcome(goal, res, holds) else holds)
    && (Putting(p) && p.pc.why == Failed ==> late)
  }

  /** An operation that is over did what it is for.  Only an acquisition may end otherwise, and
      only late. */
  predicate Over(p: Driver, goal: Goal, res: Resource, holds: set<Resource>, late: bool) {
    && p.pc == Idle
    && (p.holds == Outcome(goal, res, holds) || (goal == Acquire && late && p.holds == holds))
  }

  lemma UnderwayTick(s: State, d: nat, giveUp: bool, goal: Goal, res: Resource, holds: set<Resource>, late: bool)
    requires d < |s.drivers| && DriverOk(s.swesmbi, s.sync, s.drivers[d])
    requires Underway(s.drivers[d], goal, res, holds, late) && (giveUp ==> late)
    ensures |Access(s, d, giveUp).drivers| == |s.drivers|
    ensures var p := Access(s, d, giveUp).drivers[d];
      Underway(p, goal, res, holds, late) || Over(p, goal, res, holds, late)
  {
    hide Busy, Has, SetSw, ClearSw;
    match s.drivers[d].pc
    case SyncWrite(_, _, _) =>
    case PutWrite(_, _, _) =>
    case _ =>
  }

  lemma UnderwayStep(s: State, l: Label, s': State, d: nat, goal: Goal, res: Resource, holds: set<Resource>, late: bool)
    requires Inv(s) && Step(s, l, s') && d < |s.drivers| && Underway(s.drivers[d], goal, res, holds, late)
    ensures d < |s'.drivers|
    ensures var p, late' := s'.drivers[d], late || l == Tick(d, true);
      Underway(p, goal, res, holds, late') || Over(p, goal, res, holds, late')
  {
    hide Access, DriverOk, Has, HasFw;
    if l.Tick? && l.d == d {
      UnderwayTick(s, d, l.giveUp, goal, res, holds, late || l == Tick(d, true));
    } else {
      OthersLeave(s, l, s', d);
    }
  }

  lemma OthersLeave(s: State, l: Label, s': State, d: nat)
    requires Step(s, l, s') && d < |s.drivers|
    requires !((l.Tick? || l.Begin?) && l.d == d)
    ensures |s'.drivers| == |s.drivers| && s'.drivers[d] == s.drivers[d]
  {
    hide Busy, SetSw, ClearSw, Has, HasFw;
  }

  /** Whether a retry loop of driver `d` has used up its attempts in a run, from label `i` to label `k`. */
  ghost predicate Late(labels: seq<Label>, d: nat, i: nat, k: nat) {
    exists m :: i <= m < k && m < |labels| && labels[m] == Tick(d, true)
  }

  lemma {:induction false} UnderwayRun(run: seq<State>, labels: seq<Label>, i: nat, k: nat, d: nat, goal: Goal,
          res: Resource)
    requires IsRun(run, labels) && i < k < |run| && labels[i] == Begin(d, goal, res) && d < |run[i].drivers|
    requires forall m :: i < m < k ==> d < |run[m].drivers| && run[m].drivers[d].pc != Idle
    ensures d < |run[k].drivers|
    ensures var p, h := run[k].drivers[d], run[i].drivers[d].holds;
      Underway(p, goal, res, h, Late(labels, d, i, k)) || Over(p, goal, res, h, Late(labels, d, i, k))
  {
    hide Inv, Step;
    var h := run[i].drivers[d].holds;
    RunKeeps(run, labels, k - 1);
    assert Step(run[k - 1], labels[k - 1], run[k]);
    if k == i + 1 {
      BeginsUnderway(run[i], d, goal, res, run[k], Late(labels, d, i, k));
    } else {
      UnderwayRun(run, labels, i, k - 1, d, goal, res);
      UnderwayStep(run[k - 1], labels[k - 1], run[k], d, goal, res, h, Late(labels, d, i, k - 1));
      if labels[k - 1] == Tick(d, true) { assert Late(labels, d, i, k); }
      LateLonger(labels, d, i, k);
    }
  }

  lemma LateLonger(labels: seq<Label>, d: nat, i: nat, k: nat)
    requires 0 < k <= |labels| && i < k
    ensures Late(labels, d, i, k) <==> Late(labels, d, i, k - 1) || labels[k - 1] == Tick(d, true)
  {
  }

  lemma BeginsUnderway(s: State, d: nat, goal: Goal, res: Resource, s': State, late: bool)
    requires Step(s, Begin(d, goal, res), s')
    ensures d < |s'.drivers| && Underway(s'.drivers[d], goal, res, s.drivers[d].holds, late)
  {
  }

  /** Over every run, an operation that a driver began and came back from has done what it is for:
      a release ends only without the resource, however often it has run out of attempts, and an
      acquisition ends without the resource only if it has run out of attempts.  No other
      holding of the driver has changed. */
  lemma OperationEnds(run: seq<State>, labels: seq<Label>, i: nat, k: nat, d: nat, goal: Goal, res: Resource)
    requires IsRun(run, labels) && i < k < |run| && labels[i] == Begin(d, goal, res)
    requires d < |run[i].drivers| && d < |run[k].drivers| && run[k].drivers[d].pc == Idle
    requires forall m :: i < m < k ==> d < |run[m].drivers| && run[m].drivers[d].pc != Idle
    ensures goal == Release ==> run[k].drivers[d].holds == run[i].drivers[d].holds - {res}
    ensures goal == Acquire ==>
              || run[k].drivers[d].holds == run[i].drivers[d].holds + {res}
              || (run[k].drivers[d].holds == run[i].drivers[d].holds
                  && exists m :: i <= m < k && labels[m] == Tick(d, true))
  {
    UnderwayRun(run, labels, i, k, d, goal, res);
  }

  /** From any reachable state: the access by which a driver comes back from a release leaves it
      without the resource, and the register with the bit clear. */
  lemma ReleaseEnds(s: State, d: nat, giveUp: bool)
    requires Inv(s) && d < |s.drivers| && s.drivers[d].pc != Idle && s.drivers[d].pc.goal == Release
    requires Access(s, d, giveUp).drivers[d].pc == Idle
    ensures var res, s' := s.drivers[d].pc.res, Access(s, d, giveUp);
      res !in s'.drivers[d].holds && !Has(s'.sync, res)
  {
    hide Has, Busy, SetSw, ClearSw, HasFw;
    assert DriverOk(s.swesmbi, s.sync, s.drivers[d]);
    assert Has(s.sync, s.drivers[d].pc.res) <==> HeldBySome(s, s.drivers[d].pc.res);
  }

  /** `n` accesses of driver `d`, undisturbed. */
  function Alone(s: State, d: nat, n: nat): State
    requires d < |s.drivers|
    decreases n
  {
    if n == 0 then s else Alone(Access(s, d, false), d, n - 1)
  }

  /** The protocol is not safe by refusing: with SWSM free, the firmware away and the resource
      free, a driver left alone has the resource, and has given SWSM back, after eight accesses. */
  lemma {:induction false} AloneSucceeds(s: State, d: nat, res: Resource)
    requires d < |s.drivers| && s.drivers[d].pc == Idle
    requires !s.smbi && !s.swesmbi && s.fw == FwIdle && !Busy(s.sync, res)
    ensures var s' := Alone(At(s, d, SmbiRead(Acquire, res)), d, 8);
      && s'.drivers == s.drivers[d := Driver(Idle, s.drivers[d].holds + {res})]
      && !s'.smbi && !s'.swesmbi && s'.sync == SetSw(s.sync, res)
  {
    var s0 := At(s, d, SmbiRead(Acquire, res));
    var s1 := Access(s0, d, false);
    var s2 := Access(s1, d, false);
    var s3 := Access(s2, d, false);
    var s4 := Access(s3, d, false);
    var s5 := Access(s4, d, false);
    var s6 := Access(s5, d, false);
    var s7 := Access(s6, d, false);
    var s8 := Access(s7, d, false);
    assert s4.drivers[d].pc == SyncRead(Acquire, res);
    assert s6.drivers[d] == Driver(PutRead(Finished, Acquire, res), s.drivers[d].holds + {res});
    assert Alone(s0, d, 8) == Alone(s4, d, 4);
    assert Alone(s4, d, 4) == s8;
  }

  /** Nor is anything kept for good: with SWSM free and the firmware away, a driver left alone has
      dropped the resource, and has given SWSM back, after eight accesses.  The register then
      differs in the bit of that resource only. */
  lemma {:induction false} AloneReleases(s: State, d: nat, res: Resource)
    requires d < |s.drivers| && s.drivers[d].pc == Idle && res in s.drivers[d].holds
    requires !s.smbi && !s.swesmbi && s.fw == FwIdle
    ensures var s' := Alone(At(s, d, SmbiRead(Release, res)), d, 8);
      && s'.drivers == s.drivers[d := Driver(Idle, s.drivers[d].holds - {res})]
      && !s'.smbi && !s'.swesmbi && FwBits(s'.sync) == FwBits(s.sync)
      && forall q :: Has(s'.sync, q) == (q != res && Has(s.sync, q)) && HasFw(s'.sync, q) == HasFw(s.sync, q)
  {
    hide Has, HasFw, ClearSw, FwBits, Busy;
    var s0 := At(s, d, SmbiRead(Release, res));
    var s1 := Access(s0, d, false);
    var s2 := Access(s1, d, false);
    var s3 := Access(s2, d, false);
    var s4 := Access(s3, d, false);
    var s5 := Access(s4, d, false);
    var s6 := Access(s5, d, false);
    var s7 := Access(s6, d, false);
    var s8 := Access(s7, d, false);
    assert s4.drivers[d].pc == SyncRead(Release, res);
    assert s6.drivers[d] == Driver(PutRead(Finished, Release, res), s.drivers[d].holds - {res});
    assert Alone(s0, d, 8) == Alone(s4, d, 4);
    assert Alone(s4, d, 4) == s8;
    assert s8.sync == ClearSw(s.sync, res);
    forall q ensures Has(s8.sync, q) == (q != res && Has(s.sync, q)) && HasFw(s8.sync, q) == HasFw(s.sync, q) {
      ClearBits(s.sync, res, q);
    }
    ClearBits(s.sync, res, res);
  }
}
