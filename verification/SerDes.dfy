/** The SerDes link state machine: four states, the link report, and the TXCW and CTRL
    registers it drives. */
module SerDes {
  import opened Bits

  datatype Code = Ok | ErrConfig | ErrNvm

  datatype Link = Down | AutonegProgress | AutonegComplete | ForcedUp

  /** Flow-control mode; the default means "take it from the NVM" and cannot be committed. */
  datatype Fc = FcNone | FcRxPause | FcTxPause | FcFull | FcDefault

  const CTRL_FD: Reg := Reg(0x0000_0001)
  const CTRL_SLU: Reg := Reg(0x0000_0040)
  const CTRL_RFCE: Reg := Reg(0x0800_0000)
  const CTRL_TFCE: Reg := Reg(0x1000_0000)
  const STATUS_LU: Reg := Reg(0x0000_0002)
  const TXCW_FD: Reg := Reg(0x0000_0020)
  const TXCW_PAUSE: Reg := Reg(0x0000_0080)
  const TXCW_ASM_DIR: Reg := Reg(0x0000_0100)
  const TXCW_PAUSE_MASK: Reg := Reg(0x0000_0180)
  const TXCW_ANE: Reg := Reg(0x8000_0000)
  const RXCW_IV: Reg := Reg(0x0800_0000)
  const RXCW_C: Reg := Reg(0x2000_0000)
  const RXCW_SYNCH: Reg := Reg(0x4000_0000)
  const PCS_AN_COMPLETE: Reg := Reg(0x0001_0000)
  const AN_RETRY_COUNT: nat := 5
  const PAUSE_ENABLES: Reg := Reg(0x1800_0000)
  /** SLU, FD and the pause enables. */
  const FORCING_BITS: Reg := Reg(0x1800_0041)

  lemma CtrlMasks()
    ensures And(CTRL_TFCE, CTRL_SLU) == NONE && And(CTRL_TFCE, CTRL_FD) == NONE && And(CTRL_RFCE, CTRL_SLU) == NONE
    ensures And(CTRL_RFCE, CTRL_FD) == NONE && And(CTRL_FD, CTRL_SLU) == NONE && And(CTRL_TFCE, CTRL_RFCE) == NONE
    ensures And(CTRL_RFCE, CTRL_TFCE) == NONE
  {
  }

  lemma OuterMasks()
    ensures Without(CTRL_TFCE, PAUSE_ENABLES) == NONE && Without(CTRL_RFCE, PAUSE_ENABLES) == NONE
    ensures Without(CTRL_TFCE, FORCING_BITS) == NONE && Without(CTRL_RFCE, FORCING_BITS) == NONE
    ensures Without(CTRL_SLU, FORCING_BITS) == NONE && Without(CTRL_FD, FORCING_BITS) == NONE
    ensures Without(CTRL_SLU, CTRL_SLU) == NONE && Without(TXCW_ANE, TXCW_ANE) == NONE
  {
  }

  /** The registers agree on every bit outside the mask. */
  predicate SameOutside(v: Reg, w: Reg, mask: Reg) { Without(v, mask) == Without(w, mask) }

  // ----- State -----

  /** The part of the device state the machine owns. */
  datatype Mac = Mac(state: Link, hasLink: bool, autoneg: bool, autonegFailed: bool,
                     mode: Fc, requested: Fc, shadow: Reg, txcw: Reg, ctrl: Reg)

  /** What one check reads: status and receive registers, the repeated reads of RXCW, and
      the PCS registers. */
  datatype Readings = Readings(status: Reg, rxcw: Reg, retries: seq<Reg>, pcsStatus: Reg, pcsAdv: Reg, pcsLp: Reg)

  predicate Complete(r: Readings) { |r.retries| == AN_RETRY_COUNT }

  predicate Synced(rxcw: Reg) { Test(rxcw, RXCW_SYNCH) && !Test(rxcw, RXCW_IV) }

  /** A repeated read that ends the retries: not consistently configuring, and invalid. */
  predicate Breaks(rxcw: Reg) { !(Test(rxcw, RXCW_SYNCH) && Test(rxcw, RXCW_C)) && Test(rxcw, RXCW_IV) }

  predicate Forced(ctrl: Reg) { Test(ctrl, CTRL_SLU) && Test(ctrl, CTRL_FD) }

  // ----- Flow control -----

  /** Pause enables of a mode: receive and transmit. */
  function Enables(mode: Fc): (bool, bool)
    requires mode != FcDefault
  {
    (mode == FcRxPause || mode == FcFull, mode == FcTxPause || mode == FcFull)
  }

  function SetTo(v: Reg, m: Reg, on: bool): Reg { if on then Or(v, m) else Without(v, m) }

  function FcCtrl(ctrl: Reg, mode: Fc): Reg
    requires mode != FcDefault
  {
    SetTo(SetTo(ctrl, CTRL_TFCE, Enables(mode).1), CTRL_RFCE, Enables(mode).0)
  }

  /** Forcing the MAC sets exactly the pause enables of the mode and leaves the forced link. */
  lemma FcCtrlBits(ctrl: Reg, mode: Fc)
    requires mode != FcDefault
    ensures Test(FcCtrl(ctrl, mode), CTRL_RFCE) == Enables(mode).0
    ensures Test(FcCtrl(ctrl, mode), CTRL_TFCE) == Enables(mode).1
    ensures Test(FcCtrl(ctrl, mode), CTRL_SLU) == Test(ctrl, CTRL_SLU)
    ensures Test(FcCtrl(ctrl, mode), CTRL_FD) == Test(ctrl, CTRL_FD)
    ensures SameOutside(FcCtrl(ctrl, mode), ctrl, PAUSE_ENABLES) && SameOutside(FcCtrl(ctrl, mode), ctrl, FORCING_BITS)
  {
    hide And, Or, Without, Test;
    CtrlMasks();
    FcCtrlOutside(ctrl, mode);
    var t := SetTo(ctrl, CTRL_TFCE, Enables(mode).1);
    TestOwn(ctrl, CTRL_TFCE);
    TestOwn(t, CTRL_RFCE);
    TestOther(t, CTRL_RFCE, CTRL_TFCE);
    TestOther(t, CTRL_RFCE, CTRL_SLU);
    TestOther(t, CTRL_RFCE, CTRL_FD);
    TestOther(ctrl, CTRL_TFCE, CTRL_SLU);
    TestOther(ctrl, CTRL_TFCE, CTRL_FD);
  }

  lemma FcCtrlOutside(ctrl: Reg, mode: Fc)
    requires mode != FcDefault
    ensures SameOutside(FcCtrl(ctrl, mode), ctrl, PAUSE_ENABLES) && SameOutside(FcCtrl(ctrl, mode), ctrl, FORCING_BITS)
  {
    hide Or, Without;
    OuterMasks();
    var t := SetTo(ctrl, CTRL_TFCE, Enables(mode).1);
    OutsideBits(ctrl, CTRL_TFCE, PAUSE_ENABLES);
    OutsideBits(ctrl, CTRL_TFCE, FORCING_BITS);
    OutsideBits(t, CTRL_RFCE, PAUSE_ENABLES);
    OutsideBits(t, CTRL_RFCE, FORCING_BITS);
  }

  /** Resolution of the PCS advertisements. */
  function Resolved(requested: Fc, adv: Reg, lp: Reg): (mode: Fc)
    ensures mode != FcDefault
  {
    if Test(adv, TXCW_PAUSE) && Test(lp, TXCW_PAUSE) then
      if requested == FcFull then FcFull else FcRxPause
    else if !Test(adv, TXCW_PAUSE) && Test(adv, TXCW_ASM_DIR) && Test(lp, TXCW_PAUSE) && Test(lp, TXCW_ASM_DIR) then
      FcTxPause
    else if Test(adv, TXCW_PAUSE) && Test(adv, TXCW_ASM_DIR) && !Test(lp, TXCW_PAUSE) && Test(lp, TXCW_ASM_DIR) then
      FcRxPause
    else FcNone
  }

  /** Receiving pause frames needs our PAUSE bit and the partner's consent; sending them needs
      the partner's PAUSE bit and our consent. */
  lemma ResolvedExact(requested: Fc, adv: Reg, lp: Reg)
    ensures var on := Enables(Resolved(requested, adv, lp));
      && (on.0 <==> Test(adv, TXCW_PAUSE)
                    && (Test(lp, TXCW_PAUSE) || (Test(adv, TXCW_ASM_DIR) && Test(lp, TXCW_ASM_DIR))))
      && (on.1 <==> Test(lp, TXCW_PAUSE)
                    && (if Test(adv, TXCW_PAUSE) then requested == FcFull
                        else Test(adv, TXCW_ASM_DIR) && Test(lp, TXCW_ASM_DIR)))
  {
    hide Test;
  }

  /** The flow-control step fails only when it must force an unresolved mode. */
  predicate FcFails(m: Mac) { m.autonegFailed && m.mode == FcDefault }

  function FcConfigured(m: Mac, r: Readings): Mac
    requires !FcFails(m)
  {
    var m1 := if m.autonegFailed then m.(ctrl := FcCtrl(m.ctrl, m.mode)) else m;
    if m.autoneg && Test(r.pcsStatus, PCS_AN_COMPLETE) then
      var mode := Resolved(m.requested, r.pcsAdv, r.pcsLp);
      m1.(mode := mode, ctrl := FcCtrl(m1.ctrl, mode))
    else m1
  }

  // ----- One check -----

  function RestartAutoneg(m: Mac): Mac {
    m.(txcw := m.shadow, ctrl := Without(m.ctrl, CTRL_SLU), state := AutonegProgress, hasLink := false)
  }

  /** Registers set to force the link, before flow control is configured. */
  function ForceRegisters(m: Mac): Mac {
    m.(txcw := Without(m.shadow, TXCW_ANE), ctrl := Or(Or(m.ctrl, CTRL_SLU), CTRL_FD))
  }

  function ForceLink(m: Mac, r: Readings): Mac {
    var f := ForceRegisters(m);
    if FcFails(f) then f else FcConfigured(f, r).(state := ForcedUp, hasLink := true)
  }

  function SyncedCheck(m: Mac, r: Readings): Mac {
    match m.state
    case AutonegComplete =>
      if Test(r.status, STATUS_LU) then m.(hasLink := true) else m.(state := AutonegProgress, hasLink := false)
    case ForcedUp =>
      if Test(r.rxcw, RXCW_C) then RestartAutoneg(m) else m.(hasLink := true)
    case AutonegProgress =>
      if !Test(r.rxcw, RXCW_C) then ForceLink(m, r)
      else if Test(r.status, STATUS_LU) then m.(state := AutonegComplete, hasLink := true)
      else m.(state := Down)
    case Down => RestartAutoneg(m)
  }

  function Check(m: Mac, r: Readings): Mac
    requires Complete(r)
  {
    if Synced(r.rxcw) then SyncedCheck(m, r)
    else if !Test(r.rxcw, RXCW_SYNCH) || exists i :: 0 <= i < AN_RETRY_COUNT && Breaks(r.retries[i]) then
      m.(state := Down, hasLink := false)
    else m.(txcw := Or(m.txcw, TXCW_ANE), state := AutonegProgress, hasLink := false)
  }

  /** The check that reports an error. */
  predicate CheckFails(m: Mac, r: Readings) {
    Synced(r.rxcw) && m.state == AutonegProgress && !Test(r.rxcw, RXCW_C) && FcFails(m)
  }

  // ----- Setting the link up -----

  /** The TXCW word that advertises a mode. */
  function Advertised(mode: Fc): Reg {
    match mode
    case FcNone => Reg(0x8000_0020)
    case FcTxPause => Reg(0x8000_0120)
    case _ => Reg(0x8000_01A0)
  }

  lemma AdvertisedBits(mode: Fc)
    ensures Test(Advertised(mode), TXCW_ANE) && Test(Advertised(mode), TXCW_FD)
    ensures mode != FcDefault ==> Test(Advertised(mode), TXCW_ASM_DIR) == (mode != FcNone)
    ensures mode != FcDefault ==> Test(Advertised(mode), TXCW_PAUSE) == Enables(mode).0
  {
  }

  /** Reset, choice of the mode and commitment of its advertisement; registers come out of
      the reset with any value. */
  function Restarted(m: Mac, requested: Fc, nvm: Fc, ctrl: Reg): Mac {
    var mode := if requested == FcDefault then nvm else requested;
    m.(state := Down, requested := mode, mode := mode, ctrl := ctrl,
       txcw := Advertised(mode), shadow := Advertised(mode))
  }

  /** Reset, and a set-up that failed before it committed anything. */
  function Stranded(m: Mac, ctrl: Reg, txcw: Reg): Mac { m.(state := Down, ctrl := ctrl, txcw := txcw) }

  datatype Event =
    | RestartWith(want: Fc, nvm: Fc, ctrl: Reg, linkSeen: bool, r: Readings)
    | RestartFailed(ctrl: Reg, txcw: Reg)
    | CheckWith(r: Readings)

  predicate Possible(e: Event) { (!e.RestartFailed? ==> Complete(e.r)) && (e.RestartWith? ==> e.nvm != FcDefault) }

  function Step(m: Mac, e: Event): Mac
    requires Possible(e)
  {
    match e
    case RestartWith(want, nvm, ctrl, linkSeen, r) =>
      var n := Restarted(m, want, nvm, ctrl);
      if linkSeen then n.(autonegFailed := false) else Check(n.(autonegFailed := true), r).(autonegFailed := false)
    case RestartFailed(ctrl, txcw) => Stranded(m, ctrl, txcw)
    case CheckWith(r) => Check(m, r)
  }

  /** The driver's fields, its registers and the routines that drive them. */
  class SerdesMac {
    var state: Link
    var hasLink: bool
    var autoneg: bool
    var autonegFailed: bool
    var mode: Fc
    var requested: Fc
    var shadow: Reg
    var txcw: Reg
    var ctrl: Reg

    ghost function State(): Mac
      reads this
    {
      Mac(state, hasLink, autoneg, autonegFailed, mode, requested, shadow, txcw, ctrl)
    }

    method ForceMacFc() returns (ret: Code)
      modifies this`ctrl
      ensures ret == Ok <==> mode != FcDefault
      ensures ctrl == if mode != FcDefault then FcCtrl(old(ctrl), mode) else old(ctrl)
    {
      hide And, Or, Without;
      var c := ctrl;
      match mode {
        case FcNone =>
          c := Without(Without(c, CTRL_TFCE), CTRL_RFCE);
        case FcRxPause =>
          c := Without(c, CTRL_TFCE);
          c := Or(c, CTRL_RFCE);
        case FcTxPause =>
          c := Without(c, CTRL_RFCE);
          c := Or(c, CTRL_TFCE);
          CtrlMasks();
          Commute(ctrl, CTRL_TFCE, CTRL_RFCE);
        case FcFull =>
          c := Or(Or(c, CTRL_TFCE), CTRL_RFCE);
        case FcDefault =>
          return ErrConfig;
      }
      ctrl := c;
      ret := Ok;
    }

    method ConfigFc(r: Readings) returns (ret: Code)
      modifies this`ctrl, this`mode
      ensures ret == Ok <==> !old(FcFails(State()))
      ensures State() == if ret == Ok then old(FcConfigured(State(), r)) else old(State())
    {
      if autonegFailed {
        ret := ForceMacFc();
        if ret != Ok { return; }
      }
      if autoneg {
        if !Test(r.pcsStatus, PCS_AN_COMPLETE) {
          return Ok;
        }
        mode := Resolved(requested, r.pcsAdv, r.pcsLp);
        ret := ForceMacFc();
        return;
      }
      ret := Ok;
    }

    /** Re-enables auto-negotiation and stops forcing the link. */
    method Unforce(c: Reg)
      requires c == ctrl
      modifies this`txcw, this`ctrl, this`state, this`hasLink
      ensures State() == RestartAutoneg(old(State()))
    {
      txcw := shadow;
      ctrl := Without(c, CTRL_SLU);
      state := AutonegProgress;
      hasLink := false;
    }

    /** Forces link and full duplex; flow control is configured after. */
    method Force(c: Reg, r: Readings) returns (ret: Code)
      requires c == ctrl
      modifies this
      ensures State() == ForceLink(old(State()), r)
      ensures ret != Ok <==> old(FcFails(State()))
    {
      hide Test, And, Or, Without, FcCtrl, Resolved, FcConfigured;
      txcw := Without(shadow, TXCW_ANE);
      ctrl := Or(Or(c, CTRL_SLU), CTRL_FD);
      assert State() == ForceRegisters(old(State()));
      ret := ConfigFc(r);
      if ret != Ok { return; }
      state := ForcedUp;
      hasLink := true;
    }

    method CheckSynced(r: Readings) returns (ret: Code)
      requires Complete(r) && Synced(r.rxcw)
      modifies this
      ensures State() == SyncedCheck(old(State()), r)
      ensures ret != Ok <==> CheckFails(old(State()), r)
    {
      hide Test, And, Or, Without, ForceLink;
      var c := ctrl;
      ret := Ok;
      match state
      case AutonegComplete =>
        if !Test(r.status, STATUS_LU) {
          state := AutonegProgress;
          hasLink := false;
        } else {
          hasLink := true;
        }
      case ForcedUp =>
        if Test(r.rxcw, RXCW_C) {
          Unforce(c);
        } else {
          hasLink := true;
        }
      case AutonegProgress =>
        if Test(r.rxcw, RXCW_C) {
          if Test(r.status, STATUS_LU) {
            state := AutonegComplete;
            hasLink := true;
          } else {
            state := Down;
          }
        } else {
          ret := Force(c, r);
        }
      case Down =>
        Unforce(c);
    }

    method CheckForLink(r: Readings) returns (ret: Code)
      requires Complete(r)
      modifies this
      ensures State() == Step(old(State()), CheckWith(r)) == Check(old(State()), r)
      ensures ret != Ok <==> CheckFails(old(State()), r)
    {
      hide Test, And, Or, Without, FcCtrl, Resolved;
      ret := Ok;
      if Test(r.rxcw, RXCW_SYNCH) && !Test(r.rxcw, RXCW_IV) {
        ret := CheckSynced(r);
        return;
      }
      if !Test(r.rxcw, RXCW_SYNCH) {
        hasLink := false;
        state := Down;
        return;
      }
      var i := 0;
      while i < AN_RETRY_COUNT
        invariant 0 <= i <= AN_RETRY_COUNT && State() == old(State())
        invariant forall k :: 0 <= k < i ==> !Breaks(r.retries[k])
      {
        var rxcw := r.retries[i];
        if !(Test(rxcw, RXCW_SYNCH) && Test(rxcw, RXCW_C)) {
          if Test(rxcw, RXCW_IV) {
            assert Breaks(r.retries[i]);
            hasLink := false;
            state := Down;
            break;
          }
        }
        i := i + 1;
      }
      if i == AN_RETRY_COUNT {
        txcw := Or(txcw, TXCW_ANE);
        state := AutonegProgress;
        hasLink := false;
      }
    }

    /** Reset followed by set-up: the advertisement is committed, and when auto-negotiation
        brings no link one check is made that may force it.  Set-up ends early when the default
        mode has to be read from an NVM that fails. */
    method Restart(want: Fc, nvm: Fc, nvmFails: bool, resetCtrl: Reg, resetTxcw: Reg, linkSeen: bool, r: Readings)
      returns (ret: Code)
      requires Complete(r) && nvm != FcDefault
      modifies this
      ensures ret == if want == FcDefault && nvmFails then ErrNvm else Ok
      ensures ret == ErrNvm ==> State() == Step(old(State()), RestartFailed(resetCtrl, resetTxcw))
      ensures ret == Ok ==> State() == Step(old(State()), RestartWith(want, nvm, resetCtrl, linkSeen, r))
    {
      hide Check, Test, And, Or, Without;
      state := Down;
      ctrl, txcw := resetCtrl, resetTxcw;
      if want == FcDefault && nvmFails {
        return ErrNvm;
      }
      requested := if want == FcDefault then nvm else want;
      mode := requested;
      ret := CommitFc();
      autonegFailed := !linkSeen;
      if !linkSeen {
        ret := CheckForLink(r);
        autonegFailed := false;
      }
    }

    method CommitFc() returns (ret: Code)
      modifies this`txcw, this`shadow
      ensures ret == Ok <==> mode != FcDefault
      ensures ret == Ok ==> txcw == shadow == Advertised(mode)
      ensures ret != Ok ==> txcw == old(txcw) && shadow == old(shadow)
    {
      match mode {
        case FcNone => txcw := Or(TXCW_ANE, TXCW_FD);
        case FcRxPause => txcw := Or(Or(TXCW_ANE, TXCW_FD), TXCW_PAUSE_MASK);
        case FcTxPause => txcw := Or(Or(TXCW_ANE, TXCW_FD), TXCW_ASM_DIR);
        case FcFull => txcw := Or(Or(TXCW_ANE, TXCW_FD), TXCW_PAUSE_MASK);
        case FcDefault => return ErrConfig;
      }
      shadow := txcw;
      ret := Ok;
    }
  }

  // ----- What one check does -----

  /** A receiver that is not synchronised brings the link down.  One that is, but has seen
      invalid bits, restarts auto-negotiation exactly when each of the five repeated reads is
      configuring consistently or has lost its invalid bit, and brings the link down otherwise.
      TXCW changes in its auto-negotiation bit at most, and nothing else is touched. */
  lemma UnsyncedExact(m: Mac, r: Readings)
    requires Complete(r) && (!Test(r.rxcw, RXCW_SYNCH) || Test(r.rxcw, RXCW_IV))
    ensures var n := Check(m, r);
      && n == m.(state := n.state, hasLink := false, txcw := n.txcw)
      && (!Test(r.rxcw, RXCW_SYNCH) ==> n.state == Down)
      && (Test(r.rxcw, RXCW_SYNCH) ==>
            n.state == if forall i :: 0 <= i < 5 ==>
                            || (Test(r.retries[i], RXCW_SYNCH) && Test(r.retries[i], RXCW_C))
                            || !Test(r.retries[i], RXCW_IV)
                       then AutonegProgress else Down)
      && (n.state == Down ==> n.txcw == m.txcw)
      && (n.state == AutonegProgress ==> Test(n.txcw, TXCW_ANE) && SameOutside(n.txcw, m.txcw, TXCW_ANE))
  {
    hide And, Or, Without, Test, SyncedCheck;
    OuterMasks();
    TestOwn(m.txcw, TXCW_ANE);
    OutsideBits(m.txcw, TXCW_ANE, TXCW_ANE);
  }

  /** Auto-negotiation is started afresh: TXCW takes its copy, and CTRL loses SLU alone. */
  predicate Restarts(m: Mac, n: Mac) {
    && n == m.(txcw := m.shadow, ctrl := n.ctrl, state := AutonegProgress, hasLink := false)
    && !Test(n.ctrl, CTRL_SLU) && SameOutside(n.ctrl, m.ctrl, CTRL_SLU)
  }

  lemma RestartExact(m: Mac)
    ensures Restarts(m, RestartAutoneg(m))
  {
    hide And, Or, Without, Test;
    OuterMasks();
    TestOwn(m.ctrl, CTRL_SLU);
    OutsideBits(m.ctrl, CTRL_SLU, CTRL_SLU);
  }

  /** The link is forced: TXCW takes its copy without the auto-negotiation bit; CTRL gains SLU
      and FD, and changes in the pause enables besides. */
  predicate Forces(m: Mac, n: Mac) {
    && n == m.(txcw := n.txcw, ctrl := n.ctrl, mode := n.mode, state := n.state, hasLink := n.hasLink)
    && !Test(n.txcw, TXCW_ANE) && SameOutside(n.txcw, m.shadow, TXCW_ANE)
    && Test(n.ctrl, CTRL_SLU) && Test(n.ctrl, CTRL_FD) && SameOutside(n.ctrl, m.ctrl, FORCING_BITS)
  }

  /** The pause enables of a configured link: those the two advertisements give once
      auto-negotiation is complete, else those of the mode when the MAC is forced, else the
      old ones. */
  predicate PausesAs(m: Mac, r: Readings, n: Mac) {
    if m.autoneg && Test(r.pcsStatus, PCS_AN_COMPLETE) then
      && n.mode == Resolved(m.requested, r.pcsAdv, r.pcsLp)
      && Test(n.ctrl, CTRL_RFCE) == Enables(n.mode).0 && Test(n.ctrl, CTRL_TFCE) == Enables(n.mode).1
    else if m.autonegFailed then
      && n.mode == m.mode && m.mode != FcDefault
      && Test(n.ctrl, CTRL_RFCE) == Enables(n.mode).0 && Test(n.ctrl, CTRL_TFCE) == Enables(n.mode).1
    else
      && n.mode == m.mode
      && Test(n.ctrl, CTRL_RFCE) == Test(m.ctrl, CTRL_RFCE) && Test(n.ctrl, CTRL_TFCE) == Test(m.ctrl, CTRL_TFCE)
  }

  lemma ForcedRegisters(m: Mac)
    ensures Forces(m, ForceRegisters(m))
    ensures var n := ForceRegisters(m);
      n == m.(txcw := n.txcw, ctrl := n.ctrl)
      && Test(n.ctrl, CTRL_RFCE) == Test(m.ctrl, CTRL_RFCE) && Test(n.ctrl, CTRL_TFCE) == Test(m.ctrl, CTRL_TFCE)
  {
    hide And, Or, Without, Test;
    OuterMasks();
    ForcingMasks();
    var c := Or(m.ctrl, CTRL_SLU);
    TestOwn(m.shadow, TXCW_ANE);
    OutsideBits(m.shadow, TXCW_ANE, TXCW_ANE);
    TestOwn(m.ctrl, CTRL_SLU);
    TestOwn(c, CTRL_FD);
    TestOther(c, CTRL_FD, CTRL_SLU);
    OutsideBits(m.ctrl, CTRL_SLU, FORCING_BITS);
    OutsideBits(c, CTRL_FD, FORCING_BITS);
    TestOther(m.ctrl, CTRL_SLU, CTRL_RFCE);
    TestOther(m.ctrl, CTRL_SLU, CTRL_TFCE);
    TestOther(c, CTRL_FD, CTRL_RFCE);
    TestOther(c, CTRL_FD, CTRL_TFCE);
  }

  lemma ForcingMasks()
    ensures And(CTRL_FD, CTRL_SLU) == NONE && And(CTRL_SLU, CTRL_RFCE) == NONE && And(CTRL_SLU, CTRL_TFCE) == NONE
    ensures And(CTRL_FD, CTRL_RFCE) == NONE && And(CTRL_FD, CTRL_TFCE) == NONE
  {
  }

  /** Configuring flow control touches the mode and the pause enables only. */
  lemma FcConfiguredExact(m: Mac, r: Readings)
    requires !FcFails(m)
    ensures var n := FcConfigured(m, r);
      && n == m.(mode := n.mode, ctrl := n.ctrl)
      && SameOutside(n.ctrl, m.ctrl, PAUSE_ENABLES) && SameOutside(n.ctrl, m.ctrl, FORCING_BITS)
      && Test(n.ctrl, CTRL_SLU) == Test(m.ctrl, CTRL_SLU) && Test(n.ctrl, CTRL_FD) == Test(m.ctrl, CTRL_FD)
      && PausesAs(m, r, n)
  {
    hide And, Or, Without, Test, FcCtrl, Resolved;
    var c := if m.autonegFailed then FcCtrl(m.ctrl, m.mode) else m.ctrl;
    if m.autonegFailed { FcCtrlBits(m.ctrl, m.mode); }
    FcCtrlBits(c, Resolved(m.requested, r.pcsAdv, r.pcsLp));
  }

  lemma ForceExact(m: Mac, r: Readings)
    ensures var n := ForceLink(m, r);
      && Forces(m, n)
      && (FcFails(m) ==> n.state == m.state && n.hasLink == m.hasLink && n.mode == m.mode)
      && (!FcFails(m) ==> n.state == ForcedUp && n.hasLink && PausesAs(m, r, n))
  {
    hide And, Or, Without, Test, FcConfigured, Resolved, ForceRegisters;
    ForcedRegisters(m);
    if !FcFails(m) { FcConfiguredExact(ForceRegisters(m), r); }
  }

  /** The table of a check that sees a synchronised receiver: state and report, and what becomes
      of the registers. */
  lemma SyncedTable(m: Mac, r: Readings)
    requires Complete(r) && Test(r.rxcw, RXCW_SYNCH) && !Test(r.rxcw, RXCW_IV)
    ensures var n, config, up := Check(m, r), Test(r.rxcw, RXCW_C), Test(r.status, STATUS_LU);
      && (m.state == AutonegComplete && up ==> n == m.(hasLink := true))
      && (m.state == AutonegComplete && !up ==> n == m.(state := AutonegProgress, hasLink := false))
      && (m.state == ForcedUp && config ==> Restarts(m, n))
      && (m.state == ForcedUp && !config ==> n == m.(hasLink := true))
      && (m.state == AutonegProgress && config && up ==> n == m.(state := AutonegComplete, hasLink := true))
      && (m.state == AutonegProgress && config && !up ==> n == m.(state := Down))
      && (m.state == AutonegProgress && !config ==> Forces(m, n))
      && (m.state == AutonegProgress && !config && (m.autonegFailed ==> m.mode != FcDefault) ==>
            n.state == ForcedUp && n.hasLink && PausesAs(m, r, n))
      && (m.state == AutonegProgress && !config && m.autonegFailed && m.mode == FcDefault ==>
            n.state == AutonegProgress && n.hasLink == m.hasLink && n.mode == FcDefault)
      && (m.state == Down ==> Restarts(m, n))
  {
    hide And, Or, Without, Test, ForceLink, RestartAutoneg, Forces, Restarts, PausesAs, Breaks;
    RestartExact(m);
    ForceExact(m, r);
  }

  // ----- Invariant -----

  /** What holds of the machine between checks: forced up means the registers force the link,
      negotiating or negotiated means auto-negotiation is enabled. */
  predicate Registers(m: Mac) {
    && (m.state == ForcedUp ==> !Test(m.txcw, TXCW_ANE) && Forced(m.ctrl))
    && (m.state == AutonegProgress || m.state == AutonegComplete ==> Test(m.txcw, TXCW_ANE))
  }

  predicate Settled(m: Mac) { m.mode != FcDefault && Test(m.shadow, TXCW_ANE) }

  /** The report is truthful, except perhaps from a reset to the first check. */
  predicate Truthful(m: Mac) { m.hasLink ==> m.state == AutonegComplete || m.state == ForcedUp }

  predicate Inv(m: Mac) { Settled(m) && Registers(m) && (Truthful(m) || m.state == Down) }

  lemma ForceOutcome(m: Mac, r: Readings)
    requires !FcFails(m)
    ensures ForceLink(m, r).state == ForcedUp && ForceLink(m, r).hasLink && ForceLink(m, r).shadow == m.shadow
    ensures m.mode != FcDefault ==> ForceLink(m, r).mode != FcDefault
    ensures ForceLink(m, r).txcw == Without(m.shadow, TXCW_ANE)
  {
    hide And, Or, Without, Test, FcCtrl, Resolved, SetTo;
  }

  lemma ForceCtrl(m: Mac, r: Readings)
    requires !FcFails(m)
    ensures Forced(ForceLink(m, r).ctrl)
  {
    hide And, Or, Without, Test, FcCtrl, Resolved, SetTo;
    var f := ForceRegisters(m);
    CtrlMasks();
    TestOwn(m.ctrl, CTRL_SLU);
    TestOwn(Or(m.ctrl, CTRL_SLU), CTRL_FD);
    TestOther(Or(m.ctrl, CTRL_SLU), CTRL_FD, CTRL_SLU);
    var mode := Resolved(m.requested, r.pcsAdv, r.pcsLp);
    FcCtrlBits(f.ctrl, mode);
    if f.autonegFailed {
      FcCtrlBits(f.ctrl, f.mode);
      FcCtrlBits(FcCtrl(f.ctrl, f.mode), mode);
    }
  }

  lemma ForceSetsRegisters(m: Mac, r: Readings)
    requires !FcFails(m)
    ensures Registers(ForceLink(m, r))
  {
    hide And, Or, Without, Test, ForceLink, Forced;
    ForceOutcome(m, r);
    ForceCtrl(m, r);
    TestOwn(m.shadow, TXCW_ANE);
  }

  /** What a check of a synchronised receiver does to the state and the report. */
  function NextLink(state: Link, hasLink: bool, config: bool, up: bool): (Link, bool) {
    match state
    case AutonegComplete => if up then (AutonegComplete, true) else (AutonegProgress, false)
    case ForcedUp => if config then (AutonegProgress, false) else (ForcedUp, true)
    case AutonegProgress =>
      if !config then (ForcedUp, true) else if up then (AutonegComplete, true) else (Down, hasLink)
    case Down => (AutonegProgress, false)
  }

  lemma SyncedNext(m: Mac, r: Readings)
    requires m.mode != FcDefault
    ensures var n := NextLink(m.state, m.hasLink, Test(r.rxcw, RXCW_C), Test(r.status, STATUS_LU));
            SyncedCheck(m, r).state == n.0 && SyncedCheck(m, r).hasLink == n.1
  {
    hide And, Or, Without, Test, ForceLink;
    ForceOutcome(m, r);
  }

  lemma SyncedSettled(m: Mac, r: Readings)
    requires Settled(m)
    ensures Settled(SyncedCheck(m, r))
  {
    hide And, Or, Without, Test, ForceLink;
    ForceOutcome(m, r);
  }

  lemma SyncedRegisters(m: Mac, r: Readings)
    requires Settled(m) && Registers(m)
    ensures Registers(SyncedCheck(m, r))
  {
    hide And, Or, Without, Test, ForceLink, Forced;
    if m.state == AutonegProgress && !Test(r.rxcw, RXCW_C) {
      ForceSetsRegisters(m, r);
    }
  }

  lemma CheckOfSynced(m: Mac, r: Readings)
    requires Complete(r) && Synced(r.rxcw)
    ensures Check(m, r) == SyncedCheck(m, r)
  {
    hide SyncedCheck, Synced, Breaks;
  }

  lemma CheckOfUnsynced(m: Mac, r: Readings)
    requires Complete(r) && !Synced(r.rxcw)
    ensures Registers(Check(m, r))
    ensures Check(m, r).mode == m.mode && Check(m, r).shadow == m.shadow && !Check(m, r).hasLink
  {
    hide And, Or, Without, Test, Breaks, SyncedCheck, Synced, Forced;
    TestOwn(m.txcw, TXCW_ANE);
    assert Check(m, r) == m.(state := Down, hasLink := false)
        || Check(m, r) == m.(txcw := Or(m.txcw, TXCW_ANE), state := AutonegProgress, hasLink := false);
  }

  lemma CheckKeeps(m: Mac, r: Readings)
    requires Inv(m) && Complete(r)
    ensures Inv(Check(m, r)) && Truthful(Check(m, r)) && !CheckFails(m, r)
  {
    hide Check, SyncedCheck, Registers, Synced, Test;
    if Synced(r.rxcw) {
      CheckOfSynced(m, r);
      SyncedNext(m, r);
      SyncedSettled(m, r);
      SyncedRegisters(m, r);
    } else {
      CheckOfUnsynced(m, r);
    }
  }

  lemma RestartKeeps(m: Mac, want: Fc, nvm: Fc, ctrl: Reg)
    requires nvm != FcDefault
    ensures Inv(Restarted(m, want, nvm, ctrl))
    ensures var n := Restarted(m, want, nvm, ctrl);
      && n.mode == n.requested == (if want == FcDefault then nvm else want)
      && n.state == Down && n.hasLink == m.hasLink && n.ctrl == ctrl && n.txcw == n.shadow
      && Test(n.txcw, TXCW_ANE) && Test(n.txcw, TXCW_FD)
      && Test(n.txcw, TXCW_ASM_DIR) == (n.mode != FcNone) && Test(n.txcw, TXCW_PAUSE) == Enables(n.mode).0
  {
    AdvertisedBits(if want == FcDefault then nvm else want);
  }

  // ----- Runs -----

  ghost predicate IsRun(run: seq<Mac>, events: seq<Event>) {
    && |run| == |events| + 1 && |events| > 0 && events[0].RestartWith?
    && (forall i :: 0 <= i < |events| ==> Possible(events[i]) && run[i + 1] == Step(run[i], events[i]))
  }

  lemma {:induction false} RunKeeps(run: seq<Mac>, events: seq<Event>, i: nat)
    requires IsRun(run, events) && i < |events|
    ensures Inv(run[i + 1])
  {
    if i > 0 { RunKeeps(run, events, i - 1); }
    assert run[i + 1] == Step(run[i], events[i]);
    match events[i]
    case RestartWith(want, nvm, ctrl, linkSeen, r) =>
      RestartKeeps(run[i], want, nvm, ctrl);
      if !linkSeen { CheckKeeps(Restarted(run[i], want, nvm, ctrl).(autonegFailed := true), r); }
    case RestartFailed(_, _) =>
    case CheckWith(r) =>
      CheckKeeps(run[i], r);
  }

  /** Over every run from a reset, whatever the registers read: after every check a reported
      link is negotiated or forced, and TXCW and CTRL agree with the state. */
  lemma RunSafety(run: seq<Mac>, events: seq<Event>, i: nat)
    requires IsRun(run, events) && i < |events| && events[i].CheckWith?
    ensures run[i + 1].hasLink ==> run[i + 1].state == AutonegComplete || run[i + 1].state == ForcedUp
    ensures run[i + 1].state == ForcedUp ==> !Test(run[i + 1].txcw, TXCW_ANE) && Forced(run[i + 1].ctrl)
    ensures run[i + 1].state == AutonegProgress || run[i + 1].state == AutonegComplete ==>
              Test(run[i + 1].txcw, TXCW_ANE)
  {
    RunKeeps(run, events, i);
    if i > 0 {
      RunKeeps(run, events, i - 1);
      assert run[i + 1] == Step(run[i], events[i]);
      CheckKeeps(run[i], events[i].r);
    }
  }

  lemma SyncedExact(m: Mac, r: Readings)
    requires Registers(m) && Test(m.shadow, TXCW_ANE) && Synced(r.rxcw)
    ensures Registers(SyncedCheck(m, r)) <==> !CheckFails(m, r)
  {
    hide And, Or, Without, Test, FcConfigured, Forced, Synced, ForceLink;
    if m.state == AutonegProgress && !Test(r.rxcw, RXCW_C) {
      if FcFails(m) { FailedForce(m, r); } else { ForceSetsRegisters(m, r); }
    }
  }

  lemma FailedForce(m: Mac, r: Readings)
    requires FcFails(m) && m.state == AutonegProgress
    ensures !Registers(ForceLink(m, r))
  {
    hide And, Or, Without, Test;
    TestOwn(m.shadow, TXCW_ANE);
  }

  /** Without the guarantee on the mode, one check can leave TXCW against the state: exactly
      the check that fails, while forcing the link, to configure flow control. */
  lemma FailureExact(m: Mac, r: Readings)
    requires Complete(r) && Registers(m) && Test(m.shadow, TXCW_ANE)
    ensures Registers(Check(m, r)) <==> !CheckFails(m, r)
  {
    hide Check, SyncedCheck, Registers, Synced, Test;
    if Synced(r.rxcw) {
      CheckOfSynced(m, r);
      SyncedExact(m, r);
    } else {
      CheckOfUnsynced(m, r);
    }
  }

  /** From any state, two checks that see the same synchronised receiver report the link
      exactly when the partner is silent or the hardware says that negotiation succeeded. */
  lemma TwoChecks(m: Mac, r: Readings, r': Readings)
    requires Inv(m) && Complete(r) && Complete(r') && Synced(r.rxcw) && Synced(r'.rxcw)
    requires Test(r.rxcw, RXCW_C) == Test(r'.rxcw, RXCW_C) && Test(r.status, STATUS_LU) == Test(r'.status, STATUS_LU)
    ensures Check(Check(m, r), r').hasLink <==> !Test(r.rxcw, RXCW_C) || Test(r.status, STATUS_LU)
  {
    hide Check, SyncedCheck, Registers, Synced, Test;
    CheckKeeps(m, r);
    CheckOfSynced(m, r);
    CheckOfSynced(Check(m, r), r');
    SyncedNext(m, r);
    SyncedNext(Check(m, r), r');
  }
}
