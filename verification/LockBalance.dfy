/** The callers of the semaphore as one driver runs them: every path through the acquire
    routines and through the PHY, Kumeran and NVM accesses, under arbitrary timeouts and
    device errors, while other drivers and the firmware act between any two register accesses. */
module LockBalance {
  import opened Bits
  import opened Semaphore

  datatype Code = Ok | ErrNvm | ErrSwfwSync | ErrPhy

  /** What the driver did: set or cleared a resource's bit, or used what the bit guards. */
  datatype Event = Took(res: Resource) | Gave(res: Resource) | Touched(res: Resource)

  /** One MDIC transaction: the register it names, the data it sends, whether it succeeded, and
      what it returned. */
  datatype Transaction = Transaction(reg: bv32, sent: bv16, ok: bool, got: bv16)

  /** One access to KMRNCTRLSTA. */
  datatype Kumeran = Wrote(word: bv32) | Fetched(word: bv32)

  const SWFW_TIMEOUT: nat := 50
  const NVM_GRANT_ATTEMPTS: nat := 1000
  const MAX_PHY_REG_ADDRESS: bv32 := 0x1F
  const GG82563_MIN_ALT_REG: bv32 := 30
  const GG82563_PHY_PAGE_SELECT: bv32 := 22
  const GG82563_PHY_PAGE_SELECT_ALT: bv32 := 29
  const KMRNCTRLSTA_OFFSET: bv32 := 0x001F_0000
  const KMRNCTRLSTA_REN: bv32 := 0x0020_0000

  // ----- Specification -----

  /** The log takes only free resources, touches and gives back only held ones, and ends
      holding `held`. */
  ghost predicate Replays(log: seq<Event>, held: set<Resource>) {
    if log == [] then held == {} else
      var init := log[..|log| - 1];
      match log[|log| - 1]
      case Took(r) => r in held && Replays(init, held - {r})
      case Gave(r) => r !in held && Replays(init, held + {r})
      case Touched(r) => r in held && Replays(init, held)
  }

  /** `after` adds one session to `before`: one taking of `r`, uses of it, one giving back. */
  ghost predicate Session(before: seq<Event>, after: seq<Event>, r: Resource) {
    && |after| >= |before| + 2
    && before <= after
    && after[|before|] == Took(r)
    && after[|after| - 1] == Gave(r)
    && (forall k :: |before| < k < |after| - 1 ==> after[k] == Touched(r))
  }

  /** As above, not yet given back. */
  ghost predicate Open(before: seq<Event>, after: seq<Event>, r: Resource) {
    && |after| > |before|
    && before <= after
    && after[|before|] == Took(r)
    && (forall k :: |before| < k < |after| ==> after[k] == Touched(r))
  }

  /** `after` is `before` with the software bit of `r` as given, and every other resource bit,
      software's or firmware's, as it was. */
  ghost predicate SetFrom(before: Reg, after: Reg, r: Resource, on: bool) {
    && FwBits(after) == FwBits(before)
    && forall q :: Has(after, q) == (if q == r then on else Has(before, q)) && HasFw(after, q) == HasFw(before, q)
  }

  lemma SetFromRead(value: Reg, r: Resource)
    ensures SetFrom(value, SetSw(value, r), r, true) && SetFrom(value, ClearSw(value, r), r, false)
  {
    hide Has, HasFw, SetSw, ClearSw, FwBits;
    forall q
      ensures Has(SetSw(value, r), q) == (q == r || Has(value, q)) && HasFw(SetSw(value, r), q) == HasFw(value, q)
      ensures Has(ClearSw(value, r), q) == (q != r && Has(value, q)) && HasFw(ClearSw(value, r), q) == HasFw(value, q)
    {
      SetBits(value, r, q);
      ClearBits(value, r, q);
    }
    SetBits(value, r, r);
    ClearBits(value, r, r);
  }

  // ----- Why an acquisition ends -----

  /** The readings of SW_FW_SYNC by one acquisition of `r`: at most fifty, each one but the last
      with the resource busy, and the last one deciding. */
  ghost predicate Polled(before: seq<Reg>, after: seq<Reg>, r: Resource, ok: bool) {
    && before <= after && |after| - |before| <= 50
    && (forall k :: |before| <= k < |after| - 1 ==> Busy(after[k], r))
    && (ok ==> |after| > |before| && !Busy(after[|after| - 1], r))
    && (!ok && |after| > |before| ==> Busy(after[|after| - 1], r))
  }

  /** The readings of the grant bit: a thousand at most count, and each one but the last is
      without the grant.  The one after them is made, but not looked at. */
  ghost predicate Granted(before: seq<bool>, after: seq<bool>, ok: bool) {
    && before <= after && 1 <= |after| - |before| <= 1001
    && (forall k :: |before| <= k < |after| - 1 ==> !after[k])
    && (ok <==> |after| - |before| <= 1000)
    && (ok ==> after[|after| - 1])
  }

  lemma Extend(log: seq<Event>, e: Event, held: set<Resource>)
    ensures (log + [e])[..|log|] == log
    ensures e.Took? && e.res !in held && Replays(log, held) ==> Replays(log + [e], held + {e.res})
    ensures e.Gave? && e.res in held && Replays(log, held) ==> Replays(log + [e], held - {e.res})
    ensures e.Touched? && e.res in held && Replays(log, held) ==> Replays(log + [e], held)
  {
    assert (log + [e])[..|log|] == log;
    if e.Took? && e.res !in held { assert held + {e.res} - {e.res} == held; }
    if e.Gave? && e.res in held { assert held - {e.res} + {e.res} == held; }
  }

  /** Every taking of a resource is matched by one giving back, the one in progress excepted. */
  lemma {:induction false} TakenOnceGivenOnce(log: seq<Event>, held: set<Resource>, r: Resource)
    requires Replays(log, held)
    ensures multiset(log)[Took(r)] == multiset(log)[Gave(r)] + (if r in held then 1 else 0)
  {
    if log != [] {
      var init, e := log[..|log| - 1], log[|log| - 1];
      assert log == init + [e];
      match e
      case Took(q) => TakenOnceGivenOnce(init, held - {q}, r);
      case Gave(q) => TakenOnceGivenOnce(init, held + {q}, r);
      case Touched(_) => TakenOnceGivenOnce(init, held, r);
    }
  }

  class Port {
    /** Size of the NVM in words: bounds the polling of SWSM. */
    const wordSize: nat
    /** PCI function, which selects the PHY semaphore. */
    const func: nat
    /** Whether the MDIC ready bit cannot be trusted. */
    const mdicWa: bool
    // Registers, shared with the other agents.
    var smbi: bool
    var swesmbi: bool
    var sync: Reg
    var request: bool
    /** How many more polls the other agents will spoil. */
    var stalls: nat
    // What this driver owns.
    var owner: bool
    var latched: bool
    var held: set<Resource>
    ghost var log: seq<Event>
    /** Reads of SWSM that found SMBI taken, and attempts to latch SWESMBI. */
    ghost var spoilt: nat
    ghost var tries: nat
    /** What it has read: SW_FW_SYNC, and the grant bit. */
    ghost var synced: seq<Reg>
    ghost var grants: seq<bool>
    /** The MDIC transactions it has made. */
    ghost var mdic: seq<Transaction>
    /** Whether the NVM was ready, each time it has been prepared for use. */
    ghost var prepared: seq<bool>
    ghost var kmrn: seq<Kumeran>

    ghost predicate Valid()
      reads `smbi, `swesmbi, `sync, `owner, `latched, `held, `log
    {
      && (owner ==> smbi)
      && (!smbi ==> !swesmbi)
      && (latched ==> owner)
      && (owner ==> (swesmbi <==> latched))
      && (forall r :: r in held ==> Has(sync, r))
      && Replays(log, held)
    }

    constructor (wordSize: nat, func: nat, mdicWa: bool, stalls: nat)
      ensures Valid() && !owner && held == {} && log == [] && synced == [] && grants == []
      ensures mdic == [] && prepared == [] && kmrn == [] && spoilt == tries == 0
    {
      this.wordSize, this.func, this.mdicWa, this.stalls := wordSize, func, mdicWa, stalls;
      smbi, swesmbi, sync, request, owner, latched, held, log := false, false, NONE, false, false, false, {}, [];
      synced, grants, mdic, prepared, kmrn, spoilt, tries := [], [], [], [], [], 0, 0;
    }

    // ----- Register accesses -----

    /** The other agents act: they leave SWSM alone while this driver owns it, SW_FW_SYNC
        while it has latched, and its own bits always. */
    method Others()
      requires Valid()
      modifies `smbi, `swesmbi, `sync
      ensures Valid()
      ensures latched ==> sync == old(sync)
    {
      if !owner {
        smbi := *;
        var latch: bool := *;
        swesmbi := smbi && latch;
      }
      if !latched {
        var value: Reg := *;
        if forall r: Resource :: r in held ==> Has(value, r) {
          sync := value;
        }
      }
    }

    /** Reading SWSM returns SMBI and sets it. */
    method ReadSwsm() returns (busy: bool, latch: bool)
      requires Valid()
      modifies `smbi, `swesmbi, `sync, `stalls, `owner, `spoilt
      ensures Valid() && (old(latched) ==> sync == old(sync))
      ensures spoilt == old(spoilt) + (if !old(owner) && busy then 1 else 0)
      ensures owner == (old(owner) || !busy)
      ensures latch == swesmbi && (old(owner) ==> busy && stalls == old(stalls))
      ensures stalls <= old(stalls) && (!old(owner) && busy ==> stalls < old(stalls))
    {
      Others();
      if !owner {
        if stalls == 0 {
          smbi, swesmbi := false, false;
        } else if smbi {
          stalls := stalls - 1;
        }
      }
      busy, latch := smbi, swesmbi;
      if !owner && busy { spoilt := spoilt + 1; }
      owner := owner || !smbi;
      smbi := true;
    }

    /** Asks for SWESMBI; the firmware may be in the way. */
    method RequestLatch(keep: bool)
      requires Valid() && owner && !latched && keep
      modifies `smbi, `swesmbi, `sync, `stalls, `latched, `tries
      ensures Valid() && stalls <= old(stalls) && tries == old(tries) + 1
      ensures !latched ==> stalls < old(stalls)
    {
      Others();
      var away: bool := *;
      if !away && stalls > 0 {
        stalls := stalls - 1;
      } else {
        swesmbi, latched := true, true;
      }
      smbi := smbi && keep;
      tries := tries + 1;
    }

    method ReadSync() returns (value: Reg)
      requires Valid() && latched
      modifies `smbi, `swesmbi, `sync, `synced
      ensures Valid() && value == sync == old(sync) && synced == old(synced) + [value]
    {
      Others();
      value := sync;
      synced := synced + [value];
    }

    // ----- SWSM -----

    /** Other agents have spoilt a whole round of polls. */
    ghost predicate TimedOut(before: nat, after: nat) { after + wordSize + 1 <= before }

    method GetHwSemaphore() returns (ret: Code)
      requires Valid() && !owner
      modifies `smbi, `swesmbi, `sync, `stalls, `owner, `latched, `spoilt, `tries
      ensures Valid() && stalls <= old(stalls)
      ensures ret == Ok ==> latched
      ensures ret != Ok ==> !owner && !latched && TimedOut(old(stalls), stalls)
      ensures ret != Ok ==> if tries == old(tries) then spoilt == old(spoilt) + wordSize + 1
                            else tries == old(tries) + wordSize + 1 && !smbi && !swesmbi
      ensures spoilt <= old(spoilt) + wordSize + 1 && tries <= old(tries) + wordSize + 1
    {
      var timeout, i := wordSize + 1, 0;
      while i < timeout
        invariant Valid() && !owner && i <= timeout && stalls + i <= old(stalls)
        invariant spoilt == old(spoilt) + i && tries == old(tries)
      {
        var busy, latch := ReadSwsm();
        if !busy { break; }
        i := i + 1;
      }
      if i == timeout {
        return ErrNvm;
      }
      i := 0;
      while i < timeout
        invariant Valid() && owner && !latched && i <= timeout && stalls + i <= old(stalls)
        invariant spoilt <= old(spoilt) + wordSize && tries == old(tries) + i
      {
        var busy, latch := ReadSwsm();
        RequestLatch(busy);
        busy, latch := ReadSwsm();
        if latch { break; }
        i := i + 1;
      }
      if i == timeout {
        PutHwSemaphore();
        return ErrNvm;
      }
      ret := Ok;
    }

    /** Only ever called by the owner: it would clear anybody's bits. */
    method PutHwSemaphore()
      requires Valid() && owner
      modifies `smbi, `swesmbi, `sync, `stalls, `owner, `latched, `spoilt
      ensures Valid() && !owner && !latched && !smbi && !swesmbi
      ensures stalls == old(stalls) && spoilt == old(spoilt) && (old(latched) ==> sync == old(sync))
    {
      var busy, latch := ReadSwsm();
      smbi, swesmbi, owner, latched := false, false, false, false;
    }

    // ----- SW_FW_SYNC -----

    /** SWSM has been given up, and nobody has taken it since. */
    ghost predicate Released()
      reads `smbi, `swesmbi
    {
      !smbi && !swesmbi
    }

    method AcquireSwfw(r: Resource) returns (ret: Code)
      requires Valid() && !owner
      modifies `smbi, `swesmbi, `sync, `stalls, `owner, `latched,
               `spoilt, `tries, `synced, `held, `log
      ensures Valid() && !owner && stalls <= old(stalls)
      ensures ret == Ok || ret == ErrSwfwSync
      ensures ret == Ok ==> r !in old(held) && held == old(held) + {r} && log == old(log) + [Took(r)]
      ensures ret != Ok ==> held == old(held) && log == old(log)
      ensures Polled(old(synced), synced, r, ret == Ok)
      ensures ret == Ok ==> Released() && SetFrom(synced[|synced| - 1], sync, r, true)
      ensures ret != Ok ==> TimedOut(old(stalls), stalls) || |synced| == |old(synced)| + 50
    {
      hide Busy, Has, HasFw, SetSw, Replays, SetFrom;
      var i, value := 0, NONE;
      while i < SWFW_TIMEOUT
        invariant Valid() && !owner && !latched && i <= SWFW_TIMEOUT && stalls <= old(stalls)
        invariant held == old(held) && log == old(log)
        invariant old(synced) <= synced && |synced| == |old(synced)| + i
        invariant forall k :: |old(synced)| <= k < |synced| ==> Busy(synced[k], r)
      {
        ret := GetHwSemaphore();
        if ret != Ok {
          return ErrSwfwSync;
        }
        value := ReadSync();
        if !Busy(value, r) { break; }
        PutHwSemaphore();
        i := i + 1;
      }
      if i == SWFW_TIMEOUT {
        return ErrSwfwSync;
      }
      BusyBits(value, r);
      forall q ensures Has(SetSw(value, r), q) <==> q == r || Has(value, q) { SetBits(value, r, q); }
      Extend(log, Took(r), held);
      sync := SetSw(value, r);
      held := held + {r};
      log := log + [Took(r)];
      SetFromRead(value, r);
      PutHwSemaphore();
      ret := Ok;
    }

    /** Insists until SWSM is its own. */
    method ReleaseSwfw(r: Resource)
      requires Valid() && !owner && r in held
      modifies `smbi, `swesmbi, `sync, `stalls, `owner, `latched,
               `spoilt, `tries, `synced, `held, `log
      ensures Valid() && !owner && Released()
      ensures held == old(held) - {r} && log == old(log) + [Gave(r)]
      ensures |synced| == |old(synced)| + 1 && old(synced) <= synced
      ensures SetFrom(synced[|synced| - 1], sync, r, false)
    {
      hide Has, ClearSw, Replays, SetFrom;
      var ret := GetHwSemaphore();
      while ret != Ok
        invariant Valid() && (if ret == Ok then latched else !owner)
        invariant held == old(held) && log == old(log)
        invariant synced == old(synced)
        decreases stalls, ret != Ok
      {
        ret := GetHwSemaphore();
      }
      var value := ReadSync();
      forall q ensures Has(ClearSw(value, r), q) <==> q != r && Has(value, q) { ClearBits(value, r, q); }
      Extend(log, Gave(r), held);
      sync := ClearSw(value, r);
      held := held - {r};
      log := log + [Gave(r)];
      SetFromRead(value, r);
      PutHwSemaphore();
    }

    // ----- NVM -----

    method PollGrant() returns (granted: bool)
      modifies `grants
      ensures grants == old(grants) + [granted]
    {
      granted := *;
      grants := grants + [granted];
    }

    /** The request and grant bits of EECD. */
    method RequestGrant() returns (ret: Code)
      modifies `request, `grants
      ensures request == (ret == Ok) && (ret == Ok || ret == ErrNvm)
      ensures Granted(old(grants), grants, ret == Ok)
    {
      var timeout := NVM_GRANT_ATTEMPTS;
      request := true;
      var granted := PollGrant();
      while timeout > 0
        invariant request && 0 <= timeout <= NVM_GRANT_ATTEMPTS
        invariant old(grants) <= grants && |grants| == |old(grants)| + 1 + (NVM_GRANT_ATTEMPTS - timeout)
        invariant granted == grants[|grants| - 1]
        invariant forall k :: |old(grants)| <= k < |grants| - 1 ==> !grants[k]
      {
        if granted { break; }
        granted := PollGrant();
        timeout := timeout - 1;
      }
      if timeout == 0 {
        request := false;
        return ErrNvm;
      }
      ret := Ok;
    }

    /** A failure leaves no semaphore and no request behind. */
    method AcquireNvm() returns (ret: Code)
      requires Valid() && !owner && !request
      modifies `smbi, `swesmbi, `sync, `stalls, `owner, `latched,
               `spoilt, `tries, `synced, `held, `log, `request, `grants
      ensures Valid() && !owner && request == (ret == Ok)
      ensures ret != ErrSwfwSync ==> Released()
      ensures ret == Ok || ret == ErrNvm || ret == ErrSwfwSync
      ensures ret != ErrSwfwSync ==> Eeprom !in old(held)
      ensures ret == Ok ==> held == old(held) + {Eeprom} && log == old(log) + [Took(Eeprom)]
      ensures ret == ErrNvm ==> held == old(held) && Session(old(log), log, Eeprom)
      ensures ret == ErrSwfwSync ==> held == old(held) && log == old(log)
      ensures ret == ErrSwfwSync ==> TimedOut(old(stalls), stalls) || |synced| == |old(synced)| + 50
      ensures ret == ErrSwfwSync ==> Polled(old(synced), synced, Eeprom, false)
      ensures if ret == ErrSwfwSync then grants == old(grants) else Granted(old(grants), grants, ret == Ok)
    {
      ret := AcquireSwfw(Eeprom);
      if ret != Ok { return; }
      ret := RequestGrant();
      if ret != Ok {
        ReleaseSwfw(Eeprom);
      }
    }

    method ReleaseNvm()
      requires Valid() && !owner && Eeprom in held
      modifies `smbi, `swesmbi, `sync, `stalls, `owner, `latched,
               `spoilt, `tries, `synced, `held, `log, `request
      ensures Valid() && !owner && !request && Released()
      ensures held == old(held) - {Eeprom} && log == old(log) + [Gave(Eeprom)]
    {
      request := false;
      ReleaseSwfw(Eeprom);
    }

    /** Prepares the part for use: legal only while the NVM is held. */
    method Prepare() returns (ready: bool)
      requires Valid() && Eeprom in held
      modifies `prepared, `log
      ensures Valid() && prepared == old(prepared) + [ready] && log == old(log) + [Touched(Eeprom)]
    {
      ready := *;
      prepared := prepared + [ready];
      Extend(log, Touched(Eeprom), held);
      log := log + [Touched(Eeprom)];
    }

    /** One pass of a driver that writes the NVM: acquire, prepare the part, use it, release,
        whatever the preparation says. */
    method NvmSession() returns (ret: Code)
      requires Valid() && !owner && !request
      modifies `smbi, `swesmbi, `sync, `stalls, `owner, `latched,
               `spoilt, `tries, `synced, `held, `log, `request, `grants, `prepared
      ensures Valid() && !owner && !request && held == old(held) && (ret != ErrSwfwSync ==> Released())
      ensures if ret == ErrSwfwSync then log == old(log) else Session(old(log), log, Eeprom) && Eeprom !in old(held)
      ensures ret == ErrSwfwSync ==> TimedOut(old(stalls), stalls) || |synced| == |old(synced)| + 50
      ensures ret == ErrSwfwSync ==> Polled(old(synced), synced, Eeprom, false)
      ensures old(prepared) <= prepared
      ensures |prepared| <= |old(prepared)| + 1
      ensures ret == Ok <==> |prepared| > |old(prepared)| && prepared[|prepared| - 1]
      ensures ret == ErrNvm ==> |prepared| > |old(prepared)| || Granted(old(grants), grants, false)
    {
      ret := AcquireNvm();
      if ret != Ok { return; }
      var ready := Prepare();
      ReleaseNvm();
      ret := if ready then Ok else ErrNvm;
    }

    // ----- PHY -----

    function Phy(): Resource { if func != 0 then Phy1 else Phy0 }

    /** One MDIC transaction: legal only while the PHY is held. */
    method Mdic(r: Resource, reg: bv32, sent: bv16) returns (ret: Code, got: bv16)
      requires Valid() && r in held
      modifies `log, `mdic
      ensures Valid() && log == old(log) + [Touched(r)] && (ret == Ok || ret == ErrPhy)
      ensures mdic == old(mdic) + [Transaction(reg, sent, ret == Ok, got)]
    {
      var failed: bool := *;
      ret := if failed then ErrPhy else Ok;
      got := *;
      Extend(log, Touched(r), held);
      log := log + [Touched(r)];
      mdic := mdic + [Transaction(reg, sent, !failed, got)];
    }

    /** Page of a register address. */
    static function Page(offset: bv32): bv16 { ((offset & 0xFFFF) as bv16) >> 5 }

    /** The register that selects the page. */
    static function Selector(offset: bv32): bv32 {
      if offset & MAX_PHY_REG_ADDRESS < GG82563_MIN_ALT_REG then GG82563_PHY_PAGE_SELECT
      else GG82563_PHY_PAGE_SELECT_ALT
    }

    /** In numbers: 32 registers to a page, of which the last two are reached through the other
        selector. */
    static lemma PageNumber(offset: bv32)
      ensures Page(offset) as bv32 == (offset % 0x1_0000) / 32
      ensures Selector(offset) == if offset % 32 >= 30 then 29 else 22
    {
    }

    /** Page selection, with its read-back where the ready bit cannot be trusted.  `wrote`
        and `heard` say whether the two transactions succeeded, `back` what the second one
        returned: a read-back that fails leaves the expected page in place and passes. */
    method SelectPage(r: Resource, offset: bv32) returns (ret: Code, ghost wrote: bool, ghost heard: bool,
            ghost back: bv16)
      requires Valid() && !owner && r in held
      modifies `log, `mdic
      ensures Valid() && (ret == Ok || ret == ErrPhy)
      ensures |mdic| > |old(mdic)| && wrote == mdic[|old(mdic)|].ok
      ensures mdic == old(mdic) + [Transaction(Selector(offset), Page(offset), wrote, mdic[|old(mdic)|].got)]
                      + (if mdicWa && wrote then [Transaction(Selector(offset), 0, heard, back)] else [])
      ensures ret == Ok <==> wrote && (mdicWa && heard ==> back == Page(offset))
      ensures |log| > |old(log)| && old(log) <= log
      ensures forall k :: |old(log)| <= k < |log| ==> log[k] == Touched(r)
    {
      hide Replays, Has, Page, Selector;
      heard := false;
      var select := Selector(offset);
      var page := Page(offset);
      var got;
      ret, got := Mdic(r, select, page);
      wrote, back := ret == Ok, got;
      if ret != Ok || !mdicWa { return; }
      var read;
      read, got := Mdic(r, select, 0);
      heard, back := read == Ok, got;
      if read == Ok && got != page {
        ret := ErrPhy;
      }
    }

    /** The page was selected first, and the last transaction was that of the register. */
    static ghost predicate Reached(before: seq<Transaction>, after: seq<Transaction>, offset: bv32, sent: bv16,
            got: bv16) {
      && before <= after && |after| >= |before| + 2
      && after[|before|].(got := 0) == Transaction(Selector(offset), Page(offset), true, 0)
      && after[|after| - 1] == Transaction(offset & 0x1F, sent, true, got)
    }

    /** The last transaction failed, or was a read-back that returned another page. */
    ghost predicate WentWrong(before: seq<Transaction>, after: seq<Transaction>, offset: bv32) {
      && before <= after && |after| > |before|
      && var last := after[|after| - 1];
         !last.ok || (mdicWa && |after| == |before| + 2 && last.got != Page(offset))
    }

    /** Page selection and the access itself, with the PHY held. */
    method UsePhy(r: Resource, offset: bv32, sent: bv16) returns (ret: Code, got: bv16)
      requires Valid() && !owner && r in held
      modifies `log, `mdic
      ensures Valid() && |log| > |old(log)| && old(log) <= log
      ensures forall k :: |old(log)| <= k < |log| ==> log[k] == Touched(r)
      ensures if ret == Ok then Reached(old(mdic), mdic, offset, sent, got)
              else ret == ErrPhy && WentWrong(old(mdic), mdic, offset)
    {
      hide Replays, Has, Page, Selector;
      got := 0;
      ghost var wrote, heard, back;
      ret, wrote, heard, back := SelectPage(r, offset);
      if ret != Ok { return; }
      ret, got := Mdic(r, MAX_PHY_REG_ADDRESS & offset, sent);
    }

    /** Reads (`write` false) or writes a PHY register: one session, whatever goes wrong. */
    method AccessPhyReg(write: bool, offset: bv32, data: bv16) returns (ret: Code, got: bv16)
      requires Valid() && !owner
      modifies `smbi, `swesmbi, `sync, `stalls, `owner, `latched,
               `spoilt, `tries, `synced, `held, `log, `mdic
      ensures Valid() && !owner && held == old(held) && (ret != ErrSwfwSync ==> Released())
      ensures Phy() == if func == 0 then Phy0 else Phy1
      ensures if ret == ErrSwfwSync then log == old(log) else Session(old(log), log, Phy()) && Phy() !in held
      ensures ret == Ok ==> Reached(old(mdic), mdic, offset, if write then data else 0, got)
      ensures ret != Ok && ret != ErrSwfwSync ==> ret == ErrPhy && WentWrong(old(mdic), mdic, offset)
      ensures ret == ErrSwfwSync ==> TimedOut(old(stalls), stalls) || |synced| == |old(synced)| + 50
      ensures ret == ErrSwfwSync ==> Polled(old(synced), synced, Phy(), false)
    {
      hide Replays, Has, HasFw, FwBits, Reached, WentWrong, Polled, Busy, SetFrom, TimedOut;
      got := 0;
      ret := AcquireSwfw(Phy());
      if ret != Ok { return; }
      ret, got := UsePhy(Phy(), offset, if write then data else 0);
      assert Open(old(log), log, Phy());
      ReleaseSwfw(Phy());
    }

    // ----- Kumeran -----

    /** The word that names a register, with the data or the read bit below it. */
    static function KmrnWord(offset: bv32, low: bv32): bv32 { ((offset << 16) & KMRNCTRLSTA_OFFSET) | low }

    /** In numbers: the register, of 32, in the upper half. */
    static lemma KmrnNumber(offset: bv32, data: bv16)
      ensures KmrnWord(offset, data as bv32) == (offset % 32) * 0x1_0000 + data as bv32
      ensures KmrnWord(offset, 0x0020_0000) == (offset % 32 + 32) * 0x1_0000
    {
    }

    /** Accesses to KMRNCTRLSTA: legal only while the CSR semaphore is held. */
    method WriteKmrn(word: bv32)
      requires Valid() && Csr in held
      modifies `log, `kmrn
      ensures Valid() && log == old(log) + [Touched(Csr)] && kmrn == old(kmrn) + [Wrote(word)]
    {
      Extend(log, Touched(Csr), held);
      log := log + [Touched(Csr)];
      kmrn := kmrn + [Wrote(word)];
    }

    method FetchKmrn() returns (word: bv32)
      requires Valid() && Csr in held
      modifies `log, `kmrn
      ensures Valid() && log == old(log) + [Touched(Csr)] && kmrn == old(kmrn) + [Fetched(word)]
    {
      word := *;
      Extend(log, Touched(Csr), held);
      log := log + [Touched(Csr)];
      kmrn := kmrn + [Fetched(word)];
    }

    /** KMRNCTRLSTA is written, and for a read also read back, while the CSR semaphore is held. */
    method AccessKmrnReg(write: bool, offset: bv32, data: bv16) returns (ret: Code, got: bv16)
      requires Valid() && !owner
      modifies `smbi, `swesmbi, `sync, `stalls, `owner, `latched,
               `spoilt, `tries, `synced, `held, `log, `kmrn
      ensures Valid() && !owner && held == old(held) && (ret == Ok ==> Released())
      ensures ret == Ok || ret == ErrSwfwSync
      ensures if ret == Ok then Session(old(log), log, Csr) && Csr !in held else log == old(log)
      ensures ret == Ok && write ==> kmrn == old(kmrn) + [Wrote(KmrnWord(offset, data as bv32))]
      ensures ret == Ok && !write ==>
                && |kmrn| == |old(kmrn)| + 2 && old(kmrn) <= kmrn
                && kmrn[|kmrn| - 2] == Wrote(KmrnWord(offset, 0x0020_0000))
                && kmrn[|kmrn| - 1].Fetched? && got == (kmrn[|kmrn| - 1].word & 0xFFFF) as bv16
      ensures ret == ErrSwfwSync ==> TimedOut(old(stalls), stalls) || |synced| == |old(synced)| + 50
      ensures ret == ErrSwfwSync ==> Polled(old(synced), synced, Csr, false)
    {
      hide Replays, Has, HasFw, FwBits, KmrnWord, Polled, Busy, SetFrom, TimedOut;
      got := 0;
      ret := AcquireSwfw(Csr);
      if ret != Ok { return; }
      WriteKmrn(KmrnWord(offset, if write then data as bv32 else KMRNCTRLSTA_REN));
      if !write {
        var word := FetchKmrn();
        got := (word & 0xFFFF) as bv16;
      }
      ReleaseSwfw(Csr);
    }
  }
}
