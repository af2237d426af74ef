/** The flash controller: device cycles that may fail half-way, and the driver's read,
    program, retry and erase routines on top of them. */
module Flash {
  import opened Nor

  datatype Status = Success | ErrNvm

  /** ICH parts move bytes and words, SPT parts only dwords. */
  datatype Family = Ich | Spt

  /** BERASE field of the hardware status register. */
  datatype EraseSize = Seg256 | Seg4K | Seg8K | Seg64K

  /** The device's reply to one try: the cycle was refused, it finished, or it failed, `again`
      when the status bits invite another try. */
  datatype Reply = Refused | Finished | Faulty(again: bool)

  /** What the driver has met: the replies of the device, the results of its write attempts,
      how many of its flash operations failed, and how often it had to guess the bank. */
  datatype Seen = Seen(replies: seq<Reply>, writes: seq<Status>, failed: nat, guessed: nat)

  const LINEAR_ADDR_MASK: nat := 0x00FFFFFF
  const CYCLE_REPEAT_COUNT: nat := 10
  const PROGRAM_RETRIES: nat := 100

  function SectorSize(e: EraseSize): nat {
    match e
    case Seg256 => 256
    case Seg4K => 4096
    case Seg8K => 8192
    case Seg64K => 65536
  }

  function DwordBytes(d: bv32): (r: seq<bv8>)
    ensures |r| == 4
  {
    [(d & 0xFF) as bv8, ((d >> 8) & 0xFF) as bv8, ((d >> 16) & 0xFF) as bv8, (d >> 24) as bv8]
  }

  function MakeDword(lo: bv16, hi: bv16): bv32 { (hi as bv32 << 16) | (lo as bv32) }

  function DwordAt(c: seq<bv8>, a: nat): bv32
    requires a + 3 < |c|
  {
    MakeDword(WordAt(c, a), WordAt(c, a + 2))
  }

  /** The address of the j-th erase cycle when no cycle fails: the loop adds `j * sector`
      to an address that already holds the earlier offsets. */
  function EraseAddress(base: nat, sector: nat, j: nat): nat {
    if j == 0 then base else EraseAddress(base, sector, j - 1) + j * sector
  }

  /** Number of erase cycles for a bank of `size` bytes: the 256-byte mode covers the bank, the
      others one sector. */
  function Cycles(mode: EraseSize, size: nat): nat { if mode == Seg256 then size / 256 else 1 }

  /** Bits left by a program cycle over `c` whose progress is given by `noise`. */
  function ProgramMix(c: seq<bv8>, at: nat, vals: seq<bv8>, noise: seq<bv8>): (r: seq<bv8>)
    requires at + |vals| <= |c|
    ensures TornProgram(c, r, at, vals)
  {
    var r := seq(|c|, a requires 0 <= a < |c| =>
      if at <= a < at + |vals| then Mixed(c[a], vals[a - at], if a - at < |noise| then noise[a - at] else 0)
      else c[a]);
    r
  }

  function Mixed(o: bv8, v: bv8, noise: bv8): (x: bv8)
    ensures Between(o, v, x)
  {
    (o & v) | (o & noise)
  }

  /** The contents passed through during a program cycle. */
  function MidProgram(c: seq<bv8>, at: nat, vals: seq<bv8>, passed: seq<seq<bv8>>): (hs: seq<seq<bv8>>)
    requires at + |vals| <= |c|
    ensures AllTornProgram(c, hs, 0, at, vals)
  {
    seq(|passed|, k requires 0 <= k < |passed| => ProgramMix(c, at, vals, passed[k]))
  }

  /** The contents passed through during an erase cycle. */
  function MidErase(c: seq<bv8>, lo: nat, hi: nat, passed: seq<seq<bv8>>): (hs: seq<seq<bv8>>)
    ensures AllTornErase(c, hs, 0, lo, hi)
  {
    seq(|passed|, k requires 0 <= k < |passed| => EraseMix(c, lo, hi, passed[k]))
  }

  /** Bits left by an erase cycle over [lo, hi) whose progress is given by `noise`. */
  function EraseMix(c: seq<bv8>, lo: nat, hi: nat, noise: seq<bv8>): (r: seq<bv8>)
    ensures TornErase(c, r, lo, hi)
  {
    seq(|c|, a requires 0 <= a < |c| =>
      if lo <= a < hi then c[a] | (if a - lo < |noise| then noise[a - lo] else 0) else c[a])
  }

  ghost predicate AllTornProgram(c: seq<bv8>, hs: seq<seq<bv8>>, since: nat, at: nat, vals: seq<bv8>)
    requires at + |vals| <= |c|
  {
    forall k :: since <= k < |hs| ==> TornProgram(c, hs[k], at, vals)
  }

  ghost predicate AllTornErase(c: seq<bv8>, hs: seq<seq<bv8>>, since: nat, lo: nat, hi: nat) {
    forall k :: since <= k < |hs| ==> TornErase(c, hs[k], lo, hi)
  }

  /** The tries of one operation: at most eleven, each one but the last with a failure that
      invites another, and the last one deciding. */
  ghost predicate Tried(tries: seq<Reply>, ret: Status) {
    && 1 <= |tries| <= 11
    && (forall k :: 0 <= k < |tries| - 1 ==> tries[k] == Faulty(true))
    && (ret == Success <==> tries[|tries| - 1] == Finished)
    && (tries[|tries| - 1] == Faulty(true) ==> |tries| == 11)
  }

  /** The attempts of a write that is tried again: at most a hundred and one, each one but the
      last a failure, and a failure at the end only after all of them. */
  ghost predicate Attempted(results: seq<Status>, ret: Status) {
    && 1 <= |results| <= 101
    && (forall k :: 0 <= k < |results| - 1 ==> results[k] == ErrNvm)
    && (ret == Success <==> results[|results| - 1] == Success)
    && (ret == ErrNvm ==> |results| == 101)
  }

  /** The tries of one sector of an erase, `failures` cycles having failed before it: another
      try follows a failure only while fewer than ten cycles have failed in all. */
  ghost predicate SectorTried(tries: seq<Reply>, failures: nat, ret: Status, done: bool) {
    && |tries| >= 1
    && (forall k :: 0 <= k < |tries| - 1 ==> tries[k] == Faulty(true))
    && (|tries| > 1 ==> failures + |tries| - 1 < 10)
    && (done <==> tries[|tries| - 1] == Finished)
    && (ret == ErrNvm <==> GaveNoWay(tries[|tries| - 1]))
    && (tries[|tries| - 1] == Faulty(true) ==> failures + |tries| >= 10)
  }

  /** What an operation built on flash operations adds to the record: it fails, with `ok` false,
      exactly when one of them has failed, and stops there. */
  ghost predicate Went(s: Seen, s': Seen, ok: bool) {
    && s.replies <= s'.replies
    && s.writes <= s'.writes
    && s'.failed == s.failed + (if ok then 0 else 1)
    && s.guessed <= s'.guessed
  }

  /** The same for one that looks for no bank. */
  ghost predicate WentSure(s: Seen, s': Seen, ok: bool) { Went(s, s', ok) && s'.guessed == s.guessed }

  /** The last try was made in between, and did not finish. */
  ghost predicate Unanswered(s: Seen, s': Seen) {
    |s.replies| < |s'.replies| && s'.replies[|s'.replies| - 1] != Finished
  }

  /** The controller refused the cycle or hung. */
  predicate GaveNoWay(r: Reply) { r == Refused || r == Faulty(false) }

  class FlashController {
    const family: Family
    const eraseSize: EraseSize
    /** Bank size in bytes. */
    const size: nat
    /** Whether the part may report errors on its cycles. */
    const mayFail: bool
    /** Content of the two banks, from the first byte of bank 0. */
    var cells: seq<bv8>
    /** Every content the array has had, mid-cycle ones included: where power can be lost. */
    ghost var history: seq<seq<bv8>>
    /** Addresses given to the erase cycles. */
    ghost var erases: seq<nat>
    ghost var seen: Seen

    ghost predicate Valid()
      reads `cells, `history
    {
      Region(cells, size) && |history| > 0 && history[|history| - 1] == cells
    }

    /** Cycles succeed and every address of the region can be sent to the part. */
    predicate Reliable() { !mayFail && 2 * size <= LINEAR_ADDR_MASK + 1 }

    constructor (family: Family, eraseSize: EraseSize, size: nat, mayFail: bool, content: seq<bv8>)
      requires Region(content, size)
      ensures Valid() && cells == content && history == [content] && erases == []
      ensures this.family == family && this.eraseSize == eraseSize
      ensures this.size == size && this.mayFail == mayFail
      ensures seen == Seen([], [], 0, 0)
    {
      this.family, this.eraseSize, this.size, this.mayFail := family, eraseSize, size, mayFail;
      cells, history, erases, seen := content, [content], [], Seen([], [], 0, 0);
    }

    // ----- Device -----

    /** Descriptor check and wait for the previous cycle. */
    method CycleInit() returns (ret: Status)
      modifies `seen
      ensures !mayFail ==> ret == Success
      ensures seen == if ret == Success then old(seen) else Replied(old(seen), Refused)
    {
      var busy: bool := *;
      ret := if mayFail && busy then ErrNvm else Success;
      if ret != Success { seen := Replied(seen, Refused); }
    }

    static ghost function Replied(s: Seen, r: Reply): Seen { s.(replies := s.replies + [r]) }

    static ghost function Outcome(ret: Status, fcerr: bool, done: bool): Reply {
      if ret == Success then Finished else Faulty(fcerr || done)
    }

    /** Outcome of a started cycle; after an error, the status bits the driver then reads. */
    method CycleOutcome() returns (ret: Status, fcerr: bool, done: bool)
      modifies `seen
      ensures !mayFail ==> ret == Success
      ensures seen == Replied(old(seen), Outcome(ret, fcerr, done))
    {
      var failed: bool := *;
      ret := if mayFail && failed then ErrNvm else Success;
      fcerr := *;
      done := *;
      seen := Replied(seen, Outcome(ret, fcerr, done));
    }

    method ProgramCycle(at: nat, vals: seq<bv8>) returns (ret: Status, fcerr: bool, done: bool)
      requires Valid() && at + |vals| <= |cells|
      modifies `cells, `history, `seen
      ensures Valid()
      ensures !mayFail ==> ret == Success
      ensures seen == Replied(old(seen), Outcome(ret, fcerr, done))
      ensures ret == Success ==> cells == Programmed(old(cells), at, vals)
      ensures TornProgram(old(cells), cells, at, vals)
      ensures old(history) <= history
      ensures AllTornProgram(old(cells), history, |old(history)|, at, vals)
    {
      ret, fcerr, done := CycleOutcome();
      var noise: seq<bv8> := *;
      ghost var passed: seq<seq<bv8>> := *;
      ghost var mid := MidProgram(cells, at, vals, passed);
      ProgrammedIsTorn(cells, at, vals);
      cells := if ret == Success then Programmed(cells, at, vals) else ProgramMix(cells, at, vals, noise);
      history := history + (mid + [cells]);
    }

    method EraseCycle(at: nat) returns (ret: Status, fcerr: bool, done: bool)
      requires Valid()
      modifies this
      ensures Valid()
      ensures !mayFail ==> ret == Success
      ensures seen == Replied(old(seen), Outcome(ret, fcerr, done))
      ensures old(history) < history
      ensures ret == Success ==> cells == Erased(old(cells), SectorStart(at), SectorEnd(at))
      ensures TornErase(old(cells), cells, SectorStart(at), SectorEnd(at))
      ensures AllTornErase(old(cells), history, |old(history)|, SectorStart(at), SectorEnd(at))
      ensures erases == old(erases) + [at]
    {
      ret, fcerr, done := CycleOutcome();
      var lo, hi := SectorStart(at), SectorEnd(at);
      ErasedIsTorn(cells, lo, hi);
      var noise: seq<bv8> := *;
      ghost var passed: seq<seq<bv8>> := *;
      ghost var mid := MidErase(cells, lo, hi, passed);
      cells := if ret == Success then Erased(cells, lo, hi) else EraseMix(cells, lo, hi, noise);
      history := history + (mid + [cells]);
      erases := erases + [at];
    }

    /** Only replies have been added. */
    static ghost predicate NewReplies(s: Seen, s': Seen) {
      s.replies <= s'.replies && s' == s.(replies := s'.replies)
    }

    /** `n` failures, each of which invites another try. */
    static ghost predicate AllAgain(tries: seq<Reply>, n: nat) {
      |tries| == n && forall k :: 0 <= k < n ==> tries[k] == Faulty(true)
    }

    /** A flash operation of the driver that ended with `ret`: replies were added, and a failure
        is counted. */
    static ghost predicate Ended(s: Seen, s': Seen, ret: Status) {
      NewReplies(if ret == Success then s else s.(failed := s.failed + 1), s')
    }

    // ----- Reads -----

    /** One to eleven read cycles; the data register is meaningful after a success. */
    method ReadCycles() returns (ret: Status)
      modifies `seen
      ensures !mayFail ==> ret == Success
      ensures NewReplies(old(seen), seen)
      ensures Tried(seen.replies[|old(seen.replies)|..], ret)
    {
      var count := 0;
      while true
        invariant 0 <= count <= CYCLE_REPEAT_COUNT
        invariant NewReplies(old(seen), seen) && AllAgain(seen.replies[|old(seen.replies)|..], count)
        decreases CYCLE_REPEAT_COUNT - count
      {
        ret := CycleInit();
        if ret != Success { return; }
        var fcerr, done;
        ret, fcerr, done := CycleOutcome();
        if ret == Success { return; }
        if !fcerr && !done { return; }
        if count == CYCLE_REPEAT_COUNT { return; }
        count := count + 1;
      }
    }

    /** Counts the failure of a flash operation. */
    ghost method Fail()
      modifies `seen
      ensures seen == old(seen).(failed := old(seen.failed) + 1)
    {
      seen := seen.(failed := seen.failed + 1);
    }

    method ReadFlashData(offset: nat, bytes: nat) returns (ret: Status, data: bv16)
      requires Valid() && (bytes == 1 ==> offset < |cells|) && (bytes == 2 ==> offset + 2 <= |cells|)
      modifies `seen
      ensures Ended(old(seen), seen, ret)
      ensures bytes < 1 || bytes > 2 || offset > LINEAR_ADDR_MASK ==> ret == ErrNvm
      ensures 1 <= bytes <= 2 && offset <= LINEAR_ADDR_MASK ==> Tried(seen.replies[|old(seen.replies)|..], ret)
      ensures ret == Success ==>
                data == if bytes == 1 then cells[offset] as bv16 else WordAt(cells, offset)
      ensures Reliable() && 1 <= bytes <= 2 ==> ret == Success
    {
      data := 0;
      if bytes < 1 || bytes > 2 || offset > LINEAR_ADDR_MASK {
        Fail();
        return ErrNvm, 0;
      }
      ret := ReadCycles();
      if ret != Success { Fail(); }
      if ret == Success {
        data := if bytes == 1 then cells[offset] as bv16 else WordAt(cells, offset);
      }
    }

    method ReadFlashByte(offset: nat) returns (ret: Status, data: bv8)
      requires Valid() && offset < |cells|
      modifies `seen
      ensures Ended(old(seen), seen, ret)
      ensures family == Spt ==> ret == ErrNvm
      ensures family == Ich && offset <= LINEAR_ADDR_MASK ==> Tried(seen.replies[|old(seen.replies)|..], ret)
      ensures ret == Success ==> data == cells[offset]
      ensures Reliable() && family == Ich ==> ret == Success
    {
      data := 0;
      if family == Spt {
        Fail();
        return ErrNvm, 0;
      }
      var word;
      ret, word := ReadFlashData(offset, 1);
      if ret == Success {
        data := (word & 0xFF) as bv8;
      }
    }

    /** `offset` in words. */
    method ReadFlashWord(offset: nat) returns (ret: Status, data: bv16)
      requires Valid() && 2 * offset + 2 <= |cells|
      modifies `seen
      ensures Ended(old(seen), seen, ret)
      ensures 2 * offset <= LINEAR_ADDR_MASK ==> Tried(seen.replies[|old(seen.replies)|..], ret)
      ensures ret == Success ==> data == WordAt(cells, 2 * offset)
      ensures Reliable() ==> ret == Success
    {
      ret, data := ReadFlashData(2 * offset, 2);
    }

    /** `offset` in words. */
    method ReadFlashDword(offset: nat) returns (ret: Status, data: bv32)
      requires Valid() && 2 * offset + 4 <= |cells|
      modifies `seen
      ensures Ended(old(seen), seen, ret)
      ensures family != Spt || 2 * offset > LINEAR_ADDR_MASK ==> ret == ErrNvm
      ensures family == Spt && 2 * offset <= LINEAR_ADDR_MASK ==> Tried(seen.replies[|old(seen.replies)|..], ret)
      ensures ret == Success ==> data == DwordAt(cells, 2 * offset)
      ensures Reliable() && family == Spt ==> ret == Success
    {
      data := 0;
      if 2 * offset > LINEAR_ADDR_MASK || family != Spt {
        Fail();
        return ErrNvm, 0;
      }
      ret := ReadCycles();
      if ret != Success { Fail(); }
      if ret == Success {
        data := DwordAt(cells, 2 * offset);
      }
    }

    // ----- Programming -----

    /** What one write attempt adds to the record: replies, and its result. */
    static ghost predicate Attempt(s: Seen, s': Seen, ret: Status) {
      NewReplies(s.(writes := s.writes + [ret]), s')
    }

    /** Whether the part takes such a write at all. */
    predicate Writable(offset: nat, bytes: nat) {
      (if family == Spt then bytes == 4 else 1 <= bytes <= 2) && offset <= LINEAR_ADDR_MASK
    }

    /** One write attempt: one to eleven program cycles of the same bytes. */
    method WriteFlashData(offset: nat, vals: seq<bv8>) returns (ret: Status)
      requires Valid() && offset + |vals| <= |cells|
      modifies `cells, `history, `seen
      ensures Valid()
      ensures Attempt(old(seen), seen, ret)
      ensures !Writable(offset, |vals|) ==> ret == ErrNvm && cells == old(cells) && history == old(history)
      ensures Writable(offset, |vals|) ==> Tried(seen.replies[|old(seen.replies)|..], ret)
      ensures ret == Success ==> cells == Programmed(old(cells), offset, vals)
      ensures TornProgram(old(cells), cells, offset, vals)
      ensures old(history) <= history
      ensures AllTornProgram(old(cells), history, |old(history)|, offset, vals)
      ensures Reliable() && |vals| == (if family == Spt then 4 else 1) ==> ret == Success
    {
      ProgrammedIsTorn(cells, offset, vals);
      if (if family == Spt then |vals| != 4 else |vals| < 1 || |vals| > 2) || offset > LINEAR_ADDR_MASK {
        seen := seen.(writes := seen.writes + [ErrNvm]);
        return ErrNvm;
      }
      ret := ProgramCycles(offset, vals);
      seen := seen.(writes := seen.writes + [ret]);
    }

    /** The cycles of a write attempt. */
    method ProgramCycles(offset: nat, vals: seq<bv8>) returns (ret: Status)
      requires Valid() && offset + |vals| <= |cells|
      modifies `cells, `history, `seen
      ensures Valid()
      ensures NewReplies(old(seen), seen) && Tried(seen.replies[|old(seen.replies)|..], ret)
      ensures ret == Success ==> cells == Programmed(old(cells), offset, vals)
      ensures TornProgram(old(cells), cells, offset, vals)
      ensures old(history) <= history
      ensures AllTornProgram(old(cells), history, |old(history)|, offset, vals)
      ensures !mayFail ==> ret == Success
    {
      ProgrammedIsTorn(cells, offset, vals);
      var count := 0;
      while true
        invariant Valid() && |cells| == |old(cells)|
        invariant 0 <= count <= CYCLE_REPEAT_COUNT
        invariant NewReplies(old(seen), seen) && AllAgain(seen.replies[|old(seen.replies)|..], count)
        invariant TornProgram(old(cells), cells, offset, vals)
        invariant old(history) <= history
        invariant AllTornProgram(old(cells), history, |old(history)|, offset, vals)
        decreases CYCLE_REPEAT_COUNT - count
      {
        ret := CycleInit();
        if ret != Success { return; }
        ghost var before, n := cells, |history|;
        var fcerr, done;
        ret, fcerr, done := ProgramCycle(offset, vals);
        TornHistory(old(cells), before, history, n, offset, vals);
        TornProgramTrans(old(cells), before, cells, offset, vals);
        if ret == Success {
          RetryReachesIntent(old(cells), before, offset, vals);
          return;
        }
        if !fcerr && !done { return; }
        if count == CYCLE_REPEAT_COUNT { return; }
        count := count + 1;
      }
    }

    /** Replies and the results of write attempts have been added. */
    static ghost predicate NewAttempts(s: Seen, s': Seen) {
      s.writes <= s'.writes && NewReplies(s.(writes := s'.writes), s')
    }

    static ghost predicate AllFailed(results: seq<Status>, n: nat) {
      |results| == n && forall k :: 0 <= k < n ==> results[k] == ErrNvm
    }

    /** Programs `vals`, giving the write up to a hundred more chances. */
    method RetryWrite(offset: nat, vals: seq<bv8>) returns (ret: Status)
      requires Valid() && offset + |vals| <= |cells|
      modifies `cells, `history, `seen
      ensures Valid()
      ensures NewAttempts(if ret == Success then old(seen) else old(seen).(failed := old(seen.failed) + 1), seen)
      ensures Attempted(seen.writes[|old(seen.writes)|..], ret)
      ensures ret == Success ==> cells == Programmed(old(cells), offset, vals)
      ensures TornProgram(old(cells), cells, offset, vals)
      ensures old(history) <= history
      ensures AllTornProgram(old(cells), history, |old(history)|, offset, vals)
      ensures Reliable() && |vals| == (if family == Spt then 4 else 1) ==> ret == Success
    {
      ret := WriteFlashData(offset, vals);
      if ret == Success { return; }
      var retries := 0;
      while retries < PROGRAM_RETRIES
        invariant Valid() && |cells| == |old(cells)| && retries <= PROGRAM_RETRIES
        invariant NewAttempts(old(seen), seen) && AllFailed(seen.writes[|old(seen.writes)|..], retries + 1)
        invariant TornProgram(old(cells), cells, offset, vals)
        invariant old(history) <= history
        invariant AllTornProgram(old(cells), history, |old(history)|, offset, vals)
        invariant !(Reliable() && |vals| == (if family == Spt then 4 else 1))
      {
        ghost var before, n := cells, |history|;
        ret := WriteFlashData(offset, vals);
        TornHistory(old(cells), before, history, n, offset, vals);
        TornProgramTrans(old(cells), before, cells, offset, vals);
        if ret == Success {
          RetryReachesIntent(old(cells), before, offset, vals);
          break;
        }
        retries := retries + 1;
      }
      if retries == PROGRAM_RETRIES {
        Fail();
        return ErrNvm;
      }
      ret := Success;
    }

    // ----- Erasing -----

    /** The inner loop of the erase routine: cycles until one succeeds, the controller
        hangs, or the shared failure count reaches its limit.  `step` is added to the
        address before every cycle.  `done` says that a cycle succeeded, `clean` that the
        first one did. */
    method EraseSector(addr: nat, step: nat, failures: nat)
      returns (ret: Status, addr': nat, failures': nat, ghost done: bool, ghost clean: bool)
      requires Valid()
      modifies this
      ensures Valid() && old(history) <= history
      ensures NewReplies(old(seen), seen)
      ensures SectorTried(seen.replies[|old(seen.replies)|..], failures, ret, done)
      ensures failures' == failures + |seen.replies| - |old(seen.replies)|
                           - (if done || ret != Success then 1 else 0)
      ensures !mayFail ==> clean
      ensures clean ==> done && addr' == addr + step && erases == old(erases) + [addr + step]
      ensures done ==> ret == Success && old(history) < history
      ensures !done && ret == Success ==> failures' >= CYCLE_REPEAT_COUNT
      ensures failures' >= failures && |erases| >= |old(erases)| + failures' - failures
      ensures step == 0 && done ==> cells == Erased(old(cells), SectorStart(addr), SectorEnd(addr))
      ensures step == 0 ==> TornErase(old(cells), cells, SectorStart(addr), SectorEnd(addr))
      ensures step == 0 ==> AllTornErase(old(cells), history, |old(history)|, SectorStart(addr), SectorEnd(addr))
    {
      addr', failures', done, clean := addr, failures, false, true;
      while true
        invariant Valid() && old(history) <= history && !done && failures' >= failures
        invariant NewReplies(old(seen), seen)
        invariant AllAgain(seen.replies[|old(seen.replies)|..], failures' - failures)
        invariant failures' > failures ==> failures' < CYCLE_REPEAT_COUNT
        invariant !mayFail ==> clean
        invariant clean ==> addr' == addr && erases == old(erases)
        invariant |erases| == |old(erases)| + failures' - failures
        invariant step == 0 ==> addr' == addr
        invariant step == 0 ==> TornErase(old(cells), cells, SectorStart(addr), SectorEnd(addr))
        invariant step == 0 ==> AllTornErase(old(cells), history, |old(history)|, SectorStart(addr), SectorEnd(addr))
        decreases CYCLE_REPEAT_COUNT - failures'
      {
        ret := CycleInit();
        if ret != Success {
          clean := false;
          return;
        }
        addr' := addr' + step;
        ghost var before, n := cells, |history|;
        var fcerr, flcdone;
        ret, fcerr, flcdone := EraseCycle(addr');
        if step == 0 {
          TornEraseHistory(old(cells), before, history, n, SectorStart(addr), SectorEnd(addr));
          TornEraseTrans(old(cells), before, cells, SectorStart(addr), SectorEnd(addr));
          ErasedAgain(old(cells), before, SectorStart(addr), SectorEnd(addr));
        }
        if ret == Success {
          done := true;
          return;
        }
        clean := false;
        if !fcerr && !flcdone { return; }
        failures' := failures' + 1;
        if failures' >= CYCLE_REPEAT_COUNT {
          ret := Success;
          return;
        }
      }
    }

    /** Erases the sectors of a bank.  A cycle that reports FCERR is tried again, but once
        ten have failed the loop moves on and the routine still reports success.  `done`
        says that every sector had a successful cycle, `clean` that no cycle failed. */
    method EraseBank(bank: BankId) returns (ret: Status, ghost done: bool, ghost clean: bool)
      requires Valid()
      modifies this
      ensures Valid() && old(history) <= history
      ensures Ended(old(seen), seen, ret)
      ensures ret == ErrNvm ==>
                |seen.replies| > |old(seen.replies)| && GaveNoWay(seen.replies[|seen.replies| - 1])
      ensures !mayFail ==> clean
      ensures clean ==> done && erases == old(erases) + EraseAddresses(bank)
      ensures clean ==> |erases| == |old(erases)| + (if eraseSize == Seg256 then size / 256 else 1)
      ensures done ==> ret == Success && old(history) < history
      ensures !done && ret == Success ==> |erases| >= |old(erases)| + 10
      ensures |seen.replies| <= |old(seen.replies)| + Cycles(eraseSize, size) + 9
      ensures eraseSize != Seg256 && done ==>
                cells == Erased(old(cells), SectorStart(Base(bank, size)), SectorEnd(Base(bank, size)))
      ensures eraseSize != Seg256 ==>
                && TornErase(old(cells), cells, SectorStart(Base(bank, size)), SectorEnd(Base(bank, size)))
                && AllTornErase(old(cells), history, |old(history)|,
                                SectorStart(Base(bank, size)), SectorEnd(Base(bank, size)))
    {
      var sector := SectorSize(eraseSize);
      var iteration := Cycles(eraseSize, size);
      var linearAddr: nat := Base(bank, size);
      var failures: nat := 0;
      done, clean := true, true;
      var j := 0;
      while j < iteration
        invariant Valid() && old(history) <= history && 0 <= j <= iteration && NewReplies(old(seen), seen)
        invariant j == 0 ==> cells == old(cells) && history == old(history) && linearAddr == Base(bank, size)
        invariant !mayFail ==> clean
        invariant done && j > 0 ==> old(history) < history
        invariant |erases| >= |old(erases)| + failures && (!done ==> failures >= CYCLE_REPEAT_COUNT)
        invariant |seen.replies| <= |old(seen.replies)| + j + (if failures < 9 then failures else 9)
        invariant j == 0 ==> done && failures == 0 && erases == old(erases)
        invariant clean ==> done && erases == old(erases) + EraseRun(bank, j)
        invariant clean && j > 0 ==> linearAddr == EraseAddress(Base(bank, size), sector, j - 1)
        invariant eraseSize != Seg256 && done && j > 0 ==>
          cells == Erased(old(cells), SectorStart(Base(bank, size)), SectorEnd(Base(bank, size)))
        invariant eraseSize != Seg256 ==>
          && TornErase(old(cells), cells, SectorStart(Base(bank, size)), SectorEnd(Base(bank, size)))
          && AllTornErase(old(cells), history, |old(history)|,
                          SectorStart(Base(bank, size)), SectorEnd(Base(bank, size)))
      {
        ghost var sectorDone, sectorClean;
        ret, linearAddr, failures, sectorDone, sectorClean := EraseSector(linearAddr, j * sector, failures);
        done, clean := done && sectorDone, clean && sectorClean;
        if ret != Success {
          Fail();
          return;
        }
        j := j + 1;
      }
      ret := Success;
    }

    function SectorStart(a: nat): nat { a - a % SectorSize(eraseSize) }

    function SectorEnd(a: nat): nat { SectorStart(a) + SectorSize(eraseSize) }

    /** The first `n` addresses a flawless erase of the bank sends to the part. */
    ghost function EraseRun(bank: BankId, n: nat): seq<nat> {
      seq(n, i requires 0 <= i < n => EraseAddress(Base(bank, size), SectorSize(eraseSize), i))
    }

    ghost function EraseAddresses(bank: BankId): seq<nat> {
      EraseRun(bank, Cycles(eraseSize, size))
    }
  }

  lemma TornEraseTrans(c: seq<bv8>, m: seq<bv8>, h: seq<bv8>, lo: nat, hi: nat)
    requires TornErase(c, m, lo, hi) && TornErase(m, h, lo, hi)
    ensures TornErase(c, h, lo, hi)
  {
    forall a | 0 <= a < |c| && lo <= a < hi ensures h[a] & c[a] == c[a] {
      RaisedTrans(c[a], m[a], h[a]);
    }
  }

  lemma ErasedAgain(c: seq<bv8>, m: seq<bv8>, lo: nat, hi: nat)
    requires TornErase(c, m, lo, hi)
    ensures Erased(m, lo, hi) == Erased(c, lo, hi)
  {
  }

  lemma RaisedTrans(o: bv8, m: bv8, x: bv8)
    requires m & o == o && x & m == m
    ensures x & o == o
  {
  }

  lemma TornEraseHistory(c: seq<bv8>, m: seq<bv8>, hs: seq<seq<bv8>>, since: nat, lo: nat, hi: nat)
    requires TornErase(c, m, lo, hi) && AllTornErase(m, hs, since, lo, hi)
    ensures AllTornErase(c, hs, since, lo, hi)
  {
    forall k | since <= k < |hs| ensures TornErase(c, hs[k], lo, hi) {
      TornEraseTrans(c, m, hs[k], lo, hi);
    }
  }

  lemma TornHistory(c: seq<bv8>, m: seq<bv8>, hs: seq<seq<bv8>>, since: nat, at: nat, vals: seq<bv8>)
    requires at + |vals| <= |c|
    requires TornProgram(c, m, at, vals) && AllTornProgram(m, hs, since, at, vals)
    ensures AllTornProgram(c, hs, since, at, vals)
  {
    forall k | since <= k < |hs| ensures TornProgram(c, hs[k], at, vals) {
      TornProgramTrans(c, m, hs[k], at, vals);
    }
  }
}
