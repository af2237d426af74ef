/** Whole runs of the NVM: writes, commits that succeed, fail or are cut short by a power
    loss, and reboots, in any order. */
module Runs {
  import opened Nor
  import opened Commit
  import opened Flash
  import opened CrashSafety
  import opened NvmStore

  /** Flash, shadow RAM, and the images a reader may find: that of the last completed commit
      and those of the commits begun since. */
  datatype System = System(cells: seq<bv8>, shadow: seq<ShadowWord>, images: set<seq<bv16>>)

  datatype Event =
    | WriteWords(offset: nat, data: seq<bv16>)
    | CommitDone(pending: seq<ShadowWord>)
    | CommitFailed(pending: seq<ShadowWord>)
    | PowerLost(pending: seq<ShadowWord>)
    | Reboot

  ghost predicate Shape(s: System, size: nat) {
    Region(s.cells, size) && |s.shadow| == IMAGE_WORDS
  }

  /** Some bank is valid, and the bank a reader selects holds one of the expected images. */
  ghost predicate Inv(s: System, size: nat) {
    && Shape(s, size)
    && Detect(s.cells, size).Some?
    && Image(s.cells, Detect(s.cells, size).value, size) in s.images
  }

  /** What readers see. */
  ghost function ViewOf(s: System, size: nat): seq<bv16>
    requires Inv(s, size)
  {
    Overlay(s.cells, Detect(s.cells, size).value, size, s.shadow)
  }

  /** The commit was given the shadow RAM, with at most the checksum word added. */
  ghost predicate Pends(sh: seq<ShadowWord>, pending: seq<ShadowWord>) {
    && |sh| == |pending| == IMAGE_WORDS
    && (pending == sh || pending == sh[CHECKSUM_WORD := pending[CHECKSUM_WORD]])
  }

  ghost predicate Step(s: System, e: Event, s': System, size: nat)
    requires Inv(s, size)
  {
    var old_ := Detect(s.cells, size).value;
    match e
    case WriteWords(offset, data) =>
      s' == if NvmStore.InBounds(offset, |data|) then s.(shadow := Patched(s.shadow, offset, data)) else s
    case CommitDone(pending) =>
      && Pends(s.shadow, pending)
      && var img := Target(s.cells, old_, size, pending);
         Completed(s.cells, s'.cells, old_, size, img) && s'.shadow == CleanShadow() && s'.images == {img}
    case CommitFailed(pending) =>
      && Pends(s.shadow, pending)
      && var img := Target(s.cells, old_, size, pending);
         SafeCrash(s.cells, s'.cells, old_, size, img) && s'.shadow == pending && s'.images == s.images + {img}
    case PowerLost(pending) =>
      && Pends(s.shadow, pending)
      && var img := Target(s.cells, old_, size, pending);
         SafeCrash(s.cells, s'.cells, old_, size, img) && s'.shadow == CleanShadow() && s'.images == s.images + {img}
    case Reboot =>
      s' == s.(shadow := CleanShadow())
  }

  lemma StepSafe(s: System, e: Event, s': System, size: nat)
    requires Inv(s, size) && Step(s, e, s', size)
    ensures Inv(s', size)
  {
    var old_ := Detect(s.cells, size).value;
    match e
    case WriteWords(_, _) =>
    case Reboot =>
    case CommitDone(pending) =>
      var img := Target(s.cells, old_, size, pending);
      StampSigned(Overlay(s.cells, old_, size, pending)[SIG_WORD]);
      InvalidatingAtomic(s.cells, s'.cells, old_, size, img);
    case CommitFailed(pending) =>
      CrashAtomicity(s.cells, s'.cells, old_, size, pending);
    case PowerLost(pending) =>
      CrashAtomicity(s.cells, s'.cells, old_, size, pending);
  }

  ghost predicate IsRun(states: seq<System>, events: seq<Event>, size: nat) {
    && |states| == |events| + 1
    && forall k :: 0 <= k < |events| ==> Inv(states[k], size) ==> Step(states[k], events[k], states[k + 1], size)
  }

  /** Safety over whole runs: at every moment some bank is valid, and its image is that of
      the last completed commit or of one begun since. */
  lemma {:induction false} RunSafety(states: seq<System>, events: seq<Event>, size: nat, k: nat)
    requires IsRun(states, events, size) && k < |states|
    requires Inv(states[0], size)
    ensures Inv(states[k], size)
  {
    if k > 0 {
      RunSafety(states, events, size, k - 1);
      StepSafe(states[k - 1], events[k - 1], states[k], size);
    }
  }

  /** Index of the last commit that reported success among the first `k` events, plus one. */
  ghost function LastDone(events: seq<Event>, k: nat): (n: nat)
    requires k <= |events|
    ensures n <= k
  {
    if k == 0 then 0 else if events[k - 1].CommitDone? then k else LastDone(events, k - 1)
  }

  /** The image found at any moment of a run goes back to an event no older than the last
      completed commit: that commit, or a later one that failed or was cut short; before any
      commit has completed it may also be an image expected at the start. */
  lemma {:induction false} ImageOrigin(states: seq<System>, events: seq<Event>, size: nat, k: nat, img: seq<bv16>)
    requires IsRun(states, events, size) && k < |states| && Inv(states[0], size)
    requires img in states[k].images
    ensures (LastDone(events, k) == 0 && img in states[0].images)
            || exists j :: 0 <= j < k && j + 1 >= LastDone(events, k) && Writes(states[j], events[j], size, img)
  {
    if k > 0 {
      RunSafety(states, events, size, k - 1);
      if Writes(states[k - 1], events[k - 1], size, img) {
      } else {
        ImageOrigin(states, events, size, k - 1, img);
      }
    }
  }

  /** The event is a commit whose target image is `img`. */
  ghost predicate Writes(s: System, e: Event, size: nat, img: seq<bv16>) {
    && Inv(s, size)
    && (e.CommitDone? || e.CommitFailed? || e.PowerLost?)
    && Pends(s.shadow, e.pending)
    && img == Target(s.cells, Detect(s.cells, size).value, size, e.pending)
  }

  /** A failed commit leaves every logical word as it was, the checksum word apart. */
  lemma FailedCommitKeepsView(s: System, e: Event, s': System, size: nat)
    requires Inv(s, size) && Step(s, e, s', size) && e.CommitFailed?
    ensures Inv(s', size)
    ensures ViewOf(s', size) == ViewOf(s, size)[CHECKSUM_WORD := ViewOf(s', size)[CHECKSUM_WORD]]
  {
    StepSafe(s, e, s', size);
    MeaningKept(s.cells, s'.cells, Detect(s.cells, size).value, size, e.pending);
  }

  /** A completed commit keeps the logical words it was given, up to the signature bits, and
      they are now in flash: a reboot changes nothing. */
  lemma DoneCommitKeepsView(s: System, e: Event, s': System, size: nat)
    requires Inv(s, size) && Step(s, e, s', size) && e.CommitDone?
    ensures Inv(s', size)
    ensures ViewOf(s', size) == Stamp(Overlay(s.cells, Detect(s.cells, size).value, size, e.pending))
    ensures Step(s', Reboot, s', size)
  {
    StepSafe(s, e, s', size);
    CleanOverlay(s'.cells, Detect(s'.cells, size).value, size);
  }

  // ----- The driver's routines take these steps -----

  /** The start of a commit is a safe moment. */
  lemma StartIsSafe(c: seq<bv8>, old_: BankId, size: nat, img: seq<bv16>)
    requires Region(c, size) && |img| == IMAGE_WORDS && Detect(c, size) == Some(old_)
    ensures SafeCrash(c, c, old_, size, img)
  {
    if old_ == 0 {
      forall a | size <= a < 2 * size ensures c[a] & c[a] == c[a] { RaisedSelf(c[a]); }
      assert Erasing(c, c, old_, size);
    }
  }

  /** The system as an update leaves it when it fails, or when power is lost, at content `h`. */
  ghost function After(s: System, h: seq<bv8>, shadow: seq<ShadowWord>, img: seq<bv16>): System {
    System(h, shadow, s.images + {img})
  }

  /** The update routine, seen as an event.  When the bank in use was detected and the erase did
      not give up, a success is a `CommitDone` step; losing power at any covered moment, which
      the copy and signature phases always are, is a `PowerLost` step; and a failure is a
      `CommitFailed` step if it comes before the first cycle or at a covered moment. */
  method UpdateIsStep(store: NvmStore, ghost images: set<seq<bv16>>)
    returns (ret: Status, ghost t: Trace, ghost pending: seq<ShadowWord>, ghost good: bool)
    requires store.Valid() && store.SingleSector()
    requires Inv(System(store.flash.cells, store.shadow[..], images), store.flash.size)
    modifies store.flash, store.shadow
    ensures store.Valid() && old(store.flash.history) <= store.flash.history
    ensures good <==> !t.gaveUp && old(store.Active()) == Some(t.bank)
    ensures Went(old(store.flash.seen), store.flash.seen, ret == Success)
    ensures SameGuesses(old(store.flash.seen), store.flash.seen) || old(store.Active()) == Some(0) ==>
              (good <==> !t.gaveUp)
    ensures store.flash.Reliable() ==> (good <==> !t.gaveUp)
    ensures store.flash.Reliable() ==> !t.gaveUp && ret == Success
    ensures good ==> Pends(old(store.shadow[..]), pending)
    ensures good ==>
              Traced(old(store.flash.cells), store.flash.history, |old(store.flash.history)|, t, store.flash.size,
                     Target(old(store.flash.cells), t.bank, store.flash.size, pending))
    ensures var s := old(System(store.flash.cells, store.shadow[..], images));
            good && ret == Success ==>
              exists s' :: Step(s, CommitDone(pending), s', store.flash.size)
                           && s'.cells == store.flash.cells && s'.shadow == store.shadow[..]
    ensures var s, c := old(System(store.flash.cells, store.shadow[..], images)), old(store.flash.cells);
            var n := |store.flash.history|;
            good && ret != Success
            && (n == |old(store.flash.history)| || Covered(c, t, n - 1, store.flash.size)) ==>
              exists s' :: Step(s, CommitFailed(pending), s', store.flash.size)
                           && s'.cells == store.flash.cells && s'.shadow == store.shadow[..]
    ensures var s, c := old(System(store.flash.cells, store.shadow[..], images)), old(store.flash.cells);
            good ==>
              forall k :: |old(store.flash.history)| <= k < |store.flash.history|
                          && Covered(c, t, k, store.flash.size) ==>
                exists s' :: Step(s, PowerLost(pending), s', store.flash.size) && s'.cells == store.flash.history[k]
  {
    hide SafeCrash, Completed, CommitResult, Target, Traced, Covered, Served, Summed, Committed, TornErase;
    ghost var s := System(store.flash.cells, store.shadow[..], images);
    ghost var c, size, n := store.flash.cells, store.flash.size, |store.flash.history|;
    ghost var old_ := Detect(c, size).value;
    ghost var banks;
    ret, t, pending, banks := store.UpdateNvm();
    PendsSummed(s.shadow, pending, c, size, banks);
    good := !t.gaveUp && t.bank == old_;
    if good && ret == Success {
      CommitResultDone(c, old_, size, SectorSize(store.flash.eraseSize), pending);
      assert Step(s, CommitDone(pending),
                  System(store.flash.cells, CleanShadow(), {Target(c, old_, size, pending)}), size);
    }
    if good {
      forall k | n <= k < |store.flash.history| && Covered(c, t, k, size)
        ensures exists s' :: Step(s, PowerLost(pending), s', size) && s'.cells == store.flash.history[k]
      {
        MomentIsStep(s, store.flash.history, n, t, pending, k, size);
      }
      if |store.flash.history| == n {
        StartIsSafe(c, old_, size, Target(c, old_, size, pending));
        assert Step(s, CommitFailed(pending), After(s, c, pending, Target(c, old_, size, pending)), size);
      } else if Covered(c, t, |store.flash.history| - 1, size) {
        MomentIsStep(s, store.flash.history, n, t, pending, |store.flash.history| - 1, size);
      }
    }
  }

  /** A covered moment is where a failure or a power loss can leave the system. */
  lemma MomentIsStep(s: System, hs: seq<seq<bv8>>, since: nat, t: Trace, pending: seq<ShadowWord>, k: nat, size: nat)
    requires Inv(s, size) && Pends(s.shadow, pending) && Detect(s.cells, size) == Some(t.bank)
    requires Traced(s.cells, hs, since, t, size, Target(s.cells, t.bank, size, pending))
    requires since <= k < |hs| && Covered(s.cells, t, k, size)
    ensures var img := Target(s.cells, t.bank, size, pending);
            && Step(s, PowerLost(pending), After(s, hs[k], CleanShadow(), img), size)
            && Step(s, CommitFailed(pending), After(s, hs[k], pending, img), size)
  {
    hide SafeCrash, Completed, Target, Traced, Covered, Atomic;
    MomentsAtomic(s.cells, hs, since, t, size, pending, k);
  }

  lemma PendsSummed(sh: seq<ShadowWord>, pending: seq<ShadowWord>, c: seq<bv8>, size: nat, banks: seq<BankId>)
    requires Region(c, size) && |sh| == IMAGE_WORDS && |banks| <= CHECKSUM_WORD
    requires pending == sh || pending == Summed(sh, Served(c, size, sh, 0, banks))
    ensures Pends(sh, pending)
  {
    hide Served;
  }
}
