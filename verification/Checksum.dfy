/** The checksum of the NVM image through the shadow RAM, a commit and a reboot. */
module Checksum {
  import opened Nor
  import opened Commit
  import opened Flash
  import opened CrashSafety
  import opened NvmStore

  /** The self-test accepts the image. */
  predicate Accepts(img: seq<bv16>)
    requires |img| == IMAGE_WORDS
  {
    Sum(img[..CHECKSUM_WORD + 1]) == NVM_SUM
  }

  /** Replacing one word changes the sum, unless the word is the same. */
  lemma {:induction false} SumReplaced(s: seq<bv16>, i: nat, v: bv16)
    requires i < |s|
    ensures Sum(s[i := v]) == Sum(s) <==> v == s[i]
  {
    hide Plus;
    var t := s[i := v];
    var n := |s| - 1;
    if i == n {
      assert t[..n] == s[..n];
      CancelLeft(Sum(s[..n]), v, s[n]);
    } else {
      assert t[..n] == s[..n][i := v];
      assert s[..n][i] == s[i];
      SumReplaced(s[..n], i, v);
      CancelRight(Sum(t[..n]), Sum(s[..n]), s[n]);
    }
  }

  lemma CancelRight(a: bv16, b: bv16, l: bv16)
    ensures Plus(a, l) == Plus(b, l) ==> a == b
  {
    hide Minus;
    PlusMinus(a, l, Plus(a, l));
    PlusMinus(b, l, Plus(b, l));
  }

  function Minus(a: bv16, b: bv16): bv16 { a - b }

  lemma PlusMinus(a: bv16, l: bv16, p: bv16)
    requires p == a + l
    ensures Minus(p, l) == a
  {
  }

  lemma CancelLeft(l: bv16, a: bv16, b: bv16)
    ensures Plus(l, a) == Plus(l, b) ==> a == b
  {
    PlusCommutes(l, a);
    PlusCommutes(l, b);
    hide Plus;
    CancelRight(a, b, l);
  }

  lemma PlusCommutes(a: bv16, b: bv16)
    ensures Plus(a, b) == Plus(b, a)
  {
  }

  /** Once the checksum word is pending, the logical image passes the self-test. */
  lemma ChecksumBalances(c: seq<bv8>, bank: BankId, size: nat, sh: seq<ShadowWord>)
    requires Region(c, size) && |sh| == IMAGE_WORDS
    ensures var img := Overlay(c, bank, size, sh);
            var img' := Overlay(c, bank, size, WithChecksum(sh, img));
            && img' == img[CHECKSUM_WORD := Complement(Sum(img[..CHECKSUM_WORD]))]
            && Accepts(img')
  {
    var img := Overlay(c, bank, size, sh);
    var img' := Overlay(c, bank, size, WithChecksum(sh, img));
    assert img' == img[CHECKSUM_WORD := Complement(Sum(img[..CHECKSUM_WORD]))];
    SumStep(img', CHECKSUM_WORD);
    assert img'[..CHECKSUM_WORD] == img[..CHECKSUM_WORD];
    Completes(Sum(img[..CHECKSUM_WORD]));
  }

  lemma Completes(a: bv16)
    ensures Plus(a, Complement(a)) == NVM_SUM
  {
  }

  /** Forcing the signature bits keeps the sum exactly when they were already 10b. */
  lemma StampedChecksum(img: seq<bv16>)
    requires |img| == IMAGE_WORDS && Accepts(img)
    ensures Accepts(Stamp(img)) <==> SigValid(Hi(img[SIG_WORD]))
  {
    var w := img[SIG_WORD];
    StampSigned(w);
    var s := img[..CHECKSUM_WORD + 1];
    assert Stamp(img)[..CHECKSUM_WORD + 1] == s[SIG_WORD := StampWord(w)];
    SumReplaced(s, SIG_WORD, StampWord(w));
  }

  /** The image an update commits passes the self-test exactly when the logical word 0x13
      carried valid signature bits before it. */
  lemma CommittedChecksum(c: seq<bv8>, bank: BankId, size: nat, sh: seq<ShadowWord>)
    requires Region(c, size) && |sh| == IMAGE_WORDS
    ensures var img := Overlay(c, bank, size, sh);
            Accepts(Target(c, bank, size, WithChecksum(sh, img))) <==> SigValid(Hi(img[SIG_WORD]))
  {
    ChecksumBalances(c, bank, size, sh);
    StampedChecksum(Overlay(c, bank, size, WithChecksum(sh, Overlay(c, bank, size, sh))));
  }

  /** What the self-test says of an image that was committed from the logical image `img`. */
  function Verdict(img: seq<bv16>): int
    requires |img| == IMAGE_WORDS
  {
    if SigValid(Hi(img[SIG_WORD])) then 0 else 2
  }

  /** The update took the bank `b` for the bank in use throughout, and its erase happened. */
  predicate Sound(t: Trace, banks: seq<BankId>, b: BankId) { !t.gaveUp && t.bank == b && AllFrom(banks, b) }

  /** A sound update that succeeded, through whatever retries: the other bank is in use, with
      the stamped image and its checksum, and the cache is empty. */
  lemma SoundUpdate(c: seq<bv8>, b: BankId, size: nat, sector: nat, sh: seq<ShadowWord>)
    requires Region(c, size) && |sh| == IMAGE_WORDS && IMAGE_BYTES <= sector <= size
    ensures var img := Overlay(c, b, size, sh);
            var r := CommitResult(c, b, size, sector, WithChecksum(sh, img));
            && Detect(r, size) == Some(Other(b))
            && Overlay(r, Other(b), size, CleanShadow())
               == Stamp(img[CHECKSUM_WORD := Complement(Sum(img[..CHECKSUM_WORD]))])
            && (Accepts(Overlay(r, Other(b), size, CleanShadow())) <==> Verdict(img) == 0)
  {
    hide CommitResult, Sum, Complement;
    var img := Overlay(c, b, size, sh);
    CommitResultDone(c, b, size, sector, WithChecksum(sh, img));
    CleanOverlay(CommitResult(c, b, size, sector, WithChecksum(sh, img)), Other(b), size);
    ChecksumBalances(c, b, size, sh);
    CommittedChecksum(c, b, size, sh);
  }

  /** How many of an update and the two tests after it failed. */
  function Failures(ret: Status, before: int, after: int): nat {
    if ret != Success then 1 else (if before == 1 then 1 else 0) + (if after == 1 then 1 else 0)
  }

  /** Update, self-test, reboot, self-test again.  Once the update has succeeded soundly, both
      tests give the verdict the logical image deserved before it, unless a read fails in them
      or misses the bank in use, which cannot happen when that is bank 0. */
  method UpdateThenTest(store: NvmStore)
    returns (ret: Status, before: int, after: int, ghost t: Trace, ghost sums: seq<BankId>,
             ghost reads0: seq<BankId>, ghost reads1: seq<BankId>)
    requires store.Valid() && store.SingleSector()
    modifies store.flash, store.shadow
    ensures store.Valid()
    ensures store.flash.seen.failed == old(store.flash.seen.failed) + Failures(ret, before, after)
    ensures SameGuesses(old(store.flash.seen), store.flash.seen) && ret == Success && !t.gaveUp ==>
              var b := old(store.Assumed());
              Sound(t, sums, b) && AllFrom(reads0, Other(b)) && AllFrom(reads1, Other(b))
    ensures store.flash.Reliable() ==>
              var b := old(store.Assumed());
              && ret == Success && Sound(t, sums, b)
              && before == after == Verdict(old(store.View(store.Assumed())))
    ensures ret == Success && Sound(t, sums, old(store.Assumed())) ==>
              var b, img := old(store.Assumed()), old(store.View(store.Assumed()));
              && store.Active() == Some(Other(b))
              && (before != 1 && AllFrom(reads0, Other(b)) ==> before == Verdict(img))
              && (after != 1 && AllFrom(reads1, Other(b)) ==> after == Verdict(img))
              && (b == 1 ==> AllFrom(reads0, 0) && AllFrom(reads1, 0))
  {
    hide CommitResult, WithChecksum, Summed, Served, Sum, Traced, Committed, TornErase;
    hide Overlay, Detect, Target, SigValid;
    ghost var c, sh, size, b := store.flash.cells, store.shadow[..], store.flash.size, store.Assumed();
    ghost var pending;
    before, after, reads0, reads1 := 1, 1, [], [];
    ret, t, pending, sums := store.UpdateNvm();
    if ret != Success { return; }
    SoundUpdate(c, b, size, SectorSize(store.flash.eraseSize), sh);
    before, reads0 := store.EepromTest();
    store.ClearShadow();
    after, reads1 := store.EepromTest();
  }
}
