/** What a reader finds after power was lost during a commit, and over whole runs. */
module CrashSafety {
  import opened Nor
  import opened Commit

  /** The selected bank holds the complete old image or the complete new one. */
  ghost predicate Atomic(c: seq<bv8>, h: seq<bv8>, old_: BankId, size: nat, img: seq<bv16>)
    requires Region(c, size) && Region(h, size)
  {
    || (Detect(h, size) == Some(old_) && Image(h, old_, size) == Image(c, old_, size))
    || (Detect(h, size) == Some(Other(old_)) && Image(h, Other(old_), size) == img)
  }

  /** Bank 0 is about to be erased and its signature bits are 00b: on their way up they can
      pass through 10b. */
  predicate EraseHazard(c: seq<bv8>, old_: BankId, size: nat)
    requires Region(c, size)
  {
    old_ == 1 && c[SIG_BYTE] & 0xC0 == 0
  }

  /** Bank 0 is about to be invalidated and bits 13:8 of its word 0x13 are not all clear:
      they can fall before bit 15 does. */
  predicate InvalidateHazard(c: seq<bv8>, old_: BankId, size: nat)
    requires Region(c, size)
  {
    old_ == 0 && LowSigBits(c[SIG_BYTE])
  }

  // ----- One commit -----

  lemma SameImage(c: seq<bv8>, h: seq<bv8>, bank: BankId, size: nat)
    requires Region(c, size) && OldIntact(c, h, bank, size)
    ensures Image(h, bank, size) == Image(c, bank, size)
    ensures Signed(h, bank, size) == Signed(c, bank, size)
  {
  }

  lemma ImageSigned(h: seq<bv8>, bank: BankId, size: nat, img: seq<bv16>)
    requires Region(h, size) && Image(h, bank, size) == img
    ensures Signed(h, bank, size) == SigValid(Hi(img[SIG_WORD]))
  {
    var a := Base(bank, size) + 2 * SIG_WORD;
    assert img[SIG_WORD] == WordAt(h, a);
    WordBytes(h[a], h[a + 1], 0);
  }

  lemma StampSigned(w: bv16)
    ensures SigValid(Hi(StampWord(w)))
    ensures SigValid(Hi(w)) <==> StampWord(w) == w
  {
  }

  lemma CopyingAtomic(c: seq<bv8>, h: seq<bv8>, old_: BankId, size: nat, img: seq<bv16>)
    requires Region(c, size) && |img| == IMAGE_WORDS
    requires Detect(c, size) == Some(old_) && Copying(c, h, old_, size)
    ensures Atomic(c, h, old_, size, img) && Detect(h, size) == Some(old_)
  {
    SameImage(c, h, old_, size);
  }

  /** Both banks may be signed here; bank 0 wins, and either way the image is complete. */
  lemma ValidatedAtomic(c: seq<bv8>, h: seq<bv8>, old_: BankId, size: nat, img: seq<bv16>)
    requires Region(c, size) && |img| == IMAGE_WORDS && SigValid(Hi(img[SIG_WORD]))
    requires Detect(c, size) == Some(old_) && Validated(c, h, old_, size, img)
    ensures Atomic(c, h, old_, size, img)
    ensures Signed(h, 0, size) && Signed(h, 1, size) && Detect(h, size) == Some(0)
  {
    SameImage(c, h, old_, size);
    ImageSigned(h, Other(old_), size, img);
  }

  lemma ErasingKeepsOld(c: seq<bv8>, h: seq<bv8>, old_: BankId, size: nat, img: seq<bv16>)
    requires Region(c, size) && |img| == IMAGE_WORDS
    requires Detect(c, size) == Some(old_) && Erasing(c, h, old_, size) && !EraseHazard(c, old_, size)
    ensures Detect(h, size) == Some(old_) && Atomic(c, h, old_, size, img)
  {
    SameImage(c, h, old_, size);
    if old_ == 1 { RisingSignature(c[SIG_BYTE], h[SIG_BYTE]); }
  }

  lemma RisingSignature(o: bv8, x: bv8)
    requires x & o == o && !SigValid(o) && o & 0xC0 != 0
    ensures !SigValid(x)
  {
  }

  lemma RaisedSelf(o: bv8)
    ensures o & o == o
  {
  }

  lemma WakingSignature(o: bv8)
    requires o & 0xC0 == 0
    ensures SigValid(o | 0x80) && (o | 0x80) & o == o
  {
  }

  /** An erase that can be interrupted anywhere keeps the old bank selected exactly when the
      hazard is absent before the call. */
  lemma EraseTearExact(c: seq<bv8>, old_: BankId, size: nat)
    requires Region(c, size) && Detect(c, size) == Some(old_)
    ensures (forall h :: Erasing(c, h, old_, size) ==> Detect(h, size) == Some(old_)) <==> !EraseHazard(c, old_, size)
  {
    if EraseHazard(c, old_, size) {
      var h := c[SIG_BYTE := c[SIG_BYTE] | 0x80];
      WakingSignature(c[SIG_BYTE]);
      forall a | 0 <= a < size ensures h[a] & c[a] == c[a] { RaisedSelf(c[a]); }
      assert Erasing(c, h, old_, size) && Detect(h, size) == Some(0);
    } else {
      forall h | Erasing(c, h, old_, size) ensures Detect(h, size) == Some(old_) {
        ErasingKeepsOld(c, h, old_, size, Image(c, old_, size));
      }
    }
  }

  lemma InvalidatingAtomic(c: seq<bv8>, h: seq<bv8>, old_: BankId, size: nat, img: seq<bv16>)
    requires Region(c, size) && |img| == IMAGE_WORDS && SigValid(Hi(img[SIG_WORD]))
    requires Detect(c, size) == Some(old_) && Invalidating(c, h, old_, size, img)
    requires !InvalidateHazard(c, old_, size) || h[Base(old_, size) + SIG_BYTE] == 0
    ensures Atomic(c, h, old_, size, img)
    ensures h[Base(old_, size) + SIG_BYTE] == 0 ==> Detect(h, size) == Some(Other(old_))
  {
    var b := Base(old_, size) + SIG_BYTE;
    ImageSigned(h, Other(old_), size, img);
    if Detect(h, size) == Some(old_) {
      // Only bank 0 can still be selected, and then its signature byte has not changed.
      FallingSignature(c[b], h[b]);
      SameImage(c, h, old_, size);
    }
  }

  lemma FallingSignature(o: bv8, x: bv8)
    requires Between(o, 0, x) && SigValid(o) && SigValid(x) && o & 0x3F == 0
    ensures x == o
  {
  }

  /** The bytes of `img`, laid over the bank that is not `old_`. */
  function Lay(c: seq<bv8>, old_: BankId, size: nat, img: seq<bv16>): (h: seq<bv8>)
    requires Region(c, size) && |img| == IMAGE_WORDS
    ensures |h| == |c|
  {
    var base := Base(Other(old_), size);
    seq(|c|, a requires 0 <= a < |c| => if base <= a < base + IMAGE_BYTES then ImageByte(img, a - base) else c[a])
  }

  lemma LayImage(c: seq<bv8>, old_: BankId, size: nat, img: seq<bv16>)
    requires Region(c, size) && |img| == IMAGE_WORDS
    ensures Image(Lay(c, old_, size, img), Other(old_), size) == img
  {
    var h := Lay(c, old_, size, img);
    forall i | 0 <= i < IMAGE_WORDS ensures Image(h, Other(old_), size)[i] == img[i] {
      var a := Base(Other(old_), size) + 2 * i;
      assert h[a] == ImageByte(img, 2 * i) && h[a + 1] == ImageByte(img, 2 * i + 1);
      WordBytes(0, 0, img[i]);
    }
  }

  /** Clearing the old signature byte can be interrupted anywhere without harm exactly when
      the hazard is absent before the call. */
  lemma InvalidateTearExact(c: seq<bv8>, old_: BankId, size: nat, img: seq<bv16>)
    requires Region(c, size) && |img| == IMAGE_WORDS && SigValid(Hi(img[SIG_WORD]))
    requires Detect(c, size) == Some(old_)
    ensures (forall h :: Invalidating(c, h, old_, size, img) ==> Atomic(c, h, old_, size, img))
            <==> !InvalidateHazard(c, old_, size)
  {
    if InvalidateHazard(c, old_, size) {
      var h := Lay(c, old_, size, img)[SIG_BYTE := 0x80];
      TornInvalidation(c, h, size, img);
    } else {
      forall h | Invalidating(c, h, old_, size, img) ensures Atomic(c, h, old_, size, img) {
        InvalidatingAtomic(c, h, old_, size, img);
      }
    }
  }

  lemma TornInvalidation(c: seq<bv8>, h: seq<bv8>, size: nat, img: seq<bv16>)
    requires Region(c, size) && |img| == IMAGE_WORDS && Detect(c, size) == Some(0)
    requires InvalidateHazard(c, 0, size) && h == Lay(c, 0, size, img)[SIG_BYTE := 0x80]
    ensures Invalidating(c, h, 0, size, img) && !Atomic(c, h, 0, size, img)
  {
    LayImage(c, 0, size, img);
    assert Image(h, 1, size) == Image(Lay(c, 0, size, img), 1, size);
    SignatureAlone(c[SIG_BYTE]);
    assert Detect(h, size) == Some(0);
    assert Image(h, 0, size)[SIG_WORD] == WordAt(h, 2 * SIG_WORD);
    assert Image(c, 0, size)[SIG_WORD] == WordAt(c, 2 * SIG_WORD);
    WordBytes(h[2 * SIG_WORD], h[SIG_BYTE], 0);
    WordBytes(c[2 * SIG_WORD], c[SIG_BYTE], 0);
  }

  lemma SignatureAlone(o: bv8)
    requires SigValid(o) && o & 0x3F != 0
    ensures Between(o, 0, 0x80) && SigValid(0x80) && o != 0x80
  {
  }

  /** Power is lost at `h`, but not inside one of the two cycles that a hazard makes unsafe. */
  ghost predicate SafeCrash(c: seq<bv8>, h: seq<bv8>, old_: BankId, size: nat, img: seq<bv16>)
    requires Region(c, size) && |img| == IMAGE_WORDS
  {
    || Copying(c, h, old_, size)
    || Validated(c, h, old_, size, img)
    || (Erasing(c, h, old_, size) && !EraseHazard(c, old_, size))
    || (Invalidating(c, h, old_, size, img)
        && (!InvalidateHazard(c, old_, size) || h[Base(old_, size) + SIG_BYTE] == 0))
  }

  /** Crash atomicity of a commit. */
  lemma CrashAtomicity(c: seq<bv8>, h: seq<bv8>, old_: BankId, size: nat, sh: seq<ShadowWord>)
    requires Region(c, size) && |sh| == IMAGE_WORDS && Detect(c, size) == Some(old_)
    requires SafeCrash(c, h, old_, size, Target(c, old_, size, sh))
    ensures Region(h, size) && Atomic(c, h, old_, size, Target(c, old_, size, sh))
  {
    var img := Target(c, old_, size, sh);
    StampSigned(Overlay(c, old_, size, sh)[SIG_WORD]);
    if Copying(c, h, old_, size) {
      CopyingAtomic(c, h, old_, size, img);
    } else if Validated(c, h, old_, size, img) {
      ValidatedAtomic(c, h, old_, size, img);
    } else if Erasing(c, h, old_, size) && !EraseHazard(c, old_, size) {
      ErasingKeepsOld(c, h, old_, size, img);
    } else {
      InvalidatingAtomic(c, h, old_, size, img);
    }
  }

  /** Moment `k` of a traced commit is outside the two cycles that a hazard makes unsafe:
      after the erase, or without its hazard, and before the invalidation, or without its. */
  predicate Covered(c: seq<bv8>, t: Trace, k: nat, size: nat)
    requires Region(c, size)
  {
    && (k < t.mid ==> !EraseHazard(c, t.bank, size))
    && (t.late <= k ==> !InvalidateHazard(c, t.bank, size))
  }

  /** Every covered moment in the history of a commit is atomic. */
  lemma MomentsAtomic(c: seq<bv8>, hs: seq<seq<bv8>>, since: nat, t: Trace, size: nat, sh: seq<ShadowWord>, k: nat)
    requires Region(c, size) && |sh| == IMAGE_WORDS && Detect(c, size) == Some(t.bank)
    requires Traced(c, hs, since, t, size, Target(c, t.bank, size, sh))
    requires since <= k < |hs| && Covered(c, t, k, size)
    ensures SafeCrash(c, hs[k], t.bank, size, Target(c, t.bank, size, sh))
    ensures Region(hs[k], size) && Atomic(c, hs[k], t.bank, size, Target(c, t.bank, size, sh))
  {
    hide Copying, Validated, Erasing, Invalidating, Blank, Copied, Atomic, Target;
    CrashAtomicity(c, hs[k], t.bank, size, sh);
  }

  /** The logical contents survive a commit that stopped anywhere safe, as long as the
      pending words are kept. */
  lemma MeaningKept(c: seq<bv8>, h: seq<bv8>, old_: BankId, size: nat, sh: seq<ShadowWord>)
    requires Region(c, size) && |sh| == IMAGE_WORDS && Detect(c, size) == Some(old_)
    requires SafeCrash(c, h, old_, size, Target(c, old_, size, sh))
    ensures Region(h, size) && Detect(h, size).Some?
    ensures Overlay(h, Detect(h, size).value, size, sh) == Overlay(c, old_, size, sh)
  {
    CrashAtomicity(c, h, old_, size, sh);
    var view := Overlay(c, old_, size, sh);
    var bank := Detect(h, size).value;
    forall i | 0 <= i < IMAGE_WORDS ensures Overlay(h, bank, size, sh)[i] == view[i] {
      assert Image(h, bank, size)[i] == WordAt(h, Base(bank, size) + 2 * i);
      assert Image(c, old_, size)[i] == WordAt(c, Base(old_, size) + 2 * i);
      if i == SIG_WORD {
        var a := Base(old_, size) + 2 * i;
        WordBytes(c[a], c[a + 1], 0);
        StampSigned(WordAt(c, a));
      }
    }
  }

  // ----- A finished commit -----

  /** The effect of a commit whose erase happened: the other bank is selected, it holds the
      whole target image, and the old bank is no longer signed. */
  lemma CommitResultDone(c: seq<bv8>, old_: BankId, size: nat, sector: nat, sh: seq<ShadowWord>)
    requires Region(c, size) && |sh| == IMAGE_WORDS && IMAGE_BYTES <= sector <= size
    ensures var r := CommitResult(c, old_, size, sector, sh);
            && Detect(r, size) == Some(Other(old_))
            && Image(r, Other(old_), size) == Target(c, old_, size, sh)
            && !Signed(r, old_, size)
            && Completed(c, r, old_, size, Target(c, old_, size, sh))
  {
    var nbase := Base(Other(old_), size);
    var e := Erased(c, nbase, nbase + sector);
    var img := Target(c, old_, size, sh);
    var p := Copied(e, nbase, img, IMAGE_BYTES);
    var r := CommitResult(c, old_, size, sector, sh);
    assert Blank(c, e, old_, size);
    CopiedImage(c, e, old_, size, img);
    ImageFrame(p, r, Other(old_), size);
    StampSigned(Overlay(c, old_, size, sh)[SIG_WORD]);
    ImageSigned(r, Other(old_), size, img);
    BetweenZero(c[Base(old_, size) + SIG_BYTE]);
  }

  lemma BetweenZero(o: bv8)
    ensures Between(o, 0, 0)
  {
  }

  /** The state a commit that reported success has reached. */
  ghost predicate Completed(c: seq<bv8>, h: seq<bv8>, old_: BankId, size: nat, img: seq<bv16>)
    requires Region(c, size) && |img| == IMAGE_WORDS
  {
    Invalidating(c, h, old_, size, img) && h[Base(old_, size) + SIG_BYTE] == 0
  }

  /** What a completed commit means for the next one: out of bank 0 it has left bank 0 with
      signature bits 00b, so the next erase always meets its hazard; out of bank 1 only the
      next invalidation can be unsafe, exactly when bits 13:8 of word 0x13 are not all clear. */
  lemma NextHazards(c: seq<bv8>, h: seq<bv8>, old_: BankId, size: nat, img: seq<bv16>)
    requires Region(c, size) && |img| == IMAGE_WORDS && SigValid(Hi(img[SIG_WORD]))
    requires Completed(c, h, old_, size, img)
    ensures Detect(h, size) == Some(Other(old_))
    ensures EraseHazard(h, Other(old_), size) <==> old_ == 0
    ensures InvalidateHazard(h, Other(old_), size) <==> old_ == 1 && LowSigBits(Hi(img[SIG_WORD]))
  {
    ImageSigned(h, Other(old_), size, img);
    NoSignature();
    ZeroSignature();
    assert img[SIG_WORD] == WordAt(h, Base(Other(old_), size) + 2 * SIG_WORD);
    WordBytes(h[Base(Other(old_), size) + 2 * SIG_WORD], h[Base(Other(old_), size) + SIG_BYTE], 0);
  }

  predicate LowSigBits(b: bv8) { b & 0x3F != 0 }

  lemma ZeroSignature()
    ensures (0 as bv8) & 0xC0 == 0
  {
  }

  /** Hence every second commit has an unsafe moment: once a commit out of bank 0 has completed,
      the erase of the next one can be interrupted so that bank 0 is selected again. */
  lemma SecondCommitUnsafe(c: seq<bv8>, h: seq<bv8>, size: nat, img: seq<bv16>)
    requires Region(c, size) && |img| == IMAGE_WORDS && SigValid(Hi(img[SIG_WORD]))
    requires Completed(c, h, 0, size, img)
    ensures exists x :: Erasing(h, x, 1, size) && Detect(x, size) == Some(0)
  {
    NextHazards(c, h, 0, size, img);
    EraseTearExact(h, 1, size);
  }

  // ----- Faults the commit does not notice -----

  /** The other bank's part of a commit whose erase was torn at `e` and gave up. */
  lemma GaveUpSignature(e: seq<bv8>, old_: BankId, size: nat, img: seq<bv16>)
    requires Region(e, size) && |img| == IMAGE_WORDS && SigValid(Hi(img[SIG_WORD]))
    ensures Detect(Committed(e, old_, size, img), size).Some?
            <==> HighBit(e[Base(Other(old_), size) + SIG_BYTE])
  {
    var b := Base(Other(old_), size) + SIG_BYTE;
    var r := Committed(e, old_, size, img);
    SignatureByte(e, old_, size, img);
    AndSignature(e[b], Hi(img[SIG_WORD]));
    assert r[Base(old_, size) + SIG_BYTE] == 0;
    NoSignature();
  }

  /** The bank to be erased can have been torn to `e` before the erase gave up. */
  ghost predicate TornBank(c: seq<bv8>, e: seq<bv8>, old_: BankId, size: nat, sector: nat)
    requires Region(c, size)
  {
    var nbase := Base(Other(old_), size);
    Region(e, size) && TornErase(c, e, nbase, nbase + sector)
  }

  /** The target of the commit does not depend on how the other bank was torn. */
  lemma TornTarget(c: seq<bv8>, e: seq<bv8>, old_: BankId, size: nat, sector: nat, sh: seq<ShadowWord>)
    requires Region(c, size) && |sh| == IMAGE_WORDS && sector <= size && TornBank(c, e, old_, size, sector)
    ensures Target(e, old_, size, sh) == Target(c, old_, size, sh)
    ensures SigValid(Hi(Target(c, old_, size, sh)[SIG_WORD]))
  {
    StampSigned(Overlay(c, old_, size, sh)[SIG_WORD]);
    forall i | 0 <= i < IMAGE_WORDS ensures Overlay(e, old_, size, sh)[i] == Overlay(c, old_, size, sh)[i] {
    }
  }

  lemma UntornIsTorn(c: seq<bv8>, old_: BankId, size: nat, sector: nat)
    requires Region(c, size)
    ensures TornBank(c, c, old_, size, sector)
  {
    var nbase := Base(Other(old_), size);
    ErasedIsTorn(c, nbase, nbase + sector);
  }

  /** An erase that gives up after its ten failures is reported as a success, and the commit goes
      on.  However the failures tore the bank, a valid bank is left if and only if bit 15 of
      word 0x13 was set there before the commit. */
  lemma GaveUpKeepsABank(c: seq<bv8>, old_: BankId, size: nat, sector: nat, sh: seq<ShadowWord>)
    requires Region(c, size) && |sh| == IMAGE_WORDS && IMAGE_BYTES <= sector <= size
    ensures (forall e :: TornBank(c, e, old_, size, sector) ==>
               Detect(Committed(e, old_, size, Target(e, old_, size, sh)), size).Some?)
            <==> HighBit(c[Base(Other(old_), size) + SIG_BYTE])
  {
    var b := Base(Other(old_), size) + SIG_BYTE;
    UntornIsTorn(c, old_, size, sector);
    forall e | TornBank(c, e, old_, size, sector)
      ensures Detect(Committed(e, old_, size, Target(e, old_, size, sh)), size).Some? <==> HighBit(e[b])
      ensures HighBit(c[b]) ==> HighBit(e[b])
    {
      TornTarget(c, e, old_, size, sector, sh);
      GaveUpSignature(e, old_, size, Target(e, old_, size, sh));
      RisenBit(c[b], e[b]);
    }
  }

  lemma RisenBit(o: bv8, x: bv8)
    requires x & o == o
    ensures HighBit(o) ==> HighBit(x)
  {
  }

  lemma SignatureByte(e: seq<bv8>, old_: BankId, size: nat, img: seq<bv16>)
    requires Region(e, size) && |img| == IMAGE_WORDS
    ensures var b := Base(Other(old_), size) + SIG_BYTE;
            Committed(e, old_, size, img)[b] == And(e[b], Hi(img[SIG_WORD]))
  {
    CommittedByte(e, old_, size, img, SIG_BYTE);
    EvenOddByte(img, SIG_WORD);
  }

  predicate HighBit(b: bv8) { b & 0x80 != 0 }

  lemma NoSignature()
    ensures !SigValid(0)
  {
  }

  lemma AndSignature(o: bv8, v: bv8)
    requires SigValid(v)
    ensures SigValid(And(o, v)) <==> HighBit(o)
  {
  }

  /** Programming byte `k` of the image over the content `e` gives that byte. */
  predicate Programs(e: seq<bv8>, base: nat, img: seq<bv16>, k: nat)
    requires |img| == IMAGE_WORDS && base + IMAGE_BYTES <= |e| && k < IMAGE_BYTES
  {
    And(e[base + k], ImageByte(img, k)) == ImageByte(img, k)
  }

  lemma GaveUpImage(e: seq<bv8>, old_: BankId, size: nat, img: seq<bv16>)
    requires Region(e, size) && |img| == IMAGE_WORDS
    ensures Image(Committed(e, old_, size, img), Other(old_), size) == img
            <==> (forall k :: 0 <= k < IMAGE_BYTES ==> Programs(e, Base(Other(old_), size), img, k))
  {
    var base := Base(Other(old_), size);
    var r := Committed(e, old_, size, img);
    if Image(r, Other(old_), size) == img {
      forall k | 0 <= k < IMAGE_BYTES ensures Programs(e, base, img, k) {
        CommittedWord(e, old_, size, img, k / 2);
        PairCovers(e, base, img, k / 2, k);
      }
    }
    if forall k :: 0 <= k < IMAGE_BYTES ==> Programs(e, base, img, k) {
      forall i | 0 <= i < IMAGE_WORDS ensures Image(r, Other(old_), size)[i] == img[i] {
        CommittedWord(e, old_, size, img, i);
      }
    }
  }

  /** ... and it holds the intended image if and only if every 1 bit of that image was already
      set in the bank before the commit. */
  lemma GaveUpKeepsTheImage(c: seq<bv8>, old_: BankId, size: nat, sector: nat, sh: seq<ShadowWord>)
    requires Region(c, size) && |sh| == IMAGE_WORDS && IMAGE_BYTES <= sector <= size
    ensures var base, img := Base(Other(old_), size), Target(c, old_, size, sh);
            (forall e :: TornBank(c, e, old_, size, sector) ==>
               Image(Committed(e, old_, size, Target(e, old_, size, sh)), Other(old_), size) == img)
            <==> (forall k :: 0 <= k < IMAGE_BYTES ==> Programs(c, base, img, k))
  {
    hide Committed, Image, Target, Programs;
    var base, img := Base(Other(old_), size), Target(c, old_, size, sh);
    UntornIsTorn(c, old_, size, sector);
    TornTarget(c, c, old_, size, sector, sh);
    GaveUpImage(c, old_, size, img);
    if forall k :: 0 <= k < IMAGE_BYTES ==> Programs(c, base, img, k) {
      forall e | TornBank(c, e, old_, size, sector)
        ensures Image(Committed(e, old_, size, Target(e, old_, size, sh)), Other(old_), size) == img
      {
        TornTarget(c, e, old_, size, sector, sh);
        GaveUpImage(e, old_, size, img);
        forall k | 0 <= k < IMAGE_BYTES ensures Programs(e, base, img, k) {
          ProgramsRisen(c, e, base, img, k);
        }
      }
    }
  }

  lemma ProgramsRisen(c: seq<bv8>, e: seq<bv8>, base: nat, img: seq<bv16>, k: nat)
    requires |img| == IMAGE_WORDS && base + IMAGE_BYTES <= |c| == |e| && k < IMAGE_BYTES
    requires Programs(c, base, img, k) && e[base + k] & c[base + k] == c[base + k]
    ensures Programs(e, base, img, k)
  {
    OnesRisen(c[base + k], e[base + k], ImageByte(img, k));
  }

  lemma OnesRisen(o: bv8, x: bv8, v: bv8)
    requires x & o == o && And(o, v) == v
    ensures And(x, v) == v
  {
  }

  lemma PairCovers(e: seq<bv8>, base: nat, img: seq<bv16>, i: nat, k: nat)
    requires |img| == IMAGE_WORDS && base + IMAGE_BYTES <= |e| && k < IMAGE_BYTES && i == k / 2
    requires Programs(e, base, img, 2 * i) && Programs(e, base, img, 2 * i + 1)
    ensures Programs(e, base, img, k)
  {
    if k % 2 == 0 { assert k == 2 * i; } else { assert k == 2 * i + 1; }
  }

  lemma CommittedWord(e: seq<bv8>, old_: BankId, size: nat, img: seq<bv16>, i: nat)
    requires Region(e, size) && |img| == IMAGE_WORDS && i < IMAGE_WORDS
    ensures var base := Base(Other(old_), size);
            Image(Committed(e, old_, size, img), Other(old_), size)[i] == img[i] <==>
            Programs(e, base, img, 2 * i) && Programs(e, base, img, 2 * i + 1)
  {
    var base := Base(Other(old_), size);
    var r := Committed(e, old_, size, img);
    CommittedByte(e, old_, size, img, 2 * i);
    CommittedByte(e, old_, size, img, 2 * i + 1);
    EvenOddByte(img, i);
    WordIs(r[base + 2 * i], r[base + 2 * i + 1], img[i]);
  }

  lemma CommittedByte(e: seq<bv8>, old_: BankId, size: nat, img: seq<bv16>, k: nat)
    requires Region(e, size) && |img| == IMAGE_WORDS && k < IMAGE_BYTES
    ensures var base := Base(Other(old_), size);
            Committed(e, old_, size, img)[base + k] == And(e[base + k], ImageByte(img, k))
  {
  }

  lemma EvenOddByte(img: seq<bv16>, i: nat)
    requires i < |img|
    ensures ImageByte(img, 2 * i) == Lo(img[i]) && ImageByte(img, 2 * i + 1) == Hi(img[i])
  {
  }

  lemma WordIs(lo: bv8, hi: bv8, w: bv16)
    ensures MakeWord(lo, hi) == w <==> lo == Lo(w) && hi == Hi(w)
  {
    WordBytes(lo, hi, w);
  }

  /** A detection that fails makes the commit take bank 0 for the bank in use.  Right after
      the erase there is still a valid bank exactly when bank 0 really was in use. */
  lemma AssumedBankExact(c: seq<bv8>, size: nat, sector: nat)
    requires Region(c, size) && IMAGE_BYTES <= sector <= size && Detect(c, size).Some?
    ensures Detect(Erased(c, size, size + sector), size).Some? <==> Detect(c, size) == Some(0)
  {
    OnesUnsigned();
  }

  /** Finished, such a commit has replaced bank 1, the bank that was in use, by the stamped
      contents of bank 0 under the pending words.  That is the intended image if and only if
      the two banks agree, up to the signature bits, in every word that was not pending. */
  lemma AssumedBankCommit(c: seq<bv8>, size: nat, sector: nat, sh: seq<ShadowWord>)
    requires Region(c, size) && |sh| == IMAGE_WORDS && IMAGE_BYTES <= sector <= size && Detect(c, size) == Some(1)
    ensures var r := CommitResult(c, 0, size, sector, sh);
            && Detect(r, size) == Some(1)
            && Image(r, 1, size) == Target(c, 0, size, sh)
            && (Image(r, 1, size) == Target(c, 1, size, sh)
                <==> forall i :: 0 <= i < IMAGE_WORDS && !sh[i].modified ==> BanksAgree(c, size, i))
  {
    hide CommitResult, StampWord;
    CommitResultDone(c, 0, size, sector, sh);
    var t0, t1 := Target(c, 0, size, sh), Target(c, 1, size, sh);
    forall i | 0 <= i < IMAGE_WORDS ensures t0[i] == t1[i] <==> sh[i].modified || BanksAgree(c, size, i) {
    }
  }

  /** Word `i` is the same in both banks, the signature bits of word 0x13 aside. */
  predicate BanksAgree(c: seq<bv8>, size: nat, i: nat)
    requires Region(c, size) && i < IMAGE_WORDS
  {
    if i == SIG_WORD then StampWord(WordAt(c, 2 * i)) == StampWord(WordAt(c, size + 2 * i))
    else WordAt(c, 2 * i) == WordAt(c, size + 2 * i)
  }
}
