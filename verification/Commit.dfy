/** What a commit does to the flash, independently of how wide its writes are, and the
    contents the flash can have if power is lost on the way. */
module Commit {
  import opened Nor
  import opened Seqs

  /** Copy phase after `n` bytes of `img` have been programmed over `e` from `base`. */
  function Copied(e: seq<bv8>, base: nat, img: seq<bv16>, n: nat): (r: seq<bv8>)
    requires n <= 2 * |img| && base + n <= |e|
    ensures |r| == |e|
  {
    seq(|e|, a requires 0 <= a < |e| =>
      if base <= a < base + n then And(e[a], ImageByte(img, a - base)) else e[a])
  }

  /** `len` bytes of the image, from byte `n`. */
  function Bytes(img: seq<bv16>, n: nat, len: nat): (r: seq<bv8>)
    requires n + len <= 2 * |img|
    ensures |r| == len
  {
    seq(len, k requires 0 <= k < len => ImageByte(img, n + k))
  }

  /** The flash a finished commit leaves: every byte of the new bank's image has had the
      bits of `img` programmed over what the erase left, and the signature byte of the old
      bank is zero. */
  function Committed(e: seq<bv8>, old_: BankId, size: nat, img: seq<bv16>): (r: seq<bv8>)
    requires Region(e, size) && |img| == IMAGE_WORDS
    ensures Region(r, size)
  {
    Copied(e, Base(Other(old_), size), img, IMAGE_BYTES)[Base(old_, size) + SIG_BYTE := 0]
  }

  /** The image a commit writes. */
  function Target(c: seq<bv8>, old_: BankId, size: nat, sh: seq<ShadowWord>): (img: seq<bv16>)
    requires Region(c, size) && |sh| == IMAGE_WORDS
    ensures |img| == IMAGE_WORDS
  {
    Stamp(Overlay(c, old_, size, sh))
  }

  /** The whole effect of a commit on a content `c` whose erase succeeded. */
  function CommitResult(c: seq<bv8>, old_: BankId, size: nat, sector: nat, sh: seq<ShadowWord>): (r: seq<bv8>)
    requires Region(c, size) && |sh| == IMAGE_WORDS
    ensures Region(r, size)
  {
    var nbase := Base(Other(old_), size);
    Committed(Erased(c, nbase, nbase + sector), old_, size, Target(c, old_, size, sh))
  }

  /** The new bank's image area is all ones and the old bank is untouched. */
  ghost predicate Blank(c: seq<bv8>, e: seq<bv8>, old_: BankId, size: nat)
    requires Region(c, size)
  {
    && |e| == |c|
    && OldIntact(c, e, old_, size)
    && var base := Base(Other(old_), size);
       forall a :: base <= a < base + IMAGE_BYTES ==> e[a] == 0xFF
  }

  // ----- Where power can be lost -----

  ghost predicate OldIntact(c: seq<bv8>, h: seq<bv8>, old_: BankId, size: nat)
    requires Region(c, size)
  {
    && |h| == |c|
    && var base := Base(old_, size);
       forall a :: base <= a < base + size ==> h[a] == c[a]
  }

  /** Inside the erase: bits of the new bank have risen. */
  ghost predicate Erasing(c: seq<bv8>, h: seq<bv8>, old_: BankId, size: nat)
    requires Region(c, size)
  {
    && OldIntact(c, h, old_, size)
    && var base := Base(Other(old_), size);
       forall a :: base <= a < base + size ==> h[a] & c[a] == c[a]
  }

  /** The new bank is being filled and is not signed. */
  ghost predicate Copying(c: seq<bv8>, h: seq<bv8>, old_: BankId, size: nat)
    requires Region(c, size)
  {
    OldIntact(c, h, old_, size) && !Signed(h, Other(old_), size)
  }

  /** The new bank is complete and signed, the old one still intact. */
  ghost predicate Validated(c: seq<bv8>, h: seq<bv8>, old_: BankId, size: nat, img: seq<bv16>)
    requires Region(c, size) && |img| == IMAGE_WORDS
  {
    OldIntact(c, h, old_, size) && Image(h, Other(old_), size) == img
  }

  /** The signature byte of the old bank is losing its bits. */
  ghost predicate Invalidating(c: seq<bv8>, h: seq<bv8>, old_: BankId, size: nat, img: seq<bv16>)
    requires Region(c, size) && |img| == IMAGE_WORDS
  {
    && |h| == |c|
    && Image(h, Other(old_), size) == img
    && var base := Base(old_, size);
       && (forall a :: base <= a < base + size && a != base + SIG_BYTE ==> h[a] == c[a])
       && Between(c[base + SIG_BYTE], 0, h[base + SIG_BYTE])
  }

  /** Between the erase and the invalidation. */
  ghost predicate Filling(c: seq<bv8>, h: seq<bv8>, old_: BankId, size: nat, img: seq<bv16>)
    requires Region(c, size) && |img| == IMAGE_WORDS
  {
    Copying(c, h, old_, size) || Validated(c, h, old_, size, img)
  }

  ghost predicate AllFilling(c: seq<bv8>, hs: seq<seq<bv8>>, since: nat, old_: BankId, size: nat, img: seq<bv16>)
    requires Region(c, size) && |img| == IMAGE_WORDS
  {
    forall k :: since <= k < |hs| ==> Filling(c, hs[k], old_, size, img)
  }

  ghost predicate AllInvalidating(c: seq<bv8>, hs: seq<seq<bv8>>, since: nat, old_: BankId, size: nat, img: seq<bv16>)
    requires Region(c, size) && |img| == IMAGE_WORDS
  {
    forall k :: since <= k < |hs| ==> Invalidating(c, hs[k], old_, size, img)
  }

  // ----- The phases of a commit, marked in the history -----

  /** `bank` is the bank taken for the old one and `blank` the content the erase left.
      `erased` says that the erase happened, `gaveUp` that it reported success without that.
      `mid` is the moment the erase ended, `late` the moment the invalidation write began. */
  datatype Trace = Trace(bank: BankId, blank: seq<bv8>, erased: bool, gaveUp: bool, mid: nat, late: nat)

  /** The history from `since` on, phase by phase. */
  ghost predicate Traced(c: seq<bv8>, hs: seq<seq<bv8>>, since: nat, t: Trace, size: nat, img: seq<bv16>)
    requires Region(c, size) && |img| == IMAGE_WORDS
  {
    && since <= t.mid <= t.late <= |hs|
    && (forall k :: since <= k < t.mid ==> Erasing(c, hs[k], t.bank, size))
    && (forall k :: t.mid <= k < t.late ==> Filling(c, hs[k], t.bank, size, img))
    && (forall k :: t.late <= k < |hs| ==> Invalidating(c, hs[k], t.bank, size, img))
    && (if t.erased then t.mid < t.late && hs[t.mid] == t.blank && Blank(c, t.blank, t.bank, size) else t.mid == |hs|)
    && (t.late < |hs| ==> hs[t.late - 1] == Copied(t.blank, Base(Other(t.bank), size), img, IMAGE_BYTES))
  }

  /** The erase ended in a blank bank: the copy phase begins. */
  lemma TraceErased(c: seq<bv8>, hs: seq<seq<bv8>>, since: nat, t: Trace, size: nat, img: seq<bv16>)
    requires Region(c, size) && |img| == IMAGE_WORDS && since < |hs|
    requires forall k :: since <= k < |hs| ==> Erasing(c, hs[k], t.bank, size)
    requires t.erased && t.mid == |hs| - 1 && t.late == |hs|
    requires hs[t.mid] == t.blank && Blank(c, t.blank, t.bank, size)
    ensures Traced(c, hs, since, t, size, img)
  {
    OnesUnsigned();
  }

  lemma OnesUnsigned()
    ensures !SigValid(0xFF)
  {
  }

  lemma TraceFilled(c: seq<bv8>, g: seq<seq<bv8>>, hs: seq<seq<bv8>>, since: nat, t: Trace, size: nat, img: seq<bv16>)
    requires Region(c, size) && |img| == IMAGE_WORDS && Traced(c, g, since, t, size, img)
    requires t.erased && t.late == |g| && g <= hs && AllFilling(c, hs, |g|, t.bank, size, img)
    ensures Traced(c, hs, since, t.(late := |hs|), size, img)
  {
    hide Filling, Invalidating, Erasing, Blank;
    forall k | |g| <= k < |hs| ensures Filling(c, hs[k], t.bank, size, img) {}
    forall k | 0 <= k < |g| ensures hs[k] == g[k] {}
  }

  lemma TraceLate(c: seq<bv8>, g: seq<seq<bv8>>, hs: seq<seq<bv8>>, since: nat, t: Trace, size: nat, img: seq<bv16>)
    requires Region(c, size) && |img| == IMAGE_WORDS && Traced(c, g, since, t, size, img)
    requires t.erased && t.late == |g| && g <= hs && AllInvalidating(c, hs, |g|, t.bank, size, img)
    requires g[|g| - 1] == Copied(t.blank, Base(Other(t.bank), size), img, IMAGE_BYTES)
    ensures Traced(c, hs, since, t, size, img)
  {
    hide Filling, Invalidating, Erasing, Blank, Copied;
    forall k | |g| <= k < |hs| ensures Invalidating(c, hs[k], t.bank, size, img) {}
    forall k | 0 <= k < |g| ensures hs[k] == g[k] {}
  }

  // ----- Steps of the copy phase -----

  lemma CopyStep(e: seq<bv8>, p: seq<bv8>, base: nat, img: seq<bv16>, n: nat, vals: seq<bv8>)
    requires n + |vals| <= 2 * |img| && base + n + |vals| <= |e|
    requires vals == Bytes(img, n, |vals|)
    requires p == Copied(e, base, img, n)
    ensures Programmed(p, base + n, vals) == Copied(e, base, img, n + |vals|)
  {
  }

  /** A copy step interrupted anywhere leaves the old bank intact and the new one unsigned. */
  lemma CopyStepTorn(c: seq<bv8>, e: seq<bv8>, h: seq<bv8>, old_: BankId, size: nat, img: seq<bv16>, n: nat,
          vals: seq<bv8>)
    requires Region(c, size) && |img| == IMAGE_WORDS && Blank(c, e, old_, size)
    requires n + |vals| <= IMAGE_BYTES
    requires vals == Bytes(Held(img), n, |vals|)
    requires TornProgram(Copied(e, Base(Other(old_), size), Held(img), n), h, Base(Other(old_), size) + n, vals)
    ensures Copying(c, h, old_, size)
  {
    var base := Base(Other(old_), size);
    var b := base + SIG_BYTE;
    var p := Copied(e, base, Held(img), n);
    HeldSigByte(img);
    assert e[b] == 0xFF;
    if base + n <= b < base + n + |vals| {
      assert vals[b - (base + n)] == ImageByte(Held(img), SIG_BYTE);
      assert Between(p[b], vals[b - (base + n)], h[b]);
    } else {
      assert h[b] == p[b];
    }
    HeldBits(img[SIG_WORD], h[b]);
    assert OldIntact(c, h, old_, size) by { CopyLeavesOld(c, e, h, old_, size, Held(img), n, vals); }
  }

  lemma CopyLeavesOld(c: seq<bv8>, e: seq<bv8>, h: seq<bv8>, old_: BankId, size: nat, img: seq<bv16>, n: nat,
          vals: seq<bv8>)
    requires Region(c, size) && |img| == IMAGE_WORDS && OldIntact(c, e, old_, size)
    requires n + |vals| <= IMAGE_BYTES
    requires TornProgram(Copied(e, Base(Other(old_), size), img, n), h, Base(Other(old_), size) + n, vals)
    ensures OldIntact(c, h, old_, size)
  {
  }

  lemma HeldSigByte(img: seq<bv16>)
    requires |img| == IMAGE_WORDS
    ensures ImageByte(Held(img), SIG_BYTE) == Hi(HoldWord(img[SIG_WORD]))
  {
  }

  lemma StampSigByte(img: seq<bv16>)
    requires |img| == IMAGE_WORDS
    ensures ImageByte(Stamp(img), SIG_BYTE) == Hi(StampWord(img[SIG_WORD]))
  {
  }

  lemma HeldBits(w: bv16, x: bv8)
    requires x == 0xFF || x == And(0xFF, Hi(HoldWord(w))) || Between(0xFF, Hi(HoldWord(w)), x)
    ensures !SigValid(x)
  {
  }

  // ----- Steps of the validation and invalidation phases -----

  /** `vals`, written at `at`, rewrites the bytes of `p` up to the signature byte of the bank
      at `base`, and clears bit 6 of that byte: bit 14 of word 0x13. */
  predicate FlipWrite(p: seq<bv8>, base: nat, at: nat, vals: seq<bv8>) {
    && base + SIG_BYTE < |p| && base <= at && |vals| > 0 && at + |vals| == base + SIG_BYTE + 1
    && (forall k :: 0 <= k < |vals| - 1 ==> vals[k] == p[at + k])
    && vals[|vals| - 1] == FlipByte(p[base + SIG_BYTE])
  }

  /** As above, with the signature byte cleared altogether. */
  predicate ZeroWrite(p: seq<bv8>, base: nat, at: nat, vals: seq<bv8>) {
    && base + SIG_BYTE < |p| && base <= at && |vals| > 0 && at + |vals| == base + SIG_BYTE + 1
    && (forall k :: 0 <= k < |vals| - 1 ==> vals[k] == p[at + k])
    && vals[|vals| - 1] == 0
  }

  /** Bytes written to complete the signature: only bit 14 of word 0x13 changes. */
  lemma FlipStep(e: seq<bv8>, base: nat, img: seq<bv16>, at: nat, vals: seq<bv8>)
    requires |img| == IMAGE_WORDS && base + IMAGE_BYTES <= |e|
    requires FlipWrite(Copied(e, base, Held(img), IMAGE_BYTES), base, at, vals)
    ensures Programmed(Copied(e, base, Held(img), IMAGE_BYTES), at, vals) == Copied(e, base, Stamp(img), IMAGE_BYTES)
  {
    var p := Copied(e, base, Held(img), IMAGE_BYTES);
    var q := Copied(e, base, Stamp(img), IMAGE_BYTES);
    var r := Programmed(p, at, vals);
    forall a | 0 <= a < |e| ensures r[a] == q[a] {
      if a == base + SIG_BYTE {
        HeldSigByte(img);
        StampSigByte(img);
        FlipBits(e[a], img[SIG_WORD]);
      } else if base <= a < base + IMAGE_BYTES {
        StampElsewhere(img, a - base);
        if at <= a < at + |vals| { AndSelf(p[a]); }
      }
    }
  }

  lemma FlipBits(o: bv8, w: bv16)
    ensures var x := And(o, Hi(HoldWord(w)));
            And(x, FlipByte(x)) == And(o, Hi(StampWord(w)))
  {
  }

  lemma AndSelf(x: bv8)
    ensures And(x, x) == x
  {
  }

  lemma StampElsewhere(img: seq<bv16>, k: nat)
    requires |img| == IMAGE_WORDS && k < IMAGE_BYTES && k != SIG_BYTE
    ensures ImageByte(Held(img), k) == ImageByte(Stamp(img), k)
  {
    if k == SIG_BYTE - 1 { LowByteKept(img[SIG_WORD]); }
  }

  lemma LowByteKept(w: bv16)
    ensures Lo(HoldWord(w)) == Lo(StampWord(w))
  {
  }

  /** The signature step interrupted anywhere: the new bank is still unsigned or complete. */
  lemma FlipStepTorn(c: seq<bv8>, e: seq<bv8>, h: seq<bv8>, old_: BankId, size: nat, img: seq<bv16>, at: nat,
          vals: seq<bv8>)
    requires Region(c, size) && |img| == IMAGE_WORDS && Blank(c, e, old_, size)
    requires var base := Base(Other(old_), size);
             var p := Copied(e, base, Held(img), IMAGE_BYTES);
             FlipWrite(p, base, at, vals) && TornProgram(p, h, at, vals)
    ensures Filling(c, h, old_, size, Stamp(img))
  {
    var base := Base(Other(old_), size);
    var p := Copied(e, base, Held(img), IMAGE_BYTES);
    OneBitTorn(p, h, at, vals);
    if h == p {
      assert h[base + SIG_BYTE] == And(0xFF, ImageByte(Held(img), SIG_BYTE));
      HeldSigByte(img);
      HeldBits(img[SIG_WORD], h[base + SIG_BYTE]);
    } else {
      FlipStep(e, base, img, at, vals);
      CopiedImage(c, e, old_, size, Stamp(img));
    }
  }

  /** A write that clears at most one bit either has happened or has not. */
  lemma OneBitTorn(p: seq<bv8>, h: seq<bv8>, at: nat, vals: seq<bv8>)
    requires 0 < |vals| && at + |vals| <= |p| && TornProgram(p, h, at, vals)
    requires forall k :: 0 <= k < |vals| - 1 ==> vals[k] == p[at + k]
    requires vals[|vals| - 1] == FlipByte(p[at + |vals| - 1])
    ensures h == p || h == Programmed(p, at, vals)
  {
    var b := at + |vals| - 1;
    BetweenFlip(p[b], h[b]);
    FlipAnd(p[b]);
    forall a | at <= a < b ensures h[a] == p[a] && Programmed(p, at, vals)[a] == p[a] {
      assert vals[a - at] == p[at + (a - at)];
      BetweenSelf(p[a], h[a]);
      AndSelf(p[a]);
    }
  }

  lemma BetweenSelf(o: bv8, x: bv8)
    requires Between(o, o, x)
    ensures x == o
  {
  }

  lemma FlipAnd(o: bv8)
    ensures And(o, FlipByte(o)) == FlipByte(o)
  {
  }

  lemma BetweenFlip(o: bv8, x: bv8)
    requires Between(o, FlipByte(o), x)
    ensures x == o || x == FlipByte(o)
  {
  }

  /** Over an erased image area the programmed bytes are exactly the image. */
  lemma CopiedImage(c: seq<bv8>, e: seq<bv8>, old_: BankId, size: nat, img: seq<bv16>)
    requires Region(c, size) && |img| == IMAGE_WORDS && Blank(c, e, old_, size)
    ensures var h := Copied(e, Base(Other(old_), size), img, IMAGE_BYTES);
            OldIntact(c, h, old_, size) && Image(h, Other(old_), size) == img
  {
    var base := Base(Other(old_), size);
    var h := Copied(e, base, img, IMAGE_BYTES);
    forall i | 0 <= i < IMAGE_WORDS ensures Image(h, Other(old_), size)[i] == img[i] {
      var a := base + 2 * i;
      assert e[a] == 0xFF && e[a + 1] == 0xFF;
      assert ImageByte(img, 2 * i) == Lo(img[i]) && ImageByte(img, 2 * i + 1) == Hi(img[i]);
      OnesAnd(img[i]);
    }
  }

  lemma OnesAnd(w: bv16)
    ensures MakeWord(And(0xFF, Lo(w)), And(0xFF, Hi(w))) == w
  {
  }

  /** The invalidation step, finished and interrupted. */
  lemma InvalidateStep(c: seq<bv8>, e: seq<bv8>, h: seq<bv8>, old_: BankId, size: nat, img: seq<bv16>, at: nat,
          vals: seq<bv8>)
    requires Region(c, size) && |img| == IMAGE_WORDS && Blank(c, e, old_, size)
    requires var base := Base(old_, size);
             var p := Copied(e, Base(Other(old_), size), img, IMAGE_BYTES);
             ZeroWrite(p, base, at, vals) && TornProgram(p, h, at, vals)
    ensures Invalidating(c, h, old_, size, img)
  {
    hide Copied, ZeroWrite, TornProgram, Between, Image;
    var base := Base(old_, size);
    var p := Copied(e, Base(Other(old_), size), img, IMAGE_BYTES);
    CopiedImage(c, e, old_, size, img);
    ZeroTorn(p, h, base, at, vals);
    ImageFrame(p, h, Other(old_), size);
  }

  /** An interrupted clearing of the signature byte changes that byte only. */
  lemma ZeroTorn(p: seq<bv8>, h: seq<bv8>, base: nat, at: nat, vals: seq<bv8>)
    requires ZeroWrite(p, base, at, vals) && TornProgram(p, h, at, vals)
    ensures |h| == |p| && Between(p[base + SIG_BYTE], 0, h[base + SIG_BYTE])
    ensures forall a :: 0 <= a < |p| && a != base + SIG_BYTE ==> h[a] == p[a]
  {
    hide Between;
    forall a | 0 <= a < |p| && a != base + SIG_BYTE ensures h[a] == p[a] {
      if at <= a < at + |vals| {
        assert vals[a - at] == p[at + (a - at)];
        assert Between(p[a], vals[a - at], h[a]);
        BetweenSelf(p[a], h[a]);
      }
    }
    assert vals[base + SIG_BYTE - at] == 0;
  }

  lemma ImageFrame(p: seq<bv8>, h: seq<bv8>, bank: BankId, size: nat)
    requires Region(p, size) && |h| == |p|
    requires var base := Base(bank, size); forall a :: base <= a < base + IMAGE_BYTES ==> h[a] == p[a]
    ensures Image(h, bank, size) == Image(p, bank, size)
  {
    forall i | 0 <= i < IMAGE_WORDS ensures Image(h, bank, size)[i] == Image(p, bank, size)[i] {
    }
  }

  lemma InvalidateDone(e: seq<bv8>, old_: BankId, size: nat, img: seq<bv16>, at: nat, vals: seq<bv8>)
    requires Region(e, size) && |img| == IMAGE_WORDS
    requires ZeroWrite(Copied(e, Base(Other(old_), size), img, IMAGE_BYTES), Base(old_, size), at, vals)
    ensures Programmed(Copied(e, Base(Other(old_), size), img, IMAGE_BYTES), at, vals) == Committed(e, old_, size, img)
  {
    var p := Copied(e, Base(Other(old_), size), img, IMAGE_BYTES);
    forall a | 0 <= a < |e| ensures Programmed(p, at, vals)[a] == Committed(e, old_, size, img)[a] {
      if at <= a < at + |vals| {
        AndSelf(p[a]);
        AndZero(p[a]);
      }
    }
  }

  lemma AndZero(x: bv8)
    ensures And(x, 0) == 0
  {
  }

  // ----- Programming never needs to raise a bit -----

  /** Every 1 bit to be written is still a 1 in the flash. */
  ghost predicate OnesKept(c: seq<bv8>, at: nat, vals: seq<bv8>)
    requires at + |vals| <= |c|
  {
    forall k :: 0 <= k < |vals| ==> And(c[at + k], vals[k]) == vals[k]
  }

  /** Clearing bits gives what was meant exactly when no bit had to rise. */
  lemma ProgramOverwrites(c: seq<bv8>, at: nat, vals: seq<bv8>)
    requires at + |vals| <= |c|
    ensures OnesKept(c, at, vals) <==> Programmed(c, at, vals) == Stored(c, at, vals)
  {
    var p, o := Programmed(c, at, vals), Stored(c, at, vals);
    forall k | 0 <= k < |vals| ensures o[at + k] == vals[k] && p[at + k] == And(c[at + k], vals[k]) {}
    if OnesKept(c, at, vals) {
      forall a | 0 <= a < |c| ensures p[a] == o[a] {
        if at <= a < at + |vals| {
          assert o[at + (a - at)] == vals[a - at];
        }
      }
    }
  }

  /** Whatever failed attempts left behind, the next good one still ends in the intended bytes. */
  lemma {:induction false} RetriesOverwrite(c: seq<bv8>, tries: seq<seq<bv8>>, at: nat, vals: seq<bv8>)
    requires at + |vals| <= |c| && OnesKept(c, at, vals) && Attempts(c, tries, at, vals)
    ensures var last := if tries == [] then c else tries[|tries| - 1];
            |last| == |c| && Programmed(last, at, vals) == Stored(c, at, vals)
    decreases |tries|
  {
    if tries == [] {
      ProgramOverwrites(c, at, vals);
    } else {
      var m := tries[0];
      RetryReachesIntent(c, m, at, vals);
      forall k | 0 <= k < |vals| ensures And(m[at + k], vals[k]) == vals[k] {
        assert Programmed(m, at, vals)[at + k] == Programmed(c, at, vals)[at + k];
        assert And(c[at + k], vals[k]) == vals[k];
      }
      RetriesOverwrite(m, tries[1..], at, vals);
      ProgramOverwrites(m, at, vals);
      ProgramOverwrites(c, at, vals);
    }
  }

  /** Each content is a torn program cycle away from the one before. */
  ghost predicate Attempts(c: seq<bv8>, tries: seq<seq<bv8>>, at: nat, vals: seq<bv8>)
    requires at + |vals| <= |c|
    decreases |tries|
  {
    tries == [] || (TornProgram(c, tries[0], at, vals) && Attempts(tries[0], tries[1..], at, vals))
  }

  /** The copy phase writes over bytes the erase left at 0xFF. */
  lemma CopyKeepsOnes(c: seq<bv8>, e: seq<bv8>, old_: BankId, size: nat, img: seq<bv16>, n: nat, vals: seq<bv8>)
    requires Region(c, size) && |img| == IMAGE_WORDS && Blank(c, e, old_, size) && n + |vals| <= IMAGE_BYTES
    ensures OnesKept(Copied(e, Base(Other(old_), size), img, n), Base(Other(old_), size) + n, vals)
  {
    var base := Base(Other(old_), size);
    forall k | 0 <= k < |vals| ensures And(Copied(e, base, img, n)[base + n + k], vals[k]) == vals[k] {
      assert e[base + n + k] == 0xFF;
      OnesKeep(vals[k]);
    }
  }

  lemma OnesKeep(v: bv8)
    ensures And(0xFF, v) == v
  {
  }

  /** The signature writes repeat the bytes they do not mean to change. */
  lemma SignatureKeepsOnes(p: seq<bv8>, base: nat, at: nat, vals: seq<bv8>)
    requires FlipWrite(p, base, at, vals) || ZeroWrite(p, base, at, vals)
    ensures OnesKept(p, at, vals)
  {
    forall k | 0 <= k < |vals| ensures And(p[at + k], vals[k]) == vals[k] {
      if k < |vals| - 1 {
        AndSelf(p[at + k]);
      } else {
        FlipAnd(p[at + k]);
        AndZero(p[at + k]);
      }
    }
  }
}
