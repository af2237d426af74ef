/** The driver's NVM: a shadow RAM of pending words over the two-bank flash, with the
    byte-wise commit of the ICH parts and the dword-wise commit of the SPT parts. */
module NvmStore {
  import opened Nor
  import opened Commit
  import opened Flash

  const NVM_SUM: bv16 := 0xBABA

  /** Sum of words, modulo 2^16. */
  function Sum(s: seq<bv16>): bv16 {
    if s == [] then 0 else Plus(Sum(s[..|s| - 1]), s[|s| - 1])
  }

  function Plus(a: bv16, b: bv16): bv16 { a + b }

  /** The checksum word that completes a sum to 0xBABA. */
  function Complement(sum: bv16): bv16 { NVM_SUM - sum }

  /** The shadow RAM once the checksum of the image `img` has been written to it. */
  function WithChecksum(sh: seq<ShadowWord>, img: seq<bv16>): (r: seq<ShadowWord>)
    requires |sh| == IMAGE_WORDS && |img| == IMAGE_WORDS
    ensures |r| == IMAGE_WORDS
  {
    Summed(sh, img[..CHECKSUM_WORD])
  }

  /** The shadow RAM once the checksum of `words` has been written to it. */
  function Summed(sh: seq<ShadowWord>, words: seq<bv16>): (r: seq<ShadowWord>)
    requires |sh| == IMAGE_WORDS
    ensures |r| == IMAGE_WORDS
  {
    sh[CHECKSUM_WORD := ShadowWord(Complement(Sum(words)), true)]
  }

  // ----- Which bank a run of reads was served from -----

  /** What the reads of words `first`, `first + 1` and so on return, the k-th of them having
      taken `banks[k]` for the bank in use. */
  function Served(c: seq<bv8>, size: nat, sh: seq<ShadowWord>, first: nat, banks: seq<BankId>): (r: seq<bv16>)
    requires Region(c, size) && |sh| == IMAGE_WORDS && first + |banks| <= IMAGE_WORDS
    ensures |r| == |banks|
  {
    seq(|banks|, k requires 0 <= k < |banks| => Overlay(c, banks[k], size, sh)[first + k])
  }

  predicate AllFrom(banks: seq<BankId>, bank: BankId) { forall k :: 0 <= k < |banks| ==> banks[k] == bank }

  /** Every read took the bank in use, or bank 0 for want of a detection. */
  predicate Plausible(banks: seq<BankId>, active: Option<BankId>) {
    forall k :: 0 <= k < |banks| ==> banks[k] == 0 || active == Some(banks[k])
  }

  /** Reads that all took the same bank return its logical words. */
  lemma ServedFrom(c: seq<bv8>, size: nat, sh: seq<ShadowWord>, first: nat, banks: seq<BankId>, bank: BankId)
    requires Region(c, size) && |sh| == IMAGE_WORDS && first + |banks| <= IMAGE_WORDS && AllFrom(banks, bank)
    ensures Served(c, size, sh, first, banks) == Overlay(c, bank, size, sh)[first..first + |banks|]
  {
    hide Overlay;
  }

  lemma ServedOneMore(c: seq<bv8>, size: nat, sh: seq<ShadowWord>, first: nat, banks: seq<BankId>, bank: BankId)
    requires Region(c, size) && |sh| == IMAGE_WORDS && first + |banks| < IMAGE_WORDS
    ensures Served(c, size, sh, first, banks + [bank]) ==
            Served(c, size, sh, first, banks) + [Overlay(c, bank, size, sh)[first + |banks|]]
  {
    hide Overlay;
  }

  lemma SumNothing(c: seq<bv8>, size: nat, sh: seq<ShadowWord>)
    requires Region(c, size) && |sh| == IMAGE_WORDS
    ensures Sum(Served(c, size, sh, 0, [])) == 0
  {
  }

  lemma SumOneMore(s: seq<bv16>, w: bv16)
    ensures Sum(s + [w]) == Plus(Sum(s), w)
  {
    hide Plus;
    assert (s + [w])[..|s|] == s;
  }

  /** No operation failed in between. */
  ghost predicate Unfailing(s: Seen, s': Seen) { s'.failed == s.failed }

  /** No bank had to be guessed in between. */
  ghost predicate SameGuesses(s: Seen, s': Seen) { s'.guessed == s.guessed }

  /** The same, or there was no bank in use and bank 0 was the one to take. */
  ghost predicate Sure(active: Option<BankId>, s: Seen, s': Seen) { SameGuesses(s, s') || active.None? }

  ghost predicate AllCopying(c: seq<bv8>, hs: seq<seq<bv8>>, since: nat, bank: BankId, size: nat)
    requires Region(c, size)
  {
    forall k :: since <= k < |hs| ==> Copying(c, hs[k], bank, size)
  }

  class NvmStore {
    const flash: FlashController
    /** The image always has 2048 words, whatever the bank size. */
    const shadow: array<ShadowWord>

    ghost predicate Valid()
      reads flash`cells, flash`history, shadow
    {
      flash.Valid() && shadow.Length == IMAGE_WORDS
    }

    /** One erase sector, aligned and no larger than a bank. */
    predicate SingleSector() {
      && flash.eraseSize != Seg256
      && SectorSize(flash.eraseSize) <= flash.size
      && flash.size % SectorSize(flash.eraseSize) == 0
    }

    ghost function Active(): Option<BankId>
      requires Valid()
      reads flash`cells, flash`history, shadow
    {
      Detect(flash.cells, flash.size)
    }

    /** The bank the driver takes for the one in use when it reads without errors. */
    ghost function Assumed(): BankId
      requires Valid()
      reads flash`cells, flash`history, shadow
    {
      if Active().Some? then Active().value else 0
    }

    ghost function View(bank: BankId): (img: seq<bv16>)
      requires Valid()
      reads flash`cells, flash`history, shadow
      ensures |img| == IMAGE_WORDS
    {
      Overlay(flash.cells, bank, flash.size, shadow[..])
    }

    constructor (flash: FlashController)
      requires flash.Valid()
      ensures Valid() && fresh(shadow) && this.flash == flash
      ensures shadow[..] == CleanShadow()
    {
      this.flash := flash;
      shadow := new ShadowWord[IMAGE_WORDS](_ => CLEAN);
      new;
      assert shadow[..] == CleanShadow();
    }

    // ----- Bank detection and reads -----

    /** A detection that failed does not end an operation: it is counted apart, as a guess. */
    ghost method Guess(failed: nat)
      modifies flash`seen
      ensures flash.seen == old(flash.seen).(failed := failed, guessed := old(flash.seen.guessed) + 1)
    {
      flash.seen := flash.seen.(failed := failed, guessed := flash.seen.guessed + 1);
    }

    /** A read was not answered, or the region has addresses that cannot be sent to the part. */
    ghost predicate Missed(s: Seen, s': Seen) {
      Unanswered(s, s') || 2 * flash.size > LINEAR_ADDR_MASK + 1
    }

    /** The bank an operation takes: the one in use when its detection succeeds, else bank 0 as a guess. */
    static ghost predicate Took(active: Option<BankId>, s: Seen, s': Seen, bank: BankId) {
      if s'.guessed == s.guessed then active == Some(bank) else s'.guessed == s.guessed + 1 && bank == 0
    }

    ghost predicate Certain(s: Seen, s': Seen)
      requires Valid()
      reads flash`cells, flash`history, shadow
    {
      Sure(Active(), s, s')
    }

    method DetectBank() returns (ret: Status, bank: BankId)
      requires Valid()
      modifies flash`seen
      ensures Went(old(flash.seen), flash.seen, true)
      ensures flash.seen.guessed == old(flash.seen.guessed) + (if ret == Success then 0 else 1)
      ensures ret != Success ==> Active().None? || Missed(old(flash.seen), flash.seen)
      ensures ret == Success ==> Active() == Some(bank)
      ensures ret != Success ==> bank == 0
      ensures flash.Reliable() && Active().Some? ==> ret == Success
    {
      hide Region, SigValid;
      ghost var was := flash.seen.failed;
      var sig: bv8;
      ret, sig := SignatureByte(0);
      if ret != Success {
        Guess(was);
        return ret, 0;
      }
      if SigValid(sig) { return Success, 0; }
      ret, sig := SignatureByte(1);
      if ret != Success {
        Guess(was);
        return ret, 0;
      }
      if SigValid(sig) { return Success, 1; }
      Guess(was);
      return ErrNvm, 0;
    }

    /** The high byte of a bank's signature word, by dword on SPT parts. */
    method SignatureByte(bank: BankId) returns (ret: Status, sig: bv8)
      requires Valid()
      modifies flash`seen
      ensures WentSure(old(flash.seen), flash.seen, ret == Success)
      ensures ret != Success ==> Missed(old(flash.seen), flash.seen)
      ensures ret == Success ==> sig == flash.cells[Base(bank, flash.size) + SIG_BYTE]
      ensures flash.Reliable() ==> ret == Success
    {
      if flash.family == Spt {
        var dword: bv32;
        ret, dword := flash.ReadFlashDword(SIG_WORD + Base(bank, flash.size) / 2);
        sig := SecondByte(dword);
        DwordSecond(flash.cells, 2 * SIG_WORD + Base(bank, flash.size));
      } else {
        ret, sig := flash.ReadFlashByte(SIG_BYTE + Base(bank, flash.size));
      }
    }

    static predicate InBounds(offset: nat, words: nat) {
      offset < IMAGE_WORDS && words <= IMAGE_WORDS - offset && words != 0
    }

    /** Word-wise reads of the ICH parts, cached words first.  `bank` is the bank read from: bank 0 when the
        detection failed. */
    method ReadNvm(offset: nat, words: nat, data: array<bv16>) returns (ret: Status, ghost bank: BankId)
      requires Valid() && words <= data.Length && data as object != shadow
      modifies data, flash`seen
      ensures Went(old(flash.seen), flash.seen, ret == Success || !InBounds(offset, words))
      ensures InBounds(offset, words) ==> Took(Active(), old(flash.seen), flash.seen, bank)
      ensures !InBounds(offset, words) ==> flash.seen == old(flash.seen)
      ensures Valid()
      ensures !InBounds(offset, words) ==> ret == ErrNvm
      ensures ret == Success ==> data[..words] == View(bank)[offset..offset + words]
      ensures data[words..] == old(data[words..])
      ensures bank == 0 || Active() == Some(bank)
      ensures flash.Reliable() && InBounds(offset, words) ==> ret == Success
      ensures flash.Reliable() && InBounds(offset, words) && Active().Some? ==> Active() == Some(bank)
      ensures flash.Reliable() && Active().Some? ==> SameGuesses(old(flash.seen), flash.seen)
    {
      bank := 0;
      if offset >= IMAGE_WORDS || words > IMAGE_WORDS - offset || words == 0 {
        return ErrNvm, 0;
      }
      var b;
      ret, b := DetectBank();
      if ret != Success { b := 0; }
      bank := b;
      ret := Success;
      hide Overlay, WordAt, Detect, Region;
      ghost var img := View(bank);
      ghost var guessed := flash.seen.guessed;
      var i := 0;
      while i < words
        invariant 0 <= i <= words && ret == Success
        invariant forall k :: 0 <= k < i ==> data[k] == img[offset + k]
        invariant Went(old(flash.seen), flash.seen, true) && flash.seen.guessed == guessed
        invariant data[words..] == old(data[words..])
      {
        var word;
        ret, word := IchWord(b, offset + i);
        if ret != Success { break; }
        data[i] := word;
        i := i + 1;
      }
      if ret == Success {
        assert i == words;
        assert data[..words] == img[offset..offset + words];
      }
    }

    /** One word of an ICH read: cached, else from the bank. */
    method IchWord(bank: BankId, w: nat) returns (ret: Status, word: bv16)
      requires Valid() && w < IMAGE_WORDS
      modifies flash`seen
      ensures WentSure(old(flash.seen), flash.seen, ret == Success)
      ensures flash.Reliable() ==> ret == Success
      ensures ret == Success ==> word == View(bank)[w]
    {
      ret := Success;
      if shadow[w].modified {
        word := shadow[w].value;
      } else {
        ret, word := flash.ReadFlashWord((if bank == 0 then 0 else flash.size / 2) + w);
      }
    }

    /** Paired reads of the SPT parts: one dword gives two words, and the second of a pair
        is taken from the shadow RAM when the first one is pending there. */
    method ReadNvmSpt(offset: nat, words: nat, data: array<bv16>) returns (ret: Status, ghost bank: BankId)
      requires Valid() && words <= data.Length && data as object != shadow && flash.family == Spt
      modifies data, flash`seen
      ensures Went(old(flash.seen), flash.seen, ret == Success || !InBounds(offset, words))
      ensures InBounds(offset, words) ==> Took(Active(), old(flash.seen), flash.seen, bank)
      ensures !InBounds(offset, words) ==> flash.seen == old(flash.seen)
      ensures Valid()
      ensures !InBounds(offset, words) ==> ret == ErrNvm
      ensures ret == Success ==>
                forall k :: 0 <= k < words ==>
                  data[k] == SptWord(flash.cells, bank, flash.size, shadow[..], offset, words, k)
      ensures data[words..] == old(data[words..])
      ensures bank == 0 || Active() == Some(bank)
      ensures flash.Reliable() && InBounds(offset, words) ==> ret == Success
      ensures flash.Reliable() && InBounds(offset, words) && Active().Some? ==> Active() == Some(bank)
      ensures flash.Reliable() && Active().Some? ==> SameGuesses(old(flash.seen), flash.seen)
    {
      bank := 0;
      if offset >= IMAGE_WORDS || words > IMAGE_WORDS - offset || words == 0 {
        return ErrNvm, 0;
      }
      var b;
      ret, b := DetectBank();
      if ret != Success { b := 0; }
      bank := b;
      ret := Success;
      hide SptWord, Overlay, WordAt, Detect, Region;
      ghost var guessed := flash.seen.guessed;
      var i := 0;
      while i < words
        invariant 0 <= i <= words + 1 && ret == Success && i % 2 == 0
        invariant forall k :: 0 <= k < i && k < words ==>
          data[k] == SptWord(flash.cells, bank, flash.size, shadow[..], offset, words, k)
        invariant Went(old(flash.seen), flash.seen, true) && flash.seen.guessed == guessed
        invariant data[words..] == old(data[words..])
      {
        ret := SptStep(b, offset, words, i, data);
        if ret != Success { break; }
        i := i + 2;
      }
    }

    /** One turn of the SPT read loop. */
    method SptStep(b: BankId, offset: nat, words: nat, i: nat, data: array<bv16>) returns (ret: Status)
      requires Valid() && words <= data.Length && data as object != shadow && flash.family == Spt
      requires offset + words <= IMAGE_WORDS && i < words && i % 2 == 0
      modifies data, flash`seen
      ensures WentSure(old(flash.seen), flash.seen, ret == Success)
      ensures flash.Reliable() ==> ret == Success
      ensures ret == Success ==>
                forall k :: i <= k < i + 2 && k < words ==>
                  data[k] == SptWord(flash.cells, b, flash.size, shadow[..], offset, words, k)
      ensures forall k :: 0 <= k < data.Length && (k < i || k >= words) ==> data[k] == old(data[k])
    {
      hide SptWord, Overlay, WordAt, Detect, Region;
      if words - i == 1 {
        var word;
        ret, word := SptSingle(b, offset + i);
        if ret != Success { return; }
        SptFirst(flash.cells, b, flash.size, shadow[..], offset, words, i);
        data[i] := word;
      } else {
        var first, second;
        ret, first, second := SptPair(b, offset + i);
        if ret != Success { return; }
        SptFirst(flash.cells, b, flash.size, shadow[..], offset, words, i);
        SptSecond(flash.cells, b, flash.size, shadow[..], offset, words, i + 1);
        data[i], data[i + 1] := first, second;
      }
    }

    /** Last word of an SPT read: the aligned dword around it, and one of its halves. */
    method SptSingle(bank: BankId, w: nat) returns (ret: Status, word: bv16)
      requires Valid() && flash.family == Spt && w < IMAGE_WORDS
      modifies flash`seen
      ensures WentSure(old(flash.seen), flash.seen, ret == Success)
      ensures flash.Reliable() ==> ret == Success
      ensures ret == Success ==> word == View(bank)[w]
    {
      ret, word := Success, 0;
      if shadow[w].modified {
        word := shadow[w].value;
      } else {
        var at := Base(bank, flash.size) / 2 + w;
        var dword;
        ret, dword := flash.ReadFlashDword(at - at % 2);
        if ret != Success { return; }
        DwordHalves(flash.cells, 2 * (at - at % 2));
        word := if at % 2 == 0 then LowWord(dword) else HighWord(dword);
      }
    }

    /** Two words of an SPT read. */
    method SptPair(bank: BankId, w: nat) returns (ret: Status, first: bv16, second: bv16)
      requires Valid() && flash.family == Spt && w + 1 < IMAGE_WORDS
      modifies flash`seen
      ensures WentSure(old(flash.seen), flash.seen, ret == Success)
      ensures flash.Reliable() ==> ret == Success
      ensures ret == Success ==> first == View(bank)[w]
      ensures ret == Success ==>
                second == if shadow[w].modified then shadow[w + 1].value
                          else WordAt(flash.cells, Base(bank, flash.size) + 2 * (w + 1))
    {
      ret, first, second := Success, 0, 0;
      var dword: bv32 := 0;
      var at := Base(bank, flash.size) / 2 + w;
      if !shadow[w].modified || !shadow[w + 1].modified {
        ret, dword := flash.ReadFlashDword(at);
        if ret != Success { return; }
        DwordHalves(flash.cells, 2 * at);
      }
      if shadow[w].modified {
        first, second := shadow[w].value, shadow[w + 1].value;
      } else {
        first, second := LowWord(dword), HighWord(dword);
      }
    }

    /** A one-word read into a local variable, through the routine of the family. */
    method ReadWord(offset: nat) returns (ret: Status, word: bv16, ghost bank: BankId)
      requires Valid() && offset < IMAGE_WORDS
      modifies flash`seen
      ensures Went(old(flash.seen), flash.seen, ret == Success)
      ensures Took(Active(), old(flash.seen), flash.seen, bank)
      ensures ret == Success ==> word == View(bank)[offset]
      ensures bank == 0 || Active() == Some(bank)
      ensures flash.Reliable() ==> ret == Success
      ensures flash.Reliable() && Active().Some? ==> SameGuesses(old(flash.seen), flash.seen)
    {
      var buf := new bv16[1];
      if flash.family == Spt {
        ret, bank := ReadNvmSpt(offset, 1, buf);
        assert ret == Success ==> buf[0] == SptWord(flash.cells, bank, flash.size, shadow[..], offset, 1, 0);
      } else {
        ret, bank := ReadNvm(offset, 1, buf);
        assert buf[0] == buf[..1][0];
      }
      word := buf[0];
    }

    method WriteNvm(offset: nat, words: nat, data: array<bv16>) returns (ret: Status)
      requires Valid() && words <= data.Length && data as object != shadow
      modifies shadow
      ensures Valid()
      ensures ret == Success <==> InBounds(offset, words)
      ensures ret == ErrNvm ==> shadow[..] == old(shadow[..])
      ensures ret == Success ==> shadow[..] == Patched(old(shadow[..]), offset, data[..words])
    {
      if offset >= IMAGE_WORDS || words > IMAGE_WORDS - offset || words == 0 {
        return ErrNvm;
      }
      var i := 0;
      while i < words
        invariant 0 <= i <= words
        invariant forall k :: 0 <= k < IMAGE_WORDS ==>
          shadow[k] == if offset <= k < offset + i then ShadowWord(data[k - offset], true) else old(shadow[k])
      {
        shadow[offset + i] := ShadowWord(data[i], true);
        i := i + 1;
      }
      ret := Success;
    }

    // ----- Checksum -----

    /** Adds up the first `n` words, one read each; `banks` are the banks they were read from. */
    method SumWords(n: nat) returns (ret: Status, sum: bv16, ghost banks: seq<BankId>)
      requires Valid() && n <= IMAGE_WORDS
      modifies flash`seen
      ensures Went(old(flash.seen), flash.seen, ret == Success)
      ensures Certain(old(flash.seen), flash.seen) ==> AllFrom(banks, Assumed())
      ensures Plausible(banks, Active()) && |banks| <= n
      ensures flash.Reliable() && Active().Some? ==> SameGuesses(old(flash.seen), flash.seen)
      ensures flash.Reliable() ==> AllFrom(banks, Assumed())
      ensures flash.Reliable() ==> ret == Success && sum == Sum(View(Assumed())[..n])
      ensures ret == Success ==> |banks| == n && sum == Sum(Served(flash.cells, flash.size, shadow[..], 0, banks))
      ensures ret == Success && AllFrom(banks, Assumed()) ==> sum == Sum(View(Assumed())[..n])
    {
      hide Overlay, Detect, Served, Sum, Plus;
      sum := 0;
      banks := [];
      SumNothing(flash.cells, flash.size, shadow[..]);
      ret := Success;
      var i := 0;
      while i < n
        invariant 0 <= i <= n && ret == Success && |banks| == i && Plausible(banks, Active())
        invariant Went(old(flash.seen), flash.seen, true)
        invariant Certain(old(flash.seen), flash.seen) ==> AllFrom(banks, Assumed())
        invariant flash.Reliable() && Active().Some? ==> SameGuesses(old(flash.seen), flash.seen)
        invariant flash.Reliable() ==> AllFrom(banks, Assumed())
        invariant sum == Sum(Served(flash.cells, flash.size, shadow[..], 0, banks))
      {
        var word;
        ghost var bank;
        ret, word, bank := ReadWord(i);
        if ret != Success { return; }
        ServedOneMore(flash.cells, flash.size, shadow[..], 0, banks, bank);
        SumOneMore(Served(flash.cells, flash.size, shadow[..], 0, banks), word);
        banks := banks + [bank];
        sum := Plus(sum, word);
        i := i + 1;
      }
      if AllFrom(banks, Assumed()) {
        ServedFrom(flash.cells, flash.size, shadow[..], 0, banks, Assumed());
      }
    }

    /** Stores the checksum of the first 0x3F words in the shadow RAM. */
    method UpdateChecksum() returns (ret: Status, ghost banks: seq<BankId>)
      requires Valid()
      modifies shadow, flash`seen
      ensures Valid() && Plausible(banks, Active()) && |banks| <= CHECKSUM_WORD
      ensures Went(old(flash.seen), flash.seen, ret == Success)
      ensures old(Active()) == Active()
      ensures Certain(old(flash.seen), flash.seen) ==> AllFrom(banks, Assumed())
      ensures flash.Reliable() && Active().Some? ==> SameGuesses(old(flash.seen), flash.seen)
      ensures flash.Reliable() ==> ret == Success && AllFrom(banks, Assumed())
      ensures ret != Success ==> shadow[..] == old(shadow[..])
      ensures ret == Success ==>
                && |banks| == CHECKSUM_WORD
                && shadow[..] == Summed(old(shadow[..]), Served(flash.cells, flash.size, old(shadow[..]), 0, banks))
      ensures ret == Success && AllFrom(banks, Assumed()) ==>
                shadow[..] == WithChecksum(old(shadow[..]), old(View(Assumed())))
    {
      var sum;
      ret, sum, banks := SumWords(CHECKSUM_WORD);
      if ret != Success { return; }
      var buf := new bv16[1];
      buf[0] := Complement(sum);
      ret := WriteNvm(CHECKSUM_WORD, 1, buf);
      PatchOne(old(shadow[..]), CHECKSUM_WORD, buf[..1]);
    }

    /** The ethtool self-test: 0 for a good checksum, 1 for a read error, 2 for a bad sum. */
    method EepromTest() returns (code: int, ghost banks: seq<BankId>)
      requires Valid()
      modifies flash`seen
      ensures Went(old(flash.seen), flash.seen, code != 1)
      ensures Certain(old(flash.seen), flash.seen) ==> AllFrom(banks, Assumed())
      ensures Valid() && Plausible(banks, Active()) && 0 <= code <= 2
      ensures flash.Reliable() ==> AllFrom(banks, Assumed())
      ensures flash.Reliable() ==> code == if Sum(View(Assumed())[..CHECKSUM_WORD + 1]) == NVM_SUM then 0 else 2
      ensures code != 1 ==>
                && |banks| == CHECKSUM_WORD + 1
                && (code == 0 <==> Sum(Served(flash.cells, flash.size, shadow[..], 0, banks)) == NVM_SUM)
      ensures code != 1 && AllFrom(banks, Assumed()) ==>
                (code == 0 <==> Sum(View(Assumed())[..CHECKSUM_WORD + 1]) == NVM_SUM)
    {
      var ret, sum;
      ret, sum, banks := SumWords(CHECKSUM_WORD + 1);
      if ret != Success { return 1, banks; }
      code := if sum != NVM_SUM then 2 else 0;
    }

    // ----- Commit -----

    /** Finds the bank in use and erases the other one.  `done` says that the erase really
        happened: the erase routine also reports success after running out of retries. */
    method EraseOther() returns (ret: Status, bank: BankId, ghost done: bool)
      requires Valid()
      modifies flash
      ensures Valid() && old(flash.history) <= flash.history
      ensures Went(old(flash.seen), flash.seen, ret == Success)
      ensures Took(old(Active()), old(flash.seen), flash.seen, bank)
      ensures flash.Reliable() ==> done && bank == old(Assumed())
      ensures done ==> ret == Success && old(flash.history) < flash.history
      ensures SingleSector() && !done && ret == Success ==>
                |flash.erases| >= |old(flash.erases)| + CYCLE_REPEAT_COUNT
      ensures SingleSector() ==>
                TornErase(old(flash.cells), flash.cells, Base(Other(bank), flash.size),
                          Base(Other(bank), flash.size) + SectorSize(flash.eraseSize))
      ensures SingleSector() && done ==> Blank(old(flash.cells), flash.cells, bank, flash.size)
      ensures SingleSector() && done ==>
                flash.cells == Erased(old(flash.cells), Base(Other(bank), flash.size),
                                      Base(Other(bank), flash.size) + SectorSize(flash.eraseSize))
      ensures SingleSector() ==>
                AllErasing(old(flash.cells), flash.history, |old(flash.history)|, bank, flash.size)
    {
      hide Detect, Erased, TornErase, AllTornErase, Blank, AllErasing;
      ret, bank := DetectBank();
      if ret != Success { bank := 0; }
      ghost var clean;
      ghost var c, n0 := flash.cells, |flash.history|;
      ret, done, clean := flash.EraseBank(Other(bank));
      if SingleSector() {
        SectorAligned(Other(bank), flash.size, SectorSize(flash.eraseSize));
        AllTornErasing(c, flash.history, n0, bank, flash.size, SectorSize(flash.eraseSize));
        ErasedBlank(c, bank, flash.size, SectorSize(flash.eraseSize));
      }
    }

    /** One write of the copy loop: `n` bytes of the held image are in place. */
    method CopyWrite(bank: BankId, ghost c: seq<bv8>, ghost e: seq<bv8>, ghost img: seq<bv16>, n: nat, vals: seq<bv8>)
      returns (ret: Status)
      requires Valid() && Region(c, flash.size) && |e| == |c| && |img| == IMAGE_WORDS
      requires n + |vals| <= IMAGE_BYTES && |vals| == (if flash.family == Spt then 4 else 1)
      requires vals == Bytes(Held(img), n, |vals|)
      requires flash.cells == Copied(e, Base(Other(bank), flash.size), Held(img), n)
      modifies flash`cells, flash`history, flash`seen
      ensures WentSure(old(flash.seen), flash.seen, ret == Success)
      ensures Valid() && old(flash.history) <= flash.history
      ensures flash.Reliable() ==> ret == Success
      ensures ret == Success ==> flash.cells == Copied(e, Base(Other(bank), flash.size), Held(img), n + |vals|)
      ensures Blank(c, e, bank, flash.size) ==>
                AllCopying(c, flash.history, |old(flash.history)|, bank, flash.size)
      ensures Blank(c, e, bank, flash.size) ==> OnesKept(old(flash.cells), Base(Other(bank), flash.size) + n, vals)
    {
      hide Copied, Held, Bytes, Programmed, TornProgram, AllTornProgram, Blank, AllCopying, OnesKept;
      var base := Base(Other(bank), flash.size);
      ghost var p, since := flash.cells, |flash.history|;
      CopyStep(e, p, base, Held(img), n, vals);
      ret := flash.RetryWrite(base + n, vals);
      assert AllTornProgram(p, flash.history, since, base + n, vals);
      if Blank(c, e, bank, flash.size) {
        CopyHistory(c, e, p, flash.history, since, bank, flash.size, img, n, vals);
        CopyKeepsOnes(c, e, bank, flash.size, Held(img), n, vals);
      }
    }

    /** The word the ICH copy loop takes: pending in the shadow RAM, else from the old bank. */
    method MergedWord(bank: BankId, i: nat, ghost e: seq<bv8>) returns (ret: Status, data: bv16)
      requires Valid() && i < IMAGE_WORDS && Region(e, flash.size) && OldIntact(e, flash.cells, bank, flash.size)
      modifies flash`seen
      ensures WentSure(old(flash.seen), flash.seen, ret == Success)
      ensures flash.Reliable() ==> ret == Success
      ensures ret == Success ==> data == Overlay(e, bank, flash.size, shadow[..])[i]
    {
      ret := Success;
      if shadow[i].modified {
        data := shadow[i].value;
      } else {
        ret, data := flash.ReadFlashWord(i + Base(bank, flash.size) / 2);
      }
    }

    /** The copy loop of the ICH commit; `c` is the content before the erase. */
    method CopyBytes(bank: BankId, ghost c: seq<bv8>) returns (ret: Status)
      requires Valid() && Region(c, flash.size) && flash.family == Ich
      modifies flash`cells, flash`history, flash`seen
      ensures WentSure(old(flash.seen), flash.seen, ret == Success)
      ensures Valid() && old(flash.history) <= flash.history
      ensures flash.Reliable() ==> ret == Success
      ensures ret == Success ==>
                flash.cells == Copied(old(flash.cells), Base(Other(bank), flash.size), Held(old(View(bank))),
                                      IMAGE_BYTES)
      ensures Blank(c, old(flash.cells), bank, flash.size) ==>
                AllCopying(c, flash.history, |old(flash.history)|, bank, flash.size)
    {
      hide Overlay, Copied, Held, Bytes, Blank, AllCopying, OldIntact;
      CopiedNothing(flash.cells, bank, flash.size, Held(View(bank)));
      CopyingNone(c, flash.history, bank, flash.size);
      ghost var e, n0, img := flash.cells, |flash.history|, View(bank);
      ret := Success;
      var i := 0;
      while i < IMAGE_WORDS
        invariant 0 <= i <= IMAGE_WORDS && Valid() && old(flash.history) <= flash.history
        invariant ret == Success && WentSure(old(flash.seen), flash.seen, true)
        invariant flash.cells == Copied(e, Base(Other(bank), flash.size), Held(img), 2 * i)
        invariant Blank(c, e, bank, flash.size) ==> AllCopying(c, flash.history, n0, bank, flash.size)
      {
        OldBankKept(e, bank, flash.size, Held(img), 2 * i);
        var data;
        ret, data := MergedWord(bank, i, e);
        if ret != Success { break; }
        ret := CopyWord(bank, c, e, img, i, data, n0);
        if ret != Success { break; }
        i := i + 1;
      }
    }

    /** The two byte writes of a word of the ICH loop, its signature bits held. */
    method CopyWord(bank: BankId, ghost c: seq<bv8>, ghost e: seq<bv8>, ghost img: seq<bv16>, i: nat, word: bv16,
                    ghost n0: nat)
      returns (ret: Status)
      requires Valid() && Region(c, flash.size) && flash.family == Ich && |e| == |c| && |img| == IMAGE_WORDS
      requires i < IMAGE_WORDS && word == img[i] && n0 <= |flash.history|
      requires flash.cells == Copied(e, Base(Other(bank), flash.size), Held(img), 2 * i)
      requires Blank(c, e, bank, flash.size) ==> AllCopying(c, flash.history, n0, bank, flash.size)
      modifies flash`cells, flash`history, flash`seen
      ensures WentSure(old(flash.seen), flash.seen, ret == Success)
      ensures Valid() && old(flash.history) <= flash.history
      ensures flash.Reliable() ==> ret == Success
      ensures ret == Success ==> flash.cells == Copied(e, Base(Other(bank), flash.size), Held(img), 2 * i + 2)
      ensures Blank(c, e, bank, flash.size) ==> AllCopying(c, flash.history, n0, bank, flash.size)
    {
      hide Copied, Held, Bytes, Blank, AllCopying, OnesKept, Lo, Hi, HoldWord, Base;
      HeldBytes(img, i, word);
      var data := word;
      if i == SIG_WORD {
        data := HoldWord(data);
      }
      ghost var g := flash.history;
      ret := CopyWrite(bank, c, e, img, 2 * i, [Lo(data)]);
      if Blank(c, e, bank, flash.size) { CopyingMore(c, g, flash.history, n0, bank, flash.size); }
      if ret != Success { return; }
      g := flash.history;
      ret := CopyWrite(bank, c, e, img, 2 * i + 1, [Hi(data)]);
      if Blank(c, e, bank, flash.size) { CopyingMore(c, g, flash.history, n0, bank, flash.size); }
    }

    /** The copy loop of the SPT commit: each dword of the old bank is patched with the
        pending words. */
    method CopyDwords(bank: BankId, ghost c: seq<bv8>) returns (ret: Status)
      requires Valid() && Region(c, flash.size) && flash.family == Spt
      modifies flash`cells, flash`history, flash`seen
      ensures WentSure(old(flash.seen), flash.seen, ret == Success)
      ensures Valid() && old(flash.history) <= flash.history
      ensures flash.Reliable() ==> ret == Success
      ensures ret == Success ==>
                flash.cells == Copied(old(flash.cells), Base(Other(bank), flash.size), Held(old(View(bank))),
                                      IMAGE_BYTES)
      ensures Blank(c, old(flash.cells), bank, flash.size) ==>
                AllCopying(c, flash.history, |old(flash.history)|, bank, flash.size)
    {
      hide Overlay, Copied, Held, Bytes, Blank, AllCopying, OldIntact;
      CopiedNothing(flash.cells, bank, flash.size, Held(View(bank)));
      CopyingNone(c, flash.history, bank, flash.size);
      ghost var e, n0, img := flash.cells, |flash.history|, View(bank);
      ret := Success;
      var i := 0;
      while i < IMAGE_WORDS
        invariant 0 <= i <= IMAGE_WORDS && i % 2 == 0 && Valid() && old(flash.history) <= flash.history
        invariant ret == Success && WentSure(old(flash.seen), flash.seen, true)
        invariant flash.cells == Copied(e, Base(Other(bank), flash.size), Held(img), 2 * i)
        invariant Blank(c, e, bank, flash.size) ==> AllCopying(c, flash.history, n0, bank, flash.size)
      {
        OldBankKept(e, bank, flash.size, Held(img), 2 * i);
        var vals;
        ret, vals := MergedDword(bank, i, e, img);
        if ret != Success { break; }
        ghost var g := flash.history;
        ret := CopyWrite(bank, c, e, img, 2 * i, vals);
        if Blank(c, e, bank, flash.size) { CopyingMore(c, g, flash.history, n0, bank, flash.size); }
        if ret != Success { break; }
        i := i + 2;
      }
    }

    /** Holds the signature bits at 11b when the dword contains them. */
    method HoldDword(i: nat, dword: bv32, ghost img: seq<bv16>) returns (vals: seq<bv8>)
      requires |img| == IMAGE_WORDS && i + 1 < IMAGE_WORDS && i % 2 == 0 && dword == MakeDword(img[i], img[i + 1])
      ensures vals == Bytes(Held(img), 2 * i, 4)
    {
      if i == SIG_WORD - 1 {
        HeldSigDword(img, img[i], img[i + 1]);
        vals := DwordBytes(HoldSig(dword));
      } else {
        HeldDword(img, i, img[i], img[i + 1]);
        vals := DwordBytes(dword);
      }
    }

    /** The bytes of a dword of the old bank, with the pending words of the shadow RAM
        patched in and the signature bits held. */
    method MergedDword(bank: BankId, i: nat, ghost e: seq<bv8>, ghost img: seq<bv16>) returns (ret: Status,
            vals: seq<bv8>)
      requires Valid() && i + 1 < IMAGE_WORDS && i % 2 == 0 && flash.family == Spt
      requires Region(e, flash.size) && OldIntact(e, flash.cells, bank, flash.size)
      requires img == Overlay(e, bank, flash.size, shadow[..])
      modifies flash`seen
      ensures WentSure(old(flash.seen), flash.seen, ret == Success)
      ensures flash.Reliable() ==> ret == Success
      ensures ret == Success ==> vals == Bytes(Held(img), 2 * i, 4)
    {
      vals := [];
      var dword;
      ret, dword := flash.ReadFlashDword(i + Base(bank, flash.size) / 2);
      if ret == Success {
        MergeDword(e, flash.cells, bank, flash.size, shadow[..], i);
      }
      if shadow[i].modified {
        dword := WithLow(dword, shadow[i].value);
      }
      if shadow[i + 1].modified {
        dword := WithHigh(dword, shadow[i + 1].value);
      }
      if ret != Success { return; }
      vals := HoldDword(i, dword, img);
    }

    // ----- Signatures -----

    /** Bit 14 of word 0x13 is cleared in the new bank. */
    method Validate(bank: BankId, ghost c: seq<bv8>, ghost e: seq<bv8>, ghost img: seq<bv16>) returns (ret: Status)
      requires Valid() && Region(c, flash.size) && |e| == |c| && |img| == IMAGE_WORDS
      requires flash.cells == Copied(e, Base(Other(bank), flash.size), Held(img), IMAGE_BYTES)
      modifies flash`cells, flash`history, flash`seen
      ensures WentSure(old(flash.seen), flash.seen, ret == Success)
      ensures Valid() && old(flash.history) <= flash.history
      ensures flash.Reliable() ==> ret == Success
      ensures ret == Success ==>
                flash.cells == Copied(e, Base(Other(bank), flash.size), Stamp(img), IMAGE_BYTES)
      ensures Blank(c, e, bank, flash.size) ==>
                AllFilling(c, flash.history, |old(flash.history)|, bank, flash.size, Stamp(img))
    {
      var nbase := Base(Other(bank), flash.size);
      var at, vals;
      ret, at, vals := SignatureFlip(nbase);
      if ret != Success { return; }
      ret := flash.RetryWrite(at, vals);
      FlipStep(e, nbase, img, at, vals);
      FlipHistory(c, e, flash.history, |old(flash.history)|, bank, flash.size, img, at, vals);
    }

    /** Reads back the signature, by word or by dword, and prepares the write that clears
        its bit 14. */
    method SignatureFlip(base: nat) returns (ret: Status, at: nat, vals: seq<bv8>)
      requires Valid() && (base == 0 || base == flash.size)
      modifies flash`seen
      ensures WentSure(old(flash.seen), flash.seen, ret == Success)
      ensures flash.Reliable() ==> ret == Success
      ensures ret == Success ==> FlipWrite(flash.cells, base, at, vals) && OnesKept(flash.cells, at, vals)
      ensures ret == Success ==> |vals| == if flash.family == Spt then 4 else 1
    {
      at, vals := base, [];
      if flash.family == Spt {
        var dword;
        ret, dword := flash.ReadFlashDword(base / 2 + SIG_WORD - 1);
        if ret != Success { return; }
        at := base + 2 * SIG_WORD - 2;
        FlipDword(flash.cells, base, at);
        dword := FlipSig(dword);
        vals := DwordBytes(dword);
      } else {
        var data;
        ret, data := flash.ReadFlashWord(base / 2 + SIG_WORD);
        if ret != Success { return; }
        FlipWord(flash.cells, base);
        data := FlipWordSig(data);
        at, vals := base + SIG_BYTE, [Hi(data)];
      }
      SignatureKeepsOnes(flash.cells, base, at, vals);
    }

    /** The signature byte of the old bank is programmed to zero. */
    method Invalidate(bank: BankId, ghost c: seq<bv8>, ghost e: seq<bv8>, ghost img: seq<bv16>) returns (ret: Status)
      requires Valid() && Region(c, flash.size) && |e| == |c| && |img| == IMAGE_WORDS
      requires flash.cells == Copied(e, Base(Other(bank), flash.size), img, IMAGE_BYTES)
      modifies flash`cells, flash`history, flash`seen
      ensures WentSure(old(flash.seen), flash.seen, ret == Success)
      ensures Valid() && old(flash.history) <= flash.history
      ensures flash.Reliable() ==> ret == Success
      ensures ret == Success ==> flash.cells == Committed(e, bank, flash.size, img)
      ensures Blank(c, e, bank, flash.size) ==>
                AllInvalidating(c, flash.history, |old(flash.history)|, bank, flash.size, img)
    {
      var at, vals;
      ret, at, vals := SignatureZero(Base(bank, flash.size));
      if ret != Success { return; }
      ret := flash.RetryWrite(at, vals);
      InvalidateDone(e, bank, flash.size, img, at, vals);
      InvalidateHistory(c, e, flash.history, |old(flash.history)|, bank, flash.size, img, at, vals);
    }

    /** Prepares the write that clears the signature byte; SPT parts read the dword around
        it first. */
    method SignatureZero(base: nat) returns (ret: Status, at: nat, vals: seq<bv8>)
      requires Valid() && (base == 0 || base == flash.size)
      modifies flash`seen
      ensures WentSure(old(flash.seen), flash.seen, ret == Success)
      ensures flash.Reliable() ==> ret == Success
      ensures ret == Success ==> ZeroWrite(flash.cells, base, at, vals) && OnesKept(flash.cells, at, vals)
      ensures ret == Success ==> |vals| == if flash.family == Spt then 4 else 1
    {
      ret, at, vals := Success, base + SIG_BYTE, [0];
      if flash.family == Spt {
        var dword;
        ret, dword := flash.ReadFlashDword(base / 2 + SIG_WORD - 1);
        if ret != Success { return; }
        at := base + 2 * SIG_WORD - 2;
        ZeroDword(flash.cells, base, at);
        dword := ZeroSig(dword);
        vals := DwordBytes(dword);
      }
      SignatureKeepsOnes(flash.cells, base, at, vals);
    }

    /** Forgets the pending words. */
    method ClearShadow()
      requires Valid()
      modifies shadow
      ensures Valid() && shadow[..] == CleanShadow()
    {
      var i := 0;
      while i < IMAGE_WORDS
        invariant 0 <= i <= IMAGE_WORDS
        invariant forall k :: 0 <= k < i ==> shadow[k] == CLEAN
      {
        shadow[i] := CLEAN;
        i := i + 1;
      }
    }

    /** The commit proper, on either family; `t` marks its phases in the history. */
    method CommitShadow() returns (ret: Status, ghost t: Trace)
      requires Valid()
      modifies flash, shadow
      ensures Valid() && old(flash.history) <= flash.history
      ensures Went(old(flash.seen), flash.seen, ret == Success)
      ensures Took(old(Active()), old(flash.seen), flash.seen, t.bank)
      ensures t.gaveUp ==> !t.erased
      ensures SingleSector() && t.gaveUp ==> |flash.erases| >= |old(flash.erases)| + CYCLE_REPEAT_COUNT
      ensures flash.Reliable() ==> !t.gaveUp && ret == Success && t.bank == old(Assumed())
      ensures ret != Success ==> shadow[..] == old(shadow[..])
      ensures ret == Success ==> shadow[..] == CleanShadow() && (t.erased || t.gaveUp)
      ensures ret == Success ==>
                && Region(t.blank, flash.size)
                && flash.cells == Committed(t.blank, t.bank, flash.size,
                                            Target(t.blank, t.bank, flash.size, old(shadow[..])))
      ensures SingleSector() ==>
                TornErase(old(flash.cells), t.blank, Base(Other(t.bank), flash.size),
                          Base(Other(t.bank), flash.size) + SectorSize(flash.eraseSize))
      ensures SingleSector() && !t.gaveUp && ret == Success ==>
                flash.cells == CommitResult(old(flash.cells), t.bank, flash.size, SectorSize(flash.eraseSize),
                                            old(shadow[..]))
      ensures SingleSector() && !t.gaveUp ==>
                Traced(old(flash.cells), flash.history, |old(flash.history)|, t, flash.size,
                       Target(old(flash.cells), t.bank, flash.size, old(shadow[..])))
    {
      hide Traced, Filling, Invalidating, Erasing, Blank, Committed, CommitResult, Copied, TornErase, Overlay;
      ghost var c, sh, n0, size := flash.cells, shadow[..], |flash.history|, flash.size;
      var b;
      ghost var done;
      ret, b, done := EraseOther();
      ghost var blank, img, sure := flash.cells, Stamp(View(b)), SingleSector() && done;
      t := Trace(b, blank, done, ret == Success && !done, |flash.history|, |flash.history|);
      if SingleSector() { EraseTraced(c, flash.history, n0, t, size, Target(c, b, size, sh)); }
      if ret != Success { return; }
      if sure {
        t := t.(mid := |flash.history| - 1);
        OverlayKept(c, blank, b, size, sh);
        AllErasingOut(c, flash.history, n0, b, size);
        TraceErased(c, flash.history, n0, t, size, img);
        ErasedCommit(c, b, size, SectorSize(flash.eraseSize), sh);
      }
      ret, t := FillBank(b, c, n0, t, sure);
      if ret != Success { return; }
      ghost var g := flash.history;
      ret := Invalidate(b, c, blank, img);
      if sure { TraceLate(c, g, flash.history, n0, t, size, img); }
      if ret != Success { return; }
      ClearShadow();
    }

    /** Copy and validation: the part of a commit in which the new bank is filled.  With
        `sure`, the history has been traced up to the end of the erase. */
    method FillBank(b: BankId, ghost c: seq<bv8>, ghost n0: nat, ghost t0: Trace, ghost sure: bool)
      returns (ret: Status, ghost t: Trace)
      requires Valid() && Region(c, flash.size) && t0.bank == b && t0.blank == flash.cells
      requires sure ==> t0.erased && t0.late == |flash.history|
      requires sure ==> Traced(c, flash.history, n0, t0, flash.size, Stamp(View(b)))
      modifies flash`cells, flash`history, flash`seen
      ensures WentSure(old(flash.seen), flash.seen, ret == Success)
      ensures Valid() && old(flash.history) <= flash.history
      ensures flash.Reliable() ==> ret == Success
      ensures ret == Success ==>
                flash.cells == Copied(t0.blank, Base(Other(b), flash.size), Stamp(old(View(b))), IMAGE_BYTES)
      ensures t == if sure then t0.(late := |flash.history|) else t0
      ensures sure ==> Traced(c, flash.history, n0, t, flash.size, Stamp(old(View(b))))
    {
      hide Traced, Filling, Blank, Copied, Overlay;
      t := t0;
      ghost var blank, img, g := flash.cells, View(b), flash.history;
      if sure { TracedBlank(c, g, n0, t, flash.size, Stamp(img)); }
      if flash.family == Spt {
        ret := CopyDwords(b, c);
      } else {
        ret := CopyBytes(b, c);
      }
      if sure {
        CopyingFills(c, flash.history, |g|, b, flash.size, Stamp(img));
        TraceFilled(c, g, flash.history, n0, t, flash.size, Stamp(img));
        t := t.(late := |flash.history|);
      }
      if ret != Success { return; }
      g := flash.history;
      ret := Validate(b, c, blank, img);
      if sure {
        TraceFilled(c, g, flash.history, n0, t, flash.size, Stamp(img));
        t := t.(late := |flash.history|);
      }
    }

    /** The driver's update routine: checksum, then commit.  `pending` is the shadow RAM
        with the checksum in it, `banks` are the banks its words were read from. */
    method UpdateNvm() returns (ret: Status, ghost t: Trace, ghost pending: seq<ShadowWord>, ghost banks: seq<BankId>)
      requires Valid()
      modifies flash, shadow
      ensures Valid() && old(flash.history) <= flash.history
      ensures Went(old(flash.seen), flash.seen, ret == Success)
      ensures Sure(old(Active()), old(flash.seen), flash.seen) ==>
                t.bank == old(Assumed()) && AllFrom(banks, old(Assumed()))
      ensures t.bank == 0 || old(Active()) == Some(t.bank)
      ensures Plausible(banks, old(Active()))
      ensures SingleSector() && t.gaveUp ==> |flash.erases| >= |old(flash.erases)| + CYCLE_REPEAT_COUNT
      ensures flash.Reliable() ==>
                ret == Success && !t.gaveUp && t.bank == old(Assumed()) && AllFrom(banks, old(Assumed()))
      ensures |banks| <= CHECKSUM_WORD && (ret == Success ==> |banks| == CHECKSUM_WORD)
      ensures pending == old(shadow[..])
           || (|banks| == CHECKSUM_WORD
               && pending == Summed(old(shadow[..]), old(Served(flash.cells, flash.size, shadow[..], 0, banks))))
      ensures ret == Success && AllFrom(banks, old(Assumed())) ==>
                pending == WithChecksum(old(shadow[..]), old(View(Assumed())))
      ensures |pending| == IMAGE_WORDS && shadow[..] == if ret == Success then CleanShadow() else pending
      ensures ret == Success && SingleSector() ==>
                && TornErase(old(flash.cells), t.blank, Base(Other(t.bank), flash.size),
                             Base(Other(t.bank), flash.size) + SectorSize(flash.eraseSize))
                && flash.cells == Committed(t.blank, t.bank, flash.size, Target(t.blank, t.bank, flash.size, pending))
      ensures SingleSector() && !t.gaveUp && ret == Success ==>
                flash.cells == CommitResult(old(flash.cells), t.bank, flash.size, SectorSize(flash.eraseSize), pending)
      ensures SingleSector() && !t.gaveUp ==>
                Traced(old(flash.cells), flash.history, |old(flash.history)|, t, flash.size,
                       Target(old(flash.cells), t.bank, flash.size, pending))
    {
      hide Filling, Invalidating, Erasing, Blank, Committed, CommitResult, Copied, TornErase, Served, Overlay, Summed;
      t := Trace(Assumed(), flash.cells, false, false, |flash.history|, |flash.history|);
      ret, banks := UpdateChecksum();
      pending := shadow[..];
      if ret != Success { return; }
      ret, t := CommitShadow();
    }
  }

  /** An erase that reported an error has only raised bits of the new bank. */
  lemma EraseTraced(c: seq<bv8>, hs: seq<seq<bv8>>, since: nat, t: Trace, size: nat, img: seq<bv16>)
    requires Region(c, size) && |img| == IMAGE_WORDS && since <= |hs| && AllErasing(c, hs, since, t.bank, size)
    requires t.mid == t.late == |hs|
    ensures !t.erased ==> Traced(c, hs, since, t, size, img)
  {
    hide Erasing, Filling, Invalidating;
  }

  lemma AllErasingOut(c: seq<bv8>, hs: seq<seq<bv8>>, since: nat, bank: BankId, size: nat)
    requires Region(c, size) && AllErasing(c, hs, since, bank, size)
    ensures forall k :: since <= k < |hs| ==> Erasing(c, hs[k], bank, size)
  {
  }

  lemma TracedBlank(c: seq<bv8>, hs: seq<seq<bv8>>, since: nat, t: Trace, size: nat, img: seq<bv16>)
    requires Region(c, size) && |img| == IMAGE_WORDS && Traced(c, hs, since, t, size, img) && t.erased
    ensures Blank(c, t.blank, t.bank, size)
  {
    hide Erasing, Filling, Invalidating;
  }

  /** What the commit leaves is stated from the content before the erase. */
  lemma ErasedCommit(c: seq<bv8>, bank: BankId, size: nat, sector: nat, sh: seq<ShadowWord>)
    requires Region(c, size) && |sh| == IMAGE_WORDS
    ensures var nbase := Base(Other(bank), size);
            Committed(Erased(c, nbase, nbase + sector), bank, size, Target(c, bank, size, sh))
            == CommitResult(c, bank, size, sector, sh)
  {
  }

  lemma CopyingFills(c: seq<bv8>, hs: seq<seq<bv8>>, since: nat, bank: BankId, size: nat, img: seq<bv16>)
    requires Region(c, size) && |img| == IMAGE_WORDS && AllCopying(c, hs, since, bank, size)
    ensures AllFilling(c, hs, since, bank, size, img)
  {
    hide Copying, Validated;
  }

  /** The byte-wise and the dword-wise commit, started from the same flash and shadow RAM, leave the same flash
      and an empty shadow RAM, unless one of them meets a failure, has to guess the bank or gives its erase up. */
  method CommitsAgree(ich: NvmStore, spt: NvmStore) returns (ghost gaveUp: bool)
    requires ich.Valid() && spt.Valid() && ich.flash != spt.flash && ich.shadow != spt.shadow
    requires ich.flash.family == Ich && spt.flash.family == Spt
    requires ich.SingleSector()
    requires ich.flash.size == spt.flash.size && ich.flash.eraseSize == spt.flash.eraseSize
    requires ich.flash.cells == spt.flash.cells && ich.shadow[..] == spt.shadow[..]
    modifies ich.flash, ich.shadow, spt.flash, spt.shadow
    ensures ich.flash.Reliable() && spt.flash.Reliable() ==>
              && !gaveUp
              && Unfailing(old(ich.flash.seen), ich.flash.seen) && Unfailing(old(spt.flash.seen), spt.flash.seen)
    ensures Unfailing(old(ich.flash.seen), ich.flash.seen) && Unfailing(old(spt.flash.seen), spt.flash.seen)
            && Sure(old(ich.Active()), old(ich.flash.seen), ich.flash.seen)
            && Sure(old(spt.Active()), old(spt.flash.seen), spt.flash.seen) && !gaveUp ==>
              && ich.flash.cells == spt.flash.cells
              && ich.shadow[..] == spt.shadow[..] == CleanShadow()
  {
    hide Traced, Summed, Served, Committed, TornErase, Target;
    ghost var t1, t2, p1, p2, b1, b2;
    var ret1, ret2;
    ret1, t1, p1, b1 := ich.UpdateNvm();
    ret2, t2, p2, b2 := spt.UpdateNvm();
    gaveUp := t1.gaveUp || t2.gaveUp;
  }

  lemma CopiedNothing(e: seq<bv8>, bank: BankId, size: nat, img: seq<bv16>)
    requires Region(e, size) && |img| == IMAGE_WORDS
    ensures Copied(e, Base(Other(bank), size), img, 0) == e
  {
  }

  lemma CopyingNone(c: seq<bv8>, hs: seq<seq<bv8>>, bank: BankId, size: nat)
    requires Region(c, size)
    ensures AllCopying(c, hs, |hs|, bank, size)
  {
  }

  lemma CopyingMore(c: seq<bv8>, g: seq<seq<bv8>>, hs: seq<seq<bv8>>, since: nat, bank: BankId, size: nat)
    requires Region(c, size) && g <= hs && since <= |g|
    requires AllCopying(c, g, since, bank, size) && AllCopying(c, hs, |g|, bank, size)
    ensures AllCopying(c, hs, since, bank, size)
  {
    hide Copying;
    forall k | since <= k < |hs| ensures Copying(c, hs[k], bank, size) {
      if k < |g| { assert hs[k] == g[k]; }
    }
  }

  /** Copying never changes the old bank. */
  lemma OldBankKept(e: seq<bv8>, bank: BankId, size: nat, img: seq<bv16>, n: nat)
    requires Region(e, size) && |img| == IMAGE_WORDS && n <= IMAGE_BYTES
    ensures OldIntact(e, Copied(e, Base(Other(bank), size), img, n), bank, size)
  {
  }

  lemma HeldBytes(img: seq<bv16>, i: nat, data: bv16)
    requires |img| == IMAGE_WORDS && i < IMAGE_WORDS && data == img[i]
    ensures var d := if i == SIG_WORD then HoldWord(data) else data;
            [Lo(d)] == Bytes(Held(img), 2 * i, 1) && [Hi(d)] == Bytes(Held(img), 2 * i + 1, 1)
  {
    HeldWord(img, i, data);
  }

  lemma HeldWord(img: seq<bv16>, i: nat, data: bv16)
    requires |img| == IMAGE_WORDS && i < IMAGE_WORDS && data == img[i]
    ensures var d := if i == SIG_WORD then HoldWord(data) else data;
            Lo(d) == ImageByte(Held(img), 2 * i) && Hi(d) == ImageByte(Held(img), 2 * i + 1)
  {
  }

  lemma HeldDword(img: seq<bv16>, i: nat, lo: bv16, hi: bv16)
    requires |img| == IMAGE_WORDS && i + 1 < IMAGE_WORDS && i % 2 == 0 && i != SIG_WORD - 1
    requires lo == img[i] && hi == img[i + 1]
    ensures DwordBytes(MakeDword(lo, hi)) == Bytes(Held(img), 2 * i, 4)
  {
    HeldPair(img, i, lo, hi);
    SplitDword(lo, hi);
  }

  lemma HeldSigDword(img: seq<bv16>, lo: bv16, hi: bv16)
    requires |img| == IMAGE_WORDS && lo == img[SIG_WORD - 1] && hi == img[SIG_WORD]
    ensures DwordBytes(HoldSig(MakeDword(lo, hi))) == Bytes(Held(img), 2 * SIG_WORD - 2, 4)
  {
    HeldPair(img, SIG_WORD - 1, lo, hi);
    SplitHeldDword(lo, hi);
  }

  lemma HeldPair(img: seq<bv16>, i: nat, lo: bv16, hi: bv16)
    requires |img| == IMAGE_WORDS && i + 1 < IMAGE_WORDS && i % 2 == 0 && lo == img[i] && hi == img[i + 1]
    ensures var h := if i == SIG_WORD - 1 then HoldWord(hi) else hi;
            Bytes(Held(img), 2 * i, 4) == [Lo(lo), Hi(lo), Lo(h), Hi(h)]
  {
    HeldWord(img, i, lo);
    HeldWord(img, i + 1, hi);
    assert 2 * (i + 1) == 2 * i + 2;
  }

  lemma SplitDword(lo: bv16, hi: bv16)
    ensures DwordBytes(MakeDword(lo, hi)) == [Lo(lo), Hi(lo), Lo(hi), Hi(hi)]
  {
  }

  lemma SplitHeldDword(lo: bv16, hi: bv16)
    ensures DwordBytes(HoldSig(MakeDword(lo, hi))) == [Lo(lo), Hi(lo), Lo(HoldWord(hi)), Hi(HoldWord(hi))]
  {
  }

  /** Bits 31:30 of the dword, bits 15:14 of its high word, set to 11b. */
  function HoldSig(dword: bv32): bv32 { dword | 0xC000_0000 }

  /** Bit 30 cleared. */
  function FlipSig(dword: bv32): bv32 { dword & 0xBFFF_FFFF }

  /** The high byte cleared. */
  function ZeroSig(dword: bv32): bv32 { dword & 0x00FF_FFFF }

  function WithLow(dword: bv32, w: bv16): bv32 { (dword & 0xFFFF_0000) | (w as bv32) }

  function WithHigh(dword: bv32, w: bv16): bv32 { (dword & 0x0000_FFFF) | (w as bv32 << 16) }

  /** Patching the dword of the old bank gives the dword of the merged image. */
  lemma MergeDword(e: seq<bv8>, c: seq<bv8>, bank: BankId, size: nat, sh: seq<ShadowWord>, i: nat)
    requires Region(e, size) && |sh| == IMAGE_WORDS && i + 1 < IMAGE_WORDS && OldIntact(e, c, bank, size)
    ensures var a := Base(bank, size) + 2 * i;
            var d := DwordAt(c, a);
            var d' := if sh[i].modified then WithLow(d, sh[i].value) else d;
            var d'' := if sh[i + 1].modified then WithHigh(d', sh[i + 1].value) else d';
            var img := Overlay(e, bank, size, sh);
            d'' == MakeDword(img[i], img[i + 1])
  {
    var a := Base(bank, size) + 2 * i;
    PatchBits(WordAt(c, a), WordAt(c, a + 2), sh[i].value, sh[i + 1].value);
  }

  lemma PatchBits(lo: bv16, hi: bv16, l: bv16, h: bv16)
    ensures WithLow(MakeDword(lo, hi), l) == MakeDword(l, hi)
    ensures WithHigh(MakeDword(lo, hi), h) == MakeDword(lo, h)
    ensures WithHigh(MakeDword(l, hi), h) == MakeDword(l, h)
  {
    PatchLowBits(lo, hi, l);
    PatchHighBits(lo, hi, h);
    PatchHighBits(l, hi, h);
  }

  lemma PatchLowBits(lo: bv16, hi: bv16, l: bv16)
    ensures WithLow(MakeDword(lo, hi), l) == MakeDword(l, hi)
  {
  }

  lemma PatchHighBits(lo: bv16, hi: bv16, h: bv16)
    ensures WithHigh(MakeDword(lo, hi), h) == MakeDword(lo, h)
  {
  }

  lemma FlipWord(c: seq<bv8>, base: nat)
    requires base + SIG_BYTE < |c|
    ensures FlipWrite(c, base, base + SIG_BYTE, [Hi(FlipWordSig(WordAt(c, base + 2 * SIG_WORD)))])
  {
    FlipWordBits(c[base + 2 * SIG_WORD], c[base + SIG_BYTE]);
  }

  lemma FlipWordBits(lo: bv8, hi: bv8)
    ensures Hi(FlipWordSig(MakeWord(lo, hi))) == FlipByte(hi)
  {
  }

  lemma FlipDword(c: seq<bv8>, base: nat, at: nat)
    requires at == base + 2 * SIG_WORD - 2 && at + 3 < |c|
    ensures FlipWrite(c, base, at, DwordBytes(FlipSig(DwordAt(c, at))))
  {
    FlipDwordParts(c, at);
    FlipBytes(c, base, at, DwordBytes(FlipSig(DwordAt(c, at))));
  }

  lemma FlipBytes(c: seq<bv8>, base: nat, at: nat, vals: seq<bv8>)
    requires at == base + 2 * SIG_WORD - 2 && at + 3 < |c|
    requires vals == [c[at], c[at + 1], c[at + 2], FlipByte(c[at + 3])]
    ensures FlipWrite(c, base, at, vals)
  {
  }

  lemma ZeroDword(c: seq<bv8>, base: nat, at: nat)
    requires at == base + 2 * SIG_WORD - 2 && at + 3 < |c|
    ensures ZeroWrite(c, base, at, DwordBytes(ZeroSig(DwordAt(c, at))))
  {
    ZeroDwordParts(c, at);
    ZeroBytes(c, base, at, DwordBytes(ZeroSig(DwordAt(c, at))));
  }

  lemma ZeroBytes(c: seq<bv8>, base: nat, at: nat, vals: seq<bv8>)
    requires at == base + 2 * SIG_WORD - 2 && at + 3 < |c|
    requires vals == [c[at], c[at + 1], c[at + 2], 0]
    ensures ZeroWrite(c, base, at, vals)
  {
  }

  lemma FlipDwordParts(c: seq<bv8>, at: nat)
    requires at + 3 < |c|
    ensures DwordBytes(FlipSig(DwordAt(c, at))) == [c[at], c[at + 1], c[at + 2], FlipByte(c[at + 3])]
  {
    assert at + 2 + 1 == at + 3;
    FlipDwordBits(c[at], c[at + 1], c[at + 2], c[at + 2 + 1]);
  }

  lemma ZeroDwordParts(c: seq<bv8>, at: nat)
    requires at + 3 < |c|
    ensures DwordBytes(ZeroSig(DwordAt(c, at))) == [c[at], c[at + 1], c[at + 2], 0]
  {
    assert at + 2 + 1 == at + 3;
    ZeroDwordBits(c[at], c[at + 1], c[at + 2], c[at + 2 + 1]);
  }

  lemma FlipDwordBits(b0: bv8, b1: bv8, b2: bv8, b3: bv8)
    ensures DwordBytes(FlipSig(MakeDword(MakeWord(b0, b1), MakeWord(b2, b3)))) == [b0, b1, b2, FlipByte(b3)]
  {
  }

  lemma ZeroDwordBits(b0: bv8, b1: bv8, b2: bv8, b3: bv8)
    ensures DwordBytes(ZeroSig(MakeDword(MakeWord(b0, b1), MakeWord(b2, b3)))) == [b0, b1, b2, 0]
  {
  }

  lemma FlipHistory(c: seq<bv8>, e: seq<bv8>, hs: seq<seq<bv8>>, since: nat, bank: BankId, size: nat,
          img: seq<bv16>, at: nat, vals: seq<bv8>)
    requires Region(c, size) && |e| == |c| && |img| == IMAGE_WORDS
    requires var base := Base(Other(bank), size);
             var p := Copied(e, base, Held(img), IMAGE_BYTES);
             FlipWrite(p, base, at, vals) && AllTornProgram(p, hs, since, at, vals)
    ensures Blank(c, e, bank, size) ==> AllFilling(c, hs, since, bank, size, Stamp(img))
  {
    if Blank(c, e, bank, size) {
      forall k | since <= k < |hs| ensures Filling(c, hs[k], bank, size, Stamp(img)) {
        FlipStepTorn(c, e, hs[k], bank, size, img, at, vals);
      }
    }
  }

  lemma InvalidateHistory(c: seq<bv8>, e: seq<bv8>, hs: seq<seq<bv8>>, since: nat, bank: BankId, size: nat,
          img: seq<bv16>, at: nat, vals: seq<bv8>)
    requires Region(c, size) && |e| == |c| && |img| == IMAGE_WORDS
    requires var base := Base(bank, size);
             var p := Copied(e, Base(Other(bank), size), img, IMAGE_BYTES);
             ZeroWrite(p, base, at, vals) && AllTornProgram(p, hs, since, at, vals)
    ensures Blank(c, e, bank, size) ==> AllInvalidating(c, hs, since, bank, size, img)
  {
    if Blank(c, e, bank, size) {
      forall k | since <= k < |hs| ensures Invalidating(c, hs[k], bank, size, img) {
        InvalidateStep(c, e, hs[k], bank, size, img, at, vals);
      }
    }
  }

  lemma OverlayKept(c: seq<bv8>, e: seq<bv8>, bank: BankId, size: nat, sh: seq<ShadowWord>)
    requires Region(c, size) && |sh| == IMAGE_WORDS && OldIntact(c, e, bank, size)
    ensures Overlay(e, bank, size, sh) == Overlay(c, bank, size, sh)
  {
  }

  lemma SumStep(img: seq<bv16>, i: nat)
    requires i < |img|
    ensures Sum(img[..i + 1]) == Plus(Sum(img[..i]), img[i])
  {
    var s := img[..i + 1];
    assert s[..|s| - 1] == img[..i];
    assert s[|s| - 1] == img[i];
  }

  /** Word `k` of an SPT read of `words` words at `offset`. */
  function SptWord(c: seq<bv8>, bank: BankId, size: nat, sh: seq<ShadowWord>, offset: nat, words: nat, k: nat): bv16
    requires Region(c, size) && |sh| == IMAGE_WORDS && offset + words <= IMAGE_WORDS && k < words
  {
    var w := offset + k;
    var stored := WordAt(c, Base(bank, size) + 2 * w);
    if k % 2 == 1 then
      if sh[w - 1].modified then sh[w].value else stored
    else
      if sh[w].modified then sh[w].value else stored
  }

  /** First words of pairs, and a last single word, are logical words. */
  lemma SptFirst(c: seq<bv8>, bank: BankId, size: nat, sh: seq<ShadowWord>, offset: nat, words: nat, k: nat)
    requires Region(c, size) && |sh| == IMAGE_WORDS && offset + words <= IMAGE_WORDS && k < words && k % 2 == 0
    ensures SptWord(c, bank, size, sh, offset, words, k) == Overlay(c, bank, size, sh)[offset + k]
  {
  }

  lemma SptSecond(c: seq<bv8>, bank: BankId, size: nat, sh: seq<ShadowWord>, offset: nat, words: nat, k: nat)
    requires Region(c, size) && |sh| == IMAGE_WORDS && offset + words <= IMAGE_WORDS && k < words && k % 2 == 1
    ensures SptWord(c, bank, size, sh, offset, words, k) ==
            if sh[offset + k - 1].modified then sh[offset + k].value else WordAt(c, Base(bank, size) + 2 * (offset + k))
  {
  }

  /** The flags of a pair agree, or the cache and the flash happen to hold the same word. */
  predicate PairAgrees(c: seq<bv8>, bank: BankId, size: nat, sh: seq<ShadowWord>, w: nat)
    requires Region(c, size) && |sh| == IMAGE_WORDS && 0 < w < IMAGE_WORDS
  {
    sh[w - 1].modified == sh[w].modified || sh[w].value == WordAt(c, Base(bank, size) + 2 * w)
  }

  /** The SPT read returns the logical contents exactly when every pair it covers agrees. */
  lemma SptReadExact(c: seq<bv8>, bank: BankId, size: nat, sh: seq<ShadowWord>, offset: nat, words: nat)
    requires Region(c, size) && |sh| == IMAGE_WORDS && offset + words <= IMAGE_WORDS
    ensures (forall k :: 0 <= k < words ==> SptAgrees(c, bank, size, sh, offset, words, k))
            <==> (forall k :: 0 <= k < words && k % 2 == 1 ==> PairAgrees(c, bank, size, sh, offset + k))
  {
    forall k | 0 <= k < words
      ensures SptAgrees(c, bank, size, sh, offset, words, k)
              <==> (k % 2 == 1 ==> PairAgrees(c, bank, size, sh, offset + k))
    {
    }
    if forall k :: 0 <= k < words ==> SptAgrees(c, bank, size, sh, offset, words, k) {
      forall k | 0 <= k < words && k % 2 == 1 ensures PairAgrees(c, bank, size, sh, offset + k) {
        assert SptAgrees(c, bank, size, sh, offset, words, k);
      }
    }
  }

  /** Word `k` of an SPT read is the logical content. */
  predicate SptAgrees(c: seq<bv8>, bank: BankId, size: nat, sh: seq<ShadowWord>, offset: nat, words: nat, k: nat)
    requires Region(c, size) && |sh| == IMAGE_WORDS && offset + words <= IMAGE_WORDS && k < words
  {
    SptWord(c, bank, size, sh, offset, words, k) == Overlay(c, bank, size, sh)[offset + k]
  }

  function LowWord(dword: bv32): bv16 { (dword & 0xFFFF) as bv16 }

  function HighWord(dword: bv32): bv16 { (dword >> 16) as bv16 }

  lemma DwordHalves(c: seq<bv8>, a: nat)
    requires a + 3 < |c|
    ensures LowWord(DwordAt(c, a)) == WordAt(c, a) && HighWord(DwordAt(c, a)) == WordAt(c, a + 2)
  {
    HalfBits(WordAt(c, a), WordAt(c, a + 2));
  }

  lemma HalfBits(lo: bv16, hi: bv16)
    ensures LowWord(MakeDword(lo, hi)) == lo && HighWord(MakeDword(lo, hi)) == hi
  {
  }

  lemma DwordSecond(c: seq<bv8>, a: nat)
    requires a + 3 < |c|
    ensures SecondByte(DwordAt(c, a)) == c[a + 1]
  {
    hide MakeWord;
    SecondBits(WordAt(c, a), WordAt(c, a + 2));
    WordBytes(c[a], c[a + 1], 0);
  }

  lemma SecondBits(lo: bv16, hi: bv16)
    ensures SecondByte(MakeDword(lo, hi)) == Hi(lo)
  {
  }

  function SecondByte(dword: bv32): bv8 { ((dword & 0xFF00) >> 8) as bv8 }

  function Patched(sh: seq<ShadowWord>, offset: nat, data: seq<bv16>): (r: seq<ShadowWord>)
    requires offset + |data| <= |sh|
    ensures |r| == |sh|
  {
    seq(|sh|, i requires 0 <= i < |sh| =>
      if offset <= i < offset + |data| then ShadowWord(data[i - offset], true) else sh[i])
  }

  lemma PatchOne(sh: seq<ShadowWord>, offset: nat, data: seq<bv16>)
    requires offset < |sh| && |data| == 1
    ensures Patched(sh, offset, data) == sh[offset := ShadowWord(data[0], true)]
  {
  }

  ghost predicate AllErasing(c: seq<bv8>, hs: seq<seq<bv8>>, since: nat, bank: BankId, size: nat)
    requires Region(c, size)
  {
    forall k :: since <= k < |hs| ==> Erasing(c, hs[k], bank, size)
  }

  lemma AllTornErasing(c: seq<bv8>, hs: seq<seq<bv8>>, since: nat, bank: BankId, size: nat, sector: nat)
    requires Region(c, size) && sector <= size
    requires AllTornErase(c, hs, since, Base(Other(bank), size), Base(Other(bank), size) + sector)
    ensures AllErasing(c, hs, since, bank, size)
  {
    forall k | since <= k < |hs| ensures Erasing(c, hs[k], bank, size) {
      TornErasing(c, hs[k], bank, size, sector);
    }
  }

  lemma TornErasing(c: seq<bv8>, h: seq<bv8>, bank: BankId, size: nat, sector: nat)
    requires Region(c, size) && sector <= size
    requires TornErase(c, h, Base(Other(bank), size), Base(Other(bank), size) + sector)
    ensures Erasing(c, h, bank, size)
  {
    forall a | 0 <= a < |c| ensures c[a] & c[a] == c[a] { AndSelf(c[a]); }
  }

  lemma ErasedBlank(c: seq<bv8>, bank: BankId, size: nat, sector: nat)
    requires Region(c, size) && IMAGE_BYTES <= sector <= size
    ensures Blank(c, Erased(c, Base(Other(bank), size), Base(Other(bank), size) + sector), bank, size)
  {
  }

  lemma SectorAligned(bank: BankId, size: nat, sector: nat)
    requires sector > 0 && size % sector == 0
    ensures Base(bank, size) % sector == 0
  {
  }

  lemma CopyHistory(c: seq<bv8>, e: seq<bv8>, p: seq<bv8>, hs: seq<seq<bv8>>, since: nat, bank: BankId,
          size: nat, img: seq<bv16>, n: nat, vals: seq<bv8>)
    requires Region(c, size) && Blank(c, e, bank, size) && |img| == IMAGE_WORDS && n + |vals| <= IMAGE_BYTES
    requires vals == Bytes(Held(img), n, |vals|)
    requires p == Copied(e, Base(Other(bank), size), Held(img), n)
    requires AllTornProgram(p, hs, since, Base(Other(bank), size) + n, vals)
    ensures AllCopying(c, hs, since, bank, size)
  {
    forall k | since <= k < |hs| ensures Copying(c, hs[k], bank, size) {
      CopyStepTorn(c, e, hs[k], bank, size, img, n, vals);
    }
  }
}
