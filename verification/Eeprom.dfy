/** Byte-granular access to the NVM image: the ethtool get and set operations, which read,
    patch and write back whole words, behind the bounds test of the ioctl layer. */
module Eeprom {
  import opened Nor
  import opened Commit
  import opened Flash
  import opened CrashSafety
  import opened NvmStore
  import opened Checksum

  datatype Code = Ok | NvmError | Invalid | NotSupported | BadMagic

  const U32: nat := 0x1_0000_0000
  const EEPROM_LEN: nat := 4096

  /** The test of the ioctl layer, on 32-bit values that may wrap. */
  predicate Admitted(offset: nat, len: nat) {
    !((offset + len) % U32 <= offset) && !((offset + len) % U32 > EEPROM_LEN)
  }

  /** It admits exactly the non-empty ranges inside the device. */
  lemma AdmittedExact(offset: nat, len: nat)
    requires offset < U32 && len < U32
    ensures Admitted(offset, len) <==> len > 0 && offset + len <= EEPROM_LEN
  {
    if offset + len >= U32 { assert (offset + len) % U32 == offset + len - U32; }
  }

  function WithLo(w: bv16, b: bv8): (r: bv16)
    ensures Lo(r) == b && Hi(r) == Hi(w)
  {
    (w & 0xFF00) | (b as bv16)
  }

  function WithHi(w: bv16, b: bv8): (r: bv16)
    ensures Hi(r) == b && Lo(r) == Lo(w)
  {
    (w & 0x00FF) | (b as bv16 << 8)
  }

  /** The image with `data` in place from byte `offset`. */
  function PatchBytes(img: seq<bv16>, offset: nat, data: seq<bv8>): (r: seq<bv16>)
    requires offset + |data| <= 2 * |img|
    ensures |r| == |img|
  {
    seq(|img|, w requires 0 <= w < |img| =>
      MakeWord(PatchedByte(img, offset, data, 2 * w), PatchedByte(img, offset, data, 2 * w + 1)))
  }

  function PatchedByte(img: seq<bv16>, offset: nat, data: seq<bv8>, k: nat): bv8
    requires offset + |data| <= 2 * |img| && k < 2 * |img|
  {
    if offset <= k < offset + |data| then data[k - offset] else ImageByte(img, k)
  }

  /** Byte `k` of the patched image. */
  lemma PatchedByteAt(img: seq<bv16>, offset: nat, data: seq<bv8>, k: nat)
    requires offset + |data| <= 2 * |img| && k < 2 * |img|
    ensures ImageByte(PatchBytes(img, offset, data), k) == PatchedByte(img, offset, data, k)
  {
    var w := k / 2;
    WordBytes(PatchedByte(img, offset, data, 2 * w), PatchedByte(img, offset, data, 2 * w + 1), 0);
  }

  /** The image after a set operation: the bytes, then, when the range starts at or before
      the checksum word, the checksum and the signature bits of the commit. */
  function AfterSet(img: seq<bv16>, offset: nat, data: seq<bv8>): (r: seq<bv16>)
    requires |img| == IMAGE_WORDS && offset + |data| <= EEPROM_LEN
    ensures |r| == IMAGE_WORDS
  {
    var patched := PatchBytes(img, offset, data);
    if offset / 2 <= CHECKSUM_WORD then
      Stamp(patched[CHECKSUM_WORD := Complement(Sum(patched[..CHECKSUM_WORD]))])
    else
      patched
  }

  /** Byte `k` of the image after a set operation: the new byte inside the range, the old
      one outside, except for the checksum word and the committed signature bits. */
  lemma AfterSetByte(img: seq<bv16>, offset: nat, data: seq<bv8>, k: nat)
    requires |img| == IMAGE_WORDS && offset + |data| <= EEPROM_LEN && k < EEPROM_LEN
    requires offset / 2 <= CHECKSUM_WORD ==> k / 2 != CHECKSUM_WORD
    ensures var b := PatchedByte(img, offset, data, k);
            ImageByte(AfterSet(img, offset, data), k) ==
              if k == SIG_BYTE && offset / 2 <= CHECKSUM_WORD then StampByte(b) else b
    ensures SigValid(PatchedByte(img, offset, data, SIG_BYTE)) ==>
              ImageByte(AfterSet(img, offset, data), k) == PatchedByte(img, offset, data, k)
  {
    PatchedByteAt(img, offset, data, k);
    var patched := PatchBytes(img, offset, data);
    StampBits(patched[SIG_WORD]);
    StampByteSame(PatchedByte(img, offset, data, SIG_BYTE));
    if k / 2 == SIG_WORD {
      assert k == SIG_BYTE - 1 || k == SIG_BYTE;
    }
  }

  function StampByte(b: bv8): bv8 { (b | 0xC0) & 0xBF }

  lemma StampBits(w: bv16)
    ensures Hi(StampWord(w)) == StampByte(Hi(w)) && Lo(StampWord(w)) == Lo(w)
  {
  }

  lemma StampByteSame(b: bv8)
    ensures SigValid(b) <==> StampByte(b) == b
  {
  }

  // ----- Operations -----

  /** Copies `len` bytes of the image out, through a buffer of whole words.  `banks` are the
      banks its words were read from. */
  method GetEeprom(store: NvmStore, offset: nat, len: nat, bytes: array<bv8>)
    returns (code: Code, ghost banks: seq<BankId>)
    requires store.Valid() && offset + len <= EEPROM_LEN && len <= bytes.Length
    requires bytes as object != store.shadow
    modifies bytes, store.flash`seen
    ensures store.Valid() && Plausible(banks, store.Active())
    ensures Went(old(store.flash.seen), store.flash.seen, code != NvmError)
    ensures store.Certain(old(store.flash.seen), store.flash.seen) ==> AllFrom(banks, store.Assumed())
    ensures len == 0 ==> code == Invalid
    ensures len > 0 ==> code == Ok || code == NvmError
    ensures bytes[len..] == old(bytes[len..])
    ensures code == NvmError ==> bytes[..len] == Ones(len)
    ensures code == Ok ==>
              && len > 0 && |banks| == (offset + len - 1) / 2 - offset / 2 + 1
              && bytes[..len] == Bytes(Served(store.flash.cells, store.flash.size, store.shadow[..], offset / 2, banks),
                                       offset % 2, len)
    ensures code == Ok && AllFrom(banks, store.Assumed()) ==>
              bytes[..len] == Bytes(store.View(store.Assumed()), offset, len)
    ensures len > 0 && store.flash.Reliable() ==> code == Ok && AllFrom(banks, store.Assumed())
  {
    hide Served, Overlay, Detect, ImageByte;
    banks := [];
    if len == 0 { return Invalid, banks; }
    var firstWord, lastWord := offset / 2, (offset + len - 1) / 2;
    var buff := new bv16[lastWord - firstWord + 1];
    var ret;
    ret, banks := ReadWords(store, firstWord, buff);
    if ret != Success {
      FillOnes(buff);
      OnesBytes(buff[..], offset % 2, len);
    }
    CopyOut(buff, offset % 2, len, bytes);
    code := if ret == Success then Ok else NvmError;
    if ret == Success && AllFrom(banks, store.Assumed()) {
      ServedFrom(store.flash.cells, store.flash.size, store.shadow[..], firstWord, banks, store.Assumed());
      SliceBytes(store.View(store.Assumed()), offset, len);
    }
  }

  /** Throws away the result of a failed read. */
  method FillOnes(buff: array<bv16>)
    modifies buff
    ensures forall i :: 0 <= i < |buff[..]| ==> buff[..][i] == 0xFFFF
  {
    var j := 0;
    while j < buff.Length
      invariant 0 <= j <= buff.Length
      invariant forall i :: 0 <= i < j ==> buff[i] == 0xFFFF
    {
      buff[j] := 0xFFFF;
      j := j + 1;
    }
  }

  lemma OnesBytes(words: seq<bv16>, skip: nat, len: nat)
    requires skip + len <= 2 * |words| && forall i :: 0 <= i < |words| ==> words[i] == 0xFFFF
    ensures Bytes(words, skip, len) == Ones(len)
  {
    OnesWord();
    hide Lo, Hi;
    forall k | 0 <= k < len ensures Bytes(words, skip, len)[k] == 0xFF {
      assert words[(skip + k) / 2] == 0xFFFF;
      assert Bytes(words, skip, len)[k] == ImageByte(words, skip + k);
    }
  }

  function Ones(len: nat): seq<bv8> { seq(len, _ => 0xFF) }

  lemma OnesWord()
    ensures Lo(0xFFFF) == 0xFF && Hi(0xFFFF) == 0xFF
  {
  }

  /** Bytes of a run of words are bytes of the image. */
  lemma SliceBytes(img: seq<bv16>, offset: nat, len: nat)
    requires len > 0 && offset + len <= 2 * |img|
    ensures Bytes(img[offset / 2..(offset + len - 1) / 2 + 1], offset % 2, len) == Bytes(img, offset, len)
  {
    hide ImageByte;
    var words := img[offset / 2..(offset + len - 1) / 2 + 1];
    forall k | 0 <= k < len ensures Bytes(words, offset % 2, len)[k] == Bytes(img, offset, len)[k] {
      SliceByte(img, offset, len, k);
      assert Bytes(words, offset % 2, len)[k] == ImageByte(words, offset % 2 + k);
      assert Bytes(img, offset, len)[k] == ImageByte(img, offset + k);
    }
  }

  lemma SliceByte(img: seq<bv16>, offset: nat, len: nat, k: nat)
    requires k < len && offset + len <= 2 * |img|
    ensures ImageByte(img[offset / 2..(offset + len - 1) / 2 + 1], offset % 2 + k) == ImageByte(img, offset + k)
  {
    hide Lo, Hi;
    SkipSplit(offset, k);
    var words := img[offset / 2..(offset + len - 1) / 2 + 1];
    assert words[(offset % 2 + k) / 2] == img[(offset + k) / 2];
  }

  lemma SkipSplit(offset: nat, k: nat)
    ensures (offset + k) / 2 == offset / 2 + (offset % 2 + k) / 2
    ensures (offset + k) % 2 == (offset % 2 + k) % 2
  {
    assert offset == 2 * (offset / 2) + offset % 2;
  }

  /** One read a word, from `first` on. */
  method ReadWords(store: NvmStore, first: nat, buff: array<bv16>) returns (ret: Status, ghost banks: seq<BankId>)
    requires store.Valid() && first + buff.Length <= IMAGE_WORDS && buff as object != store.shadow
    modifies buff, store.flash`seen
    ensures store.Valid() && Plausible(banks, store.Active())
    ensures Went(old(store.flash.seen), store.flash.seen, ret == Success)
    ensures store.Certain(old(store.flash.seen), store.flash.seen) ==> AllFrom(banks, store.Assumed())
    ensures store.flash.Reliable() && store.Active().Some? ==> SameGuesses(old(store.flash.seen), store.flash.seen)
    ensures store.flash.Reliable() ==> ret == Success && AllFrom(banks, store.Assumed())
    ensures ret == Success ==>
              && |banks| == buff.Length
              && buff[..] == Served(store.flash.cells, store.flash.size, store.shadow[..], first, banks)
  {
    hide Overlay, Detect;
    ret, banks := Success, [];
    var i := 0;
    while i < buff.Length
      modifies buff, store.flash`seen
      invariant 0 <= i <= buff.Length && ret == Success && |banks| == i && Plausible(banks, store.Active())
      invariant Went(old(store.flash.seen), store.flash.seen, true)
      invariant store.Certain(old(store.flash.seen), store.flash.seen) ==> AllFrom(banks, store.Assumed())
      invariant store.flash.Reliable() && store.Active().Some? ==> SameGuesses(old(store.flash.seen), store.flash.seen)
      invariant store.flash.Reliable() ==> AllFrom(banks, store.Assumed())
      invariant buff[..i] == Served(store.flash.cells, store.flash.size, store.shadow[..], first, banks)
    {
      var word;
      ghost var bank;
      ret, word, bank := store.ReadWord(first + i);
      if ret != Success { return; }
      ServedOneMore(store.flash.cells, store.flash.size, store.shadow[..], first, banks, bank);
      banks := banks + [bank];
      buff[i] := word;
      i := i + 1;
      assert buff[..i] == buff[..i - 1] + [word];
    }
    assert buff[..] == buff[..i];
  }

  /** Byte copy out of a word buffer, starting at byte `skip`. */
  method CopyOut(buff: array<bv16>, skip: nat, len: nat, bytes: array<bv8>)
    requires skip + len <= 2 * buff.Length && len <= bytes.Length && buff as object != bytes
    modifies bytes
    ensures bytes[..len] == Bytes(buff[..], skip, len)
    ensures bytes[len..] == old(bytes[len..])
  {
    var k := 0;
    while k < len
      invariant 0 <= k <= len
      invariant forall j :: 0 <= j < k ==> bytes[j] == ImageByte(buff[..], skip + j)
      invariant bytes[len..] == old(bytes[len..])
    {
      bytes[k] := if (skip + k) % 2 == 0 then Lo(buff[(skip + k) / 2]) else Hi(buff[(skip + k) / 2]);
      k := k + 1;
    }
  }

  /** Reads the first and the last word of the range when only part of them is new. */
  method LoadEnds(store: NvmStore, offset: nat, len: nat, buff: array<bv16>)
    returns (ret: Status, ghost banks: seq<BankId>)
    requires store.Valid() && len > 0 && offset + len <= EEPROM_LEN && buff.Length == IMAGE_WORDS
    requires buff as object != store.shadow
    modifies buff, store.flash`seen
    ensures store.Valid() && Plausible(banks, store.Active())
    ensures Went(old(store.flash.seen), store.flash.seen, ret == Success)
    ensures store.Certain(old(store.flash.seen), store.flash.seen) ==> AllFrom(banks, store.Assumed())
    ensures store.flash.Reliable() && store.Active().Some? ==> SameGuesses(old(store.flash.seen), store.flash.seen)
    ensures store.flash.Reliable() ==> ret == Success && AllFrom(banks, store.Assumed())
    ensures ret == Success ==> |banks| == offset % 2 + (offset + len) % 2
    ensures ret == Success && AllFrom(banks, store.Assumed()) ==>
              EndsLoaded(store.View(store.Assumed()), offset, len, buff[..])
  {
    hide Overlay, Detect;
    var firstWord, lastWord := offset / 2, (offset + len - 1) / 2;
    ret, banks := Success, [];
    ghost var bank, bank0;
    if offset % 2 == 1 {
      var word;
      ret, word, bank0 := store.ReadWord(firstWord);
      buff[0] := word;
      banks := [bank0];
    }
    if (offset + len) % 2 == 1 && ret == Success {
      var word;
      ret, word, bank := store.ReadWord(lastWord);
      buff[lastWord - firstWord] := word;
      banks := banks + [bank];
      assert banks[|banks| - 1] == bank && (offset % 2 == 1 ==> banks[0] == bank0);
    }
    assert offset % 2 == 1 ==> banks[0] == bank0;
  }

  ghost predicate EndsLoaded(img: seq<bv16>, offset: nat, len: nat, buff: seq<bv16>)
    requires |img| == |buff| == IMAGE_WORDS && len > 0 && offset + len <= EEPROM_LEN
  {
    var first, last := offset / 2, (offset + len - 1) / 2;
    && (offset % 2 == 1 ==> buff[0] == img[first])
    && ((offset + len) % 2 == 1 ==> buff[last - first] == img[last])
  }

  /** Byte copy into a word buffer, starting at byte `skip`. */
  method PatchBuffer(buff: array<bv16>, skip: nat, len: nat, bytes: array<bv8>)
    requires skip + len <= 2 * buff.Length && len <= bytes.Length && buff as object != bytes
    modifies buff
    ensures buff[..] == PatchBytes(old(buff[..]), skip, bytes[..len])
  {
    var k := 0;
    PatchNothing(buff[..], skip);
    assert bytes[..0] == [];
    while k < len
      invariant 0 <= k <= len
      invariant buff[..] == PatchBytes(old(buff[..]), skip, bytes[..k])
    {
      var w := (skip + k) / 2;
      ghost var before := buff[..];
      PatchOneMore(old(buff[..]), skip, bytes[..k], bytes[k]);
      buff[w] := if (skip + k) % 2 == 0 then WithLo(buff[w], bytes[k]) else WithHi(buff[w], bytes[k]);
      assert bytes[..k + 1] == bytes[..k] + [bytes[k]];
      assert buff[..] == before[w := buff[w]];
      k := k + 1;
    }
  }

  lemma PatchNothing(img: seq<bv16>, offset: nat)
    requires offset <= 2 * |img|
    ensures PatchBytes(img, offset, []) == img
  {
    forall w | 0 <= w < |img| ensures PatchBytes(img, offset, [])[w] == img[w] {
      WordBytes(0, 0, img[w]);
    }
  }

  lemma PatchOneMore(img: seq<bv16>, offset: nat, data: seq<bv8>, b: bv8)
    requires offset + |data| < 2 * |img|
    ensures var w := (offset + |data|) / 2;
            var p := PatchBytes(img, offset, data);
            PatchBytes(img, offset, data + [b]) ==
              p[w := if (offset + |data|) % 2 == 0 then WithLo(p[w], b) else WithHi(p[w], b)]
  {
    hide Lo, Hi, MakeWord, WithLo, WithHi;
    var k := offset + |data|;
    var w := k / 2;
    var p := PatchBytes(img, offset, data);
    var q := PatchBytes(img, offset, data + [b]);
    var r := if k % 2 == 0 then WithLo(p[w], b) else WithHi(p[w], b);
    forall v | 0 <= v < |img| ensures q[v] == if v == w then r else p[v] {
      if v == w {
        WordBytes(PatchedByte(img, offset, data, 2 * w), PatchedByte(img, offset, data, 2 * w + 1), r);
      }
    }
  }

  /** The buffer, its ends loaded and the bytes copied in, is a run of words of the patched
      image. */
  lemma BufferIsImage(img: seq<bv16>, offset: nat, data: seq<bv8>, b0: seq<bv16>)
    requires |img| == |b0| == IMAGE_WORDS && |data| > 0 && offset + |data| <= EEPROM_LEN
    requires EndsLoaded(img, offset, |data|, b0)
    ensures var first, last := offset / 2, (offset + |data| - 1) / 2;
            PatchBytes(b0, offset % 2, data)[..last - first + 1] == PatchBytes(img, offset, data)[first..last + 1]
  {
    hide Lo, Hi, MakeWord;
    var first, last := offset / 2, (offset + |data| - 1) / 2;
    forall j | 0 <= j <= last - first
      ensures PatchBytes(b0, offset % 2, data)[j] == PatchBytes(img, offset, data)[first + j]
    {
      BufferByte(img, offset, data, b0, 2 * j);
      BufferByte(img, offset, data, b0, 2 * j + 1);
    }
  }

  lemma BufferByte(img: seq<bv16>, offset: nat, data: seq<bv8>, b0: seq<bv16>, k: nat)
    requires |img| == |b0| == IMAGE_WORDS && |data| > 0 && offset + |data| <= EEPROM_LEN
    requires EndsLoaded(img, offset, |data|, b0)
    requires k / 2 <= (offset + |data| - 1) / 2 - offset / 2
    ensures PatchedByte(b0, offset % 2, data, k) == PatchedByte(img, offset, data, 2 * (offset / 2) + k)
  {
    hide Lo, Hi;
  }

  /** Writing those words to the shadow RAM patches the logical image. */
  lemma WritePatches(c: seq<bv8>, bank: BankId, size: nat, sh: seq<ShadowWord>, offset: nat, data: seq<bv8>)
    requires Region(c, size) && |sh| == IMAGE_WORDS && |data| > 0 && offset + |data| <= EEPROM_LEN
    ensures var img := Overlay(c, bank, size, sh);
            var patched := PatchBytes(img, offset, data);
            var first, last := offset / 2, (offset + |data| - 1) / 2;
            Overlay(c, bank, size, Patched(sh, first, patched[first..last + 1])) == patched
  {
    hide Lo, Hi, MakeWord, WordAt, PatchBytes;
    var img := Overlay(c, bank, size, sh);
    var patched := PatchBytes(img, offset, data);
    var first, last := offset / 2, (offset + |data| - 1) / 2;
    forall w | 0 <= w < IMAGE_WORDS
      ensures Overlay(c, bank, size, Patched(sh, first, patched[first..last + 1]))[w] == patched[w]
    {
      if !(first <= w <= last) { PatchElsewhere(img, offset, data, w); }
    }
  }

  lemma PatchElsewhere(img: seq<bv16>, offset: nat, data: seq<bv8>, w: nat)
    requires |data| > 0 && offset + |data| <= 2 * |img| && w < |img|
    requires !(offset / 2 <= w <= (offset + |data| - 1) / 2)
    ensures PatchBytes(img, offset, data)[w] == img[w]
  {
    WordBytes(0, 0, img[w]);
  }

  /** Checksum and commit, and what readers see after a sound success. */
  method CommitImage(store: NvmStore) returns (ret: Status, ghost t: Trace, ghost sums: seq<BankId>)
    requires store.Valid()
    modifies store.flash, store.shadow
    ensures store.Valid() && Plausible(sums, old(store.Active()))
    ensures t.bank == 0 || old(store.Active()) == Some(t.bank)
    ensures Went(old(store.flash.seen), store.flash.seen, ret == Success)
    ensures Sure(old(store.Active()), old(store.flash.seen), store.flash.seen) ==>
              t.bank == old(store.Assumed()) && AllFrom(sums, old(store.Assumed()))
    ensures store.flash.Reliable() ==> ret == Success && Sound(t, sums, old(store.Assumed()))
    ensures ret == Success && store.SingleSector() && Sound(t, sums, old(store.Assumed())) ==>
              var img := old(store.View(store.Assumed()));
              && store.Active() == Some(Other(old(store.Assumed())))
              && store.View(store.Assumed()) == Stamp(img[CHECKSUM_WORD := Complement(Sum(img[..CHECKSUM_WORD]))])
  {
    hide CommitResult, WithChecksum, Summed, Served, Sum, Complement, Stamp, Traced;
    hide Committed, TornErase, Overlay, Detect;
    ghost var c, sh, b := store.flash.cells, store.shadow[..], store.Assumed();
    ghost var pending;
    ret, t, pending, sums := store.UpdateNvm();
    if store.SingleSector() {
      SoundUpdate(c, b, store.flash.size, SectorSize(store.flash.eraseSize), sh);
    }
  }

  /** Writes `len` bytes into the image: partial words at either end are read first, the
      whole words are written to the shadow RAM, and the image is committed when the range
      starts at or before the checksum word.  `ends` and `sums` are the banks read from. */
  method SetEeprom(store: NvmStore, offset: nat, len: nat, magicMatches: bool, bytes: array<bv8>)
    returns (code: Code, ghost ends: seq<BankId>, ghost t: Trace, ghost sums: seq<BankId>)
    requires store.Valid() && offset + len <= EEPROM_LEN && len <= bytes.Length
    requires bytes as object != store.shadow
    modifies store.flash, store.shadow
    ensures store.Valid() && Plausible(ends + sums, old(store.Active()))
    ensures t.bank == 0 || old(store.Active()) == Some(t.bank)
    ensures Went(old(store.flash.seen), store.flash.seen, code != NvmError)
    ensures Sure(old(store.Active()), old(store.flash.seen), store.flash.seen) ==>
              && t.bank == old(store.Assumed())
              && AllFrom(ends, old(store.Assumed())) && AllFrom(sums, old(store.Assumed()))
    ensures len == 0 ==> code == NotSupported
    ensures len > 0 && !magicMatches ==> code == BadMagic
    ensures len > 0 && magicMatches ==> code == Ok || code == NvmError
    ensures code == NotSupported || code == BadMagic ==>
              store.flash.cells == old(store.flash.cells) && store.shadow[..] == old(store.shadow[..])
    ensures len > 0 && magicMatches && store.flash.Reliable() ==>
              code == Ok && AllFrom(ends, old(store.Assumed())) && Sound(t, sums, old(store.Assumed()))
    ensures code == Ok && (offset / 2 > CHECKSUM_WORD || store.SingleSector())
            && AllFrom(ends, old(store.Assumed())) && Sound(t, sums, old(store.Assumed())) ==>
              && store.Active() == (if offset / 2 <= CHECKSUM_WORD then Some(Other(old(store.Assumed())))
                                    else old(store.Active()))
              && store.View(store.Assumed()) == AfterSet(old(store.View(store.Assumed())), offset, bytes[..len])
  {
    hide PatchBytes, Overlay, Patched, EndsLoaded, Stamp, Complement, Sum, Detect;
    ghost var b := store.Assumed();
    ends, sums, t := [], [], Trace(b, store.flash.cells, false, false, 0, 0);
    if len == 0 { return NotSupported, ends, t, sums; }
    if !magicMatches { return BadMagic, ends, t, sums; }
    var firstWord, lastWord := offset / 2, (offset + len - 1) / 2;
    var buff := new bv16[IMAGE_WORDS];
    var ret;
    ret, ends := LoadEnds(store, offset, len, buff);
    if ret != Success { return NvmError, ends, t, sums; }
    ghost var b0, data := buff[..], bytes[..len];
    PatchBuffer(buff, offset % 2, len, bytes);
    if AllFrom(ends, b) {
      BufferIsImage(store.View(b), offset, data, b0);
      WritePatches(store.flash.cells, b, store.flash.size, store.shadow[..], offset, data);
    }
    ret := store.WriteNvm(firstWord, lastWord - firstWord + 1, buff);
    if ret != Success { return NvmError, ends, t, sums; }
    if firstWord <= CHECKSUM_WORD {
      ret, t, sums := CommitImage(store);
    }
    code := if ret == Success then Ok else NvmError;
  }

  /** Round trip: when both calls report success, having read the bank in use throughout, bytes
      that were set are read back, and every byte outside the range is still there, except for
      the checksum word and the signature bits of a commit. */
  method SetThenGet(store: NvmStore, offset: nat, len: nat, bytes: array<bv8>, at: nat, n: nat, out: array<bv8>)
    returns (wrote: Code, read: Code, ghost ends: seq<BankId>, ghost t: Trace, ghost sums: seq<BankId>,
             ghost got: seq<BankId>)
    requires store.Valid() && store.SingleSector()
    requires 0 < len <= bytes.Length && offset + len <= EEPROM_LEN
    requires 0 < n <= out.Length && at + n <= EEPROM_LEN
    requires bytes as object != store.shadow && out as object != store.shadow && out != bytes
    modifies store.flash, store.shadow, out
    ensures store.Valid() && Plausible(ends + sums, old(store.Active())) && Plausible(got, store.Active())
    ensures Unfailing(old(store.flash.seen), store.flash.seen) ==> wrote == read == Ok
    ensures SameGuesses(old(store.flash.seen), store.flash.seen) && wrote == Ok && !t.gaveUp ==>
              && AllFrom(ends, old(store.Assumed())) && Sound(t, sums, old(store.Assumed()))
              && AllFrom(got, store.Assumed())
    ensures store.flash.Reliable() ==>
              && wrote == read == Ok && AllFrom(ends, old(store.Assumed())) && Sound(t, sums, old(store.Assumed()))
              && AllFrom(got, store.Assumed())
    ensures wrote == read == Ok && AllFrom(ends, old(store.Assumed())) && Sound(t, sums, old(store.Assumed()))
            && AllFrom(got, store.Assumed()) ==>
              var img := old(store.View(store.Assumed()));
              forall k :: 0 <= k < n && ReadsBack(img, offset, bytes[..len], at + k) ==>
                out[k] == PatchedByte(img, offset, bytes[..len], at + k)
  {
    hide AfterSet, ImageByte, Detect, Overlay, PatchedByte, SigValid, Served;
    ghost var img, data, b := store.View(store.Assumed()), bytes[..len], store.Assumed();
    wrote, ends, t, sums := SetEeprom(store, offset, len, true, bytes);
    ghost var after := AfterSet(img, offset, data);
    read, got := GetEeprom(store, at, n, out);
    if wrote == read == Ok && AllFrom(ends, b) && Sound(t, sums, b) && AllFrom(got, store.Assumed()) {
      assert out[..n] == Bytes(after, at, n);
      forall k | 0 <= k < n && ReadsBack(img, offset, data, at + k)
        ensures out[k] == PatchedByte(img, offset, data, at + k)
      {
        assert out[k] == out[..n][k] == ImageByte(after, at + k);
        AfterSetByte(img, offset, data, at + k);
      }
    }
  }

  /** Byte `k` is not touched by the checksum or by the commit's signature. */
  predicate ReadsBack(img: seq<bv16>, offset: nat, data: seq<bv8>, k: nat)
    requires |img| == IMAGE_WORDS && offset + |data| <= EEPROM_LEN && k < EEPROM_LEN
  {
    offset / 2 <= CHECKSUM_WORD ==>
      && k / 2 != CHECKSUM_WORD
      && (k == SIG_BYTE ==> SigValid(PatchedByte(img, offset, data, SIG_BYTE)))
  }
}
