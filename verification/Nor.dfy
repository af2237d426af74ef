/** The two-bank NOR flash region that holds the NVM image: content, signature, bank
    detection, and what a program or an erase cycle can leave behind, finished or torn. */
module Nor {

  type BankId = b: int | 0 <= b <= 1

  const IMAGE_WORDS: nat := 2048
  const IMAGE_BYTES: nat := 4096
  const SIG_WORD: nat := 0x13
  /** Offset, inside a bank, of the high byte of the signature word. */
  const SIG_BYTE: nat := 0x27
  const CHECKSUM_WORD: nat := 0x3F

  datatype Option<+T> = None | Some(value: T)

  datatype ShadowWord = ShadowWord(value: bv16, modified: bool)

  function Lo(w: bv16): bv8 { (w & 0xFF) as bv8 }

  function Hi(w: bv16): bv8 { (w >> 8) as bv8 }

  function MakeWord(lo: bv8, hi: bv8): bv16 { (hi as bv16 << 8) | (lo as bv16) }

  lemma WordBytes(lo: bv8, hi: bv8, w: bv16)
    ensures Lo(MakeWord(lo, hi)) == lo && Hi(MakeWord(lo, hi)) == hi
    ensures MakeWord(Lo(w), Hi(w)) == w
  {
  }

  /** What programming `v` over `o` leaves: bits are only ever cleared. */
  function And(o: bv8, v: bv8): bv8 { o & v }

  /** A signature word with its bits 15:14 held at 11b. */
  function HoldWord(w: bv16): bv16 { w | 0xC000 }

  /** A signature word with its bits 15:14 at 10b: valid. */
  function StampWord(w: bv16): bv16 { (w | 0xC000) & 0xBFFF }

  /** Bit 14 of a signature word cleared. */
  function FlipWordSig(w: bv16): bv16 { w & 0xBFFF }

  /** The same in the high byte of the word. */
  function FlipByte(b: bv8): bv8 { b & 0xBF }

  // ----- Content -----

  function Base(bank: BankId, size: nat): nat { if bank == 0 then 0 else size }

  function Other(bank: BankId): BankId { 1 - bank }

  /** A region of two banks of `size` bytes, whole words, each large enough for the image. */
  predicate Region(c: seq<bv8>, size: nat) { size >= IMAGE_BYTES && size % 2 == 0 && |c| == 2 * size }

  function WordAt(c: seq<bv8>, a: nat): bv16
    requires a + 1 < |c|
  {
    MakeWord(c[a], c[a + 1])
  }

  function Image(c: seq<bv8>, bank: BankId, size: nat): (img: seq<bv16>)
    requires Region(c, size)
    ensures |img| == IMAGE_WORDS
  {
    seq(IMAGE_WORDS, i requires 0 <= i < IMAGE_WORDS => WordAt(c, Base(bank, size) + 2 * i))
  }

  /** Signature bits 15:14 of word 0x13 are 10b. */
  predicate SigValid(b: bv8) { b & 0xC0 == 0x80 }

  predicate Signed(c: seq<bv8>, bank: BankId, size: nat)
    requires Region(c, size)
  {
    SigValid(c[Base(bank, size) + SIG_BYTE])
  }

  /** The bank the detection routine selects: bank 0 wins when both are signed. */
  function Detect(c: seq<bv8>, size: nat): Option<BankId>
    requires Region(c, size)
  {
    if Signed(c, 0, size) then Some(0) else if Signed(c, 1, size) then Some(1) else None
  }

  // ----- Logical contents -----

  /** What readers see: the cached word where one was written, the given bank elsewhere. */
  function Overlay(c: seq<bv8>, bank: BankId, size: nat, sh: seq<ShadowWord>): (img: seq<bv16>)
    requires Region(c, size) && |sh| == IMAGE_WORDS
    ensures |img| == IMAGE_WORDS
  {
    seq(IMAGE_WORDS, i requires 0 <= i < IMAGE_WORDS =>
      if sh[i].modified then sh[i].value else WordAt(c, Base(bank, size) + 2 * i))
  }

  const CLEAN: ShadowWord := ShadowWord(0xFFFF, false)

  function CleanShadow(): (sh: seq<ShadowWord>)
    ensures |sh| == IMAGE_WORDS
  {
    seq(IMAGE_WORDS, _ => CLEAN)
  }

  /** With nothing pending, readers see the bank itself. */
  lemma CleanOverlay(c: seq<bv8>, bank: BankId, size: nat)
    requires Region(c, size)
    ensures Overlay(c, bank, size, CleanShadow()) == Image(c, bank, size)
  {
  }

  lemma WordNumberRaw(lo: bv8, hi: bv8)
    ensures ((hi as bv16 << 8) | (lo as bv16)) as nat == 256 * hi as nat + lo as nat
  {
  }

  lemma WordNumber(lo: bv8, hi: bv8)
    ensures MakeWord(lo, hi) as nat == 256 * hi as nat + lo as nat
  {
    calc {
      MakeWord(lo, hi) as nat;
      ((hi as bv16 << 8) | (lo as bv16)) as nat;
      { WordNumberRaw(lo, hi); }
      256 * hi as nat + lo as nat;
    }
  }

  lemma SigNumber(b: bv8)
    ensures SigValid(b) <==> 128 <= b as nat < 192
  {
  }

  /** Where the two banks are, in plain offsets: bank 0 is in use when its byte 0x27 lies in
      [128, 192), bank 1 when that is so of its own byte and not of bank 0's; and the words are
      little-endian pairs from the first byte of the bank on. */
  lemma BankLayout(c: seq<bv8>, size: nat, i: nat)
    requires Region(c, size) && i < IMAGE_WORDS
    ensures Detect(c, size) == Some(0) <==> 128 <= c[0x27] as nat < 192
    ensures Detect(c, size) == Some(1) <==>
            !(128 <= c[0x27] as nat < 192) && 128 <= c[size + 0x27] as nat < 192
    ensures Image(c, 0, size)[i] as nat == c[2 * i] as nat + 256 * c[2 * i + 1] as nat
    ensures Image(c, 1, size)[i] as nat == c[size + 2 * i] as nat + 256 * c[size + 2 * i + 1] as nat
  {
    hide SigValid, MakeWord;
    SigNumber(c[0x27]);
    SigNumber(c[size + 0x27]);
    WordNumber(c[2 * i], c[2 * i + 1]);
    WordNumber(c[size + 2 * i], c[size + 2 * i + 1]);
  }

  /** The image with its signature bits forced to 10b, as a commit leaves it. */
  function Stamp(img: seq<bv16>): (r: seq<bv16>)
    requires |img| == IMAGE_WORDS
    ensures |r| == IMAGE_WORDS
  {
    img[SIG_WORD := StampWord(img[SIG_WORD])]
  }

  /** The image with its signature bits held at 11b, as the copy phase programs it. */
  function Held(img: seq<bv16>): (r: seq<bv16>)
    requires |img| == IMAGE_WORDS
    ensures |r| == IMAGE_WORDS
  {
    img[SIG_WORD := HoldWord(img[SIG_WORD])]
  }

  function ImageByte(img: seq<bv16>, k: nat): bv8
    requires k < 2 * |img|
  {
    if k % 2 == 0 then Lo(img[k / 2]) else Hi(img[k / 2])
  }

  // ----- Program and erase cycles -----

  /** `x` keeps every bit that programming `v` keeps and raises none: the value a program
      cycle of `v` over `o` passes through. */
  predicate Between(o: bv8, v: bv8, x: bv8) { x & o == x && (o & v) & x == o & v }

  /** A finished program cycle: bits can only be cleared. */
  function Programmed(c: seq<bv8>, at: nat, vals: seq<bv8>): (r: seq<bv8>)
    requires at + |vals| <= |c|
    ensures |r| == |c|
  {
    seq(|c|, a requires 0 <= a < |c| => if at <= a < at + |vals| then And(c[a], vals[a - at]) else c[a])
  }

  /** A program cycle that stopped anywhere, having cleared some of its bits. */
  ghost predicate TornProgram(c: seq<bv8>, h: seq<bv8>, at: nat, vals: seq<bv8>)
    requires at + |vals| <= |c|
  {
    && |h| == |c|
    && (forall a :: 0 <= a < |c| && !(at <= a < at + |vals|) ==> h[a] == c[a])
    && (forall a :: at <= a < at + |vals| ==> Between(c[a], vals[a - at], h[a]))
  }

  /** A finished erase cycle over [lo, hi). */
  function Erased(c: seq<bv8>, lo: nat, hi: nat): (r: seq<bv8>)
    ensures |r| == |c|
  {
    seq(|c|, a requires 0 <= a < |c| => if lo <= a < hi then 0xFF else c[a])
  }

  /** An erase cycle that stopped anywhere: some bits in [lo, hi) have risen. */
  ghost predicate TornErase(c: seq<bv8>, h: seq<bv8>, lo: nat, hi: nat) {
    && |h| == |c|
    && (forall a :: 0 <= a < |c| && !(lo <= a < hi) ==> h[a] == c[a])
    && (forall a :: 0 <= a < |c| && lo <= a < hi ==> h[a] & c[a] == c[a])
  }

  lemma TornProgramTrans(c: seq<bv8>, m: seq<bv8>, h: seq<bv8>, at: nat, vals: seq<bv8>)
    requires at + |vals| <= |c|
    requires TornProgram(c, m, at, vals) && TornProgram(m, h, at, vals)
    ensures TornProgram(c, h, at, vals)
  {
    forall a | at <= a < at + |vals| ensures Between(c[a], vals[a - at], h[a]) {
      BetweenTrans(c[a], vals[a - at], m[a], h[a]);
    }
  }

  lemma BetweenTrans(o: bv8, v: bv8, m: bv8, x: bv8)
    requires Between(o, v, m) && Between(m, v, x)
    ensures Between(o, v, x)
  {
  }

  /** However torn the cell was left, one good retry ends in the intended value. */
  lemma RetryReachesIntent(c: seq<bv8>, m: seq<bv8>, at: nat, vals: seq<bv8>)
    requires at + |vals| <= |c|
    requires TornProgram(c, m, at, vals)
    ensures Programmed(m, at, vals) == Programmed(c, at, vals)
  {
    forall a | 0 <= a < |c|
      ensures Programmed(m, at, vals)[a] == Programmed(c, at, vals)[a]
    {
      if at <= a < at + |vals| { BetweenIntent(c[a], vals[a - at], m[a]); }
    }
  }

  lemma BetweenIntent(o: bv8, v: bv8, m: bv8)
    requires Between(o, v, m)
    ensures And(m, v) == And(o, v)
  {
  }

  lemma ProgrammedIsTorn(c: seq<bv8>, at: nat, vals: seq<bv8>)
    requires at + |vals| <= |c|
    ensures TornProgram(c, Programmed(c, at, vals), at, vals)
    ensures TornProgram(c, c, at, vals)
  {
  }

  lemma ErasedIsTorn(c: seq<bv8>, lo: nat, hi: nat)
    ensures TornErase(c, Erased(c, lo, hi), lo, hi)
    ensures TornErase(c, c, lo, hi)
  {
  }
}
