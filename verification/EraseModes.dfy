/** Which sectors the erase loop reaches in each of its modes. */
module EraseModes {
  import opened Arith
  import opened Nor
  import opened Flash

  /** Byte `a` lies in the sector of one of the first `n` cycles of an erase from `base`. */
  ghost predicate Reached(mode: EraseSize, base: nat, n: nat, a: nat) {
    exists j :: 0 <= j < n && InSector(mode, EraseAddress(base, SectorSize(mode), j), a)
  }

  predicate InSector(mode: EraseSize, at: nat, a: nat) {
    at - at % SectorSize(mode) <= a < at - at % SectorSize(mode) + SectorSize(mode)
  }

  /** The offsets are the triangular numbers times the sector size, not its multiples. */
  lemma {:induction false} Triangular(base: nat, j: nat)
    ensures EraseAddress(base, 256, j) == base + 128 * (j * (j + 1))
  {
    if j > 0 {
      Triangular(base, j - 1);
      assert (j - 1) * j + 2 * j == j * (j + 1);
    }
  }

  lemma Aligned(base: nat, j: nat)
    requires base % 256 == 0
    ensures EraseAddress(base, 256, j) % 256 == 0
  {
    if j > 0 {
      Aligned(base, j - 1);
      var a := EraseAddress(base, 256, j - 1);
      DivUnique(a + 256 * j, 256, a / 256 + j, 0);
    }
  }

  lemma ThirdSectorSkipped(base: nat, j: nat)
    requires base % 256 == 0
    ensures !InSector(Seg256, EraseAddress(base, 256, j), base + 512)
  {
    Triangular(base, j);
    Aligned(base, j);
    if j >= 2 {
      assert j * (j + 1) >= 2 * 3;
    }
  }

  lemma NeverReached(base: nat, n: nat)
    requires base % 256 == 0
    ensures !Reached(Seg256, base, n, base + 512)
  {
    hide InSector;
    forall j | 0 <= j < n ensures !InSector(Seg256, EraseAddress(base, 256, j), base + 512) {
      ThirdSectorSkipped(base, j);
    }
  }

  lemma OneSectorEnough(mode: EraseSize, bank: BankId, size: nat, a: nat)
    requires mode != Seg256 && size % SectorSize(mode) == 0
    requires Base(bank, size) <= a < Base(bank, size) + IMAGE_BYTES
    ensures Reached(mode, Base(bank, size), Cycles(mode, size), a)
  {
    assert EraseAddress(Base(bank, size), SectorSize(mode), 0) == Base(bank, size);
    assert InSector(mode, EraseAddress(Base(bank, size), SectorSize(mode), 0), a);
  }

  /** A flawless erase clears the whole image area of a bank exactly when the part is not in
      its 256-byte mode. */
  lemma WholeImageErased(mode: EraseSize, bank: BankId, size: nat)
    requires size >= IMAGE_BYTES && size % SectorSize(mode) == 0
    ensures (forall a :: Base(bank, size) <= a < Base(bank, size) + IMAGE_BYTES ==>
               Reached(mode, Base(bank, size), Cycles(mode, size), a))
            <==> mode != Seg256
  {
    hide Reached;
    var base := Base(bank, size);
    if mode == Seg256 {
      NeverReached(base, Cycles(mode, size));
    } else {
      forall a | base <= a < base + IMAGE_BYTES ensures Reached(mode, base, Cycles(mode, size), a) {
        OneSectorEnough(mode, bank, size, a);
      }
    }
  }

  /** In that mode an erase of bank 0 also reaches into bank 1, the bank in use. */
  lemma StraysIntoBank1(size: nat) returns (j: nat)
    requires size >= IMAGE_BYTES && size % 256 == 0
    ensures j < Cycles(Seg256, size)
    ensures size <= EraseAddress(0, 256, j) < 2 * size
  {
    var n := Cycles(Seg256, size);
    Triangular(0, n - 1);
    assert (n - 1) * n >= 2 * n;
    j := 0;
    while EraseAddress(0, 256, j) < size
      invariant j < n && (j > 0 ==> EraseAddress(0, 256, j - 1) < size)
      invariant EraseAddress(0, 256, j) < 2 * size
      decreases n - j
    {
      j := j + 1;
      assert j * 256 <= size;
    }
  }
}
