/** The multicast filter: a hash window over the last two address bytes, and the table of
    bits it indexes. */
module Multicast {
  import opened Arith
  import opened Bits
  import opened Numbers

  const MAX_MTA_REG: nat := 128
  const ETH_ALEN: nat := 6

  /** Number of table registers: a power of two. */
  function RegCount(k: bv32): bv32
    requires k < 32
  {
    1 << k
  }

  function Mask(regs: bv32): bv32 { regs * 32 - 1 }

  /** Extra left shift of a filter type. */
  function Extra(filterType: nat): bv32 {
    match filterType
    case 1 => 1
    case 2 => 2
    case 3 => 4
    case _ => 0
  }

  function Left(x: bv32, s: bv32): bv32
    requires s <= 8
  {
    x << s
  }

  function Right(x: bv32, s: bv32): bv32
    requires s <= 8
  {
    x >> s
  }

  /** The two last bytes as one number, shifted to the window the type selects. */
  function Window(a4: bv32, a5: bv32, shift: bv32): bv32
    requires shift <= 8
  {
    Right(Join(Left(a5, 8), a4), 8 - shift)
  }

  /** The hash of an address whose last bytes are `a4` and `a5`. */
  function HashOf(k: bv32, filterType: nat, a4: bv32, a5: bv32): bv32
    requires 3 <= k <= 7
  {
    ShiftSmall(k, filterType);
    Masked(Mask(RegCount(k)), Window(a4, a5, k - 3 + Extra(filterType)))
  }

  function Byte4(list: seq<bv8>, i: nat): bv32
    requires ETH_ALEN * (i + 1) <= |list|
  {
    list[ETH_ALEN * i + 4] as bv32
  }

  function Byte5(list: seq<bv8>, i: nat): bv32
    requires ETH_ALEN * (i + 1) <= |list|
  {
    list[ETH_ALEN * i + 5] as bv32
  }

  /** Hash of the i-th address of a packed list. */
  function HashAt(k: bv32, filterType: nat, list: seq<bv8>, i: nat): bv32
    requires 3 <= k <= 7 && ETH_ALEN * (i + 1) <= |list|
  {
    HashOf(k, filterType, Byte4(list, i), Byte5(list, i))
  }

  function High(h: bv32): bv32 { h >> 5 }

  function RowBits(h: bv32, regs: bv32): bv32 { High(h) & (regs - 1) }

  function Row(h: bv32, regs: bv32): nat { RowBits(h, regs) as nat }

  function Col(h: bv32): bv32 { h & 0x1F }

  function OneBit(b: bv32): Reg
    requires b < 32
  {
    Reg((1 as bv32) << b)
  }

  function SetBit(v: Reg, b: bv32): Reg
    requires b < 32
  {
    Or(v, OneBit(b))
  }

  predicate BitSet(v: Reg, b: bv32)
    requires b < 32
  {
    Test(v, OneBit(b))
  }

  // ----- Bit facts -----

  lemma SetBitExact(v: Reg, b: bv32, c: bv32)
    requires b < 32 && c < 32
    ensures BitSet(SetBit(v, b), c) <==> c == b || BitSet(v, c)
  {
    hide OneBit, Or, Test;
    OneBits(b, c);
    TestOwn(v, OneBit(b));
    if b != c {
      TestOther(v, OneBit(b), OneBit(c));
    }
  }

  lemma OneBits(b: bv32, c: bv32)
    requires b < 32 && c < 32
    ensures OneBit(b) != NONE && (b != c ==> And(OneBit(b), OneBit(c)) == NONE)
  {
  }

  lemma NoBits(b: bv32)
    requires b < 32
    ensures !BitSet(NONE, b)
  {
  }

  lemma ColInside(h: bv32)
    ensures Col(h) < 32
  {
  }

  lemma RowInside(h: bv32, k: bv32)
    requires 3 <= k <= 7
    ensures Row(h, RegCount(k)) < RegCount(k) as nat <= MAX_MTA_REG
  {
    RegBound(h, RegCount(k));
  }

  lemma RegBound(h: bv32, regs: bv32)
    requires 0 < regs <= 128
    ensures Row(h, regs) < regs as nat <= 128
  {
  }

  /** Masked by the register count, the row is still the whole upper part of the hash. */
  lemma RowIsHigh(h: bv32, k: bv32)
    requires 3 <= k <= 7 && h <= Mask(RegCount(k))
    ensures RowBits(h, RegCount(k)) == High(h) && High(h) < 128
  {
  }

  lemma SmallInjective(x: bv32, y: bv32)
    requires x < 128 && y < 128 && x as nat == y as nat
    ensures x == y
  {
  }

  lemma HashBound(k: bv32, filterType: nat, a4: bv32, a5: bv32)
    requires 3 <= k <= 7
    ensures HashOf(k, filterType, a4, a5) <= Mask(RegCount(k))
  {
    BelowMask(Window(a4, a5, k - 3 + Extra(filterType)), Mask(RegCount(k)));
  }

  lemma BelowMask(x: bv32, m: bv32)
    ensures Masked(m, x) <= m
  {
  }

  lemma HighLow(g: bv32, h: bv32)
    requires High(g) == High(h) && Col(g) == Col(h)
    ensures g == h
  {
  }

  /** Two hashes share a table bit only if they are the same. */
  lemma BitIsHash(g: bv32, h: bv32, k: bv32)
    requires 3 <= k <= 7 && g <= Mask(RegCount(k)) && h <= Mask(RegCount(k))
    requires Row(g, RegCount(k)) == Row(h, RegCount(k)) && Col(g) == Col(h)
    ensures g == h
  {
    hide RegCount, Mask, RowBits, High, Col;
    RowIsHigh(g, k);
    RowIsHigh(h, k);
    SmallInjective(High(g), High(h));
    HighLow(g, h);
  }

  predicate Ends(regs: bv32, j: bv32) { j < 32 && Mask(regs) >> j == 0xFF }

  /** Up to 128 registers, the search for the shift can end exactly when their number is a
      power of two and at least 8. */
  lemma SearchEndsExact(regs: bv32)
    requires 0 < regs <= 128
    ensures (exists j :: Ends(regs, j))
       <==> regs == 8 || regs == 16 || regs == 32 || regs == 64 || regs == 128
  {
    if regs == 8 { assert Ends(regs, 0); }
    if regs == 16 { assert Ends(regs, 1); }
    if regs == 32 { assert Ends(regs, 2); }
    if regs == 64 { assert Ends(regs, 3); }
    if regs == 128 { assert Ends(regs, 4); }
    if j :| Ends(regs, j) {
      EndsAtPower(regs, j);
    }
  }

  lemma EndsAtPower(regs: bv32, j: bv32)
    requires 0 < regs <= 128 && Ends(regs, j)
    ensures regs == 8 || regs == 16 || regs == 32 || regs == 64 || regs == 128
  {
  }

  lemma ShiftFound(k: bv32, j: bv32)
    requires 3 <= k <= 7 && j <= k - 3
    ensures Mask(RegCount(k)) >> j == 0xFF <==> j == k - 3
  {
  }

  lemma WindowParts(a4: bv32, a5: bv32, s: bv32)
    requires s <= 8 && a4 < 256 && a5 < 256
    ensures Parts(a4, a5, s) == Window(a4, a5, s)
  {
    hide Join, Right, Left;
    ShiftBack(a5, s);
    ShiftJoin(Left(a5, 8), a4, 8 - s);
    JoinCommutes(Left(a5, s), Right(a4, 8 - s));
  }

  lemma ShiftJoin(x: bv32, y: bv32, t: bv32)
    requires t <= 8 && x < 0x1_0000 && y < 0x100
    ensures Right(Join(x, y), t) == Join(Right(x, t), Right(y, t))
  {
    calc {
      Right(Join(x, y), t);
      (x | y) >> t;
      { ShiftRaw(x, y, t); }
      (x >> t) | (y >> t);
      Join(Right(x, t), Right(y, t));
    }
  }

  lemma ShiftRaw(x: bv32, y: bv32, t: bv32)
    requires t <= 8 && x < 0x1_0000 && y < 0x100
    ensures (x | y) >> t == (x >> t) | (y >> t)
  {
  }

  lemma ShiftBack(x: bv32, s: bv32)
    requires s <= 8 && x < 256
    ensures Left(x, 8) < 0x1_0000 && Right(Left(x, 8), 8 - s) == Left(x, s)
  {
  }

  lemma JoinCommutes(x: bv32, y: bv32)
    ensures Join(x, y) == Join(y, x)
  {
  }

  /** The two shifted bytes as the driver combines them. */
  function Parts(a4: bv32, a5: bv32, s: bv32): bv32
    requires s <= 8
  {
    Join(Right(a4, 8 - s), Left(a5, s))
  }

  function Masked(mask: bv32, x: bv32): bv32 { mask & x }

  lemma ShiftSmall(k: bv32, filterType: nat)
    requires 3 <= k <= 7
    ensures k - 3 + Extra(filterType) <= 8
  {
  }

  /** The address 01 AA 00 12 34 56 with 128 registers, under each filter type. */
  lemma ExampleHashes()
    ensures HashOf(7, 0, 0x34, 0x56) == 0x563 && HashOf(7, 1, 0x34, 0x56) == 0xAC6
    ensures HashOf(7, 2, 0x34, 0x56) == 0x58D && HashOf(7, 3, 0x34, 0x56) == 0x634
  {
  }

  // ----- The table -----

  /** Some of the first `n` addresses hashes to this bit. */
  ghost predicate Listed(k: bv32, filterType: nat, list: seq<bv8>, n: nat, row: nat, col: bv32)
    requires 3 <= k <= 7 && ETH_ALEN * n <= |list|
  {
    exists i :: 0 <= i < n && HitsBit(k, filterType, list, i, row, col)
  }

  predicate HitsBit(k: bv32, filterType: nat, list: seq<bv8>, i: nat, row: nat, col: bv32)
    requires 3 <= k <= 7 && ETH_ALEN * (i + 1) <= |list|
  {
    var h := HashAt(k, filterType, list, i);
    Row(h, RegCount(k)) == row && Col(h) == col
  }

  /** The bits of a table are exactly those of the first `n` addresses. */
  ghost predicate Holds(table: seq<Reg>, k: bv32, filterType: nat, list: seq<bv8>, n: nat)
    requires 3 <= k <= 7 && ETH_ALEN * n <= |list|
  {
    forall r, b: bv32 :: 0 <= r < |table| && b < 32 ==> (BitSet(table[r], b) <==> Listed(k, filterType, list, n, r, b))
  }

  lemma HoldsMore(table: seq<Reg>, k: bv32, filterType: nat, list: seq<bv8>, n: nat, row: nat, col: bv32)
    requires 3 <= k <= 7 && ETH_ALEN * (n + 1) <= |list| && row < |table| && col < 32
    requires HitsBit(k, filterType, list, n, row, col) && Holds(table, k, filterType, list, n)
    ensures Holds(table[row := SetBit(table[row], col)], k, filterType, list, n + 1)
  {
    hide BitSet, SetBit, HashAt, Row, Col, RegCount;
    var after := table[row := SetBit(table[row], col)];
    forall r, b: bv32 | 0 <= r < |after| && b < 32
      ensures BitSet(after[r], b) <==> Listed(k, filterType, list, n + 1, r, b)
    {
      SetBitExact(table[row], col, b);
      ListedMore(k, filterType, list, n, row, col, r, b);
    }
  }

  lemma ListedMore(k: bv32, filterType: nat, list: seq<bv8>, n: nat, row: nat, col: bv32, r: nat, b: bv32)
    requires 3 <= k <= 7 && ETH_ALEN * (n + 1) <= |list| && HitsBit(k, filterType, list, n, row, col)
    ensures Listed(k, filterType, list, n + 1, r, b) <==> (r == row && b == col) || Listed(k, filterType, list, n, r, b)
  {
    hide HashAt, Row, Col, RegCount;
    if Listed(k, filterType, list, n + 1, r, b) {
      var i :| 0 <= i < n + 1 && HitsBit(k, filterType, list, i, r, b);
    }
    if Listed(k, filterType, list, n, r, b) {
      var i :| 0 <= i < n && HitsBit(k, filterType, list, i, r, b);
      assert HitsBit(k, filterType, list, i, r, b);
    }
  }

  /** What the filter lets through: frames whose hash bit is set. */
  predicate Passes(table: seq<Reg>, k: bv32, h: bv32)
    requires 3 <= k <= 7 && |table| == RegCount(k) as nat
  {
    RowInside(h, k);
    ColInside(h);
    BitSet(table[Row(h, RegCount(k))], Col(h))
  }

  /** A bit stands for one hash: an address hits it exactly when it has that hash. */
  lemma HitIsHash(k: bv32, filterType: nat, list: seq<bv8>, i: nat, h: bv32)
    requires 3 <= k <= 7 && ETH_ALEN * (i + 1) <= |list| && h <= Mask(RegCount(k))
    ensures HitsBit(k, filterType, list, i, Row(h, RegCount(k)), Col(h)) <==> HashAt(k, filterType, list, i) == h
  {
    hide HashOf, Row, Col, RegCount, Mask;
    var g := HashAt(k, filterType, list, i);
    HashBound(k, filterType, Byte4(list, i), Byte5(list, i));
    if HitsBit(k, filterType, list, i, Row(h, RegCount(k)), Col(h)) {
      BitIsHash(g, h, k);
    }
  }

  /** No false negative and no spurious bit: an address passes exactly when some listed
      address has the same hash. */
  lemma PassesExact(table: seq<Reg>, k: bv32, filterType: nat, list: seq<bv8>, n: nat, a4: bv32, a5: bv32)
    requires 3 <= k <= 7 && ETH_ALEN * n <= |list| && |table| == RegCount(k) as nat
    requires Holds(table, k, filterType, list, n)
    ensures Passes(table, k, HashOf(k, filterType, a4, a5))
       <==> exists i :: 0 <= i < n && HashAt(k, filterType, list, i) == HashOf(k, filterType, a4, a5)
  {
    hide HashOf, HashAt, HitsBit, Row, Col, RegCount, Mask, BitSet;
    var h := HashOf(k, filterType, a4, a5);
    HashBound(k, filterType, a4, a5);
    RowInside(h, k);
    ColInside(h);
    forall i | 0 <= i < n
      ensures HitsBit(k, filterType, list, i, Row(h, RegCount(k)), Col(h)) <==> HashAt(k, filterType, list, i) == h
    {
      HitIsHash(k, filterType, list, i, h);
    }
  }

  // ----- In numbers -----

  /** Width of the window's part in the last byte. */
  function Shift(k: nat, filterType: nat): (s: nat)
    requires 3 <= k <= 7
    ensures s <= 8
  {
    k - 3 + (if filterType == 1 then 1 else if filterType == 2 then 2 else if filterType == 3 then 4 else 0)
  }

  /** The hash of an address whose last two bytes are `a4` and `a5`: the number they make, less
      the bits below the window, modulo the number of table bits. */
  function HashNumber(k: nat, filterType: nat, a4: bv8, a5: bv8): (h: nat)
    requires 3 <= k <= 7
    ensures h < 32 * Pow2(k)
  {
    ((256 * a5 as nat + a4 as nat) / Pow2(8 - Shift(k, filterType))) % (32 * Pow2(k))
  }

  predicate BitAt(v: Reg, n: nat)
    requires n < 32
  {
    v.bits & (1 << n as bv32) != 0
  }

  /** The filter lets a frame through whose address ends in `a4` and `a5`. */
  predicate Admits(table: seq<Reg>, k: nat, filterType: nat, a4: bv8, a5: bv8)
    requires 3 <= k <= 7 && |table| == Pow2(k)
  {
    var h := HashNumber(k, filterType, a4, a5);
    BitAt(table[h / 32], h % 32)
  }

  /** The i-th listed address gets through. */
  predicate AdmitsListed(table: seq<Reg>, k: nat, filterType: nat, list: seq<bv8>, i: nat)
    requires 3 <= k <= 7 && |table| == Pow2(k) && 6 * (i + 1) <= |list|
  {
    Admits(table, k, filterType, list[6 * i + 4], list[6 * i + 5])
  }

  /** The i-th listed address has the hash of an address that ends in `a4` and `a5`. */
  predicate SharesHash(k: nat, filterType: nat, list: seq<bv8>, i: nat, a4: bv8, a5: bv8)
    requires 3 <= k <= 7 && 6 * (i + 1) <= |list|
  {
    HashNumber(k, filterType, list[6 * i + 4], list[6 * i + 5]) == HashNumber(k, filterType, a4, a5)
  }

  lemma CountIsPower(k: bv32)
    requires 3 <= k <= 7
    ensures Num(k) == k as nat && 3 <= Num(k) <= 7 && RegCount(k) as nat == Pow2(Num(k))
  {
    assert Pow2(3) == 8 && Pow2(4) == 16 && Pow2(5) == 32 && Pow2(6) == 64 && Pow2(7) == 128;
    if k == 3 {} else if k == 4 {} else if k == 5 {} else if k == 6 {} else { assert k == 7; }
  }

  lemma WindowIsDown(a4: bv32, a5: bv32, s: bv32)
    requires s <= 8
    ensures Window(a4, a5, s) == Down(TwoBytes(a5, a4), 8 - s)
  {
  }

  lemma MaskIsOnes(k: bv32)
    requires 3 <= k <= 7
    ensures Mask(RegCount(k)) == Ones(k + 5)
  {
  }

  lemma MaskedIsLow(m: bv32, x: bv32)
    ensures Masked(m, x) == Keep(x, m)
  {
  }

  lemma ByteNum(a: bv8)
    ensures Num(a as bv32) == a as nat && a as bv32 < 256
  {
  }

  lemma ShiftNum(k: bv32, filterType: nat)
    requires 3 <= k <= 7
    ensures k - 3 + Extra(filterType) <= 8
    ensures Num(8 - (k - 3 + Extra(filterType))) == 8 - Shift(Num(k), filterType)
    ensures Num(k + 5) == Num(k) + 5
  {
  }

  lemma PairSmall(hi: bv32, lo: bv32, n: bv32)
    requires hi < 256 && lo < 256 && n <= 8
    ensures TwoBytes(hi, lo) < 0x1_0000 && Down(TwoBytes(hi, lo), n) < 0x1_0000
  {
  }

  lemma FiveMore(k: nat)
    ensures Pow2(k + 5) == 32 * Pow2(k)
  {
    assert Pow2(k + 5) == 2 * Pow2(k + 4) && Pow2(k + 4) == 2 * Pow2(k + 3);
    assert Pow2(k + 3) == 2 * Pow2(k + 2) && Pow2(k + 2) == 2 * Pow2(k + 1);
  }

  /** The driver's hash of an address that ends in `a4` and `a5`. */
  function HashBytes(k: bv32, filterType: nat, a4: bv8, a5: bv8): bv32
    requires 3 <= k <= 7
  {
    HashOf(k, filterType, a4 as bv32, a5 as bv32)
  }

  /** The driver's hash is that number. */
  lemma HashIsNumber(k: bv32, filterType: nat, a4: bv8, a5: bv8)
    requires 3 <= k <= 7
    ensures 3 <= Num(k) <= 7
    ensures Num(HashBytes(k, filterType, a4, a5)) == HashNumber(Num(k), filterType, a4, a5)
  {
    hide Window, Mask, RegCount, Masked, Num, Keep, Ones, Down, TwoBytes;
    hide Extra, Shift;
    CountIsPower(k);
    ShiftNum(k, filterType);
    var b4, b5, s := a4 as bv32, a5 as bv32, k - 3 + Extra(filterType);
    ByteNum(a4);
    ByteNum(a5);
    PairSmall(b5, b4, 8 - s);
    var w := Window(b4, b5, s);
    WindowIsDown(b4, b5, s);
    TwoBytesNum(b5, b4);
    DownNum(TwoBytes(b5, b4), 8 - s);
    MaskIsOnes(k);
    MaskedIsLow(Mask(RegCount(k)), w);
    LowBitsNum(w, k + 5);
    FiveMore(Num(k));
  }

  /** Row and column of a hash are its quotient and remainder by 32. */
  lemma RowColNumber(h: bv32, k: bv32)
    requires 3 <= k <= 7 && h <= Mask(RegCount(k))
    ensures Row(h, RegCount(k)) == Num(h) / 32 && Num(Col(h)) == Num(h) % 32
  {
    hide Mask, RegCount, RowBits, High, Col, Num, Keep, Ones, Down;
    HashSmall(h, k);
    RowIsHigh(h, k);
    PartsOfHash(h);
    DownNum(h, 5);
    LowBitsNum(h, 5);
    NumFive();
  }

  lemma HashSmall(h: bv32, k: bv32)
    requires 3 <= k <= 7 && h <= Mask(RegCount(k))
    ensures h < 0x1_0000
  {
  }

  lemma PartsOfHash(h: bv32)
    ensures High(h) == Down(h, 5) && Col(h) == LowBits(h, 5)
    ensures Num(High(h)) == High(h) as nat
  {
  }

  lemma NumFive()
    ensures Pow2(Num(5)) == 32
  {
    assert Num(5) == 5;
    FiveMore(0);
  }

  lemma BitSetAt(v: Reg, b: bv32)
    requires b < 32
    ensures Num(b) < 32 && BitAt(v, Num(b)) == BitSet(v, b)
  {
  }

  lemma AdmitsIsPasses(table: seq<Reg>, k: bv32, filterType: nat, a4: bv8, a5: bv8)
    requires 3 <= k <= 7 && |table| == RegCount(k) as nat
    ensures 3 <= Num(k) <= 7 && |table| == Pow2(Num(k))
    ensures Admits(table, Num(k), filterType, a4, a5)
       <==> Passes(table, k, HashBytes(k, filterType, a4, a5))
  {
    hide HashBytes, HashNumber, Mask, RegCount, RowBits, Col, BitSet, BitAt, Num, Row;
    var h := HashBytes(k, filterType, a4, a5);
    CountIsPower(k);
    HashBytesBound(k, filterType, a4, a5);
    HashIsNumber(k, filterType, a4, a5);
    RowColNumber(h, k);
    RowInside(h, k);
    ColInside(h);
    BitSetAt(table[Row(h, RegCount(k))], Col(h));
  }

  /** Every listed address gets through, and what gets through shares its hash with a listed address. */
  lemma FilterExact(table: seq<Reg>, k: bv32, filterType: nat, list: seq<bv8>, n: nat, a4: bv8, a5: bv8)
    requires 3 <= k <= 7 && 6 * n <= |list| && |table| == RegCount(k) as nat && Holds(table, k, filterType, list, n)
    ensures 3 <= Num(k) <= 7 && |table| == Pow2(Num(k))
    ensures Admits(table, Num(k), filterType, a4, a5)
       <==> exists i :: 0 <= i < n && SharesHash(Num(k), filterType, list, i, a4, a5)
  {
    hide HashOf, Holds, Passes, Admits, HashNumber, RegCount;
    CountIsPower(k);
    AdmitsIsPasses(table, k, filterType, a4, a5);
    PassesExact(table, k, filterType, list, n, a4 as bv32, a5 as bv32);
    var h := HashBytes(k, filterType, a4, a5);
    forall i | 0 <= i < n
      ensures SharesHash(Num(k), filterType, list, i, a4, a5) <==> HashAt(k, filterType, list, i) == h
    {
      SharesIsSame(k, filterType, list, i, a4, a5);
    }
  }

  lemma SharesIsSame(k: bv32, filterType: nat, list: seq<bv8>, i: nat, a4: bv8, a5: bv8)
    requires 3 <= k <= 7 && 6 * (i + 1) <= |list|
    ensures 3 <= Num(k) <= 7
    ensures SharesHash(Num(k), filterType, list, i, a4, a5)
       <==> HashAt(k, filterType, list, i) == HashBytes(k, filterType, a4, a5)
  {
    hide HashOf, HashNumber, Num, HashBytes, HashAt;
    HashAtBytes(k, filterType, list, i);
    SameHash(k, filterType, list[6 * i + 4], list[6 * i + 5], a4, a5);
  }

  lemma HashAtBytes(k: bv32, filterType: nat, list: seq<bv8>, i: nat)
    requires 3 <= k <= 7 && 6 * (i + 1) <= |list|
    ensures HashAt(k, filterType, list, i) == HashBytes(k, filterType, list[6 * i + 4], list[6 * i + 5])
  {
    hide HashOf;
  }

  lemma SameHash(k: bv32, filterType: nat, b4: bv8, b5: bv8, a4: bv8, a5: bv8)
    requires 3 <= k <= 7
    ensures 3 <= Num(k) <= 7
    ensures HashNumber(Num(k), filterType, b4, b5) == HashNumber(Num(k), filterType, a4, a5)
       <==> HashBytes(k, filterType, b4, b5) == HashBytes(k, filterType, a4, a5)
  {
    hide HashBytes, HashNumber, RegCount, Mask, Num;
    HashIsNumber(k, filterType, a4, a5);
    HashIsNumber(k, filterType, b4, b5);
    HashBytesBound(k, filterType, a4, a5);
    HashBytesBound(k, filterType, b4, b5);
    HashInjective(k, HashBytes(k, filterType, b4, b5), HashBytes(k, filterType, a4, a5));
  }

  lemma HashBytesBound(k: bv32, filterType: nat, a4: bv8, a5: bv8)
    requires 3 <= k <= 7
    ensures HashBytes(k, filterType, a4, a5) <= Mask(RegCount(k))
  {
    hide HashOf, Mask, RegCount;
    HashBound(k, filterType, a4 as bv32, a5 as bv32);
  }

  lemma HashInjective(k: bv32, g: bv32, h: bv32)
    requires 3 <= k <= 7 && g <= Mask(RegCount(k)) && h <= Mask(RegCount(k))
    ensures Num(g) == Num(h) ==> g == h
  {
    hide Num;
    HashSmall(g, k);
    HashSmall(h, k);
    if Num(g) == Num(h) { Injective(g, h); }
  }

  /** No false negatives: each of the first `n` addresses of the list gets through. */
  lemma ListedGetsThrough(table: seq<Reg>, k: bv32, filterType: nat, list: seq<bv8>, n: nat, i: nat)
    requires 3 <= k <= 7 && 6 * n <= |list| && |table| == RegCount(k) as nat && Holds(table, k, filterType, list, n)
    requires i < n
    ensures 3 <= Num(k) <= 7 && |table| == Pow2(Num(k)) && AdmitsListed(table, Num(k), filterType, list, i)
  {
    hide Holds, Admits, HashNumber, RegCount;
    FilterExact(table, k, filterType, list, n, list[6 * i + 4], list[6 * i + 5]);
    assert SharesHash(Num(k), filterType, list, i, list[6 * i + 4], list[6 * i + 5]);
  }

  class MulticastFilter {
    /** Logarithm of the register count. */
    const k: bv32
    const filterType: nat
    const shadow: array<Reg>
    /** The device's table. */
    const table: array<Reg>

    ghost predicate Valid() {
      && 3 <= k <= 7
      && shadow.Length == MAX_MTA_REG && table.Length == RegCount(k) as nat
      && shadow != table
    }

    constructor (k: bv32, filterType: nat)
      requires 3 <= k <= 7
      ensures Valid() && fresh(shadow) && fresh(table) && this.k == k && this.filterType == filterType
    {
      this.k, this.filterType := k, filterType;
      shadow := new Reg[MAX_MTA_REG](_ => NONE);
      table := new Reg[RegCount(k) as nat](_ => NONE);
    }

    /** The shift that leaves eight bits of the mask. */
    method FindShift(mask: bv32) returns (shift: bv32)
      requires Valid() && mask == Mask(RegCount(k))
      ensures shift == k - 3
    {
      shift := 0;
      while mask >> shift != 0xFF
        invariant shift <= k - 3
        decreases k - shift
      {
        ShiftFound(k, shift);
        shift := shift + 1;
      }
      ShiftFound(k, shift);
    }

    method HashMcAddr(a4: bv32, a5: bv32) returns (hash: bv32)
      requires Valid() && a4 < 256 && a5 < 256
      ensures hash == HashOf(k, filterType, a4, a5)
    {
      hide Mask, RegCount, Window;
      var mask := Mask(RegCount(k));
      var shift := FindShift(mask);
      match filterType {
        case 1 => shift := shift + 1;
        case 2 => shift := shift + 2;
        case 3 => shift := shift + 4;
        case _ =>
      }
      ShiftSmall(k, filterType);
      WindowParts(a4, a5, shift);
      hash := Masked(mask, Parts(a4, a5, shift));
    }

    method ClearShadow()
      requires Valid()
      modifies shadow
      ensures forall r :: 0 <= r < shadow.Length ==> shadow[r] == NONE
    {
      for i := 0 to shadow.Length
        invariant forall r :: 0 <= r < i ==> shadow[r] == NONE
      {
        shadow[i] := NONE;
      }
    }

    /** Replaces the whole table by the bits of the listed addresses. */
    method UpdateMcAddrList(list: array<bv8>, count: nat)
      requires Valid() && ETH_ALEN * count <= list.Length && list as object != shadow && list as object != table
      modifies shadow, table
      ensures Holds(table[..], k, filterType, list[..], count)
      ensures 3 <= Num(k) <= 7 && table.Length == Pow2(Num(k))
      ensures forall i :: 0 <= i < count ==> AdmitsListed(table[..], Num(k), filterType, list[..], i)
    {
      hide HashAt, HashOf, RegCount, Mask, BitSet, SetBit, Row, Col, Holds;
      ClearShadow();
      NothingListed(shadow[..], k, filterType, list[..]);
      var i := 0;
      while i < count
        invariant 0 <= i <= count && Holds(shadow[..], k, filterType, list[..], i)
      {
        HashRow(i, count, list);
        i := i + 1;
      }
      CopyTable();
      RowInside(0, k);
      FewerRows(shadow[..], table[..], k, filterType, list[..], count);
      CountIsPower(k);
      forall j | 0 <= j < count ensures AdmitsListed(table[..], Num(k), filterType, list[..], j) {
        ListedGetsThrough(table[..], k, filterType, list[..], count, j);
      }
    }

    /** Adds one address to the shadow table. */
    method HashRow(i: nat, count: nat, list: array<bv8>)
      requires Valid() && i < count && ETH_ALEN * count <= list.Length && list as object != shadow
      requires Holds(shadow[..], k, filterType, list[..], i)
      modifies shadow
      ensures Holds(shadow[..], k, filterType, list[..], i + 1)
    {
      hide HashOf, RegCount, Mask, BitSet, SetBit, Row, Col, Holds;
      ByteSize(list[..], i);
      var hash := HashMcAddr(list[ETH_ALEN * i + 4] as bv32, list[ETH_ALEN * i + 5] as bv32);
      assert hash == HashAt(k, filterType, list[..], i);
      RowInside(hash, k);
      ColInside(hash);
      var row, col := Row(hash, RegCount(k)), Col(hash);
      ghost var before := shadow[..];
      HoldsMore(before, k, filterType, list[..], i, row, col);
      shadow[row] := SetBit(shadow[row], col);
      assert shadow[..] == before[row := SetBit(before[row], col)];
    }

    method CopyTable()
      requires Valid()
      modifies table
      ensures forall r :: 0 <= r < table.Length ==> table[r] == shadow[r]
    {
      RowInside(0, k);
      var i := table.Length - 1;
      while i >= 0
        invariant -1 <= i < table.Length
        invariant forall r :: i < r < table.Length ==> table[r] == shadow[r]
      {
        table[i] := shadow[i];
        i := i - 1;
      }
    }
  }

  lemma ByteSize(list: seq<bv8>, i: nat)
    requires ETH_ALEN * (i + 1) <= |list|
    ensures Byte4(list, i) < 256 && Byte5(list, i) < 256
  {
  }

  lemma NothingListed(table: seq<Reg>, k: bv32, filterType: nat, list: seq<bv8>)
    requires 3 <= k <= 7 && forall r :: 0 <= r < |table| ==> table[r] == NONE
    ensures Holds(table, k, filterType, list, 0)
  {
    forall b: bv32 | b < 32 ensures !BitSet(NONE, b) { NoBits(b); }
  }

  lemma FewerRows(shadow: seq<Reg>, table: seq<Reg>, k: bv32, filterType: nat, list: seq<bv8>, n: nat)
    requires 3 <= k <= 7 && ETH_ALEN * n <= |list| && Holds(shadow, k, filterType, list, n)
    requires |table| <= |shadow| && forall r :: 0 <= r < |table| ==> table[r] == shadow[r]
    ensures Holds(table, k, filterType, list, n)
  {
    hide BitSet, Listed;
    forall r, b: bv32 | 0 <= r < |table| && b < 32
      ensures BitSet(table[r], b) <==> Listed(k, filterType, list, n, r, b)
    {
      assert BitSet(shadow[r], b) <==> Listed(k, filterType, list, n, r, b);
    }
  }
}
