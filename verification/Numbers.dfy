/** 16-bit values held in 32-bit registers, read as numbers: shifting right divides, and masking
    takes a remainder. */
module Numbers {
  import opened Arith

  function Num(x: bv32): nat { x as nat }

  // ----- Halving -----

  function Halved(x: bv32): bv32 { x >> 1 }

  function Odd(x: bv32): bv32 { x & 1 }

  function HighByte(x: bv32): bv32 { x >> 8 }

  function LowByte(x: bv32): bv32 { x & 0xFF }

  function TwoBytes(hi: bv32, lo: bv32): bv32 { (hi << 8) | lo }

  /** A bit on top of seven bits. */
  function OnTop(c: bv32, l: bv32): bv32 { (c << 7) | l }

  lemma TwoBytesRaw(hi: bv32, lo: bv32)
    requires hi < 256 && lo < 256
    ensures ((hi << 8) | lo) as nat == 256 * hi as nat + lo as nat
  {
  }

  lemma TwoBytesNum(hi: bv32, lo: bv32)
    requires hi < 256 && lo < 256
    ensures Num(TwoBytes(hi, lo)) == 256 * Num(hi) + Num(lo)
  {
    TwoBytesRaw(hi, lo);
  }

  lemma ByteHalfRaw(h: bv32)
    requires h < 256
    ensures (h >> 1) as nat == h as nat / 2 && (h & 1) as nat == h as nat % 2
  {
  }

  lemma ByteHalf(h: bv32)
    requires h < 256
    ensures Num(Halved(h)) == Num(h) / 2 && Num(Odd(h)) == Num(h) % 2
  {
    ByteHalfRaw(h);
  }

  lemma OnTopRaw(c: bv32, l: bv32)
    requires c < 2 && l < 128
    ensures ((c << 7) | l) as nat == 128 * c as nat + l as nat
  {
  }

  lemma OnTopNum(c: bv32, l: bv32)
    requires c < 2 && l < 128
    ensures Num(OnTop(c, l)) == 128 * Num(c) + Num(l)
  {
    OnTopRaw(c, l);
  }

  lemma HalfBytes(hi: bv32, lo: bv32)
    requires hi < 256 && lo < 256
    ensures Halved(TwoBytes(hi, lo)) == TwoBytes(Halved(hi), OnTop(Odd(hi), Halved(lo)))
    ensures Odd(TwoBytes(hi, lo)) == Odd(lo)
    ensures Halved(hi) < 256 && OnTop(Odd(hi), Halved(lo)) < 256
    ensures Odd(hi) < 2 && Halved(lo) < 128
  {
  }

  lemma Bytes(x: bv32)
    requires x < 0x1_0000
    ensures HighByte(x) < 256 && LowByte(x) < 256 && x == TwoBytes(HighByte(x), LowByte(x))
  {
  }

  lemma Half(x: bv32)
    requires x < 0x1_0000
    ensures Num(Halved(x)) == Num(x) / 2 && Num(Odd(x)) == Num(x) % 2
  {
    hide Num, Halved, Odd, HighByte, LowByte, TwoBytes, OnTop;
    var hi, lo := HighByte(x), LowByte(x);
    Bytes(x);
    HalfBytes(hi, lo);
    ByteHalf(hi);
    ByteHalf(lo);
    TwoBytesNum(hi, lo);
    OnTopNum(Odd(hi), Halved(lo));
    TwoBytesNum(Halved(hi), OnTop(Odd(hi), Halved(lo)));
  }

  lemma ByteInjective(x: bv32, y: bv32)
    requires x < 256 && y < 256 && x as nat == y as nat
    ensures x == y
  {
  }

  lemma ByteRange(x: bv32)
    requires x < 256
    ensures Num(x) < 256
  {
  }

  /** Values with the same number are the same. */
  lemma Injective(x: bv32, y: bv32)
    requires x < 0x1_0000 && y < 0x1_0000 && Num(x) == Num(y)
    ensures x == y
  {
    hide HighByte, LowByte, TwoBytes, Num;
    Bytes(x);
    Bytes(y);
    TwoBytesNum(HighByte(x), LowByte(x));
    TwoBytesNum(HighByte(y), LowByte(y));
    SplitAlike(HighByte(x), LowByte(x), HighByte(y), LowByte(y));
  }

  lemma SplitAlike(hi: bv32, lo: bv32, hi': bv32, lo': bv32)
    requires hi < 256 && lo < 256 && hi' < 256 && lo' < 256
    requires 256 * Num(hi) + Num(lo) == 256 * Num(hi') + Num(lo')
    ensures hi == hi' && lo == lo'
  {
    SameParts(hi, lo, hi', lo');
    ByteInjective(hi, hi');
    ByteInjective(lo, lo');
  }

  lemma SameParts(hi: bv32, lo: bv32, hi': bv32, lo': bv32)
    requires hi < 256 && lo < 256 && hi' < 256 && lo' < 256
    requires 256 * Num(hi) + Num(lo) == 256 * Num(hi') + Num(lo')
    ensures Num(hi) == Num(hi') && Num(lo) == Num(lo')
  {
    hide Num;
    ByteRange(lo);
    ByteRange(lo');
    SameSplit(Num(hi), Num(lo), Num(hi'), Num(lo'));
  }

  lemma SameSplit(a: nat, b: nat, c: nat, d: nat)
    requires b < 256 && d < 256 && 256 * a + b == 256 * c + d
    ensures a == c && b == d
  {
  }

  // ----- Shifting and masking -----

  function Down(x: bv32, n: bv32): bv32
    requires n <= 8
  {
    x >> n
  }

  /** The low `n` bits. */
  function LowBits(x: bv32, n: bv32): bv32
    requires n <= 16
  {
    Keep(x, Ones(n))
  }

  function Keep(x: bv32, m: bv32): bv32 { x & m }

  function Ones(n: bv32): bv32
    requires n <= 16
  {
    (1 << n) - 1
  }

  lemma OneLess(n: bv32)
    requires 0 < n <= 16
    ensures Num(n) == Num(n - 1) + 1
  {
  }

  lemma NumZero()
    ensures Num(0) == 0
  {
  }

  lemma DownRaw(x: bv32, n: bv32)
    requires 0 < n <= 8
    ensures x >> n == (x >> 1) >> (n - 1)
  {
  }

  lemma DownStep(x: bv32, n: bv32)
    requires 0 < n <= 8
    ensures Down(x, n) == Down(Halved(x), n - 1)
  {
    DownRaw(x, n);
  }

  lemma DownNone(x: bv32)
    ensures Down(x, 0) == x
  {
  }

  lemma HalvedSmall(x: bv32)
    requires x < 0x1_0000
    ensures Halved(x) < 0x1_0000
  {
  }

  lemma KeepHalved(x: bv32, m: bv32)
    ensures Halved(Keep(x, m)) == Keep(Halved(x), Halved(m))
    ensures Odd(m) == 1 ==> Odd(Keep(x, m)) == Odd(x)
  {
  }

  lemma OnesHalved(n: bv32)
    requires 0 < n <= 16
    ensures Halved(Ones(n)) == Ones(n - 1) && Odd(Ones(n)) == 1
  {
  }

  lemma KeepSmall(x: bv32, m: bv32)
    requires x < 0x1_0000
    ensures Keep(x, m) < 0x1_0000
  {
  }

  lemma KeepNone(x: bv32)
    ensures Keep(x, Ones(0)) == 0
  {
  }

  lemma DivTwice(x: nat, p: nat)
    requires p > 0
    ensures (x / 2) / p == x / (2 * p)
  {
    var q, r := (x / 2) / p, (x / 2) % p;
    DivUnique(x, 2 * p, q, 2 * r + x % 2);
  }

  lemma ModTwice(x: nat, p: nat)
    requires p > 0
    ensures 2 * ((x / 2) % p) + x % 2 == x % (2 * p)
  {
    var q, r := (x / 2) / p, (x / 2) % p;
    DivUnique(x, 2 * p, q, 2 * r + x % 2);
  }

  /** Shifting right by `n` divides by the `n`-th power of two. */
  lemma {:induction false} DownNum(x: bv32, n: bv32)
    requires x < 0x1_0000 && n <= 8
    ensures Num(Down(x, n)) == Num(x) / Pow2(Num(n))
    decreases n
  {
    hide Num, Halved, Odd, Down;
    NumZero();
    if n == 0 {
      DownNone(x);
    } else {
      OneLess(n);
      DownStep(x, n);
      HalvedSmall(x);
      DownNum(Halved(x), n - 1);
      Half(x);
      DivTwice(Num(x), Pow2(Num(n - 1)));
    }
  }

  /** The low `n` bits are the remainder by the `n`-th power of two. */
  lemma {:induction false} LowBitsNum(x: bv32, n: bv32)
    requires x < 0x1_0000 && n <= 16
    ensures Num(LowBits(x, n)) == Num(x) % Pow2(Num(n))
    decreases n
  {
    hide Num, Halved, Odd, Keep, Ones;
    NumZero();
    if n == 0 {
      KeepNone(x);
    } else {
      OneLess(n);
      KeepHalved(x, Ones(n));
      OnesHalved(n);
      KeepSmall(x, Ones(n));
      HalvedSmall(x);
      LowBitsNum(Halved(x), n - 1);
      Half(x);
      Half(LowBits(x, n));
      ModTwice(Num(x), Pow2(Num(n - 1)));
    }
  }
}
