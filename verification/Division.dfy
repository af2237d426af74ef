/** The 64-by-32-bit shift-and-subtract division used where the kernel has none. */
module Division {
  import opened Arith

  type U64 = x: int | 0 <= x < 0x1_0000_0000_0000_0000

  type U32 = x: int | 0 <= x < 0x1_0000_0000

  /** The two's complement reading of a 64-bit word. */
  function Signed64(b: U64): int { if b < 0x8000_0000_0000_0000 then b else b - 0x1_0000_0000_0000_0000 }

  ghost predicate IsPow2(d: nat) { d == 1 || (d > 0 && d % 2 == 0 && IsPow2(d / 2)) }

  lemma Scale(d: int, base: int)
    ensures (2 * d) * base == 2 * (d * base)
  {
  }

  lemma AddProducts(a: int, b: int, base: int)
    ensures (a + b) * base == a * base + b * base
  {
  }

  lemma Bounded(a: nat, base: nat)
    requires base > 0
    ensures a <= a * base
  {
  }

  /** Takes whole multiples of `base` off the high word. */
  method ReduceHigh(n: U64, base: U32) returns (res: U64, rem: U64)
    requires base > 0
    ensures n == res * base + rem
  {
    res, rem := 0, n;
    var high: U32 := n / 0x1_0000_0000;
    if high >= base {
      ghost var h, low := high, n % 0x1_0000_0000;
      high := high / base;
      assert high * base <= h;
      Bounded(high, base);
      var product: U32 := high * base;
      res := high * 0x1_0000_0000;
      rem := rem - product * 0x1_0000_0000;
      assert res * base == product * 0x1_0000_0000 by { Shuffle(high, base); }
    }
  }

  lemma Shuffle(h: int, base: int)
    ensures (h * 0x1_0000_0000) * base == (h * base) * 0x1_0000_0000
  {
  }

  /** Doubles the divisor until it reaches the remainder or its sign bit. */
  method DoubleUp(base: U32, rem: U64) returns (b: U64, d: U64)
    requires base > 0
    ensures b == d * base && IsPow2(d) && rem < 2 * (b as int)
  {
    b, d := base, 1;
    while Signed64(b) > 0 && b < rem
      invariant b > 0 && b == d * base && IsPow2(d)
      decreases rem - b
    {
      Bounded(d, base);
      Scale(d, base);
      b := b + b;
      d := d + d;
    }
  }

  /** Quotient and remainder; every intermediate value fits its C type. */
  method Div64(n: U64, base: U32) returns (q: U64, r: U32)
    requires base > 0
    ensures n == q * base + r && r < base
    ensures q == n / base && r == n % base
  {
    var res: U64, rem: U64 := ReduceHigh(n, base);
    var b: U64, d: U64 := DoubleUp(base, rem);
    while true
      invariant d > 0 && IsPow2(d) && b == d * base && rem < 2 * (b as int)
      invariant n == res * base + rem
      decreases d
    {
      if rem >= b {
        ghost var sum: nat := (res as int) + (d as int);
        AddProducts(res, d, base);
        Bounded(sum, base);
        rem := rem - b;
        res := res + d;
      }
      if d > 1 { Scale(d / 2, base); }
      b := b / 2;
      d := d / 2;
      if d == 0 { break; }
    }
    q, r := res, rem;
    assert n == base * q + r;
    DivUnique(n, base, q, r);
  }
}
