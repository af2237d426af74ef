/** The latency tolerance the device reports: a 10-bit value times 32 to a 3-bit scale, as
    section 6.18 of the PCI Express Base Specification 3.0 has it. */
module Latency {

  type U32 = x: int | 0 <= x < 0x1_0000_0000

  const VALUE_MASK: nat := 0x3FF
  const SCALE_MAX: nat := 5

  /** A latency encoding: the scale in bits 12:10, the value in bits 9:0. */
  datatype Encoding = Encoding(scale: nat, value: nat)

  datatype Code<+T> = Ok(value: T) | ErrConfig

  function Pow32(n: nat): (p: nat)
    ensures p > 0
  {
    if n == 0 then 1 else 32 * Pow32(n - 1)
  }

  function CeilDiv(v: nat, d: nat): (q: nat)
    requires d > 0
  {
    (v + d - 1) / d
  }

  /** The 16-bit word the encoding stands for. */
  function Word(e: Encoding): nat { e.scale * 1024 + e.value }

  /** The latency in nanoseconds. */
  function Decode(e: Encoding): nat { e.value * Pow32(e.scale) }

  /** Any word of the two fields: 3 bits of scale, 10 of value. */
  predicate Representable(e: Encoding) { e.scale <= 7 && e.value <= VALUE_MASK }

  /** A valid scale, and the least that can hold the value: what an encoder produces. */
  predicate Canonical(e: Encoding) {
    e.scale <= SCALE_MAX && e.value <= VALUE_MASK && (e.scale == 0 || e.value >= 32)
  }

  /** As a bound for valid encodings, the word orders as its latency does. */
  predicate Orderly(e: Encoding) { e.value >= if e.scale == 0 then 0 else if e.scale <= 6 then 32 else 1 }

  // ----- Rounding -----

  lemma CeilExact(v: nat, d: nat)
    requires d > 0
    ensures v <= CeilDiv(v, d) * d < v + d
  {
    var n := v + d - 1;
    var q, r := n / d, n % d;
    assert n == d * q + r;
    assert d * q == q * d;
  }

  lemma CeilUnique(v: nat, d: nat, q: nat)
    requires d > 0 && v <= q * d < v + d
    ensures CeilDiv(v, d) == q
  {
    CeilExact(v, d);
    var p := CeilDiv(v, d);
    if p > q {
      Gap(p, q, d);
    } else if q > p {
      Gap(q, p, d);
    }
  }

  lemma Gap(p: nat, q: nat, d: nat)
    requires p > q
    ensures p * d >= q * d + d
  {
    Times(q + 1, p, d);
    Expand(q, d);
  }

  /** Rounding up twice is rounding up once. */
  lemma RoundUpTwice(v: nat, a: nat, b: nat)
    requires a > 0 && b > 0
    ensures a * b > 0 && CeilDiv(CeilDiv(v, a), b) == CeilDiv(v, a * b)
  {
    var q := CeilDiv(v, a);
    var p := CeilDiv(q, b);
    CeilExact(v, a);
    CeilExact(q, b);
    Regroup(p, b, a);
    Times(q, p * b, a);
    Times(p * b + 1, q + b, a);
    Expand(p * b, a);
    Expand2(q, b, a);
    Positive(a, b);
    CeilUnique(v, a * b, p);
  }

  lemma Regroup(p: nat, b: nat, a: nat)
    ensures p * (a * b) == (p * b) * a
  {
  }

  lemma Times(x: nat, y: nat, a: nat)
    requires x <= y
    ensures x * a <= y * a
  {
  }

  lemma Expand(x: nat, a: nat)
    ensures (x + 1) * a == x * a + a
  {
  }

  lemma Expand2(q: nat, b: nat, a: nat)
    ensures (q + b) * a == q * a + a * b
  {
  }

  lemma Positive(a: nat, b: nat)
    requires a > 0 && b > 0
    ensures a * b > 0
  {
  }

  // ----- Encoding -----

  /** A product in 32-bit arithmetic. */
  function Wrapped(x: int): U32 { x % 0x1_0000_0000 }

  /** The nanoseconds in which `2 * d` bytes arrive at `speed` Mb/s, the quotient rounded down. */
  function Scaled(d: int, speed: nat): int
    requires speed > 0
  {
    d * (16000 / speed)
  }

  /** The latency the device tolerates, in 32-bit arithmetic. */
  function Tolerated(rxa: U32, maxFrame: U32, speed: nat): (v: U32)
    requires speed > 0
  {
    if Wrapped(rxa * 512) > maxFrame then Wrapped(Scaled(Wrapped(rxa * 512) - maxFrame, speed)) else 0
  }

  /** Neither product of the calculation reaches 32 bits. */
  predicate Fits(rxa: U32, maxFrame: U32, speed: nat)
    requires speed > 0
  {
    && 512 * rxa < 0x1_0000_0000
    && (512 * rxa > maxFrame ==> Scaled(512 * rxa - maxFrame, speed) < 0x1_0000_0000)
  }

  /** What a tolerated latency means, for a buffer of `rxa` kilobytes and a link of `speed` Mb/s:
      in that time the link delivers no more than the buffer less two frames, wrapped products
      included.  Without wrapping it delivers exactly that much at 10, 100 and 1000 Mb/s, less the
      remainder of the division at other speeds, and the latency is 0 exactly for a buffer of at
      most two frames. */
  lemma ToleratedExact(rxa: U32, maxFrame: U32, speed: nat)
    requires speed > 0
    ensures var v, room := Tolerated(rxa, maxFrame, speed), 1024 * rxa - 2 * maxFrame;
      && (v > 0 ==> v * speed <= 8000 * room)
      && (Fits(rxa, maxFrame, speed) && room > 0 ==> 2 * v * speed == room * (16000 - 16000 % speed))
      && (Fits(rxa, maxFrame, speed) && room > 0 && speed in {10, 100, 1000} ==> v * speed == 8000 * room)
      && (Fits(rxa, maxFrame, speed) && speed <= 16000 ==> (v == 0 <==> 512 * rxa <= maxFrame))
  {
    hide Tolerated, Fits, Scaled;
    ToleratedBound(rxa, maxFrame, speed);
    if Fits(rxa, maxFrame, speed) {
      if 512 * rxa > maxFrame {
        ToleratedFits(rxa, maxFrame, speed);
        WithoutWrapping(512 * rxa - maxFrame, speed);
      } else {
        NothingTolerated(rxa, maxFrame, speed);
      }
    }
  }

  lemma ToleratedBound(rxa: U32, maxFrame: U32, speed: nat)
    requires speed > 0
    ensures Tolerated(rxa, maxFrame, speed) > 0 ==>
              Tolerated(rxa, maxFrame, speed) * speed <= 8000 * (1024 * rxa - 2 * maxFrame)
  {
    hide Wrapped, Scaled;
    var d := Wrapped(rxa * 512) - maxFrame;
    if d > 0 { NeverMore(rxa * 512, maxFrame, speed, d); }
  }

  lemma ToleratedFits(rxa: U32, maxFrame: U32, speed: nat)
    requires speed > 0 && Fits(rxa, maxFrame, speed) && 512 * rxa > maxFrame
    ensures Tolerated(rxa, maxFrame, speed) == Scaled(512 * rxa - maxFrame, speed)
  {
    hide Wrapped, Scaled;
    WrapShrinks(rxa * 512);
    ScaledNonnegative(512 * rxa - maxFrame, speed);
    WrapShrinks(Scaled(512 * rxa - maxFrame, speed));
  }

  lemma NothingTolerated(rxa: U32, maxFrame: U32, speed: nat)
    requires speed > 0 && 512 * rxa <= maxFrame
    ensures Tolerated(rxa, maxFrame, speed) == 0
  {
    WrapShrinks(rxa * 512);
  }

  lemma WithoutWrapping(d: nat, speed: nat)
    requires d > 0 && speed > 0
    ensures var v := Scaled(d, speed);
      && 2 * v * speed == (2 * d) * (16000 - 16000 % speed)
      && (speed in {10, 100, 1000} ==> v * speed == 16000 * d)
      && (speed <= 16000 ==> v > 0)
  {
    var q := 16000 / speed;
    Regroup(d, q, speed);
    WholeParts(speed);
    Twice(d * q, speed);
    Twice(d, q * speed);
    if speed <= 16000 { Positive(d, q); }
  }

  lemma Twice(x: nat, y: nat)
    ensures 2 * x * y == 2 * (x * y)
  {
  }

  lemma WholeParts(speed: nat)
    requires speed > 0
    ensures (16000 / speed) * speed == 16000 - 16000 % speed
    ensures speed in {10, 100, 1000} ==> 16000 % speed == 0
    ensures speed <= 16000 ==> 16000 / speed > 0
  {
    if speed <= 16000 { QuotientPositive(16000, speed); }
  }

  lemma QuotientPositive(n: nat, d: nat)
    requires 0 < d <= n
    ensures n / d > 0
  {
  }

  /** Wrapping, and rounding the quotient down, only shorten the latency. */
  lemma NeverMore(half: nat, maxFrame: nat, speed: nat, d: nat)
    requires speed > 0 && d == Wrapped(half) - maxFrame
    ensures Wrapped(Scaled(d, speed)) * speed <= 16000 * (half - maxFrame)
  {
    hide Wrapped;
    var q := 16000 / speed;
    WrapShrinks(half);
    ScaledNonnegative(d, speed);
    WrapShrinks(d * q);
    Times(Wrapped(d * q), d * q, speed);
    Regroup(d, q, speed);
    WholeParts(speed);
    Times(q * speed, 16000, d);
  }

  lemma ScaledNonnegative(d: nat, speed: nat)
    requires speed > 0
    ensures Scaled(d, speed) >= 0
  {
  }

  lemma WrapShrinks(x: nat)
    ensures Wrapped(x) <= x && (x < 0x1_0000_0000 ==> Wrapped(x) == x)
  {
  }

  /** Divides, rounding up, until the value fits; fails when the scale does not. */
  method Encode(latency: U32) returns (r: Code<Encoding>)
    ensures r.Ok? && Canonical(r.value)
    ensures latency <= Decode(r.value) < latency + Pow32(r.value.scale)
    ensures Decode(r.value) == CeilDiv(latency, Pow32(r.value.scale)) * Pow32(r.value.scale)
    ensures r.value.scale == 0 || CeilDiv(latency, Pow32(r.value.scale - 1)) > VALUE_MASK
  {
    var scale, value := 0, latency;
    while value > VALUE_MASK
      invariant 0 <= scale && value == CeilDiv(latency, Pow32(scale))
      invariant scale > 0 ==> CeilDiv(latency, Pow32(scale - 1)) > VALUE_MASK && value >= 32
      invariant scale <= SCALE_MAX
    {
      FitsAtFive(latency, scale);
      RoundUpTwice(latency, Pow32(scale), 32);
      scale := scale + 1;
      value := (value + 32 - 1) / 32;
    }
    if scale > SCALE_MAX {
      return ErrConfig;
    }
    CeilExact(latency, Pow32(scale));
    r := Ok(Encoding(scale, value));
  }

  lemma Powers()
    ensures Pow32(1) == 32 && Pow32(2) == 1024 && Pow32(3) == 32768 && Pow32(4) == 1048576 && Pow32(5) == 33554432
  {
    assert Pow32(2) == 1024;
    assert Pow32(4) == 1048576;
  }

  /** No 32-bit latency needs more than the fifth scale. */
  lemma FitsAtFive(v: U32, scale: nat)
    requires scale <= SCALE_MAX && CeilDiv(v, Pow32(scale)) > VALUE_MASK
    ensures scale < SCALE_MAX
  {
    Powers();
  }

  // ----- Order -----

  /** The fields of a word: the scale in the bits above the ten of the value. */
  lemma WordFields(e: Encoding)
    requires Representable(e)
    ensures Word(e) / 1024 == e.scale && Word(e) % 1024 == e.value && Word(e) < 0x2000
  {
  }

  lemma {:induction false} PowerStep(s: nat, t: nat)
    requires s < t
    ensures 32 * Pow32(s) <= Pow32(t)
  {
    if t > s + 1 { PowerStep(s, t - 1); }
  }

  lemma SmallerScale(d: Encoding, e: Encoding)
    requires Canonical(d) && Canonical(e) && d.scale < e.scale
    ensures Decode(d) < Decode(e)
  {
    PowerStep(d.scale, e.scale);
    var p, q := Pow32(d.scale), Pow32(e.scale);
    Times(d.value, 1023, p);
    Times(32, e.value, q);
    assert 1023 * p < 1024 * p <= 32 * q;
  }

  /** Comparing the encoded words compares the latencies. */
  lemma OrderKept(d: Encoding, e: Encoding)
    requires Canonical(d) && Canonical(e)
    ensures Word(d) <= Word(e) <==> Decode(d) <= Decode(e)
    ensures Word(d) == Word(e) <==> d == e
  {
    if d.scale < e.scale {
      SmallerScale(d, e);
    } else if e.scale < d.scale {
      SmallerScale(e, d);
    } else if d.value < e.value {
      StrictTimes(d.value, e.value, Pow32(d.scale));
    } else if e.value < d.value {
      StrictTimes(e.value, d.value, Pow32(d.scale));
    }
  }

  lemma StrictTimes(x: nat, y: nat, a: nat)
    requires x < y && a > 0
    ensures x * a < y * a
  {
  }

  /** The clamp the driver applies: on the words, not on the latencies. */
  function Clamped(e: Encoding, max: Encoding): Encoding { if Word(e) > Word(max) then max else e }

  /** The platform's maximum of two capability words. */
  function Larger(d: Encoding, e: Encoding): Encoding { if Word(d) >= Word(e) then d else e }

  ghost predicate ClampsLatency(max: Encoding) {
    forall e | Canonical(e) :: Decode(Clamped(e, max)) == Min(Decode(e), Decode(max))
  }

  function Min(x: nat, y: nat): nat { if x <= y then x else y }

  /** Clamping the words clamps the latencies, whatever the device asks for, exactly when the
      platform's maximum is orderly: its value at least 32, unless the scale is 0 or 7, and at
      least 1 in scale 7. */
  lemma ClampExact(max: Encoding)
    requires Representable(max)
    ensures ClampsLatency(max) <==> Orderly(max)
  {
    if Orderly(max) {
      forall e | Canonical(e) ensures Decode(Clamped(e, max)) == Min(Decode(e), Decode(max)) {
        if max.scale <= SCALE_MAX { OrderKept(e, max); } else { AboveAll(e, max); }
      }
    } else {
      var e := Encoding(if max.scale <= SCALE_MAX then max.scale - 1 else SCALE_MAX, 1023);
      assert Canonical(e) && Word(e) < Word(max);
      Disorder(e, max);
      assert Decode(Clamped(e, max)) != Min(Decode(e), Decode(max));
    }
  }

  /** Scales 6 and 7 are not valid, but as maxima they lie above every valid encoding. */
  lemma AboveAll(e: Encoding, max: Encoding)
    requires Canonical(e) && Representable(max) && max.scale > SCALE_MAX && Orderly(max)
    ensures Word(e) < Word(max) && Decode(e) < Decode(max)
  {
    PowerStep(e.scale, max.scale);
    var p, q := Pow32(e.scale), Pow32(max.scale);
    Times(e.value, 1023, p);
    assert 1023 * p < 1024 * p;
    if max.scale == 6 {
      Times(32, max.value, q);
    } else {
      PowerStep(SCALE_MAX, 6);
      PowerStep(6, 7);
      if e.scale < SCALE_MAX { PowerStep(e.scale, SCALE_MAX); }
      Times(1, max.value, q);
    }
  }

  lemma Disorder(e: Encoding, max: Encoding)
    requires Representable(max) && !Orderly(max) && e.value == 1023
    requires e.scale == if max.scale <= SCALE_MAX then max.scale - 1 else SCALE_MAX
    ensures Decode(max) < Decode(e)
  {
    if max.scale <= 6 {
      var p := Pow32(e.scale);
      assert max.scale == e.scale + 1;
      Regroup(max.value, 32, p);
      Times(max.value * 32, 992, p);
    }
  }

  /** The larger of two canonical capability words is the larger latency. */
  lemma LargerIsLarger(d: Encoding, e: Encoding)
    requires Canonical(d) && Canonical(e)
    ensures Canonical(Larger(d, e)) && Decode(Larger(d, e)) >= Decode(d) && Decode(Larger(d, e)) >= Decode(e)
  {
    OrderKept(d, e);
    OrderKept(e, d);
  }

  /** Rounding up adds at most one part in thirty-one. */
  lemma RoundingSmall(v: nat, e: Encoding)
    requires Canonical(e) && v <= Decode(e) < v + Pow32(e.scale)
    ensures 31 * Decode(e) <= 32 * v
  {
    if e.scale > 0 { Times(32, e.value, Pow32(e.scale)); }
  }

  /** A latency of at most 32/31 of the time in which the link fills the buffer less two frames. */
  predicate Absorbed(w: nat, rxa: nat, maxFrame: nat, speed: nat) {
    w > 0 ==> 31 * w * speed <= 32 * 8000 * (1024 * rxa - 2 * maxFrame)
  }

  /** A latency of at least that time, as far as the whole-number quotient gives it. */
  predicate UsesBuffer(w: nat, rxa: nat, maxFrame: nat, speed: nat)
    requires speed > 0
  {
    2 * w * speed >= (1024 * rxa - 2 * maxFrame) * (16000 - 16000 % speed)
  }

  lemma LessAbsorbed(v: nat, w: nat, rxa: nat, maxFrame: nat, speed: nat)
    requires 31 * w <= 32 * v && (v > 0 ==> v * speed <= 8000 * (1024 * rxa - 2 * maxFrame))
    ensures Absorbed(w, rxa, maxFrame, speed)
  {
    if w > 0 {
      Times(31 * w, 32 * v, speed);
      assert 32 * v * speed == 32 * (v * speed);
    }
  }

  lemma MoreUses(v: nat, w: nat, rxa: nat, maxFrame: nat, speed: nat)
    requires v <= w && speed > 0
    requires 2 * v * speed == (1024 * rxa - 2 * maxFrame) * (16000 - 16000 % speed)
    ensures UsesBuffer(w, rxa, maxFrame, speed)
  {
    Times(2 * v, 2 * w, speed);
  }

  /** What the encoding of a tolerated latency, or a smaller latency, means for the link. */
  lemma Reported(rxa: U32, maxFrame: U32, speed: nat, e: Encoding, w: nat)
    requires speed > 0 && Canonical(e) && w <= Decode(e)
    requires Tolerated(rxa, maxFrame, speed) <= Decode(e) < Tolerated(rxa, maxFrame, speed) + Pow32(e.scale)
    ensures Absorbed(w, rxa, maxFrame, speed)
    ensures Fits(rxa, maxFrame, speed) && 1024 * rxa > 2 * maxFrame ==> UsesBuffer(Decode(e), rxa, maxFrame, speed)
  {
    hide Absorbed, UsesBuffer, Tolerated, Fits;
    var v := Tolerated(rxa, maxFrame, speed);
    RoundingSmall(v, e);
    ToleratedExact(rxa, maxFrame, speed);
    LessAbsorbed(v, w, rxa, maxFrame, speed);
    if Fits(rxa, maxFrame, speed) && 1024 * rxa > 2 * maxFrame {
      MoreUses(v, Decode(e), rxa, maxFrame, speed);
    }
  }

  /** What is written for a link: the tolerated latency, encoded as `asked` and clamped to the
      platform.  In terms of the link, at most 32/31 of the time in which it fills the buffer less
      two frames, and at least that time or the platform's maximum. */
  method PlatformLatency(rxa: U32, maxFrame: U32, speed: nat, snoop: Encoding, noSnoop: Encoding)
    returns (r: Code<Encoding>, ghost asked: Encoding)
    ensures r.Ok? <==> maxFrame > 0 && speed > 0
    ensures r.Ok? ==>
              var v, max := Tolerated(rxa, maxFrame, speed), Larger(snoop, noSnoop);
              && Canonical(asked) && v <= Decode(asked) < v + Pow32(asked.scale)
              && r.value == Clamped(asked, max)
    ensures r.Ok? && Canonical(snoop) && Canonical(noSnoop) ==>
              var w, max := Decode(r.value), Decode(Larger(snoop, noSnoop));
              && Canonical(r.value) && w <= max && Absorbed(w, rxa, maxFrame, speed)
              && (Fits(rxa, maxFrame, speed) && 1024 * rxa > 2 * maxFrame ==>
                    w == max || UsesBuffer(w, rxa, maxFrame, speed))
  {
    hide Tolerated, Absorbed, UsesBuffer, Fits;
    asked := Encoding(0, 0);
    if maxFrame == 0 || speed == 0 {
      return ErrConfig, asked;
    }
    var latency := Tolerated(rxa, maxFrame, speed);
    r := Encode(latency);
    var max := if Word(snoop) >= Word(noSnoop) then snoop else noSnoop;
    var e := r.value;
    asked := e;
    if Word(e) > Word(max) {
      r := Ok(max);
    }
    if Canonical(snoop) && Canonical(noSnoop) {
      OrderKept(e, max);
      Reported(rxa, maxFrame, speed, e, Decode(r.value));
    }
  }
}
