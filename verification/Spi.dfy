/** The bit-banged SPI EEPROM writer against a part that sees only its pins: chip select,
    clock and data. */
module Spi {
  import opened Arith
  import opened Seqs

  type Byte = x: int | 0 <= x < 0x100

  type Word = x: int | 0 <= x < 0x1_0000

  datatype Code = Ok | ErrNvm

  const WRITE_OPCODE: Byte := 0x02
  const A8_OPCODE: Byte := 0x08
  const WREN_OPCODE: Byte := 0x06
  const RDSR_OPCODE: Byte := 0x05
  const MAX_RETRY: nat := 5000

  // ----- Bits, most significant first -----

  /** The low `n` bits of `d`. */
  function BitsOf(d: nat, n: nat): (bits: seq<bool>)
    ensures |bits| == n
  {
    if n == 0 then [] else BitsOf(d / 2, n - 1) + [d % 2 == 1]
  }

  function Value(bits: seq<bool>): nat {
    if bits == [] then 0 else
      2 * Value(bits[..|bits| - 1]) + if bits[|bits| - 1] then 1 else 0
  }

  function Flatten(bytes: seq<Byte>): (bits: seq<bool>)
    ensures |bits| == 8 * |bytes|
  {
    if bytes == [] then [] else BitsOf(bytes[0], 8) + Flatten(bytes[1..])
  }

  /** The bytes a part assembles from a stream of bits. */
  function Assembled(bits: seq<bool>): seq<nat> {
    if |bits| < 8 then [] else [Value(bits[..8])] + Assembled(bits[8..])
  }

  lemma {:induction false} ValueOfBits(d: nat, n: nat)
    ensures Value(BitsOf(d, n)) == d % Pow2(n)
  {
    if n > 0 {
      ValueOfBits(d / 2, n - 1);
      var bits := BitsOf(d, n);
      assert bits[..n - 1] == BitsOf(d / 2, n - 1);
      HalfModulo(d, Pow2(n - 1));
    }
  }

  lemma HalfModulo(d: nat, p: nat)
    requires p > 0
    ensures d % (2 * p) == 2 * ((d / 2) % p) + d % 2
  {
    var h := d / 2;
    var q, r := h / p, h % p;
    assert h == p * q + r;
    assert d == (2 * p) * q + (2 * r + d % 2);
    DivUnique(d, 2 * p, q, 2 * r + d % 2);
  }

  lemma {:induction false} AssembledFlat(bytes: seq<Byte>)
    ensures Assembled(Flatten(bytes)) == bytes
  {
    if bytes != [] {
      hide BitsOf, Value;
      AssembledFlat(bytes[1..]);
      var bits := Flatten(bytes);
      assert bits[..8] == BitsOf(bytes[0], 8) && bits[8..] == Flatten(bytes[1..]);
      ByteValue(bytes[0]);
    }
  }

  lemma ByteValue(b: Byte)
    ensures Value(BitsOf(b, 8)) == b
  {
    hide BitsOf, Value;
    ValueOfBits(b, 8);
    Powers();
  }

  lemma Powers()
    ensures Pow2(8) == 0x100 && Pow2(16) == 0x1_0000
  {
    assert Pow2(4) == 16;
    assert Pow2(8) == 0x100;
    assert Pow2(12) == 0x1000;
  }

  lemma {:induction false} FlattenAppend(a: seq<Byte>, b: seq<Byte>)
    ensures Flatten(a + b) == Flatten(a) + Flatten(b)
  {
    if a == [] {
      assert a + b == b;
    } else {
      FlattenAppend(a[1..], b);
      assert (a + b)[1..] == a[1..] + b;
    }
  }

  /** Sending a number's high part, then its low part. */
  lemma {:induction false} BitsSplit(a: nat, b: nat, m: nat, n: nat)
    requires b < Pow2(n)
    ensures BitsOf(a * Pow2(n) + b, m + n) == BitsOf(a, m) + BitsOf(b, n)
  {
    if n > 0 {
      BitsSplit(a, b / 2, m, n - 1);
      var d, p := a * Pow2(n) + b, Pow2(n - 1);
      Regroup(a, p);
      assert d / 2 == a * p + b / 2 && d % 2 == b % 2;
    }
  }

  lemma Regroup(a: int, p: int)
    ensures a * (2 * p) == 2 * (a * p)
  {
  }

  // ----- The part -----

  /** What the part holds: its cells, the write enable latch, a write cycle in progress. */
  datatype Part = Part(mem: seq<Byte>, wel: bool, busy: bool)

  /** Inside a page the address wraps. */
  function Wrap(start: nat, page: nat, k: nat): nat
    requires page > 0
  {
    start - start % page + (start % page + k) % page
  }

  function PageWrite(mem: seq<Byte>, page: nat, start: nat, bytes: seq<Byte>): (r: seq<Byte>)
    requires page > 0
    ensures |r| == |mem|
  {
    if bytes == [] then mem else
      var k := |bytes| - 1;
      var r := PageWrite(mem, page, start, bytes[..k]);
      if Wrap(start, page, k) < |mem| then r[Wrap(start, page, k) := bytes[k]] else r
  }

  function Opcode(bits: seq<bool>): nat
    requires |bits| >= 8
  {
    Value(bits[..8])
  }

  /** A write command: opcode, address, and at least one whole data byte. */
  predicate IsWrite(bits: seq<bool>, addressBits: nat) {
    && |bits| >= 16 + addressBits && (|bits| - 8 - addressBits) % 8 == 0
    && (Opcode(bits) == WRITE_OPCODE || (addressBits == 8 && Opcode(bits) == WRITE_OPCODE + A8_OPCODE))
  }

  function StartAddress(bits: seq<bool>, addressBits: nat): nat
    requires IsWrite(bits, addressBits)
  {
    Value(bits[8..8 + addressBits]) + if Opcode(bits) == WRITE_OPCODE then 0 else 0x100
  }

  function DataBytes(bits: seq<bool>, addressBits: nat): (bytes: seq<Byte>)
    requires |bits| >= 8 + addressBits
  {
    var b := Assembled(bits[8 + addressBits..]);
    seq(|b|, k requires 0 <= k < |b| => b[k] % 0x100)
  }

  /** What the part does when it is deselected after `bits`. */
  function Execute(p: Part, bits: seq<bool>, addressBits: nat, page: nat): (r: Part)
    requires page > 0
    ensures |r.mem| == |p.mem|
  {
    if p.busy then p
    else if |bits| == 8 && Opcode(bits) == WREN_OPCODE then p.(wel := true)
    else if p.wel && IsWrite(bits, addressBits) then
      Part(PageWrite(p.mem, page, StartAddress(bits, addressBits), DataBytes(bits, addressBits)), false, true)
    else p
  }

  /** The pins as the EECD register shows them; `miso` is the part's output. */
  datatype Eecd = Eecd(sk: bool, cs: bool, di: bool, miso: bool)

  /** The part's output while the status register is clocked out: busy in bit 0, the write
      enable latch in bit 1. */
  predicate StatusOut(p: Part, bits: seq<bool>) {
    && |bits| > 8 && Opcode(bits) == RDSR_OPCODE
    && (((|bits| - 9) % 8 == 7 && p.busy) || ((|bits| - 9) % 8 == 6 && p.wel))
  }

  // ----- What a write is meant to do -----

  function WordBytes(data: seq<Word>): (bytes: seq<Byte>)
    ensures |bytes| == 2 * |data|
  {
    seq(2 * |data|, k requires 0 <= k < 2 * |data| => if k % 2 == 0 then data[k / 2] % 0x100 else data[k / 2] / 0x100)
  }

  /** The address the part sees for word `w` of a write that began at word `offset`. */
  function Address(addressBits: nat, offset: nat, w: nat): nat {
    if addressBits == 8 then (2 * w) % 0x100 + (if offset >= 128 then 0x100 else 0) else (2 * w) % 0x1_0000
  }

  /** Where the words of a write end up, one by one. */
  function Landed(mem: seq<Byte>, addressBits: nat, offset: nat, data: seq<Word>): (r: seq<Byte>)
    ensures |r| == |mem|
  {
    if data == [] then mem else
      var k := |data| - 1;
      WordPut(Landed(mem, addressBits, offset, data[..k]), Address(addressBits, offset, offset + k), data[k])
  }

  /** One word, low byte first. */
  function WordPut(mem: seq<Byte>, a: nat, w: Word): (r: seq<Byte>)
    ensures |r| == |mem|
  {
    if a + 1 < |mem| then mem[a := w % 0x100][a + 1 := w / 0x100] else mem
  }

  /** The sizes the driver's parameters describe. */
  predicate Geometry(wordSize: nat, addressBits: nat, page: nat) {
    && (page == 8 || page == 32)
    && wordSize > 0 && (2 * wordSize) % page == 0
    && (addressBits == 8 || addressBits == 16)
  }

  // ----- Commands -----

  /** The 16 bits the driver computes for the address of word `w`. */
  function SentAddress(w: nat): nat { (w * 2) % 0x1_0000 }

  lemma SentAddressBits(addressBits: nat, w: nat)
    requires addressBits == 8 || addressBits == 16
    ensures SentAddress(w) % Pow2(addressBits) == (2 * w) % Span(addressBits)
  {
    Powers();
    if addressBits == 8 {
      PageInModulus(w * 2, 0x100, 0x100);
    } else {
      SmallModulo(SentAddress(w), 0x1_0000);
    }
  }

  /** The bits of a write command. */
  function Command(op: Byte, addr: nat, addressBits: nat, bytes: seq<Byte>): (bits: seq<bool>)
    ensures |bits| == 8 + addressBits + 8 * |bytes|
  {
    BitsOf(op, 8) + BitsOf(addr, addressBits) + Flatten(bytes)
  }

  lemma OpcodeSent(op: Byte, rest: seq<bool>)
    ensures Opcode(BitsOf(op, 8) + rest) == op
  {
    hide BitsOf, Value;
    assert (BitsOf(op, 8) + rest)[..8] == BitsOf(op, 8);
    ByteValue(op);
  }

  lemma CommandSplits(op: Byte, addr: nat, addressBits: nat, bytes: seq<Byte>)
    ensures var bits := Command(op, addr, addressBits, bytes);
      && bits == BitsOf(op, 8) + (BitsOf(addr, addressBits) + Flatten(bytes))
      && bits[8..8 + addressBits] == BitsOf(addr, addressBits)
      && bits[8 + addressBits..] == Flatten(bytes)
  {
    hide BitsOf, Flatten;
  }

  lemma CommandDecodes(op: Byte, addr: nat, addressBits: nat, bytes: seq<Byte>)
    ensures var bits := Command(op, addr, addressBits, bytes);
      && Opcode(bits) == op
      && Value(bits[8..8 + addressBits]) == addr % Pow2(addressBits)
      && DataBytes(bits, addressBits) == bytes
  {
    hide BitsOf, Flatten, Command, Opcode, Value, Assembled;
    CommandSplits(op, addr, addressBits, bytes);
    OpcodeSent(op, BitsOf(addr, addressBits) + Flatten(bytes));
    ValueOfBits(addr, addressBits);
    AssembledFlat(bytes);
  }

  /** The part understands a write command as it was meant. */
  lemma CommandUnderstood(p: Part, op: Byte, addr: nat, addressBits: nat, page: nat, bytes: seq<Byte>)
    requires page > 0 && bytes != [] && !p.busy && p.wel
    requires op == WRITE_OPCODE || (op == WRITE_OPCODE + A8_OPCODE && addressBits == 8)
    ensures Execute(p, Command(op, addr, addressBits, bytes), addressBits, page)
         == Part(PageWrite(p.mem, page, addr % Pow2(addressBits) + (if op == WRITE_OPCODE then 0 else 0x100), bytes),
                 false, true)
  {
    hide Command, Opcode, DataBytes, PageWrite, Value, Pow2;
    CommandDecodes(op, addr, addressBits, bytes);
  }

  /** The swapped word goes out low byte first. */
  lemma WordSent(op: Byte, addr: nat, addressBits: nat, data: seq<Word>, n: nat)
    requires n < |data|
    ensures Command(op, addr, addressBits, WordBytes(data[..n])) + BitsOf(Swapped(data[n]), 16)
         == Command(op, addr, addressBits, WordBytes(data[..n + 1]))
  {
    hide BitsOf, Flatten, Swapped;
    var lo: Byte, hi: Byte := data[n] % 0x100, data[n] / 0x100;
    var before := WordBytes(data[..n]);
    assert WordBytes(data[..n + 1]) == before + [lo, hi];
    FlattenAppend(before, [lo, hi]);
    TwoBytes(data[n]);
    var head := BitsOf(op, 8) + BitsOf(addr, addressBits);
    assert (head + Flatten(before)) + Flatten([lo, hi]) == head + (Flatten(before) + Flatten([lo, hi]));
  }

  lemma TwoBytes(w: Word)
    ensures BitsOf(Swapped(w), 16) == Flatten([w % 0x100, w / 0x100])
  {
    hide BitsOf;
    var lo: Byte, hi: Byte := w % 0x100, w / 0x100;
    assert [lo, hi][1..] == [hi];
    assert Flatten([hi]) == BitsOf(hi, 8) + Flatten([]);
    assert BitsOf(hi, 8) + [] == BitsOf(hi, 8);
    Powers();
    BitsSplit(lo, hi, 8, 8);
  }

  function Swapped(w: Word): Word { w / 0x100 + (w % 0x100) * 0x100 }

  // ----- Pages -----

  lemma {:induction false} PageWriteStored(mem: seq<Byte>, page: nat, start: nat, bytes: seq<Byte>)
    requires page > 0 && start % page + |bytes| <= page && start + |bytes| <= |mem|
    ensures PageWrite(mem, page, start, bytes) == Stored(mem, start, bytes)
  {
    if bytes == [] {
      assert Stored(mem, start, bytes) == mem;
    } else {
      var k := |bytes| - 1;
      PageWriteStored(mem, page, start, bytes[..k]);
      SmallModulo(start % page + k, page);
      assert Stored(mem, start, bytes) == Stored(mem, start, bytes[..k])[start + k := bytes[k]];
    }
  }

  lemma SmallModulo(x: nat, m: nat)
    requires x < m
    ensures x % m == x
  {
  }

  lemma StepInPage(x: nat, m: nat, k: nat)
    requires m > 0 && x % m + k <= m
    ensures x % m + k < m ==> (x + k) % m == x % m + k
    ensures x % m + k == m ==> (x + k) % m == 0
  {
    var q, r := x / m, x % m;
    assert x == m * q + r;
    if r + k < m {
      DivUnique(x + k, m, q, r + k);
    } else {
      Distribute(m, q);
      DivUnique(x + k, m, q + 1, 0);
    }
  }

  lemma Distribute(m: int, q: int)
    ensures m * (q + 1) == m * q + m
  {
  }

  /** A modulus that is a whole number of pages keeps the place in the page. */
  lemma PageInModulus(x: nat, page: nat, c: nat)
    requires page > 0 && c > 0 && page * c > 0
    ensures (x % (page * c)) % page == x % page
    ensures x % (page * c) - x % page <= page * c - page
  {
    var q, r := x / (page * c), x % (page * c);
    var s, t := r / page, r % page;
    PlaceInPage(x, page, c, q, s, t);
    WholePages(page, c, s, t);
  }

  lemma PlaceInPage(x: nat, page: nat, c: nat, q: nat, s: nat, t: nat)
    requires x == (page * c) * q + (page * s + t) && t < page
    ensures x % page == t
  {
    Regroup3(page, c, q, s);
    DivUnique(x, page, c * q + s, t);
  }

  /** The last page of a span starts one page before its end. */
  lemma WholePages(page: nat, c: nat, s: nat, t: nat)
    requires page > 0 && page * s + t < page * c
    ensures page * s <= page * c - page
  {
    if s >= c {
      Monotone(page, c, s);
    } else {
      Monotone(page, s + 1, c);
      Distribute(page, s);
    }
  }

  lemma Monotone(m: nat, a: nat, b: nat)
    requires a <= b
    ensures m * a <= m * b
  {
  }

  lemma Regroup3(page: int, c: int, q: int, s: int)
    ensures (page * c) * q + page * s == page * (c * q + s)
  {
  }

  function Span(addressBits: nat): nat { if addressBits == 8 then 0x100 else 0x1_0000 }

  /** The place of a word in its page is the part's place too. */
  lemma PagePlace(addressBits: nat, page: nat, offset: nat, w: nat)
    requires page == 8 || page == 32
    requires addressBits == 8 || addressBits == 16
    ensures Address(addressBits, offset, w) % page == (2 * w) % page
    ensures (2 * w) % Span(addressBits) - (2 * w) % page <= Span(addressBits) - page
  {
    var span := Span(addressBits);
    PageInModulus(2 * w, page, span / page);
    AddPages((2 * w) % span, page);
  }

  /** Words of one page are adjacent for the part too. */
  lemma PageAddresses(wordSize: nat, addressBits: nat, page: nat, offset: nat, w: nat, n: nat)
    requires Geometry(wordSize, addressBits, page) && (2 * w) % page + 2 * n <= page
    ensures Address(addressBits, offset, w) % page == (2 * w) % page
    ensures (2 * w) % page + 2 * n < page ==>
              && Address(addressBits, offset, w + n) == Address(addressBits, offset, w) + 2 * n
              && (2 * (w + n)) % page == (2 * w) % page + 2 * n
    ensures (2 * w) % page + 2 * n == page ==> (2 * (w + n)) % page == 0
  {
    PagePlace(addressBits, page, offset, w);
    Doubled(w, n);
    StepInPage(2 * w, page, 2 * n);
    AddressStep(addressBits, offset, w, n, page);
  }

  lemma AddressStep(addressBits: nat, offset: nat, w: nat, n: nat, page: nat)
    requires page == 8 || page == 32
    requires (2 * w) % Span(addressBits) - (2 * w) % page <= Span(addressBits) - page
    requires addressBits == 8 || addressBits == 16
    ensures (2 * w) % page + 2 * n < page ==>
              Address(addressBits, offset, w + n) == Address(addressBits, offset, w) + 2 * n
  {
    if (2 * w) % page + 2 * n < page {
      Doubled(w, n);
      StepInPage(2 * w, Span(addressBits), 2 * n);
    }
  }

  lemma Doubled(w: nat, n: nat)
    ensures 2 * (w + n) == 2 * w + 2 * n
  {
  }

  lemma AddPages(y: nat, page: nat)
    requires page == 8 || page == 32
    ensures (y + 0x100) % page == y % page
  {
    if page == 8 { assert (y + 0x100) % 8 == y % 8; } else { assert (y + 0x100) % 32 == y % 32; }
  }

  // ----- Words landing -----

  /** `n` more words of one page land next to each other. */
  lemma {:induction false} LandedPage(mem: seq<Byte>, wordSize: nat, addressBits: nat, page: nat, offset: nat,
                                      data: seq<Word>, w: nat, n: nat)
    requires Geometry(wordSize, addressBits, page) && |mem| == 2 * wordSize
    requires offset + |data| <= wordSize && w + n <= |data|
    requires (2 * (offset + w)) % page + 2 * n <= page
    ensures Address(addressBits, offset, offset + w) + 2 * n <= |mem|
    ensures Landed(mem, addressBits, offset, data[..w + n])
         == Stored(Landed(mem, addressBits, offset, data[..w]), Address(addressBits, offset, offset + w),
                   WordBytes(data[w..w + n]))
  {
    hide Address, WordPut, Geometry, Stored, WordBytes;
    var a := Address(addressBits, offset, offset + w);
    var before := Landed(mem, addressBits, offset, data[..w]);
    PageFits(wordSize, addressBits, page, offset, offset + w, n);
    if n == 0 {
      StoreNothing(before, a, data[w..w]);
    } else {
      var m := n - 1;
      LandedPage(mem, wordSize, addressBits, page, offset, data, w, m);
      PageAddresses(wordSize, addressBits, page, offset, offset + w, m);
      assert data[..w + n][..w + m] == data[..w + m];
      assert offset + w + m == offset + (w + m);
      StoreWord(before, a, data[w..w + n]);
      assert data[w..w + n][..m] == data[w..w + m];
    }
  }

  lemma StoreNothing(mem: seq<Byte>, a: nat, data: seq<Word>)
    requires a <= |mem| && data == []
    ensures Stored(mem, a, WordBytes(data)) == mem
  {
    assert WordBytes(data) == [];
  }

  lemma PageFits(wordSize: nat, addressBits: nat, page: nat, offset: nat, w: nat, n: nat)
    requires Geometry(wordSize, addressBits, page) && offset <= w && w + n <= wordSize
    requires (2 * w) % page + 2 * n <= page
    ensures Address(addressBits, offset, w) + 2 * n <= 2 * wordSize
  {
    AddressInside(wordSize, addressBits, offset, w);
    if n > 0 {
      PageAddresses(wordSize, addressBits, page, offset, w, n - 1);
      AddressInside(wordSize, addressBits, offset, w + n - 1);
    }
  }

  lemma AddressInside(wordSize: nat, addressBits: nat, offset: nat, w: nat)
    requires addressBits == 8 || addressBits == 16
    requires offset <= w
    ensures w < wordSize ==> Address(addressBits, offset, w) + 1 < 2 * wordSize
    ensures w <= wordSize ==> Address(addressBits, offset, w) <= 2 * wordSize
  {
  }

  lemma StoreWord(mem: seq<Byte>, a: nat, data: seq<Word>)
    requires |data| > 0 && a + 2 * |data| <= |mem|
    ensures var m := |data| - 1;
            Stored(mem, a, WordBytes(data)) == WordPut(Stored(mem, a, WordBytes(data[..m])), a + 2 * m, data[m])
  {
  }

  /** The first word that a write from word `offset` cannot reach: with 8-bit addresses the ninth
      bit is in the opcode, chosen from `offset`. */
  function Limit(addressBits: nat, offset: nat): nat {
    if addressBits != 8 then 0x8000 else if offset >= 128 then 256 else 128
  }

  predicate InReach(addressBits: nat, offset: nat, words: nat) {
    words == 0 || offset + words <= Limit(addressBits, offset)
  }

  lemma {:induction false} LandedStored(mem: seq<Byte>, wordSize: nat, addressBits: nat, offset: nat, data: seq<Word>)
    requires addressBits == 8 || addressBits == 16
    requires |mem| == 2 * wordSize && offset + |data| <= wordSize && InReach(addressBits, offset, |data|)
    ensures Landed(mem, addressBits, offset, data) == Stored(mem, 2 * offset, WordBytes(data))
  {
    hide Address, WordPut, Stored, WordBytes;
    if data == [] {
      StoreNothing(mem, 2 * offset, data);
    } else {
      var k := |data| - 1;
      LandedStored(mem, wordSize, addressBits, offset, data[..k]);
      InPlace(addressBits, offset, offset + k);
      StoreWord(mem, 2 * offset, data);
    }
  }

  lemma InPlace(addressBits: nat, offset: nat, w: nat)
    requires addressBits == 8 || addressBits == 16
    requires offset <= w < Limit(addressBits, offset)
    ensures Address(addressBits, offset, w) == 2 * w
  {
  }

  /** A write never touches what lies beyond its reach. */
  lemma {:induction false} LandedBelow(mem: seq<Byte>, addressBits: nat, offset: nat, data: seq<Word>, a: nat)
    requires addressBits == 8 || addressBits == 16
    requires 2 * Limit(addressBits, offset) <= a < |mem|
    ensures Landed(mem, addressBits, offset, data)[a] == mem[a]
  {
    if data != [] {
      LandedBelow(mem, addressBits, offset, data[..|data| - 1], a);
    }
  }

  /** The writer is a block store for every content and every data exactly when the range stays
      within reach: with 8-bit addresses it must not straddle word 128 or pass word 256. */
  lemma BlockStoreExact(wordSize: nat, addressBits: nat, page: nat, offset: nat, words: nat)
    requires Geometry(wordSize, addressBits, page) && offset + words <= wordSize
    ensures InReach(addressBits, offset, words)
       <==> (forall mem: seq<Byte>, data: seq<Word> :: |mem| == 2 * wordSize && |data| == words ==>
               Landed(mem, addressBits, offset, data) == Stored(mem, 2 * offset, WordBytes(data)))
  {
    if InReach(addressBits, offset, words) {
      forall mem: seq<Byte>, data: seq<Word> | |mem| == 2 * wordSize && |data| == words
        ensures Landed(mem, addressBits, offset, data) == Stored(mem, 2 * offset, WordBytes(data))
      {
        LandedStored(mem, wordSize, addressBits, offset, data);
      }
    } else {
      var mem: seq<Byte>, data: seq<Word> := seq(2 * wordSize, _ => 0), seq(words, _ => 1);
      var limit := Limit(addressBits, offset);
      var a := if offset < limit then 2 * limit else 2 * offset;
      LandedBelow(mem, addressBits, offset, data, a);
      assert Stored(mem, 2 * offset, WordBytes(data))[a] == WordBytes(data)[a - 2 * offset] == 1;
      assert |mem| == 2 * wordSize && |data| == words;
      assert Landed(mem, addressBits, offset, data) != Stored(mem, 2 * offset, WordBytes(data));
    }
  }

  // ----- The driver -----

  /** The status, or nothing yet, has been asked for. */
  predicate Harmless(bits: seq<bool>) {
    bits == [] || (|bits| >= 8 && Opcode(bits) == RDSR_OPCODE)
  }

  /** Only the passing of time separates the two: a write cycle may have ended. */
  predicate Aged(p: Part, q: Part) {
    q == p || q == p.(busy := false)
  }

  /** The status bytes read by one wait: five thousand at most, each one but the last with the
      busy bit, and success exactly when the last is without. */
  ghost predicate Waited(before: seq<nat>, after: seq<nat>, ok: bool) {
    && before <= after && 1 <= |after| - |before| <= 5000
    && (forall k :: |before| <= k < |after| - 1 ==> after[k] % 2 == 1)
    && (ok <==> after[|after| - 1] % 2 == 0)
    && (!ok ==> |after| - |before| == 5000)
  }

  /** The last five thousand status bytes, read since `before`, all had the busy bit. */
  ghost predicate WaitedInVain(before: seq<nat>, after: seq<nat>) {
    && before <= after && |after| - |before| >= 5000
    && (forall k :: |after| - 5000 <= k < |after| ==> after[k] % 2 == 1)
  }

  class SpiPort {
    /** Parameters of the NVM: size in words, address width, page size in bytes. */
    const wordSize: nat
    const addressBits: nat
    const page: nat
    var part: Part
    /** Bits the part has taken since it was selected. */
    var bits: seq<bool>
    var sk: bool
    var cs: bool
    var di: bool
    /** Times access was granted and given back. */
    var grants: nat
    var releases: nat
    /** Times access was denied. */
    ghost var denials: nat
    /** Status bytes read. */
    ghost var statuses: seq<nat>

    predicate Valid()
      reads this
    {
      Geometry(wordSize, addressBits, page) && |part.mem| == 2 * wordSize
    }

    /** Deselected, or selected without a command begun. */
    predicate Idle()
      reads this
    {
      cs || bits == []
    }

    constructor (wordSize: nat, addressBits: nat, page: nat, mem: seq<Byte>)
      requires Geometry(wordSize, addressBits, page) && |mem| == 2 * wordSize
      ensures Valid() && Idle() && part == Part(mem, false, false) && grants == releases
      ensures denials == 0 && statuses == []
    {
      this.wordSize, this.addressBits, this.page := wordSize, addressBits, page;
      part, bits, sk, cs, di, grants, releases := Part(mem, false, false), [], false, true, false, 0, 0;
      denials, statuses := 0, [];
    }

    // ----- EECD -----

    method ReadEecd() returns (e: Eecd)
      requires Valid()
      modifies this`part
      ensures Valid() && Aged(old(part), part)
      ensures e == Eecd(sk, cs, di, !cs && StatusOut(part, bits))
    {
      var finished: bool := *;
      if finished {
        part := part.(busy := false);
      }
      e := Eecd(sk, cs, di, !cs && StatusOut(part, bits));
    }

    /** The part acts on the edges of its pins; a bit has to be set up before its clock edge. */
    method WriteEecd(e: Eecd)
      requires Valid()
      modifies this`part, this`bits, this`sk, this`cs, this`di
      ensures Valid() && sk == e.sk && cs == e.cs && di == e.di
      ensures part == if e.cs && !old(cs) then Execute(old(part), old(bits), addressBits, page) else old(part)
      ensures bits == if !e.cs && old(cs) then [] else
                      if !e.cs && e.sk && !old(sk) then old(bits) + [old(di)] else old(bits)
    {
      if e.cs && !cs {
        part := Execute(part, bits, addressBits, page);
      } else if !e.cs && cs {
        bits := [];
      } else if !e.cs && e.sk && !sk {
        bits := bits + [di];
      }
      sk, cs, di := e.sk, e.cs, e.di;
    }

    /** One bit: set up, clocked in on the rising edge. */
    method ClockOut(e: Eecd, bit: bool) returns (eecd: Eecd)
      requires Valid() && !cs && !sk && !e.cs && !e.sk
      modifies this`part, this`bits, this`sk, this`cs, this`di
      ensures Valid() && !cs && !sk && !eecd.cs && !eecd.sk && part == old(part)
      ensures bits == old(bits) + [bit]
    {
      eecd := e.(di := bit);
      WriteEecd(eecd);
      eecd := eecd.(sk := true);
      WriteEecd(eecd);
      eecd := eecd.(sk := false);
      WriteEecd(eecd);
    }

    method ShiftOut(data: nat, count: nat)
      requires Valid() && !cs && !sk && count > 0
      modifies this`part, this`bits, this`sk, this`cs, this`di
      ensures Valid() && !cs && !sk && !di && Aged(old(part), part)
      ensures bits == old(bits) + BitsOf(data, count)
    {
      hide Geometry, Execute, StatusOut, BitsOf, Pow2;
      var eecd := ReadEecd();
      var mask := Pow2(count - 1);
      ghost var i := 0;
      SendNothing(data, mask);
      assert bits == old(bits) + Sent(data, mask, 0);
      while true
        invariant 0 <= i < count && mask == Pow2(count - 1 - i)
        invariant Valid() && !cs && !sk && !eecd.cs && !eecd.sk && Aged(old(part), part)
        invariant bits == old(bits) + Sent(data, mask, i)
        decreases count - i
      {
        SendBit(data, mask, i);
        eecd := ClockOut(eecd, (data / mask) % 2 == 1);
        assert bits == old(bits) + BitsOf(data / mask, i + 1);
        HalveMask(data, count - 1 - i, i + 1);
        i := i + 1;
        mask := mask / 2;
        if mask == 0 { break; }
      }
      WriteEecd(eecd.(di := false));
    }

    method ShiftIn(count: nat) returns (data: nat)
      requires Valid() && !cs && !sk
      modifies this`part, this`bits, this`sk, this`cs, this`di
      ensures Valid() && !cs && !sk && Aged(old(part), part) && old(bits) <= bits
      ensures count == 8 && |old(bits)| == 8 && Opcode(old(bits)) == RDSR_OPCODE && data % 2 == 0 ==> !part.busy
      ensures count == 8 && |old(bits)| == 8 && Opcode(old(bits)) == RDSR_OPCODE && data % 2 == 1 ==> old(part).busy
      ensures count == 8 && |old(bits)| == 8 && Opcode(old(bits)) == RDSR_OPCODE ==>
                data == (if part.wel then 2 else 0) + data % 2
    {
      var eecd := ReadEecd();
      eecd := eecd.(di := false);
      data := 0;
      var i := 0;
      while i < count
        invariant 0 <= i <= count && Valid() && !cs && !sk && !eecd.cs && !eecd.sk && Aged(old(part), part)
        invariant old(bits) <= bits && |bits| == |old(bits)| + i
        invariant i == 8 && |old(bits)| == 8 && Opcode(old(bits)) == RDSR_OPCODE && data % 2 == 0 ==> !part.busy
        invariant i == 8 && |old(bits)| == 8 && Opcode(old(bits)) == RDSR_OPCODE && data % 2 == 1 ==> old(part).busy
        invariant |old(bits)| == 8 && Opcode(old(bits)) == RDSR_OPCODE && i <= 8 ==>
                    && (i <= 6 ==> data == 0)
                    && (i == 7 ==> data == if part.wel then 1 else 0)
                    && (i == 8 ==> data == (if part.wel then 2 else 0) + data % 2)
      {
        data := (2 * data) % 0x1_0000;
        eecd := eecd.(sk := true);
        WriteEecd(eecd);
        eecd := ReadEecd();
        if |old(bits)| == 8 { assert bits[..8] == old(bits)[..8]; }
        eecd := eecd.(di := false);
        if eecd.miso {
          data := data + 1;
        }
        eecd := eecd.(sk := false);
        WriteEecd(eecd);
        i := i + 1;
      }
    }

    /** Deselects the part, which acts on what it was sent, and selects it again. */
    method Standby()
      requires Valid() && !cs && !sk
      modifies this`part, this`bits, this`sk, this`cs, this`di
      ensures Valid() && !cs && !sk && bits == []
      ensures !old(part).busy ==> part == Execute(old(part), old(bits), addressBits, page)
      ensures Harmless(old(bits)) ==> Aged(old(part), part)
    {
      var eecd := ReadEecd();
      eecd := eecd.(cs := true);
      WriteEecd(eecd);
      eecd := eecd.(cs := false);
      WriteEecd(eecd);
    }

    method Stop()
      requires Valid() && !cs && !sk
      modifies this`part, this`bits, this`sk, this`cs, this`di
      ensures Valid() && cs && !sk
      ensures !old(part).busy ==> part == Execute(old(part), old(bits), addressBits, page)
      ensures Harmless(old(bits)) ==> Aged(old(part), part)
    {
      var eecd := ReadEecd();
      eecd := eecd.(cs := true, sk := false);
      WriteEecd(eecd);
    }

    method Acquire() returns (ret: Code)
      modifies this`grants, this`denials
      ensures grants == old(grants) + if ret == Ok then 1 else 0
      ensures denials == old(denials) + if ret == Ok then 0 else 1
    {
      var failed: bool := *;
      ret := if failed then ErrNvm else Ok;
      if ret == Ok {
        grants := grants + 1;
      } else {
        denials := denials + 1;
      }
    }

    method Release()
      requires Valid() && !cs && !sk
      modifies this`part, this`bits, this`sk, this`cs, this`di, this`releases
      ensures Valid() && cs && !sk && releases == old(releases) + 1
      ensures !old(part).busy ==> part == Execute(old(part), old(bits), addressBits, page)
      ensures Harmless(old(bits)) ==> Aged(old(part), part)
    {
      Stop();
      releases := releases + 1;
    }

    /** One status byte. */
    method ReadStatus() returns (status: nat)
      requires Valid() && !cs && !sk && bits == []
      modifies this`part, this`bits, this`sk, this`cs, this`di, this`statuses
      ensures Valid() && !cs && !sk && Aged(old(part), part) && Harmless(bits)
      ensures if status % 2 == 0 then !part.busy else old(part).busy
      ensures statuses == old(statuses) + [status]
    {
      ShiftOut(RDSR_OPCODE, 8);
      assert bits == BitsOf(RDSR_OPCODE, 8) + [];
      OpcodeSent(RDSR_OPCODE, []);
      ghost var sent := bits;
      status := ShiftIn(8);
      assert bits[..8] == sent[..8];
      statuses := statuses + [status];
    }

    /** Selects the part and polls its status until no write cycle is in progress. */
    method Ready() returns (ret: Code)
      requires Valid() && Idle()
      modifies this`part, this`bits, this`sk, this`cs, this`di, this`statuses
      ensures Valid() && !cs && !sk && Aged(old(part), part) && Harmless(bits)
      ensures ret == Ok ==> !part.busy
      ensures Waited(old(statuses), statuses, ret == Ok)
      ensures !old(part).busy ==> ret == Ok && |statuses| == |old(statuses)| + 1
    {
      hide Execute, Opcode, BitsOf, StatusOut, Geometry;
      var eecd := ReadEecd();
      var timeout := MAX_RETRY;
      WriteEecd(eecd.(cs := false, sk := false));
      while timeout > 0
        invariant Valid() && !cs && !sk && bits == [] && Aged(old(part), part) && 0 <= timeout <= MAX_RETRY
        invariant old(statuses) <= statuses && |statuses| == |old(statuses)| + MAX_RETRY - timeout
        invariant forall k :: |old(statuses)| <= k < |statuses| ==> statuses[k] % 2 == 1
        invariant timeout < MAX_RETRY ==> old(part).busy
      {
        var status := ReadStatus();
        if status % 2 == 0 { break; }
        Standby();
        timeout := timeout - 1;
      }
      ret := if timeout == 0 then ErrNvm else Ok;
    }

    // ----- Writing -----

    /** Write enable, opcode and address: the part is ready to take data. */
    method BeginWrite(offset: nat, w: nat) returns (ghost op: Byte)
      requires Valid() && !cs && !sk && !part.busy && Harmless(bits)
      modifies this`part, this`bits, this`sk, this`cs, this`di
      ensures Valid() && !cs && !sk && part == old(part).(wel := true)
      ensures op == if addressBits == 8 && offset >= 128 then WRITE_OPCODE + A8_OPCODE else WRITE_OPCODE
      ensures bits == Command(op, SentAddress(offset + w), addressBits, [])
    {
      hide BitsOf, Flatten, Opcode, IsWrite;
      Standby();
      RdsrIgnored(old(part), old(bits), addressBits, page);
      ShiftOut(WREN_OPCODE, 8);
      assert bits == BitsOf(WREN_OPCODE, 8);
      WrenTaken(part, addressBits, page);
      Standby();
      var opcode: Byte := WRITE_OPCODE;
      if addressBits == 8 && offset >= 128 {
        opcode := WRITE_OPCODE + A8_OPCODE;
      }
      op := opcode;
      ShiftOut(opcode, 8);
      ShiftOut(SentAddress(offset + w), addressBits);
      assert bits == BitsOf(op, 8) + BitsOf(SentAddress(offset + w), addressBits) + Flatten([]);
    }

    /** Words up to the end of the page or of the data. */
    method SendWords(offset: nat, data: seq<Word>, w: nat, ghost op: Byte) returns (widx: nat, ended: bool)
      requires Valid() && !cs && !sk && !part.busy && part.wel && w < |data|
      requires op == WRITE_OPCODE || (op == WRITE_OPCODE + A8_OPCODE && addressBits == 8)
      requires bits == Command(op, SentAddress(offset + w), addressBits, [])
      modifies this`part, this`bits, this`sk, this`cs, this`di
      ensures Valid() && !cs && !sk && w < widx <= |data|
      ensures (2 * (offset + w)) % page + 2 * (widx - w) <= page
      ensures widx < |data| ==> ended
      ensures ended ==> ((offset + widx) * 2) % page == 0
      ensures if ended
              then bits == []
                   && part == Execute(old(part),
                                      Command(op, SentAddress(offset + w), addressBits, WordBytes(data[w..widx])),
                                      addressBits, page)
              else bits == Command(op, SentAddress(offset + w), addressBits, WordBytes(data[w..widx]))
                   && part == old(part)
    {
      hide Command, Execute, WordBytes, Swapped, BitsOf, Address, Value;
      widx, ended := w, false;
      PageRoom(wordSize, addressBits, page, offset + w);
      assert WordBytes(data[w..w]) == [];
      while widx < |data|
        invariant w <= widx <= |data| && Valid() && !cs && !sk && part == old(part)
        invariant bits == Command(op, SentAddress(offset + w), addressBits, WordBytes(data[w..widx]))
        invariant (2 * (offset + w)) % page + 2 * (widx - w) < page
      {
        ghost var chunk := data[w..];
        assert chunk[..widx - w] == data[w..widx] && chunk[..widx - w + 1] == data[w..widx + 1];
        assert chunk[widx - w] == data[widx];
        WordSent(op, SentAddress(offset + w), addressBits, chunk, widx - w);
        ShiftOut(Swapped(data[widx]), 16);
        widx := widx + 1;
        NextWord(wordSize, addressBits, page, offset + w, widx - w);
        assert offset + w + (widx - w) == offset + widx;
        if ((offset + widx) * 2) % page == 0 {
          Standby();
          ended := true;
          break;
        }
      }
    }

    /** One page of a write, from acquiring the NVM to giving it back. */
    method WritePage(offset: nat, data: seq<Word>, w: nat, ghost mem: seq<Byte>) returns (ret: Code, widx: nat)
      requires Valid() && Idle() && w < |data| && offset + |data| <= wordSize && |mem| == 2 * wordSize
      requires part.mem == Landed(mem, addressBits, offset, data[..w])
      modifies this
      ensures Valid() && Idle() && grants - releases == old(grants - releases)
      ensures w <= widx <= |data| && (ret == Ok ==> w < widx)
      ensures part.mem == Landed(mem, addressBits, offset, data[..widx])
      ensures old(statuses) <= statuses && old(denials) <= denials <= old(denials) + 1
      ensures if ret == Ok then widx < |data| ==> ((offset + widx) * 2) % page == 0 else widx == w
      ensures ret == Ok <==> denials == old(denials) && !WaitedInVain(old(statuses), statuses)
    {
      hide Command, Execute, Landed, WordBytes;
      widx := w;
      ret := Acquire();
      if ret != Ok { return; }
      ret := Ready();
      if ret != Ok {
        Release();
        return;
      }
      ghost var op := BeginWrite(offset, w);
      ghost var p := part;
      var ended;
      widx, ended := SendWords(offset, data, w, op);
      PageDone(p, mem, wordSize, addressBits, page, offset, data, w, widx - w, op);
      assert w + (widx - w) == widx;
      Release();
    }

    /** Writes `data` from word `offset`: all of it on success, whole pages of it otherwise,
        and nothing outside the range; every grant is given back. */
    method WriteNvmSpi(offset: nat, words: nat, data: array<Word>) returns (ret: Code, ghost done: nat)
      requires Valid() && Idle() && words <= data.Length
      modifies this
      ensures Valid() && Idle() && grants - releases == old(grants - releases)
      ensures offset >= wordSize || words > wordSize - offset || words == 0 ==>
                ret == ErrNvm && part == old(part) && grants == old(grants)
      ensures old(statuses) <= statuses && old(denials) <= denials <= old(denials) + 1
      ensures ret != Ok && offset < wordSize && words <= wordSize - offset && words != 0 ==>
                denials == old(denials) + 1 || WaitedInVain(old(statuses), statuses)
      ensures ret == Ok ==> denials == old(denials)
      ensures done <= words && (ret == Ok ==> done == words)
      ensures ret != Ok && done > 0 ==> ((offset + done) * 2) % page == 0
      ensures part.mem == Landed(old(part.mem), addressBits, offset, data[..done])
      ensures offset + words <= wordSize && InReach(addressBits, offset, words) ==>
                part.mem == Stored(old(part.mem), 2 * offset, WordBytes(data[..done]))
    {
      ret, done := ErrNvm, 0;
      var widx := 0;
      if offset >= wordSize || words > wordSize - offset || words == 0 {
        if offset <= wordSize { StoreNothing(part.mem, 2 * offset, data[..0]); }
        return;
      }
      StoreNothing(part.mem, 2 * offset, data[..0]);
      while widx < words
        invariant Valid() && Idle() && grants - releases == old(grants - releases)
        invariant 0 <= widx <= words && done == widx && (widx > 0 ==> ret == Ok)
        invariant old(statuses) <= statuses && denials == old(denials)
        invariant 0 < widx < words ==> ((offset + widx) * 2) % page == 0
        invariant part.mem == Landed(old(part.mem), addressBits, offset, data[..words][..widx])
        invariant InReach(addressBits, offset, words) ==>
                    part.mem == Stored(old(part.mem), 2 * offset, WordBytes(data[..done]))
      {
        ret, widx := WritePage(offset, data[..words], widx, old(part.mem));
        done := widx;
        assert data[..words][..widx] == data[..widx];
        if InReach(addressBits, offset, words) {
          LandedStored(old(part.mem), wordSize, addressBits, offset, data[..widx]);
        }
        if ret != Ok { return; }
      }
      assert data[..words][..words] == data[..words];
    }
  }

  lemma PageRoom(wordSize: nat, addressBits: nat, page: nat, w: nat)
    requires Geometry(wordSize, addressBits, page)
    ensures (2 * w) % page + 2 <= page
  {
    if page == 8 { assert (2 * w) % 8 <= 6; } else { assert (2 * w) % 32 <= 30; }
  }

  lemma NextWord(wordSize: nat, addressBits: nat, page: nat, w: nat, n: nat)
    requires Geometry(wordSize, addressBits, page) && n > 0
    requires (2 * w) % page + 2 * (n - 1) < page
    ensures (2 * w) % page + 2 * n <= page
    ensures ((w + n) * 2) % page == 0 <==> (2 * w) % page + 2 * n == page
  {
    var r := (2 * w) % page;
    PageRoom(wordSize, addressBits, page, w);
    EvenPlace(w, page);
    StepInPage(2 * w, page, 2 * n);
    assert (w + n) * 2 == 2 * w + 2 * n;
  }

  lemma EvenPlace(w: nat, page: nat)
    requires page == 8 || page == 32
    ensures (2 * w) % page % 2 == 0
  {
  }

  lemma RdsrIgnored(p: Part, bits: seq<bool>, addressBits: nat, page: nat)
    requires page > 0 && Harmless(bits)
    ensures Execute(p, bits, addressBits, page) == p
  {
  }

  lemma WrenTaken(p: Part, addressBits: nat, page: nat)
    requires page > 0 && !p.busy
    ensures Execute(p, BitsOf(WREN_OPCODE, 8), addressBits, page) == p.(wel := true)
  {
    OpcodeSent(WREN_OPCODE, []);
    assert BitsOf(WREN_OPCODE, 8) + [] == BitsOf(WREN_OPCODE, 8);
  }

  /** Executing the page's command puts its words where they land. */
  lemma PageDone(p: Part, mem: seq<Byte>, wordSize: nat, addressBits: nat, page: nat, offset: nat,
                 data: seq<Word>, w: nat, n: nat, op: Byte)
    requires Geometry(wordSize, addressBits, page) && |mem| == 2 * wordSize
    requires offset + |data| <= wordSize && w + n <= |data| && n > 0
    requires (2 * (offset + w)) % page + 2 * n <= page
    requires !p.busy && p.wel && p.mem == Landed(mem, addressBits, offset, data[..w])
    requires op == if addressBits == 8 && offset >= 128 then WRITE_OPCODE + A8_OPCODE else WRITE_OPCODE
    ensures Execute(p, Command(op, SentAddress(offset + w), addressBits, WordBytes(data[w..w + n])), addressBits, page)
         == Part(Landed(mem, addressBits, offset, data[..w + n]), false, true)
  {
    hide Execute, Command, Landed, PageWrite, Stored;
    var bytes := WordBytes(data[w..w + n]);
    var a := Address(addressBits, offset, offset + w);
    SentAddressBits(addressBits, offset + w);
    assert bytes != [];
    CommandUnderstood(p, op, SentAddress(offset + w), addressBits, page, bytes);
    LandedPage(mem, wordSize, addressBits, page, offset, data, w, n);
    PageAddresses(wordSize, addressBits, page, offset, offset + w, 0);
    PageWriteStored(p.mem, page, a, bytes);
  }

  /** The bits of the number above the mask: what has gone out. */
  function Sent(data: nat, mask: nat, i: nat): seq<bool>
    requires mask > 0
  {
    BitsOf(data / mask / 2, i)
  }

  lemma SendNothing(data: nat, mask: nat)
    requires mask > 0
    ensures Sent(data, mask, 0) == []
  {
  }

  /** The bit under the mask is the next one of the number. */
  lemma SendBit(data: nat, mask: nat, i: nat)
    requires mask > 0
    ensures Sent(data, mask, i) + [(data / mask) % 2 == 1] == BitsOf(data / mask, i + 1)
  {
  }

  /** Shifting the mask right keeps the account, and runs it out after the last bit. */
  lemma HalveMask(data: nat, k: nat, i: nat)
    ensures k == 0 ==> Pow2(k) / 2 == 0 && BitsOf(data / Pow2(k), i) == BitsOf(data, i)
    ensures k > 0 ==> Pow2(k) / 2 == Pow2(k - 1) && BitsOf(data / Pow2(k), i) == Sent(data, Pow2(k - 1), i)
  {
    if k > 0 {
      DivTwice(data, Pow2(k - 1));
    }
  }

  lemma DivTwice(d: nat, m: nat)
    requires m > 0
    ensures (d / m) / 2 == d / (2 * m)
  {
    var q, r := d / m, d % m;
    var h, b := q / 2, q % 2;
    assert d == m * q + r;
    Expand(m, h, b);
    DivUnique(d, 2 * m, h, m * b + r);
  }

  lemma Expand(m: int, h: int, b: int)
    ensures m * (2 * h + b) == (2 * m) * h + m * b
  {
  }
}
