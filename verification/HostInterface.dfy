/** The manageability host interface: a command block in the device's RAM, header first, that
    checks itself. */
module HostInterface {
  import opened Seqs

  type Byte = x: int | 0 <= x < 0x100

  datatype Code = Ok | ErrParam | ErrHostInterface

  const HEADER_BYTES: nat := 8
  const MAX_DATA_LENGTH: nat := 0x6F8
  const TX_PAYLOAD_CMD: Byte := 64
  const COMMAND_TIMEOUT: nat := 10

  /** The command header as it lies in memory. */
  datatype Header = Header(commandId: Byte, checksum: Byte, reserved1: nat, reserved2: nat, commandLength: nat)

  function HeaderBytes(h: Header): (b: seq<Byte>)
    ensures |b| == HEADER_BYTES
  {
    [h.commandId, h.checksum, h.reserved1 % 0x100, h.reserved1 / 0x100 % 0x100,
     h.reserved2 % 0x100, h.reserved2 / 0x100 % 0x100, h.commandLength % 0x100, h.commandLength / 0x100 % 0x100]
  }

  // ----- Sums -----

  /** An 8-bit sum. */
  function Low8(x: nat): Byte { x % 0x100 }

  lemma Negated(sum: Byte, total: nat)
    requires sum == Low8(total)
    ensures ((0x100 - sum as int) % 0x100 + total) % 0x100 == 0
  {
  }

  function Total(b: seq<Byte>): nat { if b == [] then 0 else Total(b[..|b| - 1]) + b[|b| - 1] }

  lemma {:induction false} TotalAppend(a: seq<Byte>, b: seq<Byte>)
    ensures Total(a + b) == Total(a) + Total(b)
  {
    if b == [] {
      assert a + b == a;
    } else {
      TotalAppend(a, b[..|b| - 1]);
      assert (a + b)[..|a + b| - 1] == a + b[..|b| - 1];
    }
  }

  function Zeros(n: nat): (z: seq<Byte>)
    ensures |z| == n
  {
    seq(n, _ => 0)
  }

  /** Eight terms of a header. */
  lemma HeaderTotal(h: Header)
    ensures Total(HeaderBytes(h)) == h.checksum + Total(HeaderBytes(h.(checksum := 0)))
  {
    var b, z := HeaderBytes(h), HeaderBytes(h.(checksum := 0));
    assert b == [h.commandId] + [h.checksum] + b[2..];
    assert z == [h.commandId] + [0] + b[2..];
    TotalAppend([h.commandId] + [h.checksum], b[2..]);
    TotalAppend([h.commandId] + [0], b[2..]);
    TotalAppend([h.commandId], [h.checksum]);
    TotalAppend([h.commandId], [0]);
  }

  // ----- What a write leaves -----

  /** Bytes from `offset` to the end of the dword that holds the last of `length` bytes. */
  function Padding(offset: nat, length: nat): nat { (4 - (offset + length) % 4) % 4 }

  /** `buffer` in place of what was at `offset`, then zeros up to a dword boundary. */
  function Placed(ram: seq<Byte>, offset: nat, buffer: seq<Byte>): (r: seq<Byte>)
    requires offset + |buffer| + Padding(offset, |buffer|) <= |ram|
    ensures |r| == |ram|
  {
    var end := offset + |buffer| + Padding(offset, |buffer|);
    ram[..offset] + buffer + Zeros(Padding(offset, |buffer|)) + ram[end..]
  }

  /** A partial write: the first `n` bytes are in place. */
  function Partial(ram: seq<Byte>, offset: nat, buffer: seq<Byte>, n: nat): (r: seq<Byte>)
    requires n <= |buffer| && offset + n <= |ram|
    ensures |r| == |ram|
  {
    ram[..offset] + buffer[..n] + ram[offset + n..]
  }

  /** A dword of which `n` bytes from `prev` on have been replaced by the buffer's first. */
  function Mixed4(d: seq<Byte>, prev: nat, buffer: seq<Byte>, n: nat): (r: seq<Byte>)
    requires |d| == 4 && n <= |buffer| && prev + n <= 4
    ensures |r| == 4
  {
    d[..prev] + buffer[..n] + d[prev + n..]
  }

  lemma MixedStep(d: seq<Byte>, prev: nat, buffer: seq<Byte>, n: nat)
    requires |d| == 4 && n < |buffer| && prev + n < 4
    ensures Mixed4(d, prev, buffer, n)[prev + n := buffer[n]] == Mixed4(d, prev, buffer, n + 1)
  {
  }

  lemma MixedAll(d: seq<Byte>, prev: nat, buffer: seq<Byte>)
    requires |d| == 4 && prev < 4 && |buffer| >= 4 - prev
    ensures Mixed4(d, prev, buffer, 4 - prev) == d[..prev] + buffer[..4 - prev]
  {
  }

  /** One more byte in a running sum. */
  lemma SumMore(sum: nat, buffer: seq<Byte>, from: nat, to: nat)
    requires from <= to < |buffer|
    ensures Low8(Low8(sum + Total(buffer[from..to])) as int + buffer[to] as int)
         == Low8(sum + Total(buffer[from..to + 1]))
  {
    var s := buffer[from..to + 1];
    assert s[..|s| - 1] == buffer[from..to];
  }

  // ----- The bytes of a dword, one by one -----

  /** What the buffer has given after `j` bytes of a dword that takes `count` from it. */
  function Shown(buffer: seq<Byte>, at: nat, count: nat, j: nat): seq<Byte>
    requires at + count <= |buffer|
  {
    buffer[at..at + if j <= count then j else count]
  }

  function Padded(buffer: seq<Byte>, at: nat, count: nat, j: nat): seq<Byte>
    requires at + count <= |buffer|
  {
    Shown(buffer, at, count, j) + Zeros(if j <= count then 0 else j - count)
  }

  lemma TakeNothing(buffer: seq<Byte>, at: nat, count: nat, sum: Byte)
    requires at + count <= |buffer|
    ensures Padded(buffer, at, count, 0) == [] && Low8(sum as int + Total(Shown(buffer, at, count, 0))) == sum
  {
    assert Shown(buffer, at, count, 0) == [];
  }

  lemma TakeStep(buffer: seq<Byte>, at: nat, count: nat, j: nat, sum: Byte)
    requires count <= 4 && j < 4 && at + count <= |buffer|
    ensures var b: Byte := if j < count then buffer[at + j] else 0;
            && Padded(buffer, at, count, j + 1) == Padded(buffer, at, count, j) + [b]
            && Low8(Low8(sum as int + Total(Shown(buffer, at, count, j))) as int + b as int)
               == Low8(sum as int + Total(Shown(buffer, at, count, j + 1)))
  {
    if j < count {
      hide Total, Low8;
      SumMore(sum, buffer, at, at + j);
    } else {
      hide Total;
    }
  }

  lemma TakeAll(buffer: seq<Byte>, at: nat, count: nat)
    requires count <= 4 && at + count <= |buffer|
    ensures Shown(buffer, at, count, 4) == buffer[at..at + count]
    ensures Padded(buffer, at, count, 4) == buffer[at..at + count] + Zeros(4 - count)
  {
  }

  /** A finished command block for `buffer` at the start of `now`, which elsewhere is `was`. */
  predicate Block(was: seq<Byte>, now: seq<Byte>, buffer: seq<Byte>) {
    var end := HEADER_BYTES + |buffer|;
    var pad := Padding(0, |buffer|);
    && end + pad <= |was| == |now|
    && Total(now[..end]) % 0x100 == 0
    && now[0] == TX_PAYLOAD_CMD && now[2..6] == Zeros(4)
    && (now[6] as int) + 0x100 * (now[7] as int) == |buffer|
    && now[HEADER_BYTES..end] == buffer
    && now[end..end + pad] == Zeros(pad)
    && now[end + pad..] == was[end + pad..]
  }

  /** The polls of a wait for the previous command, with what each one found: at most ten, each
      one but the last with the command pending, and success exactly when the last is without. */
  ghost predicate Polled(found: seq<bool>, ok: bool) {
    && 1 <= |found| <= 10
    && (forall k :: 0 <= k < |found| - 1 ==> found[k])
    && (ok <==> !found[|found| - 1])
    && (!ok ==> |found| == 10)
  }

  class HostIf {
    /** The RAM area, dword by dword in the registers, byte by byte here. */
    const ram: array<Byte>
    const arcValid: bool
    var enabled: bool
    /** A command is pending. */
    var pending: bool
    /** What the polls of the pending bit have found. */
    ghost var polls: seq<bool>

    ghost predicate Valid() { ram.Length == MAX_DATA_LENGTH + HEADER_BYTES }

    constructor (arcValid: bool, enabled: bool)
      ensures Valid() && fresh(ram) && this.arcValid == arcValid && this.enabled == enabled && !pending
      ensures polls == []
    {
      this.arcValid, this.enabled, this.pending, this.polls := arcValid, enabled, false, [];
      ram := new Byte[MAX_DATA_LENGTH + HEADER_BYTES](_ => 0);
    }

    method CalculateChecksum(buffer: seq<Byte>) returns (c: Byte)
      ensures (c + Total(buffer)) % 0x100 == 0
    {
      var sum: Byte := 0;
      assert buffer[..0] == [];
      assert Total([]) == 0;
      hide Total, Low8;
      for i := 0 to |buffer|
        invariant sum == Low8(0 + Total(buffer[..i]))
      {
        SumMore(0, buffer, 0, i);
        sum := Low8(sum as int + buffer[i] as int);
      }
      assert buffer[..|buffer|] == buffer;
      c := (0x100 - sum) % 0x100;
      Negated(sum, Total(buffer));
    }

    /** A poll of the pending bit, which the firmware clears when it takes the command. */
    method Poll() returns (found: bool)
      modifies `pending, `polls
      ensures found == pending && polls == old(polls) + [found]
      ensures pending ==> old(pending)
    {
      var taken: bool := *;
      if taken { pending := false; }
      found := pending;
      polls := polls + [found];
    }

    /** Waits for the firmware to take the previous command. */
    method EnableHostIf() returns (ret: Code)
      modifies `pending, `polls
      ensures ret == Ok || ret == ErrHostInterface
      ensures ret == Ok ==> arcValid && enabled && !pending
      ensures old(polls) <= polls && (pending ==> old(pending))
      ensures arcValid && enabled ==> Polled(polls[|old(polls)|..], ret == Ok)
      ensures arcValid && enabled && !old(pending) ==> ret == Ok
    {
      if !arcValid || !enabled {
        return ErrHostInterface;
      }
      var i := 0;
      while i < COMMAND_TIMEOUT
        invariant i <= COMMAND_TIMEOUT && (pending ==> old(pending)) && (i > 0 ==> pending)
        invariant old(polls) <= polls && |polls| == |old(polls)| + i
        invariant forall k :: |old(polls)| <= k < |polls| ==> polls[k]
      {
        var found := Poll();
        if !found { break; }
        i := i + 1;
      }
      ret := if i == COMMAND_TIMEOUT then ErrHostInterface else Ok;
    }

    method ReadDword(index: nat) returns (d: seq<Byte>)
      requires Valid() && 4 * index + 4 <= ram.Length
      ensures d == ram[4 * index..4 * index + 4] && |d| == 4
    {
      d := ram[4 * index..4 * index + 4];
    }

    method WriteDword(index: nat, d: seq<Byte>)
      requires Valid() && |d| == 4 && 4 * index + 4 <= ram.Length
      modifies ram
      ensures ram[..] == Stored(old(ram[..]), 4 * index, d)
    {
      for j := 0 to 4
        invariant forall k :: 0 <= k < ram.Length ==>
                    ram[k] == if 4 * index <= k < 4 * index + j then d[k - 4 * index] else old(ram[k])
      {
        ram[4 * index + j] := d[j];
      }
    }

    /** One dword of the buffer, its bytes added to the sum. */
    method TakeDword(buffer: seq<Byte>, at: nat, count: nat, sum: Byte) returns (d: seq<Byte>, sum': Byte)
      requires count <= 4 && at + count <= |buffer|
      ensures d == buffer[at..at + count] + Zeros(4 - count)
      ensures sum' == Low8(sum + Total(buffer[at..at + count]))
    {
      d, sum' := [], sum;
      TakeNothing(buffer, at, count, sum);
      hide Total, Low8, Shown, Padded;
      for j := 0 to 4
        invariant d == Padded(buffer, at, count, j)
        invariant sum' == Low8(sum as int + Total(Shown(buffer, at, count, j)))
      {
        var b: Byte := 0;
        if j < count {
          b := buffer[at + j];
        }
        TakeStep(buffer, at, count, j, sum);
        d := d + [b];
        sum' := Low8(sum' as int + b as int);
      }
      TakeAll(buffer, at, count);
    }

    /** The first bytes of the buffer, from byte `prev` of a dword on. */
    method FillFirst(old4: seq<Byte>, prev: nat, buffer: seq<Byte>, sum: Byte) returns (data: seq<Byte>, sum': Byte)
      requires |old4| == 4 && prev < 4 && |buffer| >= 4 - prev
      ensures data == old4[..prev] + buffer[..4 - prev]
      ensures sum' == Low8(sum + Total(buffer[..4 - prev]))
    {
      data, sum' := old4, sum;
      assert data == Mixed4(old4, prev, buffer, 0);
      assert buffer[..0] == [];
      assert Total([]) == 0;
      hide Total, Mixed4;
      for j := prev to 4
        invariant data == Mixed4(old4, prev, buffer, j - prev)
        invariant sum' == Low8(sum + Total(buffer[..j - prev]))
      {
        var taken := j - prev;
        SumMore(sum, buffer, 0, taken);
        MixedStep(old4, prev, buffer, taken);
        data := data[j := buffer[taken]];
        sum' := Low8(sum' as int + data[j] as int);
      }
      MixedAll(old4, prev, buffer);
    }

    /** The unaligned start: what precedes the offset in its dword is kept. */
    method WriteFirst(buffer: seq<Byte>, offset: nat, sum: Byte) returns (taken: nat, sum': Byte)
      requires Valid() && offset % 4 != 0 && |buffer| >= 4 - offset % 4 && offset + |buffer| <= MAX_DATA_LENGTH
      modifies ram
      ensures taken == 4 - offset % 4
      ensures ram[..] == Partial(old(ram[..]), offset, buffer, taken)
      ensures sum' == Low8(sum + Total(buffer[..taken]))
    {
      hide Total, Partial, Low8, Stored;
      var prev := offset % 4;
      taken := 4 - prev;
      var data := ReadDword(offset / 4);
      assert data[..prev] == ram[offset - prev..offset];
      data, sum' := FillFirst(data, prev, buffer, sum);
      FirstDword(ram[..], offset, prev, buffer, data);
      WriteDword(offset / 4, data);
    }

    /** The general writer.  The caller's data must fill the first dword when it starts
        inside one. */
    method MngHostIfWrite(buffer: seq<Byte>, offset: nat, sum: Byte) returns (ret: Code, sum': Byte)
      requires Valid()
      requires offset % 4 == 0 || |buffer| >= 4 - offset % 4 || offset + |buffer| > MAX_DATA_LENGTH || |buffer| == 0
      modifies ram
      ensures ret == if |buffer| == 0 || offset + |buffer| > MAX_DATA_LENGTH then ErrParam else Ok
      ensures ret != Ok ==> ram[..] == old(ram[..]) && sum' == sum
      ensures ret == Ok ==> offset + |buffer| + Padding(offset, |buffer|) <= ram.Length
      ensures ret == Ok ==> ram[..] == Placed(old(ram[..]), offset, buffer)
      ensures ret == Ok ==> sum' == Low8(sum + Total(buffer))
    {
      sum' := sum;
      if |buffer| == 0 || offset + |buffer| > MAX_DATA_LENGTH {
        return ErrParam, sum;
      }
      ghost var was := ram[..];
      var taken := 0;
      PartialNone(was, offset, buffer);
      if offset % 4 != 0 {
        taken, sum' := WriteFirst(buffer, offset, sum);
      }
      assert buffer[..0] == [];
      sum' := WriteRest(buffer, offset, was, taken, sum, sum');
      ret := Ok;
    }

    /** Whole dwords from an aligned place on, and a last one padded with zeros. */
    method WriteRest(buffer: seq<Byte>, offset: nat, ghost was: seq<Byte>, taken: nat, ghost first: Byte, sum: Byte)
      returns (sum': Byte)
      requires Valid() && |was| == ram.Length && (offset + taken) % 4 == 0 && taken <= |buffer|
      requires offset + |buffer| <= MAX_DATA_LENGTH && ram[..] == Partial(was, offset, buffer, taken)
      requires sum == Low8(first + Total(buffer[..taken]))
      modifies ram
      ensures offset + |buffer| + Padding(offset, |buffer|) <= ram.Length
      ensures ram[..] == Placed(was, offset, buffer)
      ensures sum' == Low8(first + Total(buffer))
    {
      hide Partial, Placed, Total, Padding;
      sum' := sum;
      var index, length := (offset + taken) / 4, |buffer| - taken;
      var remaining := length % 4;
      length := (length - remaining) / 4;
      for i := 0 to length
        invariant ram[..] == Partial(was, offset, buffer, taken + 4 * i)
        invariant sum' == Low8(first + Total(buffer[..taken + 4 * i]))
      {
        sum' := WriteWhole(buffer, offset, was, taken + 4 * i, index + i, first, sum');
      }
      var done := taken + 4 * length;
      if remaining > 0 {
        sum' := WriteLast(buffer, offset, was, done, index + length, first, sum');
      } else {
        assert buffer[..done] == buffer;
        PartialAll(was, offset, buffer);
      }
    }

    /** The last dword, padded with zeros. */
    method WriteLast(buffer: seq<Byte>, offset: nat, ghost was: seq<Byte>, n: nat, index: nat,
                     ghost first: Byte, sum: Byte)
      returns (sum': Byte)
      requires Valid() && |was| == ram.Length && 4 * index == offset + n && n < |buffer| < n + 4
      requires offset + |buffer| <= MAX_DATA_LENGTH && ram[..] == Partial(was, offset, buffer, n)
      requires sum == Low8(first + Total(buffer[..n]))
      modifies ram
      ensures offset + |buffer| + Padding(offset, |buffer|) <= ram.Length
      ensures ram[..] == Placed(was, offset, buffer)
      ensures sum' == Low8(first + Total(buffer))
    {
      hide Partial, Placed, Total, Padding, Zeros;
      var d;
      d, sum' := TakeDword(buffer, n, |buffer| - n, sum);
      TailIs(buffer, n);
      LastDword(was, offset, buffer, n);
      WriteDword(index, d);
    }

    /** One whole dword of the middle part. */
    method WriteWhole(buffer: seq<Byte>, offset: nat, ghost was: seq<Byte>, n: nat, index: nat,
                      ghost first: Byte, sum: Byte)
      returns (sum': Byte)
      requires Valid() && |was| == ram.Length && 4 * index == offset + n && n + 4 <= |buffer|
      requires offset + |buffer| <= MAX_DATA_LENGTH && ram[..] == Partial(was, offset, buffer, n)
      requires sum == Low8(first + Total(buffer[..n]))
      modifies ram
      ensures ram[..] == Partial(was, offset, buffer, n + 4)
      ensures sum' == Low8(first + Total(buffer[..n + 4]))
    {
      hide Partial, Total;
      hide Low8;
      var d;
      d, sum' := TakeDword(buffer, n, 4, sum);
      assert d == buffer[n..n + 4];
      WholeSum(buffer, n, first);
      NextDword(was, offset, buffer, n);
      WriteDword(index, d);
    }

    /** The header goes to the start of the RAM with a checksum over itself and over what
        its checksum field held before. */
    method MngWriteCmdHeader(hdr: Header) returns (chk: Byte)
      requires Valid()
      modifies ram
      ensures (chk + Total(HeaderBytes(hdr))) % 0x100 == 0
      ensures ram[..] == HeaderBytes(hdr.(checksum := chk)) + old(ram[HEADER_BYTES..])
    {
      chk := CalculateChecksum(HeaderBytes(hdr));
      var b := HeaderBytes(hdr.(checksum := chk));
      HeaderPlaced(ram[..], b);
      WriteDword(0, b[0..4]);
      WriteDword(1, b[4..8]);
    }

    /** Sends a payload: on success the block in the RAM is header, payload and zero padding,
        its bytes sum to zero, nothing else has changed, and the firmware has been told. */
    method MngWriteDhcpInfo(buffer: seq<Byte>) returns (ret: Code)
      requires Valid() && |buffer| < 0x1_0000
      modifies `pending, `polls, ram
      ensures ret != Ok ==> ram[..] == old(ram[..])
      ensures ret == ErrParam ==> |buffer| == 0 || HEADER_BYTES + |buffer| > MAX_DATA_LENGTH
      ensures ret == Ok ==> 0 < |buffer| && HEADER_BYTES + |buffer| <= MAX_DATA_LENGTH
      ensures old(polls) <= polls
      ensures arcValid && enabled ==> Polled(polls[|old(polls)|..], ret != ErrHostInterface)
      ensures arcValid && enabled && !old(pending) && 0 < |buffer| && HEADER_BYTES + |buffer| <= MAX_DATA_LENGTH ==>
                ret == Ok
      ensures ret == Ok ==> |buffer| > 0 && pending && Block(old(ram[..]), ram[..], buffer)
    {
      hide Placed, HeaderBytes, Block;
      var hdr := Header(TX_PAYLOAD_CMD, 0, 0, 0, |buffer|);
      ret := EnableHostIf();
      if ret != Ok { return; }
      var sum;
      ret, sum := MngHostIfWrite(buffer, HEADER_BYTES, hdr.checksum);
      if ret != Ok { return; }
      hdr := hdr.(checksum := sum);
      var chk := MngWriteCmdHeader(hdr);
      pending := true;
      BlockDone(old(ram[..]), hdr, chk, buffer);
    }
  }

  lemma BlockDone(was: seq<Byte>, hdr: Header, chk: Byte, buffer: seq<Byte>)
    requires |was| == MAX_DATA_LENGTH + HEADER_BYTES && HEADER_BYTES + |buffer| <= MAX_DATA_LENGTH
    requires hdr == Header(TX_PAYLOAD_CMD, Total(buffer) % 0x100, 0, 0, |buffer|)
    requires (chk + Total(HeaderBytes(hdr))) % 0x100 == 0
    ensures HEADER_BYTES + |buffer| + Padding(HEADER_BYTES, |buffer|) <= |was|
    ensures Block(was, HeaderBytes(hdr.(checksum := chk)) + Placed(was, HEADER_BYTES, buffer)[HEADER_BYTES..], buffer)
  {
    hide HeaderBytes, Placed, Block, Total;
    var pad := Padding(0, |buffer|);
    assert Padding(HEADER_BYTES, |buffer|) == pad;
    BlockSums(hdr, chk, buffer);
    PlacedTail(was, buffer);
    HeaderFields(hdr.(checksum := chk));
    BlockLayout(was, HeaderBytes(hdr.(checksum := chk)), buffer, Zeros(pad), was[HEADER_BYTES + |buffer| + pad..]);
  }

  lemma PlacedTail(was: seq<Byte>, buffer: seq<Byte>)
    requires HEADER_BYTES + |buffer| + Padding(HEADER_BYTES, |buffer|) <= |was|
    ensures var pad := Padding(HEADER_BYTES, |buffer|);
            Placed(was, HEADER_BYTES, buffer)[HEADER_BYTES..]
            == buffer + Zeros(pad) + was[HEADER_BYTES + |buffer| + pad..]
  {
  }

  lemma HeaderFields(h: Header)
    requires h.reserved1 == h.reserved2 == 0 && h.commandLength < 0x1_0000
    ensures var b := HeaderBytes(h);
            b[0] == h.commandId && b[2..6] == Zeros(4) && (b[6] as int) + 0x100 * (b[7] as int) == h.commandLength
  {
  }

  lemma BlockLayout(was: seq<Byte>, h: seq<Byte>, buffer: seq<Byte>, z: seq<Byte>, tail: seq<Byte>)
    requires |h| == HEADER_BYTES && Total(h + buffer) % 0x100 == 0
    requires h[0] == TX_PAYLOAD_CMD && h[2..6] == Zeros(4) && (h[6] as int) + 0x100 * (h[7] as int) == |buffer|
    requires z == Zeros(Padding(0, |buffer|)) && HEADER_BYTES + |buffer| + |z| <= |was|
    requires tail == was[HEADER_BYTES + |buffer| + |z|..]
    ensures Block(was, h + (buffer + z + tail), buffer)
  {
    hide Total, Zeros, Padding;
    var now, end := h + (buffer + z + tail), HEADER_BYTES + |buffer|;
    assert now[..end] == h + buffer;
    assert now[2..6] == h[2..6];
    assert now[HEADER_BYTES..end] == buffer;
    assert now[end..end + |z|] == z;
    assert now[end + |z|..] == tail;
  }

  /** The checksum over header and payload sum makes the whole block sum to zero. */
  lemma BlockSums(hdr: Header, chk: Byte, buffer: seq<Byte>)
    requires hdr.checksum == Total(buffer) % 0x100 && (chk + Total(HeaderBytes(hdr))) % 0x100 == 0
    ensures Total(HeaderBytes(hdr.(checksum := chk)) + buffer) % 0x100 == 0
  {
    HeaderTotal(hdr);
    HeaderTotal(hdr.(checksum := chk));
    assert hdr.(checksum := chk).(checksum := 0) == hdr.(checksum := 0);
    TotalAppend(HeaderBytes(hdr.(checksum := chk)), buffer);
  }

  lemma HeaderPlaced(ram: seq<Byte>, b: seq<Byte>)
    requires |b| == HEADER_BYTES <= |ram|
    ensures Stored(Stored(ram, 0, b[0..4]), 4, b[4..8]) == b + ram[HEADER_BYTES..]
  {
  }

  lemma WholeSum(buffer: seq<Byte>, n: nat, first: Byte)
    requires n + 4 <= |buffer|
    ensures Low8(Low8(first as int + Total(buffer[..n])) as int + Total(buffer[n..n + 4]))
         == Low8(first as int + Total(buffer[..n + 4]))
  {
    hide Total;
    assert buffer[..n + 4] == buffer[..n] + buffer[n..n + 4];
    TotalAppend(buffer[..n], buffer[n..n + 4]);
  }

  lemma TailIs(buffer: seq<Byte>, n: nat)
    requires n <= |buffer|
    ensures buffer[n..n + (|buffer| - n)] == buffer[n..]
    ensures Total(buffer) == Total(buffer[..n]) + Total(buffer[n..])
  {
    hide Total;
    var end := n + (|buffer| - n);
    assert end == |buffer|;
    assert buffer[n..end] == buffer[n..];
    SumSplit(buffer, n);
  }

  lemma SumSplit(buffer: seq<Byte>, n: nat)
    requires n <= |buffer|
    ensures Total(buffer) == Total(buffer[..n]) + Total(buffer[n..])
  {
    hide Total;
    TotalAppend(buffer[..n], buffer[n..]);
    assert buffer[..n] + buffer[n..] == buffer;
  }

  lemma PartialNone(ram: seq<Byte>, offset: nat, buffer: seq<Byte>)
    requires offset <= |ram|
    ensures Partial(ram, offset, buffer, 0) == ram
  {
  }

  lemma FirstDword(ram: seq<Byte>, offset: nat, prev: nat, buffer: seq<Byte>, data: seq<Byte>)
    requires 0 < prev < 4 && prev <= offset && offset + 4 - prev <= |ram| && 4 - prev <= |buffer|
    requires data == ram[offset - prev..offset] + buffer[..4 - prev]
    ensures Stored(ram, offset - prev, data) == Partial(ram, offset, buffer, 4 - prev)
  {
  }

  lemma NextDword(ram: seq<Byte>, offset: nat, buffer: seq<Byte>, n: nat)
    requires n + 4 <= |buffer| && offset + n + 4 <= |ram|
    ensures Stored(Partial(ram, offset, buffer, n), offset + n, buffer[n..n + 4]) == Partial(ram, offset, buffer, n + 4)
  {
  }

  lemma LastDword(ram: seq<Byte>, offset: nat, buffer: seq<Byte>, n: nat)
    requires (offset + n) % 4 == 0 && n < |buffer| < n + 4 && offset + n + 4 <= |ram|
    ensures Padding(offset, |buffer|) == n + 4 - |buffer|
    ensures Stored(Partial(ram, offset, buffer, n), offset + n, buffer[n..] + Zeros(n + 4 - |buffer|))
         == Placed(ram, offset, buffer)
  {
    assert (offset + |buffer|) % 4 == |buffer| - n;
  }

  lemma PartialAll(ram: seq<Byte>, offset: nat, buffer: seq<Byte>)
    requires (offset + |buffer|) % 4 == 0 && offset + |buffer| <= |ram|
    ensures Padding(offset, |buffer|) == 0 && Partial(ram, offset, buffer, |buffer|) == Placed(ram, offset, buffer)
  {
  }
}
