/**
 Reading and writing an EEPROM on the I2C bus in transfers that stay inside a page
 (eeprom_read and eeprom_write in cmd_eeprom.c).
 */
module Eeprom {
  import opened Common
  import opened DivMod

  const I2C_RXTX_LEN: nat := 128
  const BLOCK: nat := 256

  /** A byte of a device: the address on the bus that selects device and block, and the word
      address. */
  datatype Cell = Cell(chip: nat, word: nat)

  type Memory = Cell -> bv8

  /** An address octet. */
  function Octet(n: nat): nat {
    n % 256
  }

  /** The bitwise or of two numbers. */
  function Or(a: nat, b: nat): nat
    decreases a + b
  {
    if a == 0 && b == 0 then 0 else 2 * Or(a / 2, b / 2) + if a % 2 == 1 || b % 2 == 1 then 1 else 0
  }

  /** No bit is set in both numbers. */
  predicate Disjoint(a: nat, b: nat)
    decreases a + b
  {
    a == 0 || b == 0 || (!(a % 2 == 1 && b % 2 == 1) && Disjoint(a / 2, b / 2))
  }

  /** How the devices are addressed: their base address, the words behind one selector (one or two
      address octets), and the configured page size. */
  datatype Config = Config(dev: nat, words: nat, pageBits: nat) {
    predicate Valid() {
      dev < 256 && (words == 0x100 || words == 0x1_0000) && pageBits <= 8
    }

    function Page(): (p: nat)
      ensures p > 0
    {
      Pow2(pageBits)
    }

    /** The cell that an offset selects; the upper bits are merged into the device address. */
    function CellOf(offset: nat): Cell
      requires Valid()
    {
      Cell(Or(Octet(offset / words), dev), offset % words)
    }

    /** The selector of the offset fits and does not interfere with the device address. */
    predicate Selectable(offset: nat)
      requires Valid()
    {
      offset / words < 256 && Disjoint(Octet(offset / words), dev)
    }

    /** The length of the next transfer, for a limit given by the page or block size. */
    function Length(offset: nat, end: nat, page: nat): (n: nat)
      requires offset < end && page > 0
      ensures 0 < n <= end - offset && n <= I2C_RXTX_LEN
    {
      var maxlen := page - offset % BLOCK % page;
      var m := if maxlen > I2C_RXTX_LEN then I2C_RXTX_LEN else maxlen;
      if end - offset > m then m else end - offset
    }
  }

  lemma {:induction false} OrIsSum(a: nat, d: nat)
    requires Disjoint(a, d)
    ensures Or(a, d) == a + d
    decreases a + d
  {
    if a > 0 || d > 0 {
      assert Disjoint(a / 2, d / 2);
      OrIsSum(a / 2, d / 2);
    }
  }

  lemma {:induction false} SelectorIsInjective(a: nat, b: nat, d: nat)
    requires a < 256 && b < 256 && Disjoint(Octet(a), d) && Disjoint(Octet(b), d) && Or(Octet(a), d) == Or(Octet(b), d)
    ensures a == b
  {
    hide Or, Disjoint;
    OrIsSum(Octet(a), d);
    OrIsSum(Octet(b), d);
  }

  /** The upper bits of an offset are added to the device address, the others are the word address. */
  lemma {:induction false} CellIs(c: Config, offset: nat)
    requires c.Valid() && c.Selectable(offset)
    ensures c.CellOf(offset) == Cell(c.dev + offset / c.words, offset % c.words)
  {
    hide Or, Disjoint;
    OrIsSum(Octet(offset / c.words), c.dev);
  }

  /** The cell that address octets select on the bus. */
  function Selected(addr: seq<nat>): Cell
    requires |addr| == 2 || |addr| == 3
  {
    if |addr| == 2 then Cell(addr[0], addr[1]) else Cell(addr[0], 256 * addr[1] + addr[2])
  }

  /** Block number and block offset select the cell of the offset. */
  lemma {:induction false} OctetsSelect(c: Config, offset: nat)
    requires c.Valid()
    ensures c.words == 0x100 ==> c.CellOf(offset) == Cell(Or(Octet(offset / 0x100), c.dev), Octet(offset))
    ensures c.words == 0x1_0000 ==>
      c.CellOf(offset) == Cell(Or(Octet(offset / 0x1_0000), c.dev), 256 * Octet(offset / 0x100) + Octet(offset))
  {
    hide Or;
    assert offset % 0x1_0000 == 256 * (offset / 0x100 % 256) + offset % 256;
  }

  /** Different offsets select different cells. */
  lemma {:induction false} CellsAreDistinct(c: Config, o: nat, p: nat)
    requires c.Valid() && c.Selectable(o) && c.Selectable(p) && c.CellOf(o) == c.CellOf(p)
    ensures o == p
  {
    hide Octet, Or, Disjoint;
    SelectorIsInjective(o / c.words, p / c.words, c.dev);
    Divided(o, c.words);
    Divided(p, c.words);
  }

  lemma {:induction false} PageDivides(k: nat)
    requires k <= 8
    ensures Pow2(k) * Pow2(8 - k) == BLOCK
    decreases 8 - k
  {
    if k < 8 {
      PageDivides(k + 1);
      var p, q := Pow2(k), Pow2(8 - (k + 1));
      assert Pow2(k + 1) == 2 * p && Pow2(8 - k) == 2 * q;
      assert 2 * p * q == p * (2 * q);
    } else {
      assert Pow2(8) == 256 by { assert Pow2(4) == 16; }
    }
  }

  /** The transfer stays inside a unit of this size. */
  predicate Inside(offset: nat, n: nat, unit: nat)
    requires unit > 0
  {
    offset % unit + n <= unit
  }

  /** No transfer crosses a page or a block of 256 bytes. */
  lemma {:induction false} LengthStaysInside(c: Config, offset: nat, end: nat)
    requires c.Valid() && offset < end
    ensures Inside(offset, c.Length(offset, end, c.Page()), c.Page())
    ensures Inside(offset, c.Length(offset, end, c.Page()), BLOCK)
    ensures Inside(offset, c.Length(offset, end, BLOCK), BLOCK)
  {
    var p, q := c.Page(), Pow2(8 - c.pageBits);
    PageDivides(c.pageBits);
    ModOfMultiple(offset, p, q);
    UnitEnd(offset % BLOCK, p, q);
    assert offset % BLOCK % BLOCK == offset % BLOCK;
  }

  /** A transfer is as long as it can be: one byte more would be more than 128, leave the page, or leave
      the range. */
  lemma {:induction false} LengthIsLargest(c: Config, offset: nat, end: nat)
    requires c.Valid() && offset < end
    ensures var n := c.Length(offset, end, c.Page());
      n <= 128 && (n == 128 || !Inside(offset, n + 1, c.Page()) || offset + n == end)
  {
    var p, q := c.Page(), Pow2(8 - c.pageBits);
    PageDivides(c.pageBits);
    ModOfMultiple(offset, p, q);
  }

  lemma {:induction false} LargePage(k: nat)
    requires k >= 9
    ensures Pow2(k) >= 512 && Pow2(k) % 512 == 0
    decreases k
  {
    assert Pow2(k) == 2 * Pow2(k - 1);
    if k > 9 {
      LargePage(k - 1);
    } else {
      assert Pow2(5) == 32;
    }
  }

  ghost predicate NeverCrosses(c: Config) {
    forall offset: nat, end: nat :: offset < end ==> Inside(offset, c.Length(offset, end, c.Page()), c.Page())
  }

  /** No transfer crosses a page of the configured size exactly when that is at most a block. */
  lemma {:induction false} NeverCrossesExactly(c: Config)
    ensures NeverCrosses(c) <==> c.pageBits <= 8
  {
    if c.pageBits <= 8 {
      var c' := c.(dev := 0, words := 0x100);
      forall offset: nat, end: nat | offset < end
        ensures Inside(offset, c.Length(offset, end, c.Page()), c.Page())
      {
        LengthStaysInside(c', offset, end);
        assert c'.Length(offset, end, c.Page()) == c.Length(offset, end, c.Page());
      }
    } else {
      LargePageCrossed(c);
    }
  }

  lemma BeforeMultiple(p: nat)
    requires p >= 512 && p % 512 == 0
    ensures (p - 1) % BLOCK == 255
  {
    Divided(p, 512);
    DivModOf(2 * (p / 512) - 1, 256, 255);
  }

  lemma {:induction false} LastOfPage(c: Config, p: nat)
    requires p >= 512 && p % 512 == 0
    ensures c.Length(p - 1, p + 1, p) == 2 && !Inside(p - 1, 2, p)
  {
    assert (p - 1) % BLOCK == 255 by { BeforeMultiple(p); }
    assert 255 % p == 255 by { DivModOf(0, p, 255); }
    assert (p - 1) % p == p - 1 by { DivModOf(0, p, p - 1); }
  }

  lemma {:induction false} LargePageCrossed(c: Config)
    requires c.pageBits >= 9
    ensures !NeverCrosses(c)
  {
    var p := c.Page();
    assert p >= 512 && p % 512 == 0 by { LargePage(c.pageBits); }
    hide Config.Page;
    var offset: nat, end: nat := p - 1, p + 1;
    LastOfPage(c, p);
    assert !Inside(offset, c.Length(offset, end, c.Page()), c.Page());
  }

  // ---- the device ----

  /** The cell that takes byte i of a transfer: the address counter wraps inside a unit. */
  function Wrapped(at: Cell, i: nat, unit: nat): Cell
    requires unit > 0
  {
    at.(word := at.word - at.word % unit + (at.word + i) % unit)
  }

  function Programmed(m: Memory, at: Cell, data: seq<bv8>, unit: nat): Memory
    requires unit > 0
  {
    if data == [] then m
    else
      var n := |data| - 1;
      var front := Programmed(m, at, data[..n], unit);
      var last, x := Wrapped(at, n, unit), data[n];
      (c: Cell) => if c == last then x else front(c)
  }

  lemma {:induction false} NoWrap(at: Cell, i: nat, unit: nat)
    requires unit > 0 && at.word % unit + i < unit
    ensures Wrapped(at, i, unit) == at.(word := at.word + i)
  {
    ModAdd(at.word, i, unit);
  }

  /** A transfer inside a unit stores its bytes one after the other. */
  lemma {:induction false} ProgrammedInside(m: Memory, at: Cell, data: seq<bv8>, unit: nat, c: Cell)
    requires unit > 0 && Inside(at.word, |data|, unit)
    ensures Programmed(m, at, data, unit)(c) ==
      if c.chip == at.chip && at.word <= c.word < at.word + |data| then data[c.word - at.word] else m(c)
    decreases |data|
  {
    if data != [] {
      var n := |data| - 1;
      ProgrammedInside(m, at, data[..n], unit, c);
      NoWrap(at, n, unit);
    }
  }

  /** The cells of a transfer inside a block are those of the offsets. */
  lemma {:induction false} CellsOfBlock(c: Config, offset: nat, i: nat)
    requires c.Valid() && offset % BLOCK + i < BLOCK
    ensures c.CellOf(offset + i) == c.CellOf(offset).(word := offset % c.words + i)
  {
    hide Octet;
    assert offset % c.words + i < c.words by {
      if c.words == 0x100 { } else { assert offset % 0x1_0000 % 256 == offset % 256; }
    }
    ModAdd(offset, i, c.words);
  }

  lemma {:induction false} InsideWord(c: Config, offset: nat, n: nat, unit: nat, q: nat)
    requires c.Valid() && unit > 0 && q > 0 && c.words == unit * q
    ensures Inside(offset % c.words, n, unit) <==> Inside(offset, n, unit)
  {
    ModOfMultiple(offset, unit, q);
  }

  lemma {:induction false} PageDividesWords(c: Config) returns (q: nat)
    requires c.Valid()
    ensures q > 0 && c.words == c.Page() * q
  {
    PageDivides(c.pageBits);
    q := Pow2(8 - c.pageBits);
    if c.words != 0x100 {
      assert c.Page() * q * 256 == c.Page() * (q * 256);
      q := q * 256;
    }
  }

  lemma WordOf(c: Config, offset: nat)
    requires c.Valid()
    ensures c.CellOf(offset).word == offset % c.words
  {
  }

  /** What a transfer does to the memory as seen through offsets: all its bytes arrive at theirs. */
  lemma {:induction false} TransferIsFlat(c: Config, m: Memory, offset: nat, data: seq<bv8>, o: nat)
    requires c.Valid() && Inside(offset, |data|, c.Page()) && Inside(offset, |data|, BLOCK)
    requires c.Selectable(o) && forall i :: offset <= i < offset + |data| ==> c.Selectable(i)
    ensures Programmed(m, c.CellOf(offset), data, c.Page())(c.CellOf(o)) ==
      if offset <= o < offset + |data| then data[o - offset] else m(c.CellOf(o))
  {
    hide Config.CellOf, Config.Page, Config.Selectable, Programmed;
    var at, x := c.CellOf(offset), c.CellOf(o);
    WordOf(c, offset);
    var q := PageDividesWords(c);
    InsideWord(c, offset, |data|, c.Page(), q);
    ProgrammedInside(m, at, data, c.Page(), x);
    if offset <= o < offset + |data| {
      CellsOfBlock(c, offset, o - offset);
    } else if x.chip == at.chip && at.word <= x.word < at.word + |data| {
      var i := x.word - at.word;
      CellsOfBlock(c, offset, i);
      CellsAreDistinct(c, o, offset + i);
    }
  }

  /** The bytes at the offsets from `offset` on. */
  ghost function Contents(c: Config, m: Memory, offset: nat, cnt: nat): (s: seq<bv8>)
    requires c.Valid()
    ensures |s| == cnt && forall i :: 0 <= i < cnt ==> s[i] == m(c.CellOf(offset + i))
  {
    seq(cnt, i requires 0 <= i => m(c.CellOf(offset + i)))
  }

  /** Memory `after` is `before` with the data at the given offset, seen through all offsets. */
  ghost predicate FlatWrite(c: Config, before: Memory, after: Memory, offset: nat, data: seq<bv8>)
    requires c.Valid()
  {
    forall o: nat :: c.Selectable(o) ==>
      after(c.CellOf(o)) == if offset <= o < offset + |data| then data[o - offset] else before(c.CellOf(o))
  }

  /** What was written can be read back. */
  lemma {:induction false} ReadBack(c: Config, before: Memory, after: Memory, offset: nat, data: seq<bv8>)
    requires c.Valid() && FlatWrite(c, before, after, offset, data)
    requires forall o :: offset <= o < offset + |data| ==> c.Selectable(o)
    ensures Contents(c, after, offset, |data|) == data
  {
    var s := Contents(c, after, offset, |data|);
    forall i | 0 <= i < |data| ensures s[i] == data[i] {
      assert c.Selectable(offset + i);
    }
  }

  // ---- the driver ----

  /** A transfer that was made: where, how many bytes, and whether the device acknowledged it. */
  datatype Transfer = Transfer(offset: nat, count: nat, acked: bool)

  predicate AllAcked(log: seq<Transfer>) {
    forall i :: 0 <= i < |log| ==> log[i].acked
  }

  predicate StaysInside(log: seq<Transfer>, unit: nat)
    requires unit > 0
  {
    forall i :: 0 <= i < |log| ==> Inside(log[i].offset, log[i].count, unit)
  }

  /** The first offset behind the range; a range that does not end below 2^32 wraps and is taken for
      empty. */
  function End(offset: nat, cnt: nat): nat
    requires offset < U32 && cnt < U32
  {
    (offset + cnt) % U32
  }

  ghost predicate Addressable(c: Config, offset: nat, end: nat)
    requires c.Valid()
  {
    forall o :: offset <= o < end ==> c.Selectable(o)
  }

  lemma LogStep(log: seq<Transfer>, t: Transfer)
    ensures AllAcked(log + [t]) <==> AllAcked(log) && t.acked
    ensures forall unit :: unit > 0 && StaysInside(log, unit) && Inside(t.offset, t.count, unit) ==> StaysInside(log + [t], unit)
  {
    var l := log + [t];
    assert l[|log|] == t;
    assert forall i :: 0 <= i < |log| ==> l[i] == log[i];
  }

  lemma EmptyLog(c: Config)
    ensures AllAcked([]) && StaysInside([], c.Page()) && StaysInside([], BLOCK)
  {
  }

  class Bus {
    const c: Config
    /** Which transfers the device acknowledges, and how much of the others it takes. */
    const acks: nat -> bool
    const taken: nat -> nat
    var memory: Memory
    var log: seq<Transfer>

    /** The address octets of an offset, the device address inserted into the first one. */
    method Address(offset: nat) returns (addr: seq<nat>)
      requires c.Valid()
      ensures (|addr| == 2 || |addr| == 3) && Selected(addr) == c.CellOf(offset)
    {
      OctetsSelect(c, offset);
      hide Or, Config.CellOf;
      var blkOff := Octet(offset);
      if c.words == 0x100 {
        addr := [Octet(offset / 0x100), blkOff];
      } else {
        addr := [Octet(offset / 0x1_0000), Octet(offset / 0x100), blkOff];
      }
      addr := addr[0 := Or(addr[0], c.dev)];
    }

    /** Writes bytes to the device; one that does not acknowledge may have taken some of them. */
    method I2cWrite(addr: seq<nat>, offset: nat, data: seq<bv8>) returns (ok: bool)
      requires c.Valid() && (|addr| == 2 || |addr| == 3) && Selected(addr) == c.CellOf(offset)
      modifies this
      ensures log == old(log) + [Transfer(offset, |data|, ok)]
      ensures ok ==> memory == Programmed(old(memory), c.CellOf(offset), data, c.Page())
      ensures exists k :: 0 <= k <= |data| && memory == Programmed(old(memory), c.CellOf(offset), data[..k], c.Page())
    {
      ok := acks(|log|);
      var k := if ok || taken(|log|) > |data| then |data| else taken(|log|);
      assert data[..|data|] == data;
      memory := Programmed(memory, Selected(addr), data[..k], c.Page());
      log := log + [Transfer(offset, |data|, ok)];
    }

    /** Reads bytes of one block; without an acknowledgement they may be anything. */
    method I2cRead(buffer: array<bv8>, at: nat, addr: seq<nat>, offset: nat, n: nat) returns (ok: bool)
      requires c.Valid() && at + n <= buffer.Length && (|addr| == 2 || |addr| == 3) && Selected(addr) == c.CellOf(offset)
      modifies this`log, buffer
      ensures log == old(log) + [Transfer(offset, n, ok)]
      ensures ok ==> forall i :: at <= i < at + n ==> buffer[i] == memory(Wrapped(c.CellOf(offset), i - at, BLOCK))
      ensures forall i :: 0 <= i < buffer.Length && !(at <= i < at + n) ==> buffer[i] == old(buffer[i])
    {
      ok := acks(|log|);
      var i := 0;
      while i < n && (ok || i < taken(|log|))
        invariant 0 <= i <= n
        invariant log == old(log)
        invariant forall j :: at <= j < at + i ==> buffer[j] == memory(Wrapped(c.CellOf(offset), j - at, BLOCK))
        invariant forall j :: 0 <= j < buffer.Length && !(at <= j < at + n) ==> buffer[j] == old(buffer[j])
      {
        buffer[at + i] := memory(Wrapped(Selected(addr), i, BLOCK));
        i := i + 1;
      }
      log := log + [Transfer(offset, n, ok)];
    }

    /** Writes the bytes of the buffer to the offsets from `offset0` on. */
    method EepromWrite(offset0: nat, buffer: array<bv8>, cnt: nat) returns (rcode: nat)
      requires c.Valid() && offset0 < U32 && cnt < U32 && cnt <= buffer.Length && log == []
      requires Addressable(c, offset0, End(offset0, cnt))
      modifies this
      ensures rcode == 0 <==> AllAcked(log)
      ensures rcode == 0 && offset0 + cnt < U32 ==> FlatWrite(c, old(memory), memory, offset0, buffer[..cnt])
      ensures offset0 + cnt >= U32 ==> log == [] && memory == old(memory)
      ensures Untouched(c, old(memory), memory, offset0, offset0 + cnt)
      ensures StaysInside(log, c.Page()) && StaysInside(log, BLOCK)
    {
      hide Config.CellOf, Config.Selectable, Config.Length, Config.Page, Programmed, FlatWrite, StaysInside, AllAcked, Untouched;
      ghost var m0, data := memory, buffer[..cnt];
      assert StaysInside(log, c.Page()) && StaysInside(log, BLOCK) && AllAcked(log) by { EmptyLog(c); }
      NothingWritten(c, memory, offset0);
      assert data[..0] == [];
      var end, offset, p := End(offset0, cnt), offset0, 0;
      rcode := 0;
      while offset < end
        invariant offset0 <= offset && p == offset - offset0 && offset - offset0 <= cnt
        invariant offset0 < end ==> offset <= end == offset0 + cnt
        invariant end <= offset0 ==> log == [] && memory == m0
        invariant rcode == 0 <==> AllAcked(log)
        invariant StaysInside(log, c.Page()) && StaysInside(log, BLOCK)
        invariant rcode == 0 ==> FlatWrite(c, m0, memory, offset0, data[..p])
        invariant Untouched(c, m0, memory, offset0, offset)
      {
        LengthStaysInside(c, offset, end);
        var len := c.Length(offset, end, c.Page());
        ghost var before, log0 := memory, log;
        var ok := WritePiece(offset, buffer[p..p + len]);
        if !ok {
          rcode := 1;
        }
        LogStep(log0, Transfer(offset, len, ok));
        UntouchedConcat(c, m0, before, memory, offset0, offset, offset + len);
        assert buffer[p..p + len] == data[p..p + len] && data[..p + len] == data[..p] + data[p..p + len];
        if rcode == 0 {
          FlatConcat(c, m0, before, memory, offset0, data[..p], data[p..p + len]);
        }
        p := p + len;
        offset := offset + len;
      }
      assert data[..cnt] == data;
      UntouchedConcat(c, m0, memory, memory, offset0, offset, offset0 + cnt);
    }

    /** One transfer, as seen through the offsets. */
    method WritePiece(offset: nat, data: seq<bv8>) returns (ok: bool)
      requires c.Valid() && Addressable(c, offset, offset + |data|)
      requires Inside(offset, |data|, c.Page()) && Inside(offset, |data|, BLOCK)
      modifies this
      ensures log == old(log) + [Transfer(offset, |data|, ok)]
      ensures ok ==> FlatWrite(c, old(memory), memory, offset, data)
      ensures Untouched(c, old(memory), memory, offset, offset + |data|)
    {
      hide Config.CellOf, Config.Selectable, Config.Page, Programmed;
      ghost var before := memory;
      var addr := Address(offset);
      ok := I2cWrite(addr, offset, data);
      ghost var k :| 0 <= k <= |data| && memory == Programmed(before, c.CellOf(offset), data[..k], c.Page());
      forall o: nat | c.Selectable(o)
        ensures !(offset <= o < offset + |data|) ==> memory(c.CellOf(o)) == before(c.CellOf(o))
        ensures ok ==> memory(c.CellOf(o)) == if offset <= o < offset + |data| then data[o - offset] else before(c.CellOf(o))
      {
        TransferIsFlat(c, before, offset, data[..k], o);
        TransferIsFlat(c, before, offset, data, o);
      }
    }

    /** Reads the bytes at the offsets from `offset0` on into the buffer. */
    method EepromRead(offset0: nat, buffer: array<bv8>, cnt: nat) returns (rcode: nat)
      requires c.Valid() && offset0 < U32 && cnt < U32 && cnt <= buffer.Length && log == []
      modifies this`log, buffer
      ensures rcode == 0 <==> AllAcked(log)
      ensures rcode == 0 && offset0 + cnt < U32 ==> buffer[..cnt] == Contents(c, memory, offset0, cnt)
      ensures offset0 + cnt >= U32 ==> log == [] && buffer[..] == old(buffer[..])
      ensures forall i :: cnt <= i < buffer.Length ==> buffer[i] == old(buffer[i])
      ensures StaysInside(log, BLOCK)
    {
      hide Config.CellOf, Config.Length, AllAcked, StaysInside;
      assert StaysInside(log, BLOCK) && AllAcked(log) by { EmptyLog(c); }
      var end, offset, p := End(offset0, cnt), offset0, 0;
      rcode := 0;
      while offset < end
        invariant offset0 <= offset && p == offset - offset0 && offset - offset0 <= cnt
        invariant offset0 < end ==> offset <= end == offset0 + cnt
        invariant end <= offset0 ==> log == [] && buffer[..] == old(buffer[..])
        invariant rcode == 0 <==> AllAcked(log)
        invariant StaysInside(log, BLOCK)
        invariant rcode == 0 ==> forall i :: 0 <= i < p ==> buffer[i] == memory(c.CellOf(offset0 + i))
        invariant forall i :: p <= i < buffer.Length ==> buffer[i] == old(buffer[i])
      {
        LengthStaysInside(c, offset, end);
        var len := c.Length(offset, end, BLOCK);
        BlockCells(c, offset, len);
        LogStep(log, Transfer(offset, len, true));
        LogStep(log, Transfer(offset, len, false));
        var addr := Address(offset);
        var ok := I2cRead(buffer, p, addr, offset, len);
        if !ok {
          rcode := 1;
        }
        assert ok ==> forall i :: p <= i < p + len ==> buffer[i] == memory(c.CellOf(offset + (i - p)));
        p := p + len;
        offset := offset + len;
      }
    }
  }

  /** Two flat writes one behind the other are one. */
  lemma {:induction false} FlatConcat(c: Config, m0: Memory, m1: Memory, m2: Memory, offset: nat, a: seq<bv8>, b: seq<bv8>)
    requires c.Valid() && FlatWrite(c, m0, m1, offset, a) && FlatWrite(c, m1, m2, offset + |a|, b)
    ensures FlatWrite(c, m0, m2, offset, a + b)
  {
    hide Config.CellOf, Config.Selectable;
  }

  /** Nothing changed at the offsets outside a range. */
  ghost predicate Untouched(c: Config, before: Memory, after: Memory, offset: nat, end: nat)
    requires c.Valid()
  {
    forall o: nat :: c.Selectable(o) && !(offset <= o < end) ==> after(c.CellOf(o)) == before(c.CellOf(o))
  }

  lemma UntouchedConcat(c: Config, m0: Memory, m1: Memory, m2: Memory, offset: nat, mid: nat, end: nat)
    requires c.Valid() && Untouched(c, m0, m1, offset, mid) && (m1 == m2 || Untouched(c, m1, m2, mid, end))
    requires offset <= mid <= end
    ensures Untouched(c, m0, m2, offset, end)
  {
    hide Config.CellOf, Config.Selectable;
  }

  lemma NothingWritten(c: Config, m: Memory, offset: nat)
    requires c.Valid()
    ensures FlatWrite(c, m, m, offset, []) && Untouched(c, m, m, offset, offset)
  {
  }

  lemma {:induction false} BlockCells(c: Config, offset: nat, n: nat)
    requires c.Valid() && Inside(offset, n, BLOCK)
    ensures forall i :: 0 <= i < n ==> Wrapped(c.CellOf(offset), i, BLOCK) == c.CellOf(offset + i)
  {
    forall i | 0 <= i < n ensures Wrapped(c.CellOf(offset), i, BLOCK) == c.CellOf(offset + i) {
      CellsOfBlock(c, offset, i);
      WordOf(c, offset);
      ModOfMultiple(offset, BLOCK, c.words / BLOCK);
      NoWrap(c.CellOf(offset), i, BLOCK);
    }
  }
}
