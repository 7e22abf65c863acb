/**
 Motorola S-records: what they look like, how one is decoded (s_record.c), the text of a memory dump
 and what loading a text does to the memory (cmd_load.c).
 */
module SRecord {
  import opened Common
  import opened MtdText

  type Memory = nat -> byte

  // ---- hexadecimal ----

  function HexDigit(d: nat): (c: char)
    requires d < 16
    ensures IsXDigit(c) && DigitValue(c) == d
  {
    if d < 10 then '0' + d as char else 'A' + (d - 10) as char
  }

  function Hex(b: byte): (s: string)
    ensures |s| == 2
  {
    [HexDigit(b / 16), HexDigit(b % 16)]
  }

  function HexAll(bs: seq<byte>): (s: string)
    ensures |s| == 2 * |bs|
  {
    if bs == [] then "" else HexAll(bs[..|bs| - 1]) + Hex(bs[|bs| - 1])
  }

  /** The number the first two characters stand for. */
  function HexBin(s: string): (r: Option<byte>) {
    if |s| >= 2 && IsXDigit(s[0]) && IsXDigit(s[1]) then Some(DigitValue(s[0]) * 16 + DigitValue(s[1])) else None
  }

  /** The n numbers that the text begins with, and the text behind them. */
  function ReadBytes(s: string, n: nat): (r: Option<(seq<byte>, string)>)
    ensures r.Some? ==> |r.value.0| == n
  {
    if n == 0 then Some(([], s))
    else
      var b := HexBin(s);
      if b.None? then None
      else
        var rest := ReadBytes(s[2..], n - 1);
        if rest.None? then None else Some(([b.value] + rest.value.0, rest.value.1))
  }

  lemma {:induction false} HexRead(b: byte, rest: string)
    ensures HexBin(Hex(b) + rest) == Some(b)
  {
  }

  lemma {:induction false} HexAllFront(bs: seq<byte>)
    requires bs != []
    ensures HexAll(bs) == Hex(bs[0]) + HexAll(bs[1..])
    decreases |bs|
  {
    if |bs| == 1 {
      assert HexAll(bs[..0]) == "" && HexAll(bs[1..]) == "";
    } else {
      var front := bs[..|bs| - 1];
      HexAllFront(front);
      assert front[1..] == bs[1..][..|bs| - 2];
    }
  }

  /** Reading numbers that were written gives the numbers back. */
  lemma {:induction false} BytesRead(bs: seq<byte>, rest: string)
    ensures ReadBytes(HexAll(bs) + rest, |bs|) == Some((bs, rest))
    decreases |bs|
  {
    if bs == [] {
      assert HexAll(bs) + rest == rest;
    } else {
      var s := HexAll(bs) + rest;
      HexAllFront(bs);
      assert s == Hex(bs[0]) + (HexAll(bs[1..]) + rest);
      HexRead(bs[0], HexAll(bs[1..]) + rest);
      BytesRead(bs[1..], rest);
      assert s[2..] == HexAll(bs[1..]) + rest;
      assert HexBin(s) == Some(bs[0]) && [bs[0]] + bs[1..] == bs;
    }
  }

  // ---- numbers as octets ----

  function Sum(bs: seq<byte>): nat {
    if bs == [] then 0 else Sum(bs[..|bs| - 1]) + bs[|bs| - 1]
  }

  /** The n low octets of a number, the highest first. */
  function Octets(v: nat, n: nat): (bs: seq<byte>)
    ensures |bs| == n
  {
    if n == 0 then [] else Octets(v / 256, n - 1) + [v % 256]
  }

  function Value(bs: seq<byte>): nat {
    if bs == [] then 0 else Value(bs[..|bs| - 1]) * 256 + bs[|bs| - 1]
  }

  function Pow256(n: nat): nat {
    if n == 0 then 1 else 256 * Pow256(n - 1)
  }

  lemma {:induction false} ValueOfOctets(v: nat, n: nat)
    requires v < Pow256(n)
    ensures Value(Octets(v, n)) == v
    decreases n
  {
    if n > 0 {
      ValueOfOctets(v / 256, n - 1);
      var bs := Octets(v, n);
      assert bs[..n - 1] == Octets(v / 256, n - 1);
    }
  }

  // ---- records ----

  const START: string := "S0030000FC"
  const END: string := "S70500000000FA"
  const BYTES_PER_RECORD: nat := 16

  function AddressOctets(kind: char): nat {
    if kind == '3' || kind == '7' then 4
    else if kind == '2' || kind == '8' then 3
    else if kind == '0' || kind == '1' || kind == '5' || kind == '9' then 2
    else 0
  }

  /** The sum of all octets between type and checksum. */
  function OctetSum(kind: char, address: nat, data: seq<byte>): nat {
    AddressOctets(kind) + |data| + 1 + Sum(Octets(address, AddressOctets(kind))) + Sum(data)
  }

  /** A record; the checksum is the complement of the low octet of the sum. */
  function RecordText(kind: char, address: nat, data: seq<byte>): string
    requires |data| <= 250
  {
    ['S', kind] + Hex(AddressOctets(kind) + |data| + 1) + HexAll(Octets(address, AddressOctets(kind))) + HexAll(data)
    + Hex(255 - OctetSum(kind, address, data) % 256)
  }

  /** What decoding a line yields: a count below zero means that the length octet was too small for
      address and checksum. */
  datatype Decoded = Nothing | Bad | Record(kind: char, address: nat, count: int, data: seq<byte>)

  function BehindS(s: string): (t: string)
    ensures |t| <= |s|
  {
    if s == "" then "" else if s[0] == 'S' then s[1..] else BehindS(s[1..])
  }

  function Decode(line: string): Decoded {
    var t := BehindS(line);
    if t == "" then Nothing
    else
      var length := HexBin(t[1..]);
      var n := AddressOctets(t[0]);
      if length.None? || n == 0 then Bad
      else
        var address := ReadBytes(t[3..], n);
        if address.None? then Bad
        else
          var count := if t[0] == '5' then 0 else length.value - n - 1;
          var data := ReadBytes(address.value.1, if count < 0 then 0 else count);
          if data.None? then Bad
          else
            var sum := length.value + Sum(address.value.0) + Sum(data.value.0);
            if HexBin(data.value.1) != Some(255 - sum % 256) then Bad
            else Record(t[0], Value(address.value.0), count, data.value.0)
  }

  /** A record that was written is decoded to its address and data. */
  lemma {:induction false} RecordDecoded(kind: char, address: nat, data: seq<byte>)
    requires AddressOctets(kind) > 0 && kind != '5' && address < Pow256(AddressOctets(kind)) && |data| <= 250
    ensures Decode(RecordText(kind, address, data)) == Record(kind, address, |data|, data)
  {
    hide HexAll, Sum, Octets, ReadBytes, Value, HexBin, Hex, OctetSum, Pow256;
    var n := AddressOctets(kind);
    var line, check := RecordText(kind, address, data), 255 - OctetSum(kind, address, data) % 256;
    var body := HexAll(Octets(address, n)) + (HexAll(data) + Hex(check));
    var t := [kind] + Hex(n + |data| + 1) + body;
    assert line[1..] == t && line[0] == 'S';
    assert BehindS(line) == t;
    assert t[1..] == Hex(n + |data| + 1) + body;
    HexRead(n + |data| + 1, body);
    assert t[3..] == body;
    BytesRead(Octets(address, n), HexAll(data) + Hex(check));
    BytesRead(data, Hex(check));
    assert Hex(check) == Hex(check) + "";
    HexRead(check, "");
    ValueOfOctets(address, n);
    assert check == 255 - (n + |data| + 1 + Sum(Octets(address, n)) + Sum(data)) % 256 by { SumIs(kind, address, data); }
  }

  lemma SumIs(kind: char, address: nat, data: seq<byte>)
    ensures OctetSum(kind, address, data) ==
      AddressOctets(kind) + |data| + 1 + Sum(Octets(address, AddressOctets(kind))) + Sum(data)
  {
  }

  lemma {:induction false} HexAllConcat(a: seq<byte>, b: seq<byte>)
    ensures HexAll(a + b) == HexAll(a) + HexAll(b) && Sum(a + b) == Sum(a) + Sum(b)
    decreases |b|
  {
    if b == [] {
      assert a + b == a && HexAll(a) + "" == HexAll(a);
    } else {
      var front, last := b[..|b| - 1], b[|b| - 1];
      assert (a + b)[..|a + b| - 1] == a + front;
      HexAllConcat(a, front);
      assert HexAll(a) + (HexAll(front) + Hex(last)) == HexAll(a) + HexAll(front) + Hex(last);
    }
  }

  lemma HexAllOne(b: byte)
    ensures HexAll([b]) == Hex(b) && Sum([b]) == b
  {
    assert [b][..0] == [];
    assert "" + Hex(b) == Hex(b);
  }

  /** The octets of a record text behind its type, which are as many as its first one says and one
      more, sum up to 0xFF. */
  lemma {:induction false} RecordSum(kind: char, address: nat, data: seq<byte>)
    requires AddressOctets(kind) > 0 && |data| <= 250
    ensures var octets := ReadBytes(RecordText(kind, address, data)[2..], AddressOctets(kind) + |data| + 2);
      octets.Some? && octets.value.1 == "" && octets.value.0[0] == |octets.value.0| - 1 && Sum(octets.value.0) % 256 == 255
  {
    hide Hex, HexAll, ReadBytes, Sum, Octets;
    var n := AddressOctets(kind);
    var length: byte, a, check: byte := n + |data| + 1, Octets(address, n), 255 - OctetSum(kind, address, data) % 256;
    var all := [length] + a + data + [check];
    HexAllOne(length);
    HexAllOne(check);
    HexAllConcat([length], a);
    HexAllConcat([length] + a, data);
    HexAllConcat([length] + a + data, [check]);
    var t := HexAll([length]) + HexAll(a) + HexAll(data) + HexAll([check]);
    assert RecordText(kind, address, data) == ['S', kind] + t;
    BytesRead(all, "");
    assert t + "" == t;
    SumIs(kind, address, data);
  }

  // ---- dumping ----

  /** The n bytes from an address on, over the top of the address space. */
  function Bytes(m: Memory, address: nat, n: nat): (bs: seq<byte>)
    ensures |bs| == n && forall i :: 0 <= i < n ==> bs[i] == m((address + i) % U32)
  {
    if n == 0 then [] else Bytes(m, address, n - 1) + [m((address + n - 1) % U32)]
  }

  function RecordLength(n: nat): (k: nat)
    ensures k <= n && (n > 0 ==> k > 0) && k <= BYTES_PER_RECORD
  {
    if n < BYTES_PER_RECORD then n else BYTES_PER_RECORD
  }

  /** The records of a dump: up to 16 bytes each, the addresses one behind the other. */
  function DataText(m: Memory, address: nat, n: nat): string
    decreases n
  {
    if n == 0 then ""
    else
      var k := RecordLength(n);
      RecordText('3', address, Bytes(m, address, k)) + "\n" + DataText(m, (address + k) % U32, n - k)
  }

  function DumpText(m: Memory, address: nat, n: nat): string {
    START + "\n" + DataText(m, address, n) + END + "\n"
  }

  // ---- loading ----

  const MAX_LINE: nat := 516

  datatype LineRead = Line(text: string, rest: string) | Interrupted | Waiting

  /** The next line of the input, cut off where the buffer ends; a NUL or ^C interrupts. */
  function ReadRecord(s: string, room: nat): (r: LineRead)
    ensures r.Line? ==> |r.rest| <= |s| && (room > 0 ==> |r.rest| < |s|)
    decreases room
  {
    if room == 0 then Line("", s)
    else if s == "" then Waiting
    else if s[0] == '\r' || s[0] == '\n' then Line("", s[1..])
    else if s[0] == '\0' || s[0] == 3 as char then Interrupted
    else
      match ReadRecord(s[1..], room - 1)
      case Line(text, rest) => Line([s[0]] + text, rest)
      case other => other
  }

  /** How far an address lies behind another one. */
  function Distance(at: nat, a: nat): nat
    requires at < U32
  {
    (a + U32 - at) % U32
  }

  /** The memory after data was copied to an address, over the top of the address space. */
  function Store(m: Memory, at: nat, data: seq<byte>): Memory
    requires at < U32
  {
    (a: nat) => if a < U32 && Distance(at, a) < |data| then data[Distance(at, a)] else m(a)
  }

  /** The memory, and the lowest and highest address that was stored to. */
  datatype Progress = Progress(memory: Memory, first: nat, last: nat)

  /** How loading ends: with the entry address and the size, aborted, stuck for input, or in a copy of
      a negative number of bytes. */
  datatype Outcome = Done(entry: nat, size: nat) | Aborted | Stuck | Overrun

  /** Where a record with this address is stored. */
  function StoreAddress(address: nat, offset: nat): (at: nat)
    ensures at < U32
  {
    (address + offset) % U32
  }

  /** The address k bytes further on. */
  function Next(at: nat, k: nat): (r: nat)
    ensures r < U32
  {
    (at + k) % U32
  }

  /** The address of the last of k bytes. */
  function EndOf(at: nat, k: nat): (r: nat)
    ensures r < U32
  {
    (at + k + U32 - 1) % U32
  }

  function Lower(a: nat, b: nat): nat {
    if b < a then b else a
  }

  function Higher(a: nat, b: nat): nat {
    if b > a then b else a
  }

  function StoreData(p: Progress, at: nat, data: seq<byte>): Progress
    requires at < U32
  {
    Progress(Store(p.memory, at, data), Lower(p.first, at), Higher(p.last, EndOf(at, |data|)))
  }

  function Load(p: Progress, s: string, offset: nat): (r: (Outcome, Memory))
    decreases |s|
  {
    match ReadRecord(s, MAX_LINE)
    case Interrupted => (Aborted, p.memory)
    case Waiting => (Stuck, p.memory)
    case Line(text, rest) =>
      match Decode(text)
      case Bad => (Aborted, p.memory)
      case Nothing => Load(p, rest, offset)
      case Record(kind, address, count, data) =>
        if kind == '1' || kind == '2' || kind == '3' then
          if count < 0 then (Overrun, p.memory)
          else Load(StoreData(p, StoreAddress(address, offset), data), rest, offset)
        else if kind == '7' || kind == '8' || kind == '9' then
          (Done(address, (p.last + U32 - p.first + 1) % U32), p.memory)
        else Load(p, rest, offset)
  }

  function LoadText(m: Memory, s: string, offset: nat): (Outcome, Memory) {
    Load(Progress(m, U32 - 1, 0), s, offset)
  }

  predicate Plain(s: string) {
    forall i :: 0 <= i < |s| ==> s[i] != '\r' && s[i] != '\n' && s[i] != '\0' && s[i] != 3 as char
  }

  lemma {:induction false} PlainLineRead(line: string, rest: string, room: nat)
    requires Plain(line) && |line| < room
    ensures ReadRecord(line + "\n" + rest, room) == Line(line, rest)
    decreases |line|
  {
    var s := line + "\n" + rest;
    if line == "" {
      assert s[1..] == rest;
    } else {
      PlainLineRead(line[1..], rest, room - 1);
      assert s[1..] == line[1..] + "\n" + rest;
      assert [line[0]] + line[1..] == line;
    }
  }

  lemma {:induction false} HexIsPlain(bs: seq<byte>)
    ensures forall i :: 0 <= i < |HexAll(bs)| ==> IsXDigit(HexAll(bs)[i])
    decreases |bs|
  {
    if bs != [] { HexIsPlain(bs[..|bs| - 1]); }
  }

  lemma {:induction false} RecordIsPlain(kind: char, address: nat, data: seq<byte>)
    requires AddressOctets(kind) > 0 && |data| <= 250
    ensures var line := RecordText(kind, address, data);
      Plain(line) && |line| == 2 * (AddressOctets(kind) + |data| + 3)
  {
    hide HexAll, Octets, OctetSum;
    var n := AddressOctets(kind);
    var a, b, c := Hex(n + |data| + 1), HexAll(Octets(address, n)), HexAll(data);
    HexIsPlain(Octets(address, n));
    HexIsPlain(data);
    PlainConcat(['S', kind], a);
    PlainConcat(['S', kind] + a, b);
    PlainConcat(['S', kind] + a + b, c);
    PlainConcat(['S', kind] + a + b + c, Hex(255 - OctetSum(kind, address, data) % 256));
  }

  lemma PlainConcat(a: string, b: string)
    requires Plain(a) && Plain(b)
    ensures Plain(a + b)
  {
  }

  /** The lowest address that the records of n bytes from an address on begin at. */
  function FirstAfter(first: nat, at: nat, n: nat): nat
    decreases n
  {
    if n == 0 then first
    else
      var k := RecordLength(n);
      FirstAfter(Lower(first, at), Next(at, k), n - k)
  }

  /** The highest address that they end at. */
  function LastAfter(last: nat, at: nat, n: nat): nat
    decreases n
  {
    if n == 0 then last
    else
      var k := RecordLength(n);
      LastAfter(Higher(last, EndOf(at, k)), Next(at, k), n - k)
  }

  /** Loading the records of a dump stores the dumped bytes, and the addresses of the records count. */
  function Loaded(p: Progress, m: Memory, address: nat, offset: nat, n: nat): Progress {
    var at := StoreAddress(address, offset);
    Progress(Store(p.memory, at, Bytes(m, address, n)), FirstAfter(p.first, at, n), LastAfter(p.last, at, n))
  }

  ghost predicate SameProgress(p: Progress, q: Progress) {
    p.first == q.first && p.last == q.last && forall a: nat :: p.memory(a) == q.memory(a)
  }

  ghost predicate SameResult(r: (Outcome, Memory), q: (Outcome, Memory)) {
    r.0 == q.0 && forall a: nat :: r.1(a) == q.1(a)
  }

  lemma {:induction false} LoadSame(p: Progress, q: Progress, s: string, offset: nat)
    requires SameProgress(p, q)
    ensures SameResult(Load(p, s, offset), Load(q, s, offset))
    decreases |s|
  {
    hide Decode, ReadRecord;
    match ReadRecord(s, MAX_LINE)
    case Interrupted =>
    case Waiting =>
    case Line(text, rest) =>
      match Decode(text)
      case Bad =>
      case Nothing => LoadSame(p, q, rest, offset);
      case Record(kind, address, count, data) =>
        if kind == '1' || kind == '2' || kind == '3' {
          if count >= 0 {
            var at := StoreAddress(address, offset);
            LoadSame(StoreData(p, at, data), StoreData(q, at, data), rest, offset);
          }
        } else if !(kind == '7' || kind == '8' || kind == '9') {
          LoadSame(p, q, rest, offset);
        }
  }

  lemma FourOctets()
    ensures Pow256(4) == U32 && Pow256(2) == 0x1_0000
  {
  }

  lemma {:induction false} OneRecordLoaded(p: Progress, address: nat, data: seq<byte>, rest: string, offset: nat)
    requires address < U32 && 0 < |data| <= BYTES_PER_RECORD
    ensures Load(p, RecordText('3', address, data) + "\n" + rest, offset) ==
      Load(StoreData(p, StoreAddress(address, offset), data), rest, offset)
  {
    var line := RecordText('3', address, data);
    hide Decode, ReadRecord, RecordText, StoreData, Pow256;
    RecordIsPlain('3', address, data);
    PlainLineRead(line, rest, MAX_LINE);
    assert Pow256(4) == U32 by { FourOctets(); }
    RecordDecoded('3', address, data);
  }

  lemma NextAddress(address: nat, offset: nat, k: nat)
    ensures StoreAddress((address + k) % U32, offset) == (StoreAddress(address, offset) + k) % U32
  {
  }

  lemma {:induction false} DataTextSplit(m: Memory, address: nat, n: nat, rest: string)
    requires n > 0
    ensures var k := RecordLength(n);
      DataText(m, address, n) + rest ==
        RecordText('3', address, Bytes(m, address, k)) + "\n" + (DataText(m, (address + k) % U32, n - k) + rest)
  {
    var k := RecordLength(n);
    var record, more := RecordText('3', address, Bytes(m, address, k)), DataText(m, (address + k) % U32, n - k);
    hide RecordText, Bytes;
    Associate4(record, "\n", more, rest);
  }

  lemma SameTransitive(a: (Outcome, Memory), b: (Outcome, Memory), c: (Outcome, Memory))
    requires SameResult(a, b) && SameResult(b, c)
    ensures SameResult(a, c)
  {
  }

  lemma {:induction false} RecordsLoaded(p: Progress, m: Memory, address: nat, n: nat, rest: string, offset: nat)
    requires address < U32 && n <= U32
    ensures SameResult(Load(p, DataText(m, address, n) + rest, offset), Load(Loaded(p, m, address, offset, n), rest, offset))
    decreases n
  {
    hide RecordText, Load, StoreData, Bytes, SameResult, SameProgress, StoreAddress, Store;
    if n == 0 {
      assert DataText(m, address, n) + rest == rest;
      NothingLoaded(p, m, address, offset);
      LoadSame(p, Loaded(p, m, address, offset, 0), rest, offset);
    } else {
      hide DataText, Loaded;
      var k := RecordLength(n);
      var data, at, next := Bytes(m, address, k), StoreAddress(address, offset), (address + k) % U32;
      var p', q := StoreData(p, at, data), Loaded(p, m, address, offset, n);
      var q' := Loaded(p', m, next, offset, n - k);
      DataTextSplit(m, address, n, rest);
      OneRecordLoaded(p, address, data, DataText(m, next, n - k) + rest, offset);
      RecordsLoaded(p', m, next, n - k, rest, offset);
      SplitLoaded(p, m, address, offset, n);
      LoadSame(q', q, rest, offset);
      SameTransitive(Load(p, DataText(m, address, n) + rest, offset), Load(q', rest, offset), Load(q, rest, offset));
    }
  }

  lemma NothingLoaded(p: Progress, m: Memory, address: nat, offset: nat)
    ensures SameProgress(p, Loaded(p, m, address, offset, 0))
  {
  }

  /** Copying one text and then another one behind it is copying both. */
  lemma {:induction false} StoreTwice(m: Memory, at: nat, x: seq<byte>, y: seq<byte>, a: nat)
    requires at < U32 && |x| + |y| <= U32
    ensures Store(Store(m, at, x), (at + |x|) % U32, y)(a) == Store(m, at, x + y)(a)
  {
    if a < U32 {
      DistanceBehind(at, |x|, a);
      hide Distance;
    }
  }

  lemma AddressBehind(address: nat, k: nat, i: nat)
    ensures ((address + k) % U32 + i) % U32 == (address + k + i) % U32
  {
    var a, b := (address + k) % U32 + i, (address + k) / U32;
    assert address + k + i == a + b * U32;
    assert (address + k + i) / U32 == a / U32 + b;
  }

  lemma {:induction false} BytesSplit(m: Memory, address: nat, n: nat, k: nat)
    requires k <= n
    ensures Bytes(m, address, n) == Bytes(m, address, k) + Bytes(m, (address + k) % U32, n - k)
  {
    var rest := Bytes(m, (address + k) % U32, n - k);
    forall i | 0 <= i < n - k ensures Bytes(m, address, n)[k + i] == rest[i] {
      AddressBehind(address, k, i);
    }
  }

  lemma DistanceBehind(at: nat, k: nat, a: nat)
    requires at < U32 && k <= U32 && a < U32
    ensures var i := Distance(at, a);
      i < U32 && Distance((at + k) % U32, a) == if i < k then (i + U32 - k) % U32 else i - k
  {
  }

  lemma {:induction false} SplitLoaded(p: Progress, m: Memory, address: nat, offset: nat, n: nat)
    requires 0 < n <= U32
    ensures var k := RecordLength(n);
      SameProgress(
        Loaded(StoreData(p, StoreAddress(address, offset), Bytes(m, address, k)), m, (address + k) % U32, offset, n - k),
        Loaded(p, m, address, offset, n))
  {
    hide Bytes, Store, StoreAddress;
    var k, at := RecordLength(n), StoreAddress(address, offset);
    var x, y := Bytes(m, address, k), Bytes(m, (address + k) % U32, n - k);
    NextAddress(address, offset, k);
    BytesSplit(m, address, n, k);
    forall a: nat ensures Store(Store(p.memory, at, x), (at + k) % U32, y)(a) == Store(p.memory, at, x + y)(a) {
      StoreTwice(p.memory, at, x, y, a);
    }
  }

  lemma {:induction false} StartLoaded(p: Progress, rest: string, offset: nat)
    ensures Load(p, START + "\n" + rest, offset) == Load(p, rest, offset)
  {
    hide Decode, ReadRecord, RecordText, Pow256;
    FourOctets();
    RecordIsPlain('0', 0, []);
    RecordDecoded('0', 0, []);
    FrameText();
    PlainLineRead(START, rest, MAX_LINE);
  }

  lemma {:induction false} EndLoaded(p: Progress, offset: nat)
    ensures Load(p, END + "\n", offset) == (Done(0, (p.last + U32 - p.first + 1) % U32), p.memory)
  {
    hide Decode, ReadRecord, RecordText, Pow256;
    FourOctets();
    RecordIsPlain('7', 0, []);
    RecordDecoded('7', 0, []);
    FrameText();
    PlainLineRead(END, "", MAX_LINE);
    assert END + "\n" == END + "\n" + "";
  }

  lemma {:induction false} Zeros(n: nat)
    requires 0 < n <= 4
    ensures HexAll(Octets(0, n)) == HexAll(Octets(0, n - 1)) + "00" && Sum(Octets(0, n)) == Sum(Octets(0, n - 1))
  {
    assert Octets(0, n) == Octets(0, n - 1) + [0];
    HexAllConcat(Octets(0, n - 1), [0]);
    HexAllOne(0);
    hide HexAll, Octets, Sum;
    assert Hex(0) == "00";
  }

  /** The first and the last line of a dump are records without data. */
  lemma FrameText()
    ensures START == RecordText('0', 0, []) && END == RecordText('7', 0, [])
  {
    hide *;
    TwoZeros();
    FourZeros();
    NoOctets();
    StartPieces();
    EndPieces();
  }

  lemma TwoZeros()
    ensures HexAll(Octets(0, 2)) == "0000" && Sum(Octets(0, 2)) == 0
  {
    NoOctets();
    Zeros(1);
    Zeros(2);
    hide HexAll, Octets, Sum;
    assert "" + "00" + "00" == "0000";
  }

  lemma FourZeros()
    ensures HexAll(Octets(0, 4)) == "00000000" && Sum(Octets(0, 4)) == 0
  {
    TwoZeros();
    Zeros(3);
    Zeros(4);
    hide HexAll, Octets, Sum;
    assert "0000" + "00" + "00" == "00000000";
  }

  lemma StartText()
    ensures ['S', '0'] + "03" + "0000" + "" + "FC" == START
  {
    assert ['S', '0'] + "03" == "S003";
    assert "S003" + "0000" == "S0030000";
    WithEmpty("S0030000");
  }

  lemma EndText()
    ensures ['S', '7'] + "05" + "00000000" + "" + "FA" == END
  {
    assert ['S', '7'] + "05" == "S705";
    assert "S705" + "00000000" == "S70500000000";
    WithEmpty("S70500000000");
  }

  lemma FrameOctets()
    ensures Hex(3) == "03" && Hex(252) == "FC" && Hex(5) == "05" && Hex(250) == "FA"
  {
  }

  lemma StartPieces()
    requires HexAll(Octets(0, 2)) == "0000" && HexAll([]) == "" && Sum(Octets(0, 2)) == Sum([]) == 0
    ensures RecordText('0', 0, []) == START
  {
    hide Hex, HexAll, Octets, Sum;
    FrameOctets();
    StartText();
    assert OctetSum('0', 0, []) == 3;
    hide OctetSum;
    assert RecordText('0', 0, []) == ['S', '0'] + Hex(3) + HexAll(Octets(0, 2)) + HexAll([]) + Hex(252);
  }

  lemma EndPieces()
    requires HexAll(Octets(0, 4)) == "00000000" && HexAll([]) == "" && Sum(Octets(0, 4)) == Sum([]) == 0
    ensures RecordText('7', 0, []) == END
  {
    hide Hex, HexAll, Octets, Sum;
    FrameOctets();
    EndText();
    assert OctetSum('7', 0, []) == 5;
    hide OctetSum;
    assert RecordText('7', 0, []) == ['S', '7'] + Hex(5) + HexAll(Octets(0, 4)) + HexAll([]) + Hex(250);
  }

  lemma NoOctets()
    ensures HexAll(Octets(0, 0)) == "" && Sum(Octets(0, 0)) == 0 && HexAll([]) == "" && Sum([]) == 0
  {
  }

  // ---- the reported size ----

  lemma Wraps(at: nat, k: nat)
    requires at < U32 && 0 < k <= U32
    ensures Next(at, k) == if at + k < U32 then at + k else at + k - U32
    ensures EndOf(at, k) == if at + k <= U32 then at + k - 1 else at + k - 1 - U32
  {
  }

  lemma {:induction false} Contiguous(first: nat, last: nat, at: nat, n: nat)
    requires 0 < n && at + n <= U32
    ensures FirstAfter(first, at, n) == Lower(first, at) && LastAfter(last, at, n) == Higher(last, at + n - 1)
    decreases n
  {
    hide Next, EndOf;
    var k := RecordLength(n);
    Wraps(at, k);
    if k < n { Contiguous(Lower(first, at), Higher(last, at + k - 1), at + k, n - k); }
  }

  lemma FirstRecord(first: nat, last: nat, at: nat, n: nat)
    requires n >= BYTES_PER_RECORD
    ensures var k := BYTES_PER_RECORD;
      && FirstAfter(first, at, n) == FirstAfter(Lower(first, at), Next(at, k), n - k)
      && LastAfter(last, at, n) == LastAfter(Higher(last, EndOf(at, k)), Next(at, k), n - k)
  {
  }

  lemma NoRecord(first: nat, last: nat, at: nat)
    requires at < U32
    ensures FirstAfter(first, at, 0) == first && LastAfter(last, at, 0) == last && Next(at, 0) == at
  {
  }

  /** Whole records may be taken first. */
  lemma {:induction false} WholeRecords(first: nat, last: nat, at: nat, n: nat, records: nat)
    requires records * BYTES_PER_RECORD <= n && at < U32
    ensures var whole := records * BYTES_PER_RECORD;
      && FirstAfter(first, at, n) == FirstAfter(FirstAfter(first, at, whole), Next(at, whole), n - whole)
      && LastAfter(last, at, n) == LastAfter(LastAfter(last, at, whole), Next(at, whole), n - whole)
    decreases records
  {
    hide *;
    if records == 0 {
      NoRecord(first, last, at);
    } else {
      var k, whole := BYTES_PER_RECORD, records * BYTES_PER_RECORD;
      NextAgain(at, k, whole);
      FirstRecord(first, last, at, n);
      FirstRecord(first, last, at, whole);
      WholeRecords(Lower(first, at), Higher(last, EndOf(at, k)), Next(at, k), n - k, records - 1);
    }
  }

  lemma NextAgain(at: nat, k: nat, n: nat)
    requires k <= n
    ensures Next(Next(at, k), n - k) == Next(at, n)
  {
  }

  /** The bytes of the whole records that fit below the top of the address space. */
  function WholeBelowTop(at: nat): (n: nat)
    requires at < U32
  {
    (U32 - at) / BYTES_PER_RECORD * BYTES_PER_RECORD
  }

  /** The size that loading n bytes to an address reports.  Beyond the top of the address space the
      first and the last address no longer stand for the bytes between them. */
  function ReportedSize(at: nat, n: nat): nat
    requires at < U32
  {
    var whole := WholeBelowTop(at);
    if n == 0 then 2
    else if at + n <= U32 || n <= BYTES_PER_RECORD then n
    else if at + whole == U32 then 0
    else if whole == 0 then n - BYTES_PER_RECORD
    else if n <= whole + BYTES_PER_RECORD then whole
    else U32 - BYTES_PER_RECORD
  }

  lemma {:induction false} SizeIs(at: nat, n: nat)
    requires at < U32 && n < U32
    ensures (LastAfter(0, at, n) + U32 - FirstAfter(U32 - 1, at, n) + 1) % U32 == ReportedSize(at, n)
  {
    if n > 0 {
      if at + n <= U32 {
        Contiguous(U32 - 1, 0, at, n);
      } else {
        SizeBeyondTop(at, n);
      }
    }
  }

  lemma TopRecord(at: nat)
    requires at < U32
    ensures var whole := WholeBelowTop(at);
      && whole == (U32 - at) / BYTES_PER_RECORD * BYTES_PER_RECORD
      && at + whole <= U32 && U32 - (at + whole) < BYTES_PER_RECORD
  {
  }

  lemma {:induction false} SizeBeyondTop(at: nat, n: nat)
    requires at < U32 && n < U32 < at + n
    ensures (LastAfter(0, at, n) + U32 - FirstAfter(U32 - 1, at, n) + 1) % U32 == ReportedSize(at, n)
  {
    hide Next, EndOf, FirstAfter, LastAfter, WholeBelowTop;
    var whole := WholeBelowTop(at);
    TopRecord(at);
    WholeRecords(U32 - 1, 0, at, n, (U32 - at) / BYTES_PER_RECORD);
    var first, last := if whole > 0 then at else U32 - 1, if whole > 0 then at + whole - 1 else 0;
    var top := at + whole;
    BelowTop(at, whole);
    if top == U32 {
      Contiguous(first, last, 0, n - whole);
    } else {
      AcrossTop(first, last, top, n - whole);
    }
  }

  lemma {:induction false} BelowTop(at: nat, whole: nat)
    requires at < U32 && at + whole <= U32
    ensures Next(at, whole) == if at + whole == U32 then 0 else at + whole
    ensures whole > 0 ==> FirstAfter(U32 - 1, at, whole) == at && LastAfter(0, at, whole) == at + whole - 1
    ensures whole == 0 ==> FirstAfter(U32 - 1, at, whole) == U32 - 1 && LastAfter(0, at, whole) == 0
  {
    if whole > 0 {
      Wraps(at, whole);
      Contiguous(U32 - 1, 0, at, whole);
    }
  }

  /** The record that lies across the top, and the ones behind it. */
  lemma {:induction false} AcrossTop(first: nat, last: nat, at: nat, n: nat)
    requires at < U32 < at + n && U32 - at < BYTES_PER_RECORD && n <= U32
    ensures var k := RecordLength(n);
      if k == n then
        FirstAfter(first, at, n) == Lower(first, at) && LastAfter(last, at, n) == Higher(last, at + n - 1 - U32)
      else
        && FirstAfter(first, at, n) == Lower(Lower(first, at), at + k - U32)
        && LastAfter(last, at, n) == Higher(Higher(last, at + k - 1 - U32), at + n - 1 - U32)
  {
    hide Next, EndOf;
    var k := RecordLength(n);
    Wraps(at, k);
    if k < n {
      Contiguous(Lower(first, at), Higher(last, at + k - 1 - U32), at + k - U32, n - k);
    }
  }

  /** Loading a dump puts the dumped bytes where they were, moved by the offset, and nothing else; the
      size is reported as above. */
  lemma {:induction false} DumpLoaded(m: Memory, target: Memory, address: nat, n: nat, offset: nat)
    requires address < U32 && n < U32
    ensures var r, at := LoadText(target, DumpText(m, address, n), offset), StoreAddress(address, offset);
      && r.0 == Done(0, ReportedSize(at, n))
      && forall a: nat :: r.1(a) ==
           if a < U32 && Distance(at, a) < n then m((address + Distance(at, a)) % U32) else target(a)
  {
    hide Load, DataText, FirstAfter, LastAfter, ReportedSize;
    var p := Progress(target, U32 - 1, 0);
    assert DumpText(m, address, n) == START + "\n" + (DataText(m, address, n) + (END + "\n"));
    StartLoaded(p, DataText(m, address, n) + (END + "\n"), offset);
    RecordsLoaded(p, m, address, n, END + "\n", offset);
    EndLoaded(Loaded(p, m, address, offset, n), offset);
    SizeIs(StoreAddress(address, offset), n);
  }

  /** The size that a load reports is the number of bytes dumped exactly when there were any and they
      stay below the top of the address space, or are one record, or the two numbers happen to agree. */
  lemma {:induction false} SizeIsRightExactly(m: Memory, target: Memory, address: nat, n: nat, offset: nat)
    requires address < U32 && n < U32
    ensures var at := StoreAddress(address, offset);
      LoadText(target, DumpText(m, address, n), offset).0 == Done(0, n) <==>
        n > 0 &&
        (at + n <= U32 || n <= BYTES_PER_RECORD ||
         (n == U32 - BYTES_PER_RECORD && 0 < WholeBelowTop(at) < U32 - at && WholeBelowTop(at) + BYTES_PER_RECORD < n))
  {
    DumpLoaded(m, target, address, n, offset);
  }
}
