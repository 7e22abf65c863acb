/**
 Loading S-record files that other programs wrote: data records with addresses of any length, in any
 order, with start and count records among them.
 */
module SRecordFile {
  import opened Common
  import opened MtdText
  import opened SRecord

  datatype Rec = Rec(kind: char, address: nat, data: seq<byte>)

  predicate ValidRec(r: Rec) {
    && r.kind in "01235789" && |r.data| <= 250 && (r.kind == '5' ==> r.data == [])
    && r.address < (if r.kind in "37" then 0x1_0000_0000 else if r.kind in "28" then 0x100_0000 else 0x1_0000)
  }

  predicate IsData(r: Rec) {
    r.kind in "123"
  }

  predicate IsEnd(r: Rec) {
    r.kind in "789"
  }

  /** The address of a record, its highest octet first: four, three or two of them. */
  function AddressField(r: Rec): (bs: seq<byte>)
    requires ValidRec(r)
  {
    var a := r.address;
    if r.kind in "37" then [a / 256 / 256 / 256, a / 256 / 256 % 256, a / 256 % 256, a % 256]
    else if r.kind in "28" then [a / 256 / 256, a / 256 % 256, a % 256]
    else [a / 256, a % 256]
  }

  /** The octets that the checksum is taken of: how many follow them with the checksum, address, data. */
  function Checked(r: Rec): (bs: seq<byte>)
    requires ValidRec(r)
  {
    [|AddressField(r)| + |r.data| + 1] + AddressField(r) + r.data
  }

  const UPPER: string := "0123456789ABCDEF"
  const LOWER: string := "0123456789abcdef"

  function Pair(b: byte, table: string): (s: string)
    requires |table| == 16
    ensures |s| == 2
  {
    [table[b / 16], table[b % 16]]
  }

  /** Every octet as two hexadecimal digits. */
  function Digits(bs: seq<byte>, table: string): (s: string)
    requires |table| == 16
    ensures |s| == 2 * |bs|
  {
    if bs == [] then "" else Pair(bs[0], table) + Digits(bs[1..], table)
  }

  ghost predicate Tables(table: string) {
    table == UPPER || table == LOWER
  }

  ghost predicate LineEnd(eol: string) {
    eol == "\n" || eol == "\r" || eol == "\r\n"
  }

  /** A line with any checksum. */
  function LineWith(r: Rec, check: byte, table: string): string
    requires ValidRec(r) && |table| == 16
  {
    ['S', r.kind] + Digits(Checked(r) + [check], table)
  }

  /** The checksum makes the low octet of the sum 0xFF. */
  function Checksum(r: Rec): byte
    requires ValidRec(r)
  {
    255 - Sum(Checked(r)) % 256
  }

  function FileText(recs: seq<Rec>, table: string, eol: string): string
    requires |table| == 16 && forall i :: 0 <= i < |recs| ==> ValidRec(recs[i])
  {
    if recs == [] then ""
    else
      var n := |recs| - 1;
      FileText(recs[..n], table, eol) + (LineWith(recs[n], Checksum(recs[n]), table) + eol)
  }

  // ---- what the records mean ----

  /** A data record stores a byte at the address. */
  predicate Covers(r: Rec, offset: nat, a: nat) {
    IsData(r) && a < U32 && (a - r.address - offset) % U32 < |r.data|
  }

  /** What lies at an address afterwards: the byte of the last record that covers it. */
  function ByteAfter(m: Memory, recs: seq<Rec>, offset: nat, a: nat): byte {
    if recs == [] then m(a)
    else
      var r := recs[|recs| - 1];
      if Covers(r, offset, a) then r.data[(a - r.address - offset) % U32]
      else ByteAfter(m, recs[..|recs| - 1], offset, a)
  }

  /** The lowest address at which a data record begins. */
  function FirstAddress(recs: seq<Rec>, offset: nat): (f: nat)
    ensures f < U32 && forall i :: 0 <= i < |recs| && IsData(recs[i]) ==> f <= (recs[i].address + offset) % U32
  {
    if recs == [] then 0xFFFF_FFFF
    else
      var r, f := recs[|recs| - 1], FirstAddress(recs[..|recs| - 1], offset);
      if IsData(r) && (r.address + offset) % U32 < f then (r.address + offset) % U32 else f
  }

  /** The highest address at which one ends. */
  function LastAddress(recs: seq<Rec>, offset: nat): (l: nat)
    ensures l < U32
    ensures forall i :: 0 <= i < |recs| && IsData(recs[i]) ==> l >= (recs[i].address + offset + |recs[i].data| - 1) % U32
  {
    if recs == [] then 0
    else
      var r, l := recs[|recs| - 1], LastAddress(recs[..|recs| - 1], offset);
      if IsData(r) && (r.address + offset + |r.data| - 1) % U32 > l then (r.address + offset + |r.data| - 1) % U32 else l
  }

  // ---- reading digits ----

  lemma TableDigit(table: string, d: nat)
    requires Tables(table) && d < 16
    ensures |table| == 16 && IsXDigit(table[d]) && DigitValue(table[d]) == d
  {
  }

  lemma {:induction false} OctetRead(b: byte, table: string, rest: string)
    requires Tables(table)
    ensures |table| == 16 && HexBin(Pair(b, table) + rest) == Some(b)
  {
    TableDigit(table, b / 16);
    TableDigit(table, b % 16);
    hide Tables;
  }

  lemma DigitsSplit(bs: seq<byte>, table: string, rest: string)
    requires |table| == 16 && bs != []
    ensures var s, more := Digits(bs, table) + rest, Digits(bs[1..], table) + rest;
      s == Pair(bs[0], table) + more && s[2..] == more
  {
    hide Pair;
    Associate(Pair(bs[0], table), Digits(bs[1..], table), rest);
  }

  lemma ReadMore(s: string, b: byte, more: string, bs: seq<byte>, rest: string)
    requires HexBin(s) == Some(b) && |s| >= 2 && s[2..] == more && ReadBytes(more, |bs|) == Some((bs, rest))
    ensures ReadBytes(s, |bs| + 1) == Some(([b] + bs, rest))
  {
    hide HexBin;
  }

  lemma {:induction false} DigitsRead(bs: seq<byte>, table: string, rest: string)
    requires Tables(table)
    ensures |table| == 16 && ReadBytes(Digits(bs, table) + rest, |bs|) == Some((bs, rest))
    decreases |bs|
  {
    TableDigit(table, 0);
    hide Tables, HexBin, Pair, ReadBytes, Digits;
    if bs == [] {
      NothingRead(table, rest);
    } else {
      var more := Digits(bs[1..], table) + rest;
      DigitsSplit(bs, table, rest);
      OctetRead(bs[0], table, more);
      DigitsRead(bs[1..], table, rest);
      ReadMore(Digits(bs, table) + rest, bs[0], more, bs[1..], rest);
      assert [bs[0]] + bs[1..] == bs;
    }
  }

  lemma NothingRead(table: string, rest: string)
    requires |table| == 16
    ensures ReadBytes(Digits([], table) + rest, 0) == Some(([], rest))
  {
    assert Digits([], table) + rest == rest;
  }

  lemma {:induction false} DigitsConcat(a: seq<byte>, b: seq<byte>, table: string)
    requires |table| == 16
    ensures Digits(a + b, table) == Digits(a, table) + Digits(b, table)
    decreases |a|
  {
    if a == [] {
      assert a + b == b;
    } else {
      assert (a + b)[1..] == a[1..] + b;
      DigitsConcat(a[1..], b, table);
    }
  }

  lemma {:induction false} DigitsArePlain(bs: seq<byte>, table: string)
    requires Tables(table)
    ensures |table| == 16 && Plain(Digits(bs, table))
    decreases |bs|
  {
    TableDigit(table, 0);
    if bs != [] {
      TableDigit(table, bs[0] / 16);
      TableDigit(table, bs[0] % 16);
      hide Tables;
      DigitsArePlain(bs[1..], table);
    }
  }

  lemma {:induction false} SumConcat(a: seq<byte>, b: seq<byte>)
    ensures Sum(a + b) == Sum(a) + Sum(b)
  {
    HexAllConcat(a, b);
  }

  lemma ValueOfTwo(x: int, y: int)
    requires 0 <= x < 256 && 0 <= y < 256
    ensures Value([x, y]) == 256 * x + y
  {
    assert [x, y][..1] == [x] && [x][..0] == [];
    assert Value([x]) == x;
  }

  lemma ValueOfThree(x: int, y: int, z: int)
    requires 0 <= x < 256 && 0 <= y < 256 && 0 <= z < 256
    ensures Value([x, y, z]) == 0x1_0000 * x + 256 * y + z
  {
    ValueOfTwo(x, y);
    assert [x, y, z][..2] == [x, y];
  }

  lemma ValueOfFour(w: int, x: int, y: int, z: int)
    requires 0 <= w < 256 && 0 <= x < 256 && 0 <= y < 256 && 0 <= z < 256
    ensures Value([w, x, y, z]) == 0x100_0000 * w + 0x1_0000 * x + 256 * y + z
  {
    ValueOfThree(w, x, y);
    assert [w, x, y, z][..3] == [w, x, y];
  }

  lemma FieldValue(r: Rec)
    requires ValidRec(r)
    ensures AddressOctets(r.kind) == |AddressField(r)| && Value(AddressField(r)) == r.address
  {
    var a := r.address;
    hide Value;
    if r.kind in "37" {
      ValueOfFour(a / 256 / 256 / 256, a / 256 / 256 % 256, a / 256 % 256, a % 256);
    } else if r.kind in "28" {
      ValueOfThree(a / 256 / 256, a / 256 % 256, a % 256);
    } else {
      ValueOfTwo(a / 256, a % 256);
    }
  }

  // ---- one line ----

  function LengthOctet(r: Rec): byte
    requires ValidRec(r)
  {
    |AddressField(r)| + |r.data| + 1
  }

  lemma OneOctet(b: byte, table: string)
    requires |table| == 16
    ensures Digits([b], table) == Pair(b, table)
  {
    assert [b][1..] == [];
  }

  lemma {:induction false} LineParts(r: Rec, check: byte, table: string)
    requires ValidRec(r) && |table| == 16
    ensures var body := Digits(AddressField(r), table) + (Digits(r.data, table) + Digits([check], table));
      LineWith(r, check, table) == ['S', r.kind] + (Digits([LengthOctet(r)], table) + body)
  {
    hide Digits, AddressField;
    var a, b, c, d := [LengthOctet(r)], AddressField(r), r.data, [check];
    DigitsConcat(a, b, table);
    DigitsConcat(a + b, c, table);
    DigitsConcat(a + b + c, d, table);
    Regroup(Digits(a, table), Digits(b, table), Digits(c, table), Digits(d, table));
  }

  lemma Regroup(a: string, b: string, c: string, d: string)
    ensures a + b + c + d == a + (b + (c + d))
  {
  }

  lemma LineStart(line: string, kind: char, pair: string, body: string) returns (t: string)
    requires |pair| == 2 && line == ['S', kind] + (pair + body)
    ensures t == BehindS(line) && |t| >= 3 && t[0] == kind && t[1..] == pair + body && t[3..] == body
  {
    t := line[1..];
    assert line[0] == 'S' && BehindS(line) == t;
  }

  lemma ChecksumIs(r: Rec)
    requires ValidRec(r)
    ensures Checksum(r) == 255 - (LengthOctet(r) + Sum(AddressField(r)) + Sum(r.data)) % 256
  {
    hide AddressField, Sum;
    SumConcat([LengthOctet(r)] + AddressField(r), r.data);
    SumConcat([LengthOctet(r)], AddressField(r));
    HexAllOne(LengthOctet(r));
  }

  lemma FirstRead(b: byte, table: string, rest: string)
    requires Tables(table)
    ensures |table| == 16 && HexBin(Digits([b], table) + rest) == Some(b)
  {
    TableDigit(table, 0);
    hide Tables, HexBin, Digits;
    OneOctet(b, table);
    OctetRead(b, table, rest);
  }

  lemma LastRead(b: byte, table: string)
    requires Tables(table)
    ensures |table| == 16 && HexBin(Digits([b], table)) == Some(b)
  {
    TableDigit(table, 0);
    hide Tables, HexBin, Digits;
    FirstRead(b, table, "");
    assert Digits([b], table) + "" == Digits([b], table);
  }

  lemma CountIs(r: Rec)
    requires ValidRec(r)
    ensures |AddressField(r)| > 0 && |r.data| == if r.kind == '5' then 0 else LengthOctet(r) - |AddressField(r)| - 1
  {
  }

  lemma DecodeOf(line: string, t: string, length: byte, field: seq<byte>, behind: string, data: seq<byte>, last: string, check: byte)
    requires t == BehindS(line) && |t| >= 3 && HexBin(t[1..]) == Some(length)
    requires AddressOctets(t[0]) == |field| > 0 && ReadBytes(t[3..], |field|) == Some((field, behind))
    requires |data| == (if t[0] == '5' then 0 else length - |field| - 1)
    requires ReadBytes(behind, |data|) == Some((data, last)) && HexBin(last) == Some(check)
    ensures Decode(line) ==
      if check == 255 - (length + Sum(field) + Sum(data)) % 256 then Record(t[0], Value(field), |data|, data) else Bad
  {
    hide BehindS, HexBin, AddressOctets, ReadBytes, Sum, Value;
  }

  lemma {:induction false} BodyRead(r: Rec, check: byte, table: string) returns (body: string, behind: string, last: string)
    requires ValidRec(r) && Tables(table)
    ensures |table| == 16 && last == Digits([check], table) && HexBin(last) == Some(check)
    ensures behind == Digits(r.data, table) + last && ReadBytes(behind, |r.data|) == Some((r.data, last))
    ensures body == Digits(AddressField(r), table) + behind
    ensures ReadBytes(body, |AddressField(r)|) == Some((AddressField(r), behind))
  {
    TableDigit(table, 0);
    hide *;
    LastRead(check, table);
    last := Digits([check], table);
    behind := Digits(r.data, table) + last;
    body := Digits(AddressField(r), table) + behind;
    DigitsRead(r.data, table, last);
    DigitsRead(AddressField(r), table, behind);
  }

  /** A line is decoded to its record, or rejected when its checksum is any other. */
  lemma {:induction false} LineDecoded(r: Rec, check: byte, table: string)
    requires ValidRec(r) && Tables(table)
    ensures |table| == 16
    ensures Decode(LineWith(r, check, table)) ==
      if check == Checksum(r) then Record(r.kind, r.address, |r.data|, r.data) else Bad
  {
    hide *;
    var body, behind, last := BodyRead(r, check, table);
    FieldValue(r);
    LineParts(r, check, table);
    ChecksumIs(r);
    CountIs(r);
    var length, line := LengthOctet(r), LineWith(r, check, table);
    FirstRead(length, table, body);
    var t := LineStart(line, r.kind, Digits([length], table), body);
    DecodeOf(line, t, length, AddressField(r), behind, r.data, last, check);
  }

  lemma {:induction false} LineIsPlain(r: Rec, check: byte, table: string)
    requires ValidRec(r) && Tables(table)
    ensures |table| == 16 && Plain(LineWith(r, check, table)) && |LineWith(r, check, table)| < MAX_LINE
  {
    TableDigit(table, 0);
    assert Plain(['S', r.kind]);
    assert |Checked(r)| <= 255;
    hide Tables, Plain, ValidRec, Checked;
    DigitsArePlain(Checked(r) + [check], table);
    PlainConcat(['S', r.kind], Digits(Checked(r) + [check], table));
  }

  lemma {:induction false} LineReadTo(line: string, c: char, rest: string, room: nat)
    requires Plain(line) && |line| < room && (c == '\n' || c == '\r')
    ensures ReadRecord(line + [c] + rest, room) == Line(line, rest)
    decreases |line|
  {
    var s := line + [c] + rest;
    if line == "" {
      assert s[1..] == rest;
    } else {
      LineReadTo(line[1..], c, rest, room - 1);
      assert s[1..] == line[1..] + [c] + rest;
      assert [line[0]] + line[1..] == line;
    }
  }

  lemma EmptyLineLoads(p: Progress, c: char, rest: string, offset: nat)
    requires c == '\n' || c == '\r'
    ensures Load(p, [c] + rest, offset) == Load(p, rest, offset)
  {
    LineReadTo("", c, rest, MAX_LINE);
    assert "" + [c] + rest == [c] + rest;
    assert Decode("") == Nothing;
    hide Decode, ReadRecord;
  }

  /** What a record does that is not the last one. */
  function AfterRec(p: Progress, r: Rec, offset: nat): Progress {
    if IsData(r) then StoreData(p, (r.address + offset) % U32, r.data) else p
  }

  /** What an end record does. */
  function Ended(p: Progress, entry: nat): (Outcome, Memory) {
    (Done(entry, (p.last + U32 - p.first + 1) % U32), p.memory)
  }

  lemma {:induction false} LineLoads(p: Progress, r: Rec, check: byte, table: string, c: char, rest: string, offset: nat)
    requires ValidRec(r) && Tables(table) && (c == '\n' || c == '\r')
    ensures |table| == 16
    ensures Load(p, LineWith(r, check, table) + [c] + rest, offset) ==
      if check != Checksum(r) then (Outcome.Aborted, p.memory)
      else if IsEnd(r) then Ended(p, r.address)
      else Load(AfterRec(p, r, offset), rest, offset)
  {
    hide Tables, Decode, ReadRecord, LineWith, ValidRec, Checksum, StoreData;
    LineDecoded(r, check, table);
    LineIsPlain(r, check, table);
    LineReadTo(LineWith(r, check, table), c, rest, MAX_LINE);
  }

  /** The same for every way to end a line. */
  lemma {:induction false} LineWithEndLoads(p: Progress, r: Rec, check: byte, table: string, eol: string, rest: string, offset: nat)
    requires ValidRec(r) && Tables(table) && LineEnd(eol)
    ensures |table| == 16
    ensures Load(p, LineWith(r, check, table) + eol + rest, offset) ==
      if check != Checksum(r) then (Outcome.Aborted, p.memory)
      else if IsEnd(r) then Ended(p, r.address)
      else Load(AfterRec(p, r, offset), rest, offset)
  {
    TableDigit(table, 0);
    hide Tables, Load, LineWith, ValidRec, Checksum, StoreData, Ended;
    var line := LineWith(r, check, table);
    if |eol| == 2 {
      assert line + eol + rest == line + ['\r'] + (['\n'] + rest);
      LineLoads(p, r, check, table, '\r', ['\n'] + rest, offset);
      EmptyLineLoads(AfterRec(p, r, offset), '\n', rest, offset);
    } else {
      assert eol == [eol[0]];
      LineLoads(p, r, check, table, eol[0], rest, offset);
    }
  }

  // ---- whole files ----

  ghost predicate ValidFile(recs: seq<Rec>, table: string, eol: string) {
    Tables(table) && LineEnd(eol) && forall i :: 0 <= i < |recs| ==> ValidRec(recs[i]) && !IsEnd(recs[i])
  }

  function After(p: Progress, recs: seq<Rec>, offset: nat): Progress {
    if recs == [] then p else AfterRec(After(p, recs[..|recs| - 1], offset), recs[|recs| - 1], offset)
  }

  lemma NoText(table: string, eol: string, rest: string)
    requires |table| == 16
    ensures FileText([], table, eol) + rest == rest
  {
  }

  lemma TextBehind(recs: seq<Rec>, table: string, eol: string, rest: string)
    requires |table| == 16 && recs != [] && forall i :: 0 <= i < |recs| ==> ValidRec(recs[i])
    ensures var n := |recs| - 1;
      FileText(recs, table, eol) + rest ==
        FileText(recs[..n], table, eol) + (LineWith(recs[n], Checksum(recs[n]), table) + eol + rest)
  {
    hide LineWith, Checksum, ValidRec;
    var n := |recs| - 1;
    Associate(FileText(recs[..n], table, eol), LineWith(recs[n], Checksum(recs[n]), table) + eol, rest);
  }

  lemma {:induction false} RecordsLoad(p: Progress, recs: seq<Rec>, table: string, eol: string, rest: string, offset: nat)
    requires ValidFile(recs, table, eol)
    ensures |table| == 16
    ensures Load(p, FileText(recs, table, eol) + rest, offset) == Load(After(p, recs, offset), rest, offset)
    decreases |recs|
  {
    FileParts(recs, table, eol);
    hide *;
    if recs == [] {
      NoText(table, eol, rest);
      AfterNone(p, offset);
    } else {
      var n := |recs| - 1;
      var r := recs[n];
      TextBehind(recs, table, eol, rest);
      RecordsLoad(p, recs[..n], table, eol, LineWith(r, Checksum(r), table) + eol + rest, offset);
      LineWithEndLoads(After(p, recs[..n], offset), r, Checksum(r), table, eol, rest, offset);
      AfterLast(p, recs, offset);
    }
  }

  lemma FileParts(recs: seq<Rec>, table: string, eol: string)
    requires ValidFile(recs, table, eol)
    ensures |table| == 16 && Tables(table) && LineEnd(eol) && forall i :: 0 <= i < |recs| ==> ValidRec(recs[i])
    ensures recs != [] ==> ValidFile(recs[..|recs| - 1], table, eol) && !IsEnd(recs[|recs| - 1])
  {
    hide ValidRec, IsEnd;
  }

  lemma AfterNone(p: Progress, offset: nat)
    ensures After(p, [], offset) == p
  {
  }

  lemma AfterLast(p: Progress, recs: seq<Rec>, offset: nat)
    requires recs != []
    ensures After(p, recs, offset) == AfterRec(After(p, recs[..|recs| - 1], offset), recs[|recs| - 1], offset)
  {
    hide AfterRec;
  }

  lemma StoredAt(m: Memory, at: nat, data: seq<byte>, x: int, a: nat)
    requires at == x % U32
    ensures Store(m, at, data)(a) ==
      if a < U32 && (a - x) % U32 < |data| then data[(a - x) % U32] else m(a)
  {
    assert a < U32 ==> (a - x) % U32 == Distance(at, a);
  }

  lemma {:induction false} AfterIs(m: Memory, recs: seq<Rec>, offset: nat, a: nat)
    ensures var p := After(Progress(m, U32 - 1, 0), recs, offset);
      p.memory(a) == ByteAfter(m, recs, offset, a)
      && p.first == FirstAddress(recs, offset) && p.last == LastAddress(recs, offset)
    decreases |recs|
  {
    if recs != [] {
      var n := |recs| - 1;
      var q, r := After(Progress(m, U32 - 1, 0), recs[..n], offset), recs[n];
      AfterIs(m, recs[..n], offset, a);
      hide Store, Distance;
      if IsData(r) {
        var at, x := (r.address + offset) % U32, r.address + offset;
        StoredAt(q.memory, at, r.data, x, a);
        EndIs(x, |r.data|);
      }
    }
  }

  lemma EndIs(x: nat, k: nat)
    ensures EndOf(x % U32, k) == (x + k - 1) % U32
  {
  }

  lemma SpanIs(first: nat, last: nat)
    requires first < U32 && last < U32
    ensures (last + U32 - first + 1) % U32 == (last - first + 1) % U32
  {
  }

  lemma {:induction false} FileEnds(p: Progress, recs: seq<Rec>, end: Rec, table: string, eol: string, rest: string, offset: nat)
    requires ValidFile(recs, table, eol) && ValidRec(end) && IsEnd(end)
    ensures |table| == 16
    ensures var q := After(p, recs, offset);
      Load(p, FileText(recs, table, eol) + (LineWith(end, Checksum(end), table) + eol + rest), offset) ==
        Ended(q, end.address)
  {
    TableDigit(table, 0);
    hide Tables, Load, LineWith, ValidRec, Checksum, After, AfterRec, FileText, IsEnd, LineEnd, Ended;
    RecordsLoad(p, recs, table, eol, LineWith(end, Checksum(end), table) + eol + rest, offset);
    LineWithEndLoads(After(p, recs, offset), end, Checksum(end), table, eol, rest, offset);
  }

  /** Loading a file ends with the entry address of its end record and the span of the addresses stored
      to; at each address there is then the byte of the last data record that covers it, and what was
      there before where none does. */
  lemma {:induction false} FileLoaded(m: Memory, recs: seq<Rec>, end: Rec, table: string, eol: string, rest: string, offset: nat)
    requires ValidFile(recs, table, eol) && ValidRec(end) && IsEnd(end)
    ensures |table| == 16
    ensures var r := LoadText(m, FileText(recs, table, eol) + (LineWith(end, Checksum(end), table) + eol + rest), offset);
      && r.0 == Done(end.address, (LastAddress(recs, offset) - FirstAddress(recs, offset) + 1) % U32)
      && forall a: nat :: r.1(a) == ByteAfter(m, recs, offset, a)
  {
    var p := Progress(m, U32 - 1, 0);
    assert forall i :: 0 <= i < |recs| ==> ValidRec(recs[i]);
    hide *;
    FileEnds(p, recs, end, table, eol, rest, offset);
    AfterMeans(m, recs, offset, end.address);
    LoadTextIs(m, FileText(recs, table, eol) + (LineWith(end, Checksum(end), table) + eol + rest), offset);
  }

  lemma LoadTextIs(m: Memory, s: string, offset: nat)
    ensures LoadText(m, s, offset) == Load(Progress(m, U32 - 1, 0), s, offset)
  {
  }

  lemma AfterMeans(m: Memory, recs: seq<Rec>, offset: nat, entry: nat)
    ensures var r := Ended(After(Progress(m, U32 - 1, 0), recs, offset), entry);
      && r.0 == Done(entry, (LastAddress(recs, offset) - FirstAddress(recs, offset) + 1) % U32)
      && forall a: nat :: r.1(a) == ByteAfter(m, recs, offset, a)
  {
    hide After, ByteAfter, FirstAddress, LastAddress;
    AfterIs(m, recs, offset, 0);
    SpanIs(FirstAddress(recs, offset), LastAddress(recs, offset));
    forall a: nat ensures After(Progress(m, U32 - 1, 0), recs, offset).memory(a) == ByteAfter(m, recs, offset, a) {
      AfterIs(m, recs, offset, a);
    }
  }

  /** A wrong checksum ends the load; what came before it stays stored. */
  lemma {:induction false} WrongChecksumAborts(m: Memory, recs: seq<Rec>, bad: Rec, check: byte, table: string, eol: string, rest: string, offset: nat)
    requires ValidFile(recs, table, eol) && ValidRec(bad) && check != Checksum(bad)
    ensures |table| == 16
    ensures var r := LoadText(m, FileText(recs, table, eol) + (LineWith(bad, check, table) + eol + rest), offset);
      r.0 == Outcome.Aborted && forall a: nat :: r.1(a) == ByteAfter(m, recs, offset, a)
  {
    TableDigit(table, 0);
    var p := After(Progress(m, U32 - 1, 0), recs, offset);
    hide Tables, Load, LineWith, ValidRec, Checksum, After, FileText, ByteAfter, IsEnd;
    RecordsLoad(Progress(m, U32 - 1, 0), recs, table, eol, LineWith(bad, check, table) + eol + rest, offset);
    LineWithEndLoads(p, bad, check, table, eol, rest, offset);
    forall a: nat ensures p.memory(a) == ByteAfter(m, recs, offset, a) { AfterIs(m, recs, offset, a); }
  }

  // ---- lines that are no records ----

  lemma {:induction false} BehindJunk(junk: string, line: string)
    requires 'S' !in junk
    ensures BehindS(junk + line) == BehindS(line)
    decreases |junk|
  {
    if junk == "" {
      assert junk + line == line;
    } else {
      assert (junk + line)[0] == junk[0] && junk[0] in junk && (junk + line)[1..] == junk[1..] + line;
      BehindJunk(junk[1..], line);
    }
  }

  /** What stands in front of the `S` of a record is skipped, and a line without one is. */
  lemma {:induction false} JunkIgnored(junk: string, line: string)
    requires 'S' !in junk
    ensures Decode(junk + line) == Decode(line) && Decode(junk) == Nothing
  {
    BehindJunk(junk, line);
    BehindJunk(junk, "");
    assert junk + "" == junk && BehindS("") == "";
    hide BehindS, HexBin, ReadBytes, AddressOctets;
  }

  /** A line of more than 516 characters is taken for two. */
  lemma {:induction false} LongLineCut(a: string, rest: string)
    requires Plain(a) && |a| == 516
    ensures ReadRecord(a + rest, MAX_LINE) == Line(a, rest)
  {
    FullLine(a, rest);
  }

  lemma {:induction false} FullLine(a: string, rest: string)
    requires Plain(a)
    ensures ReadRecord(a + rest, |a|) == Line(a, rest)
    decreases |a|
  {
    if a == "" {
      assert a + rest == rest;
    } else {
      assert (a + rest)[1..] == a[1..] + rest && [a[0]] + a[1..] == a;
      FullLine(a[1..], rest);
    }
  }

  lemma {:induction false} InterruptedLine(a: string, c: char, rest: string, room: nat)
    requires Plain(a) && |a| < room && (c == '\0' || c == 3 as char)
    ensures ReadRecord(a + [c] + rest, room) == Interrupted
    decreases |a|
  {
    var s := a + [c] + rest;
    if a != "" {
      assert s[1..] == a[1..] + [c] + rest;
      InterruptedLine(a[1..], c, rest, room - 1);
    }
  }

  /** A NUL or ^C ends the load, and so does the end of the input; what came before stays stored. */
  lemma {:induction false} InterruptionAborts(m: Memory, recs: seq<Rec>, table: string, eol: string, begun: string, c: char, rest: string, offset: nat)
    requires ValidFile(recs, table, eol) && Plain(begun) && |begun| < MAX_LINE && (c == '\0' || c == 3 as char)
    ensures |table| == 16
    ensures var r := LoadText(m, FileText(recs, table, eol) + (begun + [c] + rest), offset);
      r.0 == Outcome.Aborted && forall a: nat :: r.1(a) == ByteAfter(m, recs, offset, a)
  {
    TableDigit(table, 0);
    var p := After(Progress(m, U32 - 1, 0), recs, offset);
    hide Tables, ReadRecord, Decode, LineWith, ValidRec, Checksum, After, FileText, ByteAfter, IsEnd;
    RecordsLoad(Progress(m, U32 - 1, 0), recs, table, eol, begun + [c] + rest, offset);
    InterruptedLine(begun, c, rest, MAX_LINE);
    forall a: nat ensures p.memory(a) == ByteAfter(m, recs, offset, a) { AfterIs(m, recs, offset, a); }
  }

  // ---- the records of a dump ----

  lemma PairIsHex(b: byte)
    ensures Hex(b) == Pair(b, UPPER)
  {
  }

  lemma {:induction false} DigitsAreHex(bs: seq<byte>)
    ensures HexAll(bs) == Digits(bs, UPPER)
    decreases |bs|
  {
    hide UPPER, Pair, Hex;
    if bs != [] {
      HexAllFront(bs);
      PairIsHex(bs[0]);
      DigitsAreHex(bs[1..]);
    }
  }

  lemma OneMoreOctet(v: nat, n: nat)
    ensures Octets(v, 0) == [] && Octets(v, n + 1) == Octets(v / 256, n) + [v % 256]
  {
  }

  lemma OctetPair(a: nat)
    ensures Octets(a, 2) == [a / 256 % 256, a % 256]
  {
    hide Octets;
    OneMoreOctet(a / 256, 0);
    OneMoreOctet(a, 1);
  }

  lemma OctetTriple(a: nat)
    ensures Octets(a, 3) == [a / 256 / 256 % 256, a / 256 % 256, a % 256]
  {
    hide Octets;
    OctetPair(a / 256);
    OneMoreOctet(a, 2);
  }

  lemma OctetQuad(a: nat)
    ensures Octets(a, 4) == [a / 256 / 256 / 256 % 256, a / 256 / 256 % 256, a / 256 % 256, a % 256]
  {
    hide Octets;
    OctetTriple(a / 256);
    OneMoreOctet(a, 3);
  }

  lemma FieldIsOctets(r: Rec)
    requires ValidRec(r)
    ensures Octets(r.address, AddressOctets(r.kind)) == AddressField(r)
  {
    OctetPair(r.address);
    OctetTriple(r.address);
    OctetQuad(r.address);
    hide Octets;
  }

  /** The records that `saves` writes are lines in upper case with the right checksum. */
  lemma {:induction false} RecordIsLine(r: Rec)
    requires ValidRec(r)
    ensures RecordText(r.kind, r.address, r.data) == LineWith(r, Checksum(r), UPPER)
  {
    hide *;
    FieldIsOctets(r);
    FieldValue(r);
    ChecksumIs(r);
    LengthIs(r);
    LineParts(r, Checksum(r), UPPER);
    SumIs(r.kind, r.address, r.data);
    PairIsHex(LengthOctet(r));
    PairIsHex(Checksum(r));
    OneOctet(LengthOctet(r), UPPER);
    OneOctet(Checksum(r), UPPER);
    DigitsAreHex(AddressField(r));
    DigitsAreHex(r.data);
    RecordParts(r.kind, r.address, r.data);
  }

  lemma LengthIs(r: Rec)
    requires ValidRec(r)
    ensures LengthOctet(r) == |AddressField(r)| + |r.data| + 1 && |r.data| <= 250 && |UPPER| == 16
  {
  }

  lemma RecordParts(kind: char, address: nat, data: seq<byte>)
    requires |data| <= 250
    ensures var n := AddressOctets(kind);
      RecordText(kind, address, data) == ['S', kind] +
        (Hex(n + |data| + 1) + (HexAll(Octets(address, n)) + (HexAll(data) + Hex(255 - OctetSum(kind, address, data) % 256))))
  {
    hide Hex, HexAll, Octets, OctetSum;
  }

  /** What is left of n bytes behind i records. */
  function Left(n: nat, i: nat): nat {
    if 16 * i < n then n - 16 * i else 0
  }

  /** Where record i begins. */
  function At(address: nat, i: nat): (at: nat)
    ensures at < U32
  {
    (address + 16 * i) % U32
  }

  /** Record i of a dump: 16 bytes, or what is left. */
  function DumpRec(m: Memory, address: nat, n: nat, i: nat): Rec {
    var at, k := At(address, i), if Left(n, i) < 16 then Left(n, i) else 16;
    Rec('3', at, Bytes(m, at, k))
  }

  function DumpRecs(m: Memory, address: nat, n: nat, i: nat): (recs: seq<Rec>)
    ensures |recs| == i
  {
    seq(i, j requires 0 <= j => DumpRec(m, address, n, j))
  }

  lemma DumpRecIsValid(m: Memory, address: nat, n: nat, i: nat)
    ensures ValidRec(DumpRec(m, address, n, i)) && !IsEnd(DumpRec(m, address, n, i))
  {
  }

  /** Those written so far and the text of the rest. */
  function SoFar(m: Memory, address: nat, n: nat, i: nat): string {
    DumpRecsAre(m, address, n, i);
    FileText(DumpRecs(m, address, n, i), UPPER, "\n") + DataText(m, At(address, i), Left(n, i))
  }

  lemma NextAddressIs(address: nat, i: nat)
    ensures (At(address, i) + 16) % U32 == At(address, i + 1)
  {
    AddressBehind(address, 16 * i, 16);
  }

  lemma DataTextIs(m: Memory, at: nat, left: nat)
    ensures DataText(m, at, 0) == ""
    ensures left > 0 ==> var k := if left < 16 then left else 16;
      DataText(m, at, left) == RecordText('3', at, Bytes(m, at, k)) + "\n" + DataText(m, (at + k) % U32, left - k)
  {
    hide RecordText, Bytes;
  }

  lemma NextDataText(m: Memory, address: nat, n: nat, i: nat)
    requires 16 * i < n
    ensures var r := DumpRec(m, address, n, i);
      |r.data| <= 250 &&
      DataText(m, At(address, i), Left(n, i)) ==
        RecordText('3', r.address, r.data) + "\n" + DataText(m, At(address, i + 1), Left(n, i + 1))
  {
    hide RecordText, Bytes, DataText;
    NextAddressIs(address, i);
    DataTextIs(m, At(address, i), Left(n, i));
    DataTextIs(m, (At(address, i) + Left(n, i)) % U32, 0);
    DataTextIs(m, At(address, i + 1), 0);
  }

  ghost predicate AllRecs(recs: seq<Rec>) {
    forall j :: 0 <= j < |recs| ==> ValidRec(recs[j])
  }

  lemma DumpRecsAre(m: Memory, address: nat, n: nat, i: nat)
    ensures DumpRecs(m, address, n, i + 1) == DumpRecs(m, address, n, i) + [DumpRec(m, address, n, i)]
    ensures AllRecs(DumpRecs(m, address, n, i)) && AllRecs(DumpRecs(m, address, n, i + 1)) && |UPPER| == 16
  {
    forall j: nat ensures ValidRec(DumpRec(m, address, n, j)) { DumpRecIsValid(m, address, n, j); }
    hide DumpRec, ValidRec;
  }

  lemma LineMoves(front: seq<Rec>, r: Rec, rest: string)
    requires AllRecs(front) && ValidRec(r)
    ensures AllRecs(front + [r]) && |UPPER| == 16
    ensures FileText(front, UPPER, "\n") + (LineWith(r, Checksum(r), UPPER) + "\n" + rest) ==
      FileText(front + [r], UPPER, "\n") + rest
  {
    hide ValidRec, LineWith, Checksum, FileText;
    var recs := front + [r];
    assert recs[..|front|] == front;
    TextBehind(recs, UPPER, "\n", rest);
  }

  lemma SoFarIs(m: Memory, address: nat, n: nat, i: nat)
    ensures AllRecs(DumpRecs(m, address, n, i)) && |UPPER| == 16
    ensures SoFar(m, address, n, i) ==
      FileText(DumpRecs(m, address, n, i), UPPER, "\n") + DataText(m, At(address, i), Left(n, i))
  {
    DumpRecsAre(m, address, n, i);
    hide DumpRec, FileText, DataText, ValidRec;
  }

  lemma {:induction false} NextLine(m: Memory, address: nat, n: nat, i: nat)
    requires 16 * i < n
    ensures var r := DumpRec(m, address, n, i);
      ValidRec(r) && |UPPER| == 16 &&
      DataText(m, At(address, i), Left(n, i)) ==
        LineWith(r, Checksum(r), UPPER) + "\n" + DataText(m, At(address, i + 1), Left(n, i + 1))
  {
    DumpRecIsValid(m, address, n, i);
    DumpKind(m, address, n, i);
    hide DumpRec, DataText, RecordText, LineWith, Checksum, Left, ValidRec, IsEnd;
    NextDataText(m, address, n, i);
    RecordIsLine(DumpRec(m, address, n, i));
  }

  lemma {:induction false} OneMoreRecord(m: Memory, address: nat, n: nat, i: nat)
    requires 16 * i < n
    ensures SoFar(m, address, n, i) == SoFar(m, address, n, i + 1)
  {
    SoFarIs(m, address, n, i);
    SoFarIs(m, address, n, i + 1);
    DumpRecsAre(m, address, n, i);
    NextLine(m, address, n, i);
    var rest := DataText(m, At(address, i + 1), Left(n, i + 1));
    hide *;
    LineMoves(DumpRecs(m, address, n, i), DumpRec(m, address, n, i), rest);
  }

  lemma DumpKind(m: Memory, address: nat, n: nat, i: nat)
    ensures DumpRec(m, address, n, i).kind == '3'
  {
  }

  lemma {:induction false} AllRecords(m: Memory, address: nat, n: nat, i: nat)
    requires 16 * i < n + 16
    ensures SoFar(m, address, n, i) == SoFar(m, address, n, 0)
    decreases i
  {
    if i > 0 {
      hide SoFar;
      AllRecords(m, address, n, i - 1);
      OneMoreRecord(m, address, n, i - 1);
    }
  }

  /** A dump is a start record, lines of 16 bytes each with the last one taking what is left, and an end
      record. */
  lemma {:induction false} DumpIsFile(m: Memory, address: nat, n: nat)
    requires address < U32
    ensures var recs := DumpRecs(m, address, n, (n + 15) / 16);
      && |UPPER| == 16 && AllRecs(recs)
      && DumpText(m, address, n) == "S0030000FC\n" + FileText(recs, UPPER, "\n") + "S70500000000FA" + "\n"
  {
    var c := (n + 15) / 16;
    DumpParts(m, address, n);
    hide *;
    DataIsLines(m, address, n, c);
  }

  lemma {:induction false} DataIsLines(m: Memory, address: nat, n: nat, c: nat)
    requires address < U32 && c == (n + 15) / 16
    ensures AllRecs(DumpRecs(m, address, n, c)) && |UPPER| == 16
    ensures DataText(m, address, n) == FileText(DumpRecs(m, address, n, c), UPPER, "\n")
  {
    LeftIs(address, n);
    var at := At(address, c);
    hide *;
    SoFarIs(m, address, n, 0);
    SoFarIs(m, address, n, c);
    AllRecords(m, address, n, c);
    DataTextIs(m, at, 0);
    NoRecs(m, address, n);
    NoText(UPPER, "\n", DataText(m, address, n));
    WithEmpty(FileText(DumpRecs(m, address, n, c), UPPER, "\n"));
  }

  lemma NoRecs(m: Memory, address: nat, n: nat)
    ensures DumpRecs(m, address, n, 0) == []
  {
  }

  lemma LeftIs(address: nat, n: nat)
    requires address < U32
    ensures Left(n, 0) == n && Left(n, (n + 15) / 16) == 0 && At(address, 0) == address && 16 * ((n + 15) / 16) < n + 16
  {
  }

  lemma DumpParts(m: Memory, address: nat, n: nat)
    ensures DumpText(m, address, n) == "S0030000FC\n" + DataText(m, address, n) + "S70500000000FA" + "\n"
  {
    hide DataText;
    assert START + "\n" == "S0030000FC\n" && END == "S70500000000FA";
  }

  // ---- a file as it is ----

  lemma SumFirst(b: byte, bs: seq<byte>)
    ensures Sum([b] + bs) == b + Sum(bs)
  {
    SumConcat([b], bs);
    HexAllOne(b);
  }

  lemma SumFive(a: byte, b: byte, c: byte, d: byte, e: byte)
    ensures Sum([a, b, c, d, e]) == a as int + b + c + d + e
  {
    hide Sum;
    SumFirst(a, [b, c, d, e]);
    SumFirst(b, [c, d, e]);
    SumFirst(c, [d, e]);
    SumFirst(d, [e]);
    HexAllOne(e);
    assert [a] + [b, c, d, e] == [a, b, c, d, e] && [b] + [c, d, e] == [b, c, d, e];
    assert [c] + [d, e] == [c, d, e] && [d] + [e] == [d, e];
  }

  lemma DigitsFirst(b: byte, rest: seq<byte>)
    ensures Digits([b] + rest, UPPER) == Pair(b, UPPER) + Digits(rest, UPPER)
  {
    hide UPPER, Pair;
    assert ([b] + rest)[1..] == rest;
  }

  lemma DigitsThree(a: byte, b: byte, c: byte, rest: seq<byte>)
    ensures Digits([a, b, c] + rest, UPPER) == Pair(a, UPPER) + (Pair(b, UPPER) + (Pair(c, UPPER) + Digits(rest, UPPER)))
  {
    hide Digits, Pair;
    DigitsFirst(a, [b, c] + rest);
    DigitsFirst(b, [c] + rest);
    DigitsFirst(c, rest);
    assert [a] + ([b, c] + rest) == [a, b, c] + rest && [b] + ([c] + rest) == [b, c] + rest;
  }

  lemma DigitsSix(a: byte, b: byte, c: byte, d: byte, e: byte, f: byte)
    ensures Digits([a, b, c, d, e, f], UPPER) ==
      Pair(a, UPPER) + Pair(b, UPPER) + Pair(c, UPPER) + Pair(d, UPPER) + Pair(e, UPPER) + Pair(f, UPPER)
  {
    DigitsThree(a, b, c, [d, e, f]);
    DigitsThree(d, e, f, []);
    assert Digits([], UPPER) == "";
    hide Digits, UPPER, Pair;
    assert [a, b, c] + [d, e, f] == [a, b, c, d, e, f] && [d, e, f] + [] == [d, e, f];
  }

  const TWO_BYTES: Rec := Rec('1', 0x1000, [1, 2])
  const ONE_BYTE: Rec := Rec('2', 0x12_3456, [0xAB])
  const ENTRY: Rec := Rec('9', 0x1000, [])

  lemma KnownLine(r: Rec, a: byte, b: byte, c: byte, d: byte, e: byte, f: byte)
    requires ValidRec(r) && Checked(r) == [a, b, c, d, e] && f == 255 - (a as int + b + c + d + e) % 256
    ensures LineWith(r, Checksum(r), UPPER) == ['S', r.kind] +
      (Pair(a, UPPER) + Pair(b, UPPER) + Pair(c, UPPER) + Pair(d, UPPER) + Pair(e, UPPER) + Pair(f, UPPER))
  {
    SumFive(a, b, c, d, e);
    DigitsSix(a, b, c, d, e, f);
    hide Sum, Digits, UPPER, Pair, Checked, ValidRec;
    assert Checked(r) + [f] == [a, b, c, d, e, f];
  }

  lemma KnownPairs()
    ensures Pair(0, UPPER) == "00" && Pair(1, UPPER) == "01" && Pair(2, UPPER) == "02" && Pair(5, UPPER) == "05"
    ensures Pair(0x10, UPPER) == "10" && Pair(0x12, UPPER) == "12" && Pair(0x34, UPPER) == "34"
    ensures Pair(0x56, UPPER) == "56" && Pair(0xAB, UPPER) == "AB" && Pair(0xB3, UPPER) == "B3" && Pair(0xE7, UPPER) == "E7"
  {
  }

  lemma FirstKnownLine()
    ensures LineWith(TWO_BYTES, Checksum(TWO_BYTES), UPPER) == "S10510000102E7"
  {
    assert Checked(TWO_BYTES) == [5, 0x10, 0, 1, 2];
    KnownPairs();
    KnownLine(TWO_BYTES, 5, 0x10, 0, 1, 2, 0xE7);
    hide *;
  }

  lemma SecondKnownLine()
    ensures LineWith(ONE_BYTE, Checksum(ONE_BYTE), UPPER) == "S205123456ABB3"
  {
    assert Checked(ONE_BYTE) == [5, 0x12, 0x34, 0x56, 0xAB];
    KnownPairs();
    KnownLine(ONE_BYTE, 5, 0x12, 0x34, 0x56, 0xAB, 0xB3);
    hide *;
  }

  lemma LastKnownLine()
    ensures LineWith(ENTRY, Checksum(ENTRY), UPPER) == "S9031000EC"
  {
    assert Checked(ENTRY) == [3, 0x10, 0];
    assert Sum([3, 0x10, 0]) == 0x13 by {
      HexAllOne(0);
      SumFirst(0x10, [0]);
      SumFirst(3, [0x10, 0]);
      assert [0x10] + [0] == [0x10, 0] && [3] + [0x10, 0] == [3, 0x10, 0];
    }
    DigitsThree(3, 0x10, 0, [0xEC]);
    OneOctet(0xEC, UPPER);
    hide Sum, Digits;
    assert [3, 0x10, 0] + [0xEC] == Checked(ENTRY) + [0xEC];
  }

  lemma KnownText()
    ensures FileText([TWO_BYTES, ONE_BYTE], UPPER, "\n") == "S10510000102E7\nS205123456ABB3\n"
  {
    FirstKnownLine();
    SecondKnownLine();
    var recs := [TWO_BYTES, ONE_BYTE];
    hide LineWith, Checksum;
    assert recs[..1] == [TWO_BYTES] && [TWO_BYTES][..0] == [];
    assert FileText([], UPPER, "\n") == "";
    assert FileText([TWO_BYTES], UPPER, "\n") == "" + ("S10510000102E7" + "\n");
  }

  /** Three lines with addresses of two lengths. */
  lemma {:induction false} KnownFileLoaded(m: Memory)
    ensures var r := LoadText(m, "S10510000102E7\nS205123456ABB3\nS9031000EC\n", 0);
      && r.0 == Done(0x1000, 0x12_2457)
      && forall a: nat :: r.1(a) == if a == 0x1000 then 1 else if a == 0x1001 then 2 else if a == 0x12_3456 then 0xAB else m(a)
  {
    var recs := [TWO_BYTES, ONE_BYTE];
    KnownText();
    LastKnownLine();
    KnownTail();
    KnownFile();
    hide *;
    FileLoaded(m, recs, ENTRY, UPPER, "\n", "", 0);
    KnownMeaning(m);
  }

  lemma KnownTail()
    ensures "S10510000102E7\nS205123456ABB3\n" + ("S9031000EC" + "\n" + "") == "S10510000102E7\nS205123456ABB3\nS9031000EC\n"
  {
  }

  lemma KnownFile()
    ensures ValidFile([TWO_BYTES, ONE_BYTE], UPPER, "\n") && ValidRec(ENTRY) && IsEnd(ENTRY) && |UPPER| == 16
  {
  }

  lemma MeaningOfLast(m: Memory, front: seq<Rec>, r: Rec, a: nat)
    ensures ByteAfter(m, front + [r], 0, a) ==
      if Covers(r, 0, a) then r.data[(a - r.address) % U32] else ByteAfter(m, front, 0, a)
    ensures FirstAddress(front + [r], 0) ==
      if IsData(r) && r.address % U32 < FirstAddress(front, 0) then r.address % U32 else FirstAddress(front, 0)
    ensures LastAddress(front + [r], 0) ==
      var e := (r.address + |r.data| - 1) % U32;
      if IsData(r) && e > LastAddress(front, 0) then e else LastAddress(front, 0)
  {
    assert (front + [r])[..|front|] == front;
  }

  lemma NoMeaning(m: Memory, a: nat)
    ensures ByteAfter(m, [], 0, a) == m(a) && FirstAddress([], 0) == 0xFFFF_FFFF && LastAddress([], 0) == 0
  {
  }

  lemma KnownMeaning(m: Memory)
    ensures var recs := [TWO_BYTES, ONE_BYTE];
      && FirstAddress(recs, 0) == 0x1000 && LastAddress(recs, 0) == 0x12_3456 && ENTRY.address == 0x1000
      && (0x12_3456 - 0x1000 + 1) % U32 == 0x12_2457
      && forall a: nat :: ByteAfter(m, recs, 0, a) ==
           if a == 0x1000 then 1 else if a == 0x1001 then 2 else if a == 0x12_3456 then 0xAB else m(a)
  {
    hide ByteAfter, FirstAddress, LastAddress;
    assert [] + [TWO_BYTES] == [TWO_BYTES] && [TWO_BYTES] + [ONE_BYTE] == [TWO_BYTES, ONE_BYTE];
    NoMeaning(m, 0);
    MeaningOfLast(m, [], TWO_BYTES, 0);
    MeaningOfLast(m, [TWO_BYTES], ONE_BYTE, 0);
    forall a: nat ensures ByteAfter(m, [TWO_BYTES, ONE_BYTE], 0, a) ==
      if a == 0x1000 then 1 else if a == 0x1001 then 2 else if a == 0x12_3456 then 0xAB else m(a)
    {
      NoMeaning(m, a);
      MeaningOfLast(m, [], TWO_BYTES, a);
      MeaningOfLast(m, [TWO_BYTES], ONE_BYTE, a);
    }
  }
}
