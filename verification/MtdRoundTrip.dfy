/**
 Parsing the generated mtdparts text: it yields the devices and partitions it was generated from,
 except that partitions at the same offset come back in reverse order.
 */
module MtdRoundTrip {
  import opened Common
  import opened MtdText
  import opened PartCheck
  import opened MtdParse

  /** A text that can follow a partition. */
  predicate PartEnd(s: string) {
    s == "" || s[0] == ',' || s[0] == ';'
  }

  lemma {:induction false} IndexOfFirst(a: string, c: char, b: string)
    requires c !in a
    ensures IndexOf(a + [c] + b, c) == |a|
  {
    var s, k := a + [c] + b, IndexOf(a + [c] + b, c);
    assert s[|a|] == c && s[..|a|] == a;
    assert forall i :: 0 <= i < k ==> s[..k][i] == s[i];
    assert forall i :: 0 <= i < |a| ==> s[i] == a[i];
  }

  function OffsetText(p: Part, expected: nat): string {
    if p.offset != expected then "@" + MemsizeFormat(p.offset) else ""
  }

  function NameText(p: Part): string {
    if p.name.Some? then "(" + p.name.value + ")" else ""
  }

  function RoText(p: Part): string {
    if p.ro then "ro" else ""
  }

  lemma PartTextIs(p: Part, expected: nat, tail: string)
    ensures PartText(p, expected) + tail ==
      MemsizeFormat(p.size) + (OffsetText(p, expected) + (NameText(p) + (RoText(p) + tail)))
  {
  }

  lemma {:induction false} NameRead(p: Part, rest: string)
    requires p.name.Some? ==> p.name.value != "" && ')' !in p.name.value
    requires !StartsWith(rest, '(')
    ensures ParseName(NameText(p) + rest) == Named(p.name, rest)
  {
    if p.name.Some? {
      var n := p.name.value;
      var s := NameText(p) + rest;
      assert s[1..] == n + [')'] + rest;
      IndexOfFirst(n, ')', rest);
      assert s[1..][..|n|] == n && s[1..][|n| + 1..] == rest;
    } else {
      assert NameText(p) + rest == rest;
    }
  }

  lemma RoRead(p: Part, tail: string)
    requires PartEnd(tail)
    ensures var s := RoText(p) + tail;
      && (StartsRo(s) <==> p.ro) && (if p.ro then s[2..] == tail else s == tail)
      && !StartsWith(s, '(') && Delimited(s) && !StartsWith(s, '@')
  {
  }

  lemma NameTextStart(p: Part, rest: string)
    requires Delimited(rest) && !StartsWith(rest, '@')
    ensures Delimited(NameText(p) + rest) && !StartsWith(NameText(p) + rest, '@')
  {
    assert p.name.None? ==> NameText(p) + rest == rest;
  }

  /** What the text of a partition is parsed into: an offset that was not written is missing. */
  function Written(p: Part, expected: nat): Part {
    if p.offset != expected then p else p.(offset := OFFSET_NOT_SPECIFIED)
  }

  lemma {:induction false} OffsetRead(p: Part, expected: nat, rest: string)
    requires p.offset < U32 && Delimited(rest) && !StartsWith(rest, '@')
    ensures var s := OffsetText(p, expected) + rest;
      && Delimited(s)
      && (if StartsWith(s, '@') then MemsizeParse(s[1..]) else (OFFSET_NOT_SPECIFIED, s))
         == (Written(p, expected).offset, rest)
  {
    var s := OffsetText(p, expected) + rest;
    if p.offset != expected {
      assert s[1..] == MemsizeFormat(p.offset) + rest;
      MemsizeRoundTrip(p.offset, rest);
    } else {
      assert s == rest;
    }
  }

  lemma {:induction false} SizeRead(size: nat, rest: string)
    requires size < U32 && Delimited(rest)
    ensures var s := MemsizeFormat(size) + rest;
      !StartsWith(s, '-') && MemsizeParse(s) == (size, rest)
  {
    MemsizeRoundTrip(size, rest);
    assert IsDigit(MemsizeFormat(size)[0]);
  }

  /** Parsing the text of one partition. */
  lemma {:induction false} PartRead(p: Part, expected: nat, tail: string)
    requires MIN_PART_SIZE <= p.size < SIZE_REMAINING && p.offset < U32 && PartEnd(tail)
    requires p.name.Some? ==> p.name.value != "" && ')' !in p.name.value
    ensures ParsePart(PartText(p, expected) + tail) ==
      Some((Written(p, expected), if StartsWith(tail, ',') then tail[1..] else tail))
  {
    var s4 := RoText(p) + tail;
    var s3 := NameText(p) + s4;
    var s2 := OffsetText(p, expected) + s3;
    PartTextIs(p, expected, tail);
    RoRead(p, tail);
    NameRead(p, s4);
    NameTextStart(p, s4);
    OffsetRead(p, expected, s3);
    SizeRead(p.size, s2);
  }

  /** A partition that can be written and read again: it was not made smaller than the minimum by
      taking all remaining space. */
  ghost predicate Rewritable(id: Id, parts: seq<Part>)
    requires id.Valid()
  {
    forall i :: 0 <= i < |parts| ==> FitsDevice(id, parts[i]) && parts[i].size >= MIN_PART_SIZE
  }

  lemma {:induction false} PlaceWritten(id: Id, p: Part, expected: nat)
    requires id.Valid() && FitsDevice(id, p) && p.size >= MIN_PART_SIZE && expected < U32
    ensures Place(id, Written(p, expected), expected) == Some(p)
  {
  }

  /** What follows the first partition of a list. */
  function AfterFirst(parts: seq<Part>, tail: string): string
    requires parts != []
  {
    (if |parts| > 1 then "," else "") + (PartsText(parts[1..], (parts[0].offset + parts[0].size) % U32) + tail)
  }

  lemma {:induction false} PartsTextSplit(parts: seq<Part>, expected: nat, tail: string)
    requires parts != [] && (tail == "" || tail[0] == ';')
    ensures PartsText(parts, expected) + tail == PartText(parts[0], expected) + AfterFirst(parts, tail)
    ensures var after, rest := AfterFirst(parts, tail), PartsText(parts[1..], (parts[0].offset + parts[0].size) % U32) + tail;
      PartEnd(after) && (if StartsWith(after, ',') then after[1..] else after) == rest
  {
    hide PartText;
    var first, next := PartText(parts[0], expected), (parts[0].offset + parts[0].size) % U32;
    var sep, more := if |parts| > 1 then "," else "", PartsText(parts[1..], next);
    assert PartsText(parts, expected) == first + sep + more;
    Associate4(first, sep, more, tail);
    Separated(sep, more + tail);
    if |parts| == 1 {
      assert parts[1..] == [] && more == "";
    }
  }

  /** What follows a separator, or no separator. */
  lemma Separated(sep: string, more: string)
    ensures |sep| == 1 ==> (sep + more)[1..] == more
    ensures sep == "" ==> sep + more == more
  {
  }

  lemma {:induction false} ParsePartsStep(id: Id, s: string, offset: nat, raw: Part, rest: string, p: Part)
    requires id.Valid() && offset < U32 && s != "" && s[0] != ';'
    requires ParsePart(s) == Some((raw, rest)) && Place(id, raw, offset) == Some(p)
    ensures var r := ParseParts(id, rest, p.offset + p.size);
      ParseParts(id, s, offset) == if r.None? then None else Some(([p] + r.value.0, r.value.1))
  {
    hide ParsePart, Place, PartValidate;
  }

  lemma {:induction false} NoPartsRead(id: Id, expected: nat, tail: string)
    requires id.Valid() && expected < U32 && (tail == "" || tail[0] == ';')
    ensures ParseParts(id, PartsText([], expected) + tail, expected) == Some(([], tail))
  {
    assert PartsText([], expected) + tail == tail;
  }

  lemma {:induction false} PartsRead(id: Id, parts: seq<Part>, expected: nat, tail: string)
    requires id.Valid() && Rewritable(id, parts) && expected < U32
    requires tail == "" || tail[0] == ';'
    ensures ParseParts(id, PartsText(parts, expected) + tail, expected) == Some((parts, tail))
    decreases |parts|
  {
    hide ParsePart, PartText, Place, PartValidate, PartsText, ParseParts, AfterFirst;
    if parts == [] {
      NoPartsRead(id, expected, tail);
    } else {
      assert Rewritable(id, parts[1..]);
      var p, after := parts[0], AfterFirst(parts, tail);
      PartsTextSplit(parts, expected, tail);
      PartRead(p, expected, after);
      PlaceWritten(id, p, expected);
      PartsRead(id, parts[1..], p.offset + p.size, tail);
      TextStarts(p, expected, after);
      ParsePartsStep(id, PartText(p, expected) + after, expected, Written(p, expected),
        PartsText(parts[1..], p.offset + p.size) + tail, p);
      assert parts == [p] + parts[1..];
    }
  }

  lemma TextStarts(p: Part, expected: nat, after: string)
    ensures var s := PartText(p, expected) + after; s != "" && s[0] != ';' && IsDigit(s[0])
  {
    PartTextIs(p, expected, after);
    assert IsDigit(MemsizeFormat(p.size)[0]);
  }

  // ---- devices ----

  /** A device that is found again by its name. */
  ghost predicate Findable(ids: seq<Id>, d: Device)
  {
    ValidIds(ids) && ':' !in d.id.name && FindByName(ids, d.id.name) == Some(d.id) && d.id.Valid()
  }

  /** The device as it comes back: its partitions sorted in again. */
  function Resorted(d: Device): Option<Device> {
    var q := SortAll(d.parts);
    if q.None? then None else Some(Device(d.id, q.value, |q.value|))
  }

  lemma {:induction false} DeviceRead(ids: seq<Id>, done: seq<Device>, d: Device, tail: string)
    requires Findable(ids, d) && Rewritable(d.id, d.parts) && d.parts != [] && FindDevice(done, KeyOf(d.id)) < 0
    requires tail == "" || tail[0] == ';'
    ensures ParseDevice(ids, done, d.id.name + ":" + PartsText(d.parts, 0) + tail) ==
      (match Resorted(d) case None => None case Some(r) => Some((r, if tail == "" then tail else tail[1..])))
  {
    hide PartsText, ParseParts;
    var name, text := d.id.name, PartsText(d.parts, 0) + tail;
    var s := name + ":" + PartsText(d.parts, 0) + tail;
    assert s == name + [':'] + text;
    IndexOfFirst(name, ':', text);
    assert s[..|name|] == name && s[|name| + 1..] == text;
    PartsRead(d.id, d.parts, 0, tail);
  }

  /** Every device as it comes back. */
  function AllResorted(devices: seq<Device>): Option<seq<Device>> {
    if devices == [] then Some([])
    else
      var r, rest := Resorted(devices[0]), AllResorted(devices[1..]);
      if r.None? || rest.None? then None else Some([r.value] + rest.value)
  }

  /** A table whose text can be read again. */
  ghost predicate Regenerable(ids: seq<Id>, devices: seq<Device>) {
    && ValidIds(ids)
    && (forall i :: 0 <= i < |devices| ==>
          Findable(ids, devices[i]) && Rewritable(devices[i].id, devices[i].parts) && devices[i].parts != [])
    && (forall i, j :: 0 <= i < j < |devices| ==> KeyOf(devices[i].id) != KeyOf(devices[j].id))
  }

  ghost predicate NewKeys(done: seq<Device>, devices: seq<Device>) {
    forall i, j :: 0 <= i < |done| && 0 <= j < |devices| ==> KeyOf(done[i].id) != KeyOf(devices[j].id)
  }

  lemma {:induction false} DevicesTextSplit(devices: seq<Device>)
    requires devices != []
    ensures var d, tail := devices[0], (if |devices| > 1 then ";" else "") + DevicesText(devices[1..]);
      && DevicesText(devices) == d.id.name + ":" + PartsText(d.parts, 0) + tail
      && (tail == "" || tail[0] == ';')
      && (if tail == "" then tail else tail[1..]) == DevicesText(devices[1..])
  {
    hide PartsText;
    var d, sep, more := devices[0], if |devices| > 1 then ";" else "", DevicesText(devices[1..]);
    assert DevicesText(devices) == d.id.name + ":" + PartsText(d.parts, 0) + sep + more;
    Associate(d.id.name + ":" + PartsText(d.parts, 0), sep, more);
    Separated(sep, more);
    if |devices| == 1 {
      assert devices[1..] == [] && more == "";
    }
  }

  lemma {:induction false} RegenerableRest(ids: seq<Id>, done: seq<Device>, devices: seq<Device>, r: Device)
    requires Regenerable(ids, devices) && NewKeys(done, devices) && devices != [] && r.id == devices[0].id
    ensures Regenerable(ids, devices[1..]) && NewKeys(done + [r], devices[1..])
  {
    hide Findable, Rewritable;
    var rest := devices[1..];
    assert forall i :: 0 <= i < |rest| ==> rest[i] == devices[i + 1];
  }

  lemma {:induction false} DevicesRead(ids: seq<Id>, done: seq<Device>, devices: seq<Device>)
    requires Regenerable(ids, devices) && NewKeys(done, devices)
    ensures ParseDevices(ids, done, DevicesText(devices)) ==
      (match AllResorted(devices) case None => None case Some(r) => Some(done + r))
    decreases |devices|
  {
    assert ValidIds(ids);
    hide ValidIds, ParseDevice, PartsText, Regenerable, NewKeys, DevicesText, SortAll, FindDevice;
    if devices == [] {
      NoDevicesRead(ids, done);
    } else {
      var d, rest := devices[0], devices[1..];
      var tail := (if |devices| > 1 then ";" else "") + DevicesText(rest);
      DevicesTextSplit(devices);
      FirstIsNew(ids, done, devices);
      DeviceRead(ids, done, d, tail);
      if Resorted(d).Some? {
        var r := Resorted(d).value;
        RegenerableRest(ids, done, devices, r);
        DevicesRead(ids, done + [r], rest);
        if AllResorted(rest).Some? { RegroupDevices(done, r, AllResorted(rest).value); }
      }
    }
  }

  lemma NoDevicesRead(ids: seq<Id>, done: seq<Device>)
    requires ValidIds(ids)
    ensures DevicesText([]) == "" && ParseDevices(ids, done, "") == Some(done) && AllResorted([]) == Some([]) && done + [] == done
  {
  }

  lemma FirstIsNew(ids: seq<Id>, done: seq<Device>, devices: seq<Device>)
    requires Regenerable(ids, devices) && NewKeys(done, devices) && devices != []
    ensures var d := devices[0];
      Findable(ids, d) && Rewritable(d.id, d.parts) && d.parts != [] && FindDevice(done, KeyOf(d.id)) < 0 && d.id.Valid()
  {
    hide Rewritable, FindDevice;
    var k := FindDevice(done, KeyOf(devices[0].id));
  }

  lemma RegroupDevices(a: seq<Device>, r: Device, b: seq<Device>)
    ensures a + [r] + b == a + ([r] + b)
  {
  }

  /** Parsing the generated text of a table yields its devices, in order, each with its partitions
      sorted in again in their order. */
  lemma {:induction false} TableRead(ids: seq<Id>, devices: seq<Device>)
    requires Regenerable(ids, devices) && devices != []
    ensures ParseTable(ids, TableText(devices)) == AllResorted(devices)
  {
    hide ParseDevice, PartsText, SortAll;
    var s := TableText(devices);
    DevicesTextSplit(devices);
    assert |DevicesText(devices)| > 0;
    assert s[..9] == PREFIX && s[9..] == DevicesText(devices);
    DevicesRead(ids, [], devices);
    if AllResorted(devices).Some? { assert [] + AllResorted(devices).value == AllResorted(devices).value; }
  }
}
