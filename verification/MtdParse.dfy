/**
 The mtdparts text: parsing it into devices and partitions, and generating it from them
 (cmd_jffs2.c).
 */
module MtdParse {
  import opened Common
  import opened MtdText
  import opened PartCheck

  const MIN_PART_SIZE: nat := 4096
  const OFFSET_NOT_SPECIFIED: nat := 0xFFFF_FFFF

  /** A partition; without a name of its own it gets one made from its size and offset, which is
      not kept here. */
  datatype Part = Part(size: nat, offset: nat, name: Option<string>, ro: bool)

  /** A device with its partitions and their number. */
  datatype Device = Device(id: Id, parts: seq<Part>, numParts: nat)

  /** What identifies a device: its type and number. */
  datatype Key = Key(nor: bool, num: nat)

  function KeyOf(id: Id): Key {
    Key(id.chip.Nor?, id.num)
  }

  /** The known devices; their numbers have 8 bits. */
  ghost predicate ValidIds(ids: seq<Id>) {
    forall i :: 0 <= i < |ids| ==> ids[i].Valid() && ids[i].num < 256
  }

  /** The first position of c in the text, or its length. */
  function IndexOf(s: string, c: char): (k: nat)
    ensures k <= |s| && c !in s[..k] && (k < |s| ==> s[k] == c)
  {
    if s == "" || s[0] == c then 0 else 1 + IndexOf(s[1..], c)
  }

  function FindByName(ids: seq<Id>, name: string): (r: Option<Id>)
    ensures r.Some? ==> r.value in ids && r.value.name == name
  {
    if ids == [] then None
    else if ids[0].name == name then Some(ids[0])
    else FindByName(ids[1..], name)
  }

  function FindDevice(devices: seq<Device>, key: Key): (k: int)
    ensures -1 <= k < |devices|
    ensures k >= 0 ==> KeyOf(devices[k].id) == key
    ensures k < 0 ==> forall i :: 0 <= i < |devices| ==> KeyOf(devices[i].id) != key
  {
    if devices == [] then -1
    else if KeyOf(devices[0].id) == key then 0
    else
      var k := FindDevice(devices[1..], key);
      if k < 0 then -1 else k + 1
  }

  // ---- parsing ----

  /** "(name)": the name and the text behind it, None if there is no name, or an error. */
  datatype NameResult = NameError | Named(name: Option<string>, rest: string)

  function ParseName(s: string): (r: NameResult)
    ensures r.Named? ==> |r.rest| <= |s|
    ensures r.Named? && r.name.Some? ==> r.name.value != "" && ')' !in r.name.value
  {
    if !StartsWith(s, '(') then Named(None, s)
    else
      var k := IndexOf(s[1..], ')');
      if k == |s| - 1 || k == 0 then NameError
      else Named(Some(s[1..][..k]), s[1..][k + 1..])
  }

  predicate StartsRo(s: string) {
    |s| >= 2 && s[0] == 'r' && s[1] == 'o'
  }

  /** One partition definition: the partition, whose size may stand for all remaining space and
      whose offset may be left out, and the text behind it (behind the comma, if there is one). */
  function ParsePart(s: string): (r: Option<(Part, string)>)
    ensures r.Some? ==> |r.value.1| < |s| && r.value.0.size < U32 && r.value.0.offset < U32
    ensures r.Some? ==> r.value.0.size >= MIN_PART_SIZE
    ensures r.Some? && r.value.0.name.Some? ==> r.value.0.name.value != "" && ')' !in r.value.0.name.value
  {
    var (size, s1) := if StartsWith(s, '-') then (SIZE_REMAINING, s[1..]) else MemsizeParse(s);
    if size < MIN_PART_SIZE then None
    else
      var (offset, s2) := if StartsWith(s1, '@') then MemsizeParse(s1[1..]) else (OFFSET_NOT_SPECIFIED, s1);
      match ParseName(s2)
      case NameError => None
      case Named(name, s3) =>
        var ro := StartsRo(s3);
        var s4 := if ro then s3[2..] else s3;
        var part := Part(size, offset, name, ro);
        if StartsWith(s4, ',') then
          if size == SIZE_REMAINING then None else Some((part, s4[1..]))
        else if s4 == "" || s4[0] == ';' then Some((part, s4))
        else None
  }

  /** The partition with its offset filled in and its size checked against the device. */
  function Place(id: Id, part: Part, offset: nat): (r: Option<Part>)
    requires id.Valid() && part.size < U32 && part.offset < U32 && offset < U32
    ensures r.Some? ==> 0 < r.value.size && r.value.offset + r.value.size <= id.size
    ensures r.Some? ==> PartValidate(id, r.value.offset, r.value.size) == Some(r.value.size)
    ensures r.Some? ==> r.value.name == part.name
    ensures r.Some? && part.size != SIZE_REMAINING ==> r.value.size == part.size
  {
    var o := if part.offset == OFFSET_NOT_SPECIFIED then offset else part.offset;
    var v := PartValidate(id, o, part.size);
    if v.None? then None
    else AcceptedFits(id, o, part.size); Some(part.(offset := o, size := v.value))
  }

  /** The partitions up to a semicolon or the end; the first one without offset starts at `offset`. */
  function ParseParts(id: Id, s: string, offset: nat): (r: Option<(seq<Part>, string)>)
    requires id.Valid() && offset < U32
    ensures r.Some? ==> |r.value.1| <= |s| && (r.value.1 == "" || r.value.1[0] == ';')
    ensures r.Some? ==> forall i :: 0 <= i < |r.value.0| ==> FitsDevice(id, r.value.0[i])
    decreases |s|
  {
    if s == "" || s[0] == ';' then Some(([], s))
    else
      var p := ParsePart(s);
      if p.None? then None
      else
        var part := Place(id, p.value.0, offset);
        if part.None? then None
        else
          var rest := ParseParts(id, p.value.1, part.value.offset + part.value.size);
          if rest.None? then None else Some(([part.value] + rest.value.0, rest.value.1))
  }

  /** What every partition in the table satisfies. */
  predicate FitsDevice(id: Id, p: Part)
    requires id.Valid()
  {
    && 0 < p.size && p.offset + p.size <= id.size
    && PartValidate(id, p.offset, p.size) == Some(p.size)
    && (p.name.Some? ==> p.name.value != "" && ')' !in p.name.value)
  }

  /** Adds a partition to a list in the order of offsets, before the first one with the same or a
      higher offset; only one partition may be at offset 0. */
  function SortAdd(parts: seq<Part>, p: Part): (r: Option<seq<Part>>)
    ensures r.Some? ==> |r.value| == |parts| + 1
  {
    if parts == [] then Some([p])
    else if p.offset == parts[0].offset == 0 then None
    else if p.offset <= parts[0].offset then Some([p] + parts)
    else
      var rest := SortAdd(parts[1..], p);
      if rest.None? then None else Some([parts[0]] + rest.value)
  }

  function SortAll(parts: seq<Part>): (r: Option<seq<Part>>)
    ensures r.Some? ==> |r.value| == |parts|
  {
    if parts == [] then Some([])
    else
      var front := SortAll(parts[..|parts| - 1]);
      if front.None? then None else SortAdd(front.value, parts[|parts| - 1])
  }

  /** The end of the last partition of a device that is already in the table, else 0. */
  function StartOffset(devices: seq<Device>, key: Key): (r: nat)
    ensures r < U32
  {
    var k := FindDevice(devices, key);
    if k < 0 || devices[k].parts == [] then 0
    else
      var last := devices[k].parts[|devices[k].parts| - 1];
      (last.offset + last.size) % U32
  }

  /** One device definition, and the text behind it (behind the semicolon, if there is one). */
  function ParseDevice(ids: seq<Id>, devices: seq<Device>, s: string): (r: Option<(Device, string)>)
    requires ValidIds(ids)
    ensures r.Some? ==> |r.value.1| < |s|
  {
    var k := IndexOf(s, ':');
    if k == |s| then None
    else
      var id := FindByName(ids, s[..k]);
      if id.None? then None
      else
        var parts := ParseParts(id.value, s[k + 1..], StartOffset(devices, KeyOf(id.value)));
        if parts.None? || parts.value.0 == [] then None
        else
          var rest := parts.value.1;
          var sorted := SortAll(parts.value.0);
          if sorted.None? then None
          else Some((Device(id.value, sorted.value, |sorted.value|), if rest == "" then rest else rest[1..]))
  }

  /** How many partitions go into the sorted list before one is refused. */
  function SortedCount(parts: seq<Part>): (n: nat)
    ensures n <= |parts|
  {
    if parts == [] then 0
    else
      var front := parts[..|parts| - 1];
      if SortAll(front).None? then SortedCount(front)
      else if SortAll(parts).None? then |front| else |parts|
  }

  /** How often the partitions are numbered anew while a device definition is read: for every
      partition that is sorted in, and when a refused one makes the device be dropped. */
  function Renumberings(ids: seq<Id>, devices: seq<Device>, s: string): nat
    requires ValidIds(ids)
  {
    var k := IndexOf(s, ':');
    var id := if k < |s| then FindByName(ids, s[..k]) else None;
    if id.None? then 0
    else
      var parts := ParseParts(id.value, s[k + 1..], StartOffset(devices, KeyOf(id.value)));
      if parts.None? then 0
      else SortedCount(parts.value.0) + if SortAll(parts.value.0).None? then 1 else 0
  }

  /** The devices of a table text, added to those already read. */
  function ParseDevices(ids: seq<Id>, devices: seq<Device>, s: string): Option<seq<Device>>
    requires ValidIds(ids)
    decreases |s|
  {
    if s == "" then Some(devices)
    else
      var d := ParseDevice(ids, devices, s);
      if d.None? || FindDevice(devices, KeyOf(d.value.0.id)) >= 0 then None
      else ParseDevices(ids, devices + [d.value.0], d.value.1)
  }

  const PREFIX: string := "mtdparts="

  function ParseTable(ids: seq<Id>, s: string): Option<seq<Device>>
    requires ValidIds(ids)
  {
    if |s| > 9 && s[..9] == PREFIX then ParseDevices(ids, [], s[9..]) else None
  }

  // ---- generating ----

  /** One partition; the offset is left out if the partition begins where the one before it ends. */
  function PartText(p: Part, expected: nat): string {
    MemsizeFormat(p.size)
    + (if p.offset != expected then "@" + MemsizeFormat(p.offset) else "")
    + (if p.name.Some? then "(" + p.name.value + ")" else "")
    + (if p.ro then "ro" else "")
  }

  function PartsText(parts: seq<Part>, expected: nat): string {
    if parts == [] then ""
    else
      PartText(parts[0], expected) + (if |parts| > 1 then "," else "")
      + PartsText(parts[1..], (parts[0].offset + parts[0].size) % U32)
  }

  function DevicesText(devices: seq<Device>): string {
    if devices == [] then ""
    else
      devices[0].id.name + ":" + PartsText(devices[0].parts, 0) + (if |devices| > 1 then ";" else "")
      + DevicesText(devices[1..])
  }

  function TableText(devices: seq<Device>): string {
    if devices == [] then "" else PREFIX + DevicesText(devices)
  }
}
