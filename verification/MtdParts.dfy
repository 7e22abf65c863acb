/**
 The partition commands as they work: parsers that move an index through the text, sorted lists that
 are walked and updated, and the generated text with its length budget.
 */
module MtdParts {
  import opened Common
  import opened FlashSpec
  import opened MtdText
  import opened PartCheck
  import opened MtdParse
  import opened MtdRoundTrip
  import opened MtdTable
  import opened MtdEnv

  // ---- parsing ----

  /** The digits at index p in the given base. */
  method ReadNumber(s: string, p: nat, base: nat) returns (v: nat, q: nat)
    requires p <= |s| && base <= 16
    ensures p <= q <= |s| && v < U32 && (v, s[q..]) == ReadDigits(s[p..], base, 0)
  {
    v, q := 0, p;
    while q < |s| && IsXDigit(s[q]) && DigitValue(s[q]) < base
      invariant p <= q <= |s| && v < U32
      invariant ReadDigits(s[q..], base, v) == ReadDigits(s[p..], base, 0)
    {
      assert s[q..][0] == s[q] && s[q..][1..] == s[q + 1..];
      v := (v * base + DigitValue(s[q])) % U32;
      q := q + 1;
    }
  }

  method SimpleStrtoul(s: string, p: nat) returns (v: nat, q: nat)
    requires p <= |s|
    ensures p <= q <= |s| && v < U32 && (v, s[q..]) == Strtoul(s[p..])
  {
    hide ReadDigits;
    q := p;
    var base := 10;
    if q < |s| && s[q] == '0' {
      q := q + 1;
      base := 8;
      assert s[p..][1..] == s[q..];
      if q + 1 < |s| && s[q] == 'x' && IsXDigit(s[q + 1]) {
        assert s[p..][1] == s[q] && s[p..][2] == s[q + 1] && s[p..][2..] == s[q + 1..];
        base := 16;
        q := q + 1;
      }
    }
    v, q := ReadNumber(s, q, base);
  }

  method ParseMemsize(s: string, p: nat) returns (v: nat, q: nat)
    requires p <= |s|
    ensures p <= q <= |s| && v < U32 && (v, s[q..]) == MemsizeParse(s[p..])
  {
    hide Strtoul;
    v, q := SimpleStrtoul(s, p);
    if q < |s| {
      assert s[q..][0] == s[q] && s[q..][1..] == s[q + 1..];
      if s[q] == 'G' || s[q] == 'g' || s[q] == 'M' || s[q] == 'm' || s[q] == 'K' || s[q] == 'k' {
        v := Scale(v, s[q]);
        q := q + 1;
      }
    }
  }

  /** The shifts that a suffix stands for: G falls through to M and M to K. */
  method Scale(v0: nat, c: char) returns (v: nat)
    requires v0 < U32 && Suffix(c) > 1
    ensures v == v0 * Suffix(c) % U32
  {
    v := v0;
    Shifts(v0);
    if c == 'G' || c == 'g' {
      v := v * 1024 % U32;
    }
    if c == 'G' || c == 'g' || c == 'M' || c == 'm' {
      v := v * 1024 % U32;
    }
    v := v * 1024 % U32;
  }

  lemma Shifts(v: nat)
    ensures v * 1024 % U32 * 1024 % U32 == v * 0x10_0000 % U32
    ensures v * 1024 % U32 * 1024 % U32 * 1024 % U32 == v * 0x4000_0000 % U32
  {
    ShiftOnce(v * 1024);
    ShiftOnce(v * 0x10_0000);
  }

  lemma ShiftOnce(w: nat)
    ensures w % U32 * 1024 % U32 == w * 1024 % U32
  {
    var k, r := w / U32, w % U32;
    assert w * 1024 == k * 1024 * U32 + r * 1024;
    ModOfSum(k * 1024, r * 1024);
  }

  lemma ModOfSum(k: nat, x: nat)
    ensures (k * U32 + x) % U32 == x % U32
  {
  }

  /** The device id at the start of the text, and where it ends. */
  method IdParse(s: string) returns (r: Option<Key>, q: nat)
    ensures q <= |s|
    ensures match ParseId(s)
      case None => r == None
      case Some((key, rest)) => r == Some(key) && s[q..] == rest
  {
    hide Strtoul;
    q := 0;
    var nor := false;
    if |s| >= 4 && s[..4] == "nand" {
      q := 4;
    } else if |s| >= 3 && s[..3] == "nor" {
      nor, q := true, 3;
    } else {
      return None, q;
    }
    if !(q < |s| && IsDigit(s[q])) {
      return None, q;
    }
    assert s[q..] != "" && s[q..][0] == s[q];
    var num;
    num, q := SimpleStrtoul(s, q);
    r := Some(Key(nor, num % 256));
  }

  /** The index of the next c, or the end of the text. */
  method Strchr(s: string, p: nat, c: char) returns (q: nat)
    requires p <= |s|
    ensures p <= q <= |s| && q == p + IndexOf(s[p..], c)
  {
    q := p;
    while q < |s| && s[q] != c
      invariant p <= q <= |s| && q + IndexOf(s[q..], c) == p + IndexOf(s[p..], c)
    {
      assert s[q..][0] == s[q] && s[q..][1..] == s[q + 1..];
      q := q + 1;
    }
  }

  /** The name in parentheses at index p, if there is one. */
  method ParsePartName(s: string, p: nat) returns (ok: bool, name: Option<string>, q: nat)
    requires p <= |s|
    ensures p <= q <= |s|
    ensures match ParseName(s[p..])
      case NameError => !ok
      case Named(n, rest) => ok && name == n && s[q..] == rest
  {
    ok, name, q := true, None, p;
    if p < |s| && s[p] == '(' {
      var end := Strchr(s, p + 1, ')');
      assert s[p..][1..] == s[p + 1..];
      if end == |s| || end == p + 1 {
        return false, None, p;
      }
      assert s[p + 1..][..end - p - 1] == s[p + 1..end];
      assert s[p + 1..][end - p - 1 + 1..] == s[end + 1..];
      name, q := Some(s[p + 1..end]), end + 1;
    }
  }

  /** The partition definition at index p. */
  method ParsePartition(s: string, p: nat) returns (r: Option<Part>, q: nat)
    requires p <= |s|
    ensures p <= q <= |s|
    ensures match ParsePart(s[p..])
      case None => r == None
      case Some((part, rest)) => r == Some(part) && s[q..] == rest
  {
    hide MemsizeParse, ParseName;
    var size, offset;
    if p < |s| && s[p] == '-' {
      size, q := SIZE_REMAINING, p + 1;
      assert s[p..][1..] == s[q..];
    } else {
      size, q := ParseMemsize(s, p);
      if size < MIN_PART_SIZE {
        return None, q;
      }
    }
    offset := OFFSET_NOT_SPECIFIED;
    if q < |s| && s[q] == '@' {
      assert s[q..][1..] == s[q + 1..];
      offset, q := ParseMemsize(s, q + 1);
    }
    var ok, name;
    ok, name, q := ParsePartName(s, q);
    if !ok {
      return None, q;
    }
    r, q := EndPartition(s, q, size, offset, name);
  }

  /** The flag and the end of a partition definition. */
  method EndPartition(s: string, p: nat, size: nat, offset: nat, name: Option<string>) returns (r: Option<Part>, q: nat)
    requires p <= |s|
    ensures p <= q <= |s|
    ensures var s3 := s[p..];
      var ro := StartsRo(s3);
      var s4 := if ro then s3[2..] else s3;
      if StartsWith(s4, ',') then
        if size == SIZE_REMAINING then r == None else r == Some(Part(size, offset, name, ro)) && s[q..] == s4[1..]
      else if s4 == "" || s4[0] == ';' then r == Some(Part(size, offset, name, ro)) && s[q..] == s4
      else r == None
  {
    q := p;
    var ro := false;
    if q + 1 < |s| && s[q] == 'r' && s[q + 1] == 'o' {
      assert s[p..][2..] == s[p + 2..];
      ro := true;
      q := q + 2;
    }
    if q < |s| && s[q] == ',' {
      assert s[q..][1..] == s[q + 1..];
      if size == SIZE_REMAINING {
        return None, q;
      }
      q := q + 1;
    } else if !(q == |s| || s[q] == ';') {
      return None, q;
    }
    r := Some(Part(size, offset, name, ro));
  }

  /** Walks the sectors of a bank for one that starts at this offset. */
  method StartsSector(bank: Bank, offset: nat) returns (found: bool)
    requires bank.Valid()
    ensures found <==> exists i :: 0 <= i < |bank.start| && bank.start[i] - bank.start[0] == offset
  {
    var i := 0;
    while i < |bank.start|
      invariant 0 <= i <= |bank.start|
      invariant forall j :: 0 <= j < i ==> bank.start[j] - bank.start[0] != offset
    {
      if bank.start[i] - bank.start[0] == offset {
        return true;
      }
      i := i + 1;
    }
    return false;
  }

  /** Walks the sectors for the start and for the end of the partition, or checks both against the
      erase block size. */
  method CheckAligned(chip: Chip, offset: nat, size: nat) returns (ok: bool)
    requires if chip.Nor? then chip.bank.Valid() else chip.eraseSize > 0
    ensures ok <==> Aligned(chip, offset, size)
  {
    match chip
    case Nand(eraseSize) =>
      ok := offset % eraseSize == 0 && size % eraseSize == 0;
    case Nor(bank) =>
      var end := (offset + size) % U32;
      ok := StartsSector(bank, offset);
      if ok {
        ok := StartsSector(bank, end);
        ok := ok || bank.size == end;
      }
  }

  /** Checks a partition against its device; the size for all remaining space is filled in. */
  method Validate(id: Id, part: Part) returns (ok: bool, size: nat)
    requires id.Valid() && part.offset < U32 && part.size < U32
    ensures PartValidate(id, part.offset, part.size) == if ok then Some(size) else None
  {
    hide Aligned;
    size := part.size;
    if size == SIZE_REMAINING {
      size := (id.size - part.offset) % U32;
    }
    var end := (part.offset + size) % U32;
    if part.offset > id.size || end <= part.offset || end > id.size {
      return false, size;
    }
    ok := CheckAligned(id.chip, part.offset, size);
  }

  function Behind(front: seq<Part>, r: Option<seq<Part>>): Option<seq<Part>> {
    if r.None? then None else Some(front + r.value)
  }

  lemma BehindNothing(r: Option<seq<Part>>)
    ensures Behind([], r) == r
  {
    if r.Some? { assert [] + r.value == r.value; }
  }

  /** Walks the list to where the partition belongs and links it in; `k` is its position. */
  method SortInto(parts: seq<Part>, p: Part) returns (ok: bool, r: seq<Part>, k: nat)
    ensures ok <==> SortAdd(parts, p).Some?
    ensures ok ==> r == SortAdd(parts, p).value && k == AddPosition(parts, p)
    ensures !ok ==> r == parts
  {
    hide SortAdd, AddPosition, Behind;
    k := 0;
    assert parts[0..] == parts && parts[..0] == [];
    BehindNothing(SortAdd(parts, p));
    while k < |parts|
      invariant 0 <= k <= |parts|
      invariant AddPosition(parts, p) == k + AddPosition(parts[k..], p)
      invariant SortAdd(parts, p) == Behind(parts[..k], SortAdd(parts[k..], p))
    {
      var pi := parts[k];
      assert parts[k..][0] == pi && parts[k..][1..] == parts[k + 1..];
      SortAddStep(parts[..k], parts[k..], p);
      if p.offset == pi.offset && pi.offset == 0 {
        return false, parts, k;
      }
      if p.offset <= pi.offset {
        return true, parts[..k] + [p] + parts[k..], k;
      }
      assert parts[..k] + [pi] == parts[..k + 1];
      k := k + 1;
    }
    assert parts[..k] == parts;
    SortAddEnd(parts, p);
    return true, parts + [p], k;
  }

  lemma SortAddStep(front: seq<Part>, rest: seq<Part>, p: Part)
    requires rest != []
    ensures p.offset == rest[0].offset == 0 ==> Behind(front, SortAdd(rest, p)) == None
    ensures p.offset <= rest[0].offset ==> AddPosition(rest, p) == 0
    ensures p.offset <= rest[0].offset && !(p.offset == rest[0].offset == 0) ==>
      Behind(front, SortAdd(rest, p)) == Some(front + [p] + rest)
    ensures p.offset > rest[0].offset ==>
      && AddPosition(rest, p) == 1 + AddPosition(rest[1..], p)
      && Behind(front, SortAdd(rest, p)) == Behind(front + [rest[0]], SortAdd(rest[1..], p))
  {
    assert front + ([p] + rest) == front + [p] + rest;
    if SortAdd(rest[1..], p).Some? {
      var r := SortAdd(rest[1..], p).value;
      assert front + ([rest[0]] + r) == front + [rest[0]] + r;
    }
  }

  lemma SortAddEnd(front: seq<Part>, p: Part)
    ensures Behind(front, SortAdd([], p)) == Some(front + [p]) && AddPosition([], p) == 0
  {
  }

  function BehindParts(front: seq<Part>, r: Option<(seq<Part>, string)>): Option<(seq<Part>, string)> {
    if r.None? then None else Some((front + r.value.0, r.value.1))
  }

  lemma BehindPartsStep(front: seq<Part>, p: Part, r: Option<(seq<Part>, string)>)
    ensures BehindParts(front, if r.None? then None else Some(([p] + r.value.0, r.value.1))) == BehindParts(front + [p], r)
    ensures BehindParts([], r) == r
  {
    if r.Some? {
      assert front + ([p] + r.value.0) == front + [p] + r.value.0;
      assert [] + r.value.0 == r.value.0;
    }
  }

  /** The partition definitions of a device, each placed behind the one before it when it has no
      offset. */
  method ParsePartList(id: Id, s: string, p: nat, offset0: nat) returns (r: Option<seq<Part>>, q: nat)
    requires id.Valid() && p <= |s| && offset0 < U32
    ensures p <= q <= |s|
    ensures match ParseParts(id, s[p..], offset0)
      case None => r == None
      case Some((parts, rest)) => r == Some(parts) && s[q..] == rest
  {
    hide ParsePart, PartValidate;
    q := p;
    var offset, parts := offset0, [];
    BehindPartsStep([], Part(0, 0, None, false), ParseParts(id, s[p..], offset0));
    while q < |s| && s[q] != ';'
      invariant p <= q <= |s| && 0 <= offset < U32
      invariant ParseParts(id, s[p..], offset0) == BehindParts(parts, ParseParts(id, s[q..], offset))
      decreases |s| - q
    {
      assert s[q..] != "" && s[q..][0] == s[q];
      ghost var start := q;
      var part;
      part, q := ParsePartition(s, q);
      if part.None? {
        return None, q;
      }
      var at := if part.value.offset == OFFSET_NOT_SPECIFIED then offset else part.value.offset;
      var ok, size := Validate(id, part.value.(offset := at));
      if !ok {
        return None, q;
      }
      var placed := part.value.(offset := at, size := size);
      ParsePartsStep(id, s[start..], offset, part.value, s[q..], placed);
      offset := at + size;
      BehindPartsStep(parts, placed, ParseParts(id, s[q..], offset));
      parts := parts + [placed];
    }
    assert s[q..] == "" || s[q..][0] == ';';
    assert parts + [] == parts;
    r := Some(parts);
  }

  /** Sorts partitions into an empty list, one by one; the partitions are numbered anew after each,
      and when a refused one makes the list be dropped. */
  method SortParts(parts: seq<Part>) returns (r: Option<seq<Part>>, n: nat)
    ensures r == SortAll(parts) && n == SortedCount(parts) + if r.None? then 1 else 0
  {
    var list, i := [], 0;
    n := 0;
    while i < |parts|
      invariant 0 <= i <= |parts| && n == i && SortAll(parts[..i]) == Some(list)
    {
      assert parts[..i + 1][..i] == parts[..i];
      var ok, k;
      ok, list, k := SortInto(list, parts[i]);
      n := n + 1;
      if !ok {
        SortAllFails(parts, i);
        return None, n;
      }
      i := i + 1;
    }
    assert parts[..i] == parts;
    SortedAll(parts);
    r := Some(list);
  }

  lemma SortedAll(parts: seq<Part>)
    requires SortAll(parts).Some?
    ensures SortedCount(parts) == |parts|
  {
  }

  lemma {:induction false} SortAllFails(parts: seq<Part>, i: nat)
    requires i < |parts| && SortAll(parts[..i]).Some? && SortAll(parts[..i + 1]) == None
    ensures SortAll(parts) == None && SortedCount(parts) == i
    decreases |parts|
  {
    if i + 1 < |parts| {
      var front := parts[..|parts| - 1];
      assert front[..i] == parts[..i] && front[..i + 1] == parts[..i + 1];
      SortAllFails(front, i);
    } else {
      assert parts[..i + 1] == parts && parts[..i] == parts[..|parts| - 1];
    }
  }

  /** The device definition at index p, and how often the partitions are numbered anew meanwhile. */
  method ParseDeviceDef(ids: seq<Id>, devices: seq<Device>, s: string, p: nat) returns (r: Option<Device>, q: nat, n: nat)
    requires ValidIds(ids) && p <= |s|
    ensures p <= q <= |s| && n == Renumberings(ids, devices, s[p..])
    ensures match ParseDevice(ids, devices, s[p..])
      case None => r == None
      case Some((d, rest)) => r == Some(d) && s[q..] == rest && q > p
  {
    hide ParseParts, FindByName, SortAll, SortedCount, StartOffset;
    n := 0;
    q := Strchr(s, p, ':');
    if q == |s| {
      return None, q, n;
    }
    assert s[p..][..q - p] == s[p..q] && s[p..][q - p + 1..] == s[q + 1..];
    var id := FindByName(ids, s[p..q]);
    if id.None? {
      return None, q, n;
    }
    var parts;
    parts, q := ParsePartList(id.value, s, q + 1, StartOffset(devices, KeyOf(id.value)));
    if parts.None? || parts.value == [] {
      NothingSorted();
      return None, q, n;
    }
    if q < |s| {
      assert s[q..][1..] == s[q + 1..];
      q := q + 1;
    }
    var sorted;
    sorted, n := SortParts(parts.value);
    if sorted.None? {
      return None, q, n;
    }
    r := Some(Device(id.value, sorted.value, |sorted.value|));
  }

  lemma NothingSorted()
    ensures SortedCount([]) == 0 && SortAll([]) == Some([])
  {
  }

  /** The whole table text. */
  method ParseMtdparts(ids: seq<Id>, s: string) returns (r: Option<seq<Device>>)
    requires ValidIds(ids)
    ensures r == ParseTable(ids, s)
  {
    hide ParseDevice;
    if !(|s| >= 9 && s[..9] == PREFIX) || |s| == 9 {
      return None;
    }
    var devices, p := [], 9;
    while p < |s|
      invariant 9 <= p <= |s|
      invariant ParseTable(ids, s) == ParseDevices(ids, devices, s[p..])
      decreases |s| - p
    {
      ghost var start := p;
      var d, n;
      d, p, n := ParseDeviceDef(ids, devices, s, p);
      if d.None? || FindDevice(devices, KeyOf(d.value.id)) >= 0 {
        return None;
      }
      devices := devices + [d.value];
    }
    assert s[p..] == "";
    r := Some(devices);
  }

  // ---- generating ----

  /** Appends a piece to the text if it fits in the room that is left. */
  method PutPiece(buf: string, room: nat, piece: string) returns (ok: bool, buf': string, room': nat)
    ensures ok <==> |piece| <= room
    ensures ok ==> buf' == buf + piece && room' == room - |piece|
  {
    if |piece| > room {
      return false, buf, room;
    }
    return true, buf + piece, room - |piece|;
  }

  /** One partition, and a comma if another one follows. */
  method PutPart(buf0: string, room0: nat, p: Part, expected: nat, more: bool) returns (ok: bool, buf: string, room: nat)
    ensures var text := PartText(p, expected) + if more then "," else "";
      && (ok <==> |text| <= room0)
      && (ok ==> buf == buf0 + text && room == room0 - |text|)
  {
    hide MemsizeFormat, PartText, PartEndText;
    PartPieces(buf0, p, expected, more);
    ok, buf, room := PutPiece(buf0, room0, MemsizeFormat(p.size));
    if !ok { return; }
    if p.offset != expected {
      ok, buf, room := PutPiece(buf, room, "@" + MemsizeFormat(p.offset));
      if !ok { return; }
    }
    ok, buf, room := PutPartEnd(buf, room, p, more);
  }

  function PartEndText(p: Part, more: bool): string {
    NameText(p) + RoText(p) + if more then "," else ""
  }

  /** The name, the flag and the comma. */
  method PutPartEnd(buf0: string, room0: nat, p: Part, more: bool) returns (ok: bool, buf: string, room: nat)
    ensures ok <==> |PartEndText(p, more)| <= room0
    ensures ok ==> buf == buf0 + PartEndText(p, more) && room == room0 - |PartEndText(p, more)|
  {
    ok, buf, room := true, buf0, room0;
    if p.name.Some? {
      ok, buf, room := PutPiece(buf, room, "(" + p.name.value + ")");
      if !ok { return; }
    }
    if p.ro {
      ok, buf, room := PutPiece(buf, room, "ro");
      if !ok { return; }
    }
    if more {
      ok, buf, room := PutPiece(buf, room, ",");
      if !ok { return; }
    }
    WithEmpty(buf0);
    WithEmpty(buf0 + NameText(p));
    WithEmpty(buf0 + NameText(p) + RoText(p));
    Associate4(buf0, NameText(p), RoText(p), if more then "," else "");
  }

  lemma PartPieces(buf: string, p: Part, expected: nat, more: bool)
    ensures var text, size := PartText(p, expected) + (if more then "," else ""), MemsizeFormat(p.size);
      && |text| == |size| + |OffsetText(p, expected)| + |PartEndText(p, more)|
      && buf + text == buf + size + OffsetText(p, expected) + PartEndText(p, more)
      && buf + size + "" == buf + size
  {
    hide MemsizeFormat;
    var size, offset, name, ro, comma :=
      MemsizeFormat(p.size), OffsetText(p, expected), NameText(p), RoText(p), if more then "," else "";
    assert PartText(p, expected) == size + offset + name + ro;
    hide PartText;
    assert buf + (size + offset + name + ro + comma) == buf + size + offset + (name + ro + comma);
  }

  method PutParts(buf0: string, room0: nat, parts: seq<Part>) returns (ok: bool, buf: string, room: nat)
    ensures var text := PartsText(parts, 0);
      && (ok <==> |text| <= room0)
      && (ok ==> buf == buf0 + text && room == room0 - |text|)
  {
    hide PartText;
    ok, buf, room := true, buf0, room0;
    var i, expected := 0, 0;
    assert parts[0..] == parts;
    while i < |parts|
      invariant 0 <= i <= |parts| && ok && 0 <= expected
      invariant buf + PartsText(parts[i..], expected) == buf0 + PartsText(parts, 0)
      invariant |buf| + room == |buf0| + room0
    {
      var p, more := parts[i], i + 1 < |parts|;
      assert parts[i..][0] == p && parts[i..][1..] == parts[i + 1..];
      var next := (p.offset + p.size) % U32;
      ghost var text := PartText(p, expected) + if more then "," else "";
      Associate(buf, text, PartsText(parts[i + 1..], next));
      ok, buf, room := PutPart(buf, room, p, expected, more);
      if !ok { return; }
      expected := next;
      i := i + 1;
    }
  }

  /** All devices with their partitions. */
  method PutDevices(buf0: string, room0: nat, devices: seq<Device>) returns (ok: bool, buf: string, room: nat)
    ensures ok <==> |DevicesText(devices)| <= room0
    ensures ok ==> buf == buf0 + DevicesText(devices)
  {
    hide PartsText;
    ok, buf, room := true, buf0, room0;
    var i := 0;
    assert devices[0..] == devices;
    while i < |devices|
      invariant 0 <= i <= |devices| && ok
      invariant buf + DevicesText(devices[i..]) == buf0 + DevicesText(devices)
      invariant |buf| + room == |buf0| + room0
    {
      var d, sep := devices[i], if i + 1 < |devices| then ";" else "";
      assert devices[i..][0] == d && devices[i..][1..] == devices[i + 1..];
      Associate5(buf, d.id.name + ":", PartsText(d.parts, 0), sep, DevicesText(devices[i + 1..]));
      assert |DevicesText(devices)| == |buf| - |buf0| + |d.id.name + ":"| + |PartsText(d.parts, 0)| + |sep| + |DevicesText(devices[i + 1..])|;
      ok, buf, room := PutPiece(buf, room, d.id.name + ":");
      if !ok { return; }
      ok, buf, room := PutParts(buf, room, d.parts);
      if !ok { return; }
      ok, buf, room := PutPiece(buf, room, sep);
      if !ok { return; }
      i := i + 1;
    }
  }

  /** The text of the whole table; the room for the prefix is not counted. */
  method GenerateMtdparts(devices: seq<Device>, buflen: nat) returns (r: Option<string>)
    requires buflen > 0
    ensures r == if |DevicesText(devices)| <= buflen - 1 then Some(TableText(devices)) else None
  {
    if devices == [] {
      return Some("");
    }
    var ok, buf, room := PutDevices(PREFIX, buflen - 1, devices);
    r := if ok then Some(buf) else None;
  }
}
