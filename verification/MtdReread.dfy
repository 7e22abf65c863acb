/**
 When parsing the generated text of a partition table gives the table back.
 */
module MtdReread {
  import opened Common
  import opened PartCheck
  import opened MtdParse
  import opened MtdRoundTrip
  import opened MtdTies

  ghost predicate DeviceOk(ids: seq<Id>, d: Device) {
    && Findable(ids, d) && d.parts != [] && d.numParts == |d.parts| && Ordered(d.parts)
    && forall i :: 0 <= i < |d.parts| ==> FitsDevice(d.id, d.parts[i])
  }

  /** What holds of every partition table. */
  ghost predicate TableOk(ids: seq<Id>, devices: seq<Device>) {
    && ValidIds(ids)
    && (forall i :: 0 <= i < |devices| ==> DeviceOk(ids, devices[i]))
    && (forall i, j :: 0 <= i < j < |devices| ==> KeyOf(devices[i].id) != KeyOf(devices[j].id))
  }

  /** No partition is smaller than the minimum size. */
  ghost predicate LargeEnough(parts: seq<Part>) {
    forall i :: 0 <= i < |parts| ==> parts[i].size >= MIN_PART_SIZE
  }

  /** Every run of partitions at the same offset reads the same backwards. */
  ghost predicate Symmetric(parts: seq<Part>) {
    forall i :: 0 <= i < |parts| ==> parts[i] == parts[Mirror(parts, i)]
  }

  lemma {:induction false} SmallPartRead(p: Part, expected: nat, tail: string)
    requires p.size < MIN_PART_SIZE && p.offset < U32 && PartEnd(tail)
    requires p.name.Some? ==> p.name.value != "" && ')' !in p.name.value
    ensures ParsePart(PartText(p, expected) + tail) == None
  {
    var s4 := RoText(p) + tail;
    var s3 := NameText(p) + s4;
    PartTextIs(p, expected, tail);
    RoRead(p, tail);
    NameTextStart(p, s4);
    OffsetRead(p, expected, s3);
    SizeRead(p.size, OffsetText(p, expected) + s3);
  }

  lemma {:induction false} SmallPartsRead(id: Id, parts: seq<Part>, expected: nat, tail: string)
    requires id.Valid() && expected < U32 && !LargeEnough(parts)
    requires forall i :: 0 <= i < |parts| ==> FitsDevice(id, parts[i])
    requires tail == "" || tail[0] == ';'
    ensures ParseParts(id, PartsText(parts, expected) + tail, expected) == None
    decreases |parts|
  {
    hide ParsePart, PartText, Place, PartValidate, PartsText, ParseParts, AfterFirst;
    var p, after := parts[0], AfterFirst(parts, tail);
    PartsTextSplit(parts, expected, tail);
    TextStarts(p, expected, after);
    if p.size < MIN_PART_SIZE {
      SmallPartRead(p, expected, after);
      FirstPartFails(id, PartText(p, expected) + after, expected);
    } else {
      assert forall i :: 0 < i < |parts| ==> parts[i] == parts[1..][i - 1];
      PartRead(p, expected, after);
      PlaceWritten(id, p, expected);
      SmallPartsRead(id, parts[1..], p.offset + p.size, tail);
      ParsePartsStep(id, PartText(p, expected) + after, expected, Written(p, expected),
        PartsText(parts[1..], p.offset + p.size) + tail, p);
    }
  }

  lemma {:induction false} FirstPartFails(id: Id, s: string, offset: nat)
    requires id.Valid() && offset < U32 && s != "" && s[0] != ';' && ParsePart(s) == None
    ensures ParseParts(id, s, offset) == None
  {
    hide ParsePart;
  }

  lemma {:induction false} SmallDeviceRead(ids: seq<Id>, done: seq<Device>, d: Device, tail: string)
    requires DeviceOk(ids, d) && !LargeEnough(d.parts) && FindDevice(done, KeyOf(d.id)) < 0
    requires tail == "" || tail[0] == ';'
    ensures ParseDevice(ids, done, d.id.name + ":" + PartsText(d.parts, 0) + tail) == None
  {
    hide PartsText, ParseParts;
    var name, text := d.id.name, PartsText(d.parts, 0) + tail;
    var s := name + ":" + PartsText(d.parts, 0) + tail;
    assert s == name + [':'] + text;
    IndexOfFirst(name, ':', text);
    assert s[..|name|] == name && s[|name| + 1..] == text;
    SmallPartsRead(d.id, d.parts, 0, tail);
  }

  ghost predicate AllLargeEnough(devices: seq<Device>) {
    forall i :: 0 <= i < |devices| ==> LargeEnough(devices[i].parts)
  }

  lemma {:induction false} SmallDevicesRead(ids: seq<Id>, done: seq<Device>, devices: seq<Device>)
    requires TableOk(ids, devices) && NewKeys(done, devices) && !AllLargeEnough(devices)
    ensures ParseDevices(ids, done, DevicesText(devices)) == None
    decreases |devices|
  {
    hide ParseDevice, PartsText, SortAll, LargeEnough, Ordered, FitsDevice;
    var d, rest := devices[0], devices[1..];
    var tail := (if |devices| > 1 then ";" else "") + DevicesText(rest);
    DevicesTextSplit(devices);
    var k := FindDevice(done, KeyOf(d.id));
    assert DeviceOk(ids, d);
    if !LargeEnough(d.parts) {
      SmallDeviceRead(ids, done, d, tail);
    } else {
      assert forall i :: 0 < i < |devices| ==> devices[i] == rest[i - 1];
      OneDeviceRead(ids, done, d, tail);
      if Resorted(d).Some? {
        assert NewKeys(done + [Resorted(d).value], rest);
        SmallDevicesRead(ids, done + [Resorted(d).value], rest);
      }
    }
  }

  lemma {:induction false} OneDeviceRead(ids: seq<Id>, done: seq<Device>, d: Device, tail: string)
    requires DeviceOk(ids, d) && LargeEnough(d.parts) && FindDevice(done, KeyOf(d.id)) < 0
    requires tail == "" || tail[0] == ';'
    ensures ParseDevice(ids, done, d.id.name + ":" + PartsText(d.parts, 0) + tail) ==
      (match Resorted(d) case None => None case Some(r) => Some((r, if tail == "" then tail else tail[1..])))
  {
    DeviceRead(ids, done, d, tail);
  }

  lemma {:induction false} ResortedExactly(ids: seq<Id>, devices: seq<Device>)
    requires TableOk(ids, devices)
    ensures AllResorted(devices) == Some(devices) <==> forall i :: 0 <= i < |devices| ==> Symmetric(devices[i].parts)
    ensures AllResorted(devices).Some? && |AllResorted(devices).value| == |devices|
    decreases |devices|
  {
    hide SortAll, FitsDevice, Symmetric, Findable;
    if devices != [] {
      var d, rest := devices[0], devices[1..];
      assert DeviceOk(ids, d);
      DeviceResortedExactly(ids, d);
      ResortedExactly(ids, rest);
      var r := AllResorted(devices).value;
      assert r == [Resorted(d).value] + AllResorted(rest).value;
      assert devices == [d] + rest;
      assert r == devices <==> Resorted(d).value == d && AllResorted(rest).value == rest by {
        assert r[0] == Resorted(d).value && r[1..] == AllResorted(rest).value;
      }
      assert forall i :: 0 < i < |devices| ==> devices[i] == rest[i - 1];
    }
  }

  lemma {:induction false} DeviceResortedExactly(ids: seq<Id>, d: Device)
    requires DeviceOk(ids, d)
    ensures Resorted(d).Some? && (Resorted(d).value == d <==> Symmetric(d.parts))
  {
    SortAllMirrors(d.parts);
    UnchangedExactly(d.parts);
  }

  /** Parsing the generated text gives back the same devices, order, offsets, sizes, names and flags
      exactly when no partition is smaller than the minimum size and every run of partitions at the
      same offset reads the same backwards; so it does whenever the offsets are distinct. */
  lemma {:induction false} RereadExactly(ids: seq<Id>, devices: seq<Device>)
    requires TableOk(ids, devices) && devices != []
    ensures ParseTable(ids, TableText(devices)) == Some(devices) <==>
      AllLargeEnough(devices) && forall i :: 0 <= i < |devices| ==> Symmetric(devices[i].parts)
    ensures !AllLargeEnough(devices) ==> ParseTable(ids, TableText(devices)) == None
  {
    hide ParseTable, TableText, AllResorted, Symmetric, LargeEnough;
    ResortedExactly(ids, devices);
    if AllLargeEnough(devices) {
      LargeIsRegenerable(ids, devices);
      TableRead(ids, devices);
    } else {
      SmallTableRead(ids, devices);
    }
  }

  lemma LargeIsRegenerable(ids: seq<Id>, devices: seq<Device>)
    requires TableOk(ids, devices) && AllLargeEnough(devices)
    ensures Regenerable(ids, devices)
  {
    hide FitsDevice, Findable;
  }

  lemma {:induction false} SmallTableRead(ids: seq<Id>, devices: seq<Device>)
    requires TableOk(ids, devices) && devices != [] && !AllLargeEnough(devices)
    ensures ParseTable(ids, TableText(devices)) == None
  {
    hide ParseDevice, PartsText, DeviceOk, AllLargeEnough;
    var s := TableText(devices);
    DevicesTextSplit(devices);
    assert |DevicesText(devices)| > 0;
    assert s[..9] == PREFIX && s[9..] == DevicesText(devices);
    SmallDevicesRead(ids, [], devices);
  }

  ghost predicate DistinctOffsets(parts: seq<Part>) {
    forall i, j :: 0 <= i < j < |parts| ==> parts[i].offset != parts[j].offset
  }

  lemma {:induction false} DistinctMeansSymmetric(parts: seq<Part>)
    requires Ordered(parts) && DistinctOffsets(parts)
    ensures Symmetric(parts)
  {
    forall i | 0 <= i < |parts| ensures Mirror(parts, i) == i { }
  }
}
