/**
 The partition table with its current partition: adding and deleting partitions and devices, and
 what every such operation keeps (cmd_jffs2.c).
 */
module MtdTable {
  import opened Common
  import opened PartCheck
  import opened MtdParse
  import opened MtdRoundTrip
  import opened MtdTies
  import opened MtdReread

  /** The devices, the current device and the number of the current partition, an unsigned 8-bit
      number. */
  datatype Table = Table(devices: seq<Device>, cur: Option<Key>, partnum: nat)

  /** The partition where a new one is put: the first one with the same or a higher offset. */
  function AddPosition(parts: seq<Part>, p: Part): (k: nat)
    ensures k <= |parts|
    ensures forall i :: 0 <= i < k ==> parts[i].offset < p.offset
    ensures k < |parts| ==> p.offset <= parts[k].offset
  {
    if parts == [] || p.offset <= parts[0].offset then 0 else 1 + AddPosition(parts[1..], p)
  }

  /** The current partition, if the given device is the current one. */
  predicate IsCurrent(t: Table, d: nat)
    requires d < |t.devices|
  {
    t.cur == Some(KeyOf(t.devices[d].id)) && t.partnum < t.devices[d].numParts
  }

  /** The comparison by which the current number follows its partition when one is added. */
  predicate AddMoves(t: Table, d: nat, p: Part)
    requires d < |t.devices| && t.devices[d].numParts == |t.devices[d].parts|
  {
    var parts, k := t.devices[d].parts, AddPosition(t.devices[d].parts, p);
    IsCurrent(t, d) && k < |parts| && parts[k].offset <= parts[t.partnum].offset
  }

  /** Adds a partition to device d. */
  function AddPart(t: Table, d: nat, p: Part): Option<Table>
    requires d < |t.devices| && t.devices[d].numParts == |t.devices[d].parts|
  {
    var dev := t.devices[d];
    var parts := SortAdd(dev.parts, p);
    if parts.None? then None
    else
      Some(t.(devices := t.devices[d := dev.(parts := parts.value, numParts := dev.numParts + 1)],
              partnum := if AddMoves(t, d, p) then (t.partnum + 1) % 256 else t.partnum))
  }

  function AddDevice(t: Table, dev: Device): Table {
    if t.devices == [] then Table([dev], Some(KeyOf(dev.id)), 0)
    else t.(devices := t.devices + [dev])
  }

  /** The devices without device d. */
  function RestDevices(devices: seq<Device>, d: nat): seq<Device>
    requires d < |devices|
  {
    devices[..d] + devices[d + 1..]
  }

  function DelDevice(t: Table, d: nat): Table
    requires d < |t.devices|
  {
    var rest := RestDevices(t.devices, d);
    if t.cur != Some(KeyOf(t.devices[d].id)) then t.(devices := rest)
    else if rest == [] then t.(devices := rest, cur := None)
    else Table(rest, Some(KeyOf(rest[0].id)), 0)
  }

  function WithoutPart(parts: seq<Part>, k: nat): seq<Part>
    requires k < |parts|
  {
    parts[..k] + parts[k + 1..]
  }

  /** Deletes partition k of device d; the current partition number is adjusted by comparing
      offsets. */
  function DelPart(t: Table, d: nat, k: nat): Table
    requires d < |t.devices| && t.devices[d].numParts == |t.devices[d].parts| && k < |t.devices[d].parts|
  {
    var dev := t.devices[d];
    if dev.numParts == 1 then DelDevice(t, d)
    else
      var partnum :=
        if !IsCurrent(t, d) then t.partnum
        else if k == t.partnum then 0
        else if dev.parts[k].offset <= dev.parts[t.partnum].offset then (t.partnum + 255) % 256
        else t.partnum;
      t.(devices := t.devices[d := dev.(parts := WithoutPart(dev.parts, k), numParts := dev.numParts - 1)],
         partnum := partnum)
  }

  /** The number of the current partition in the list of all partitions of all devices. */
  function GlobalIndex(devices: seq<Device>, key: Key, partnum: nat): nat {
    if devices == [] then partnum
    else if KeyOf(devices[0].id) == key then partnum
    else devices[0].numParts + GlobalIndex(devices[1..], key, partnum)
  }

  function AllParts(devices: seq<Device>): seq<Part> {
    if devices == [] then [] else devices[0].parts + AllParts(devices[1..])
  }

  ghost predicate CurrentOk(t: Table) {
    match t.cur
    case None => t.devices == []
    case Some(key) =>
      var d := FindDevice(t.devices, key);
      d >= 0 && t.partnum < |t.devices[d].parts|
  }

  /** The lists are in order, num_parts is the number of partitions, and the current partition exists;
      its number has 8 bits. */
  ghost predicate TableInv(ids: seq<Id>, t: Table) {
    TableOk(ids, t.devices) && CurrentOk(t) && t.partnum < 256
  }

  /** The part of that which even holds when the current number has gone astray: there is a current
      device unless the table is empty. */
  ghost predicate Sound(ids: seq<Id>, t: Table) {
    && TableOk(ids, t.devices) && t.partnum < 256
    && (if t.cur.None? then t.devices == [] else FindDevice(t.devices, t.cur.value) >= 0)
  }

  // ---- lists ----

  lemma InsertBehindFirst(parts: seq<Part>, p: Part, k: nat)
    requires k < |parts|
    ensures parts[..k + 1] + [p] + parts[k + 1..] == [parts[0]] + (parts[1..][..k] + [p] + parts[1..][k..])
  {
  }

  lemma {:induction false} SortAddIs(parts: seq<Part>, p: Part)
    requires Ordered(parts)
    ensures var k := AddPosition(parts, p);
      SortAdd(parts, p) ==
        if k < |parts| && p.offset == parts[k].offset == 0 then None else Some(parts[..k] + [p] + parts[k..])
    decreases |parts|
  {
    if parts == [] {
      assert parts[..0] + [p] + parts[0..] == [p];
    } else if p.offset <= parts[0].offset {
      assert parts[..0] + [p] + parts[0..] == [p] + parts;
    } else {
      var k := AddPosition(parts[1..], p);
      SortAddIs(parts[1..], p);
      InsertBehindFirst(parts, p, k);
    }
  }

  lemma {:induction false} InsertKeepsOrder(parts: seq<Part>, p: Part, k: nat)
    requires Ordered(parts) && k <= |parts| && forall i :: 0 <= i < k ==> parts[i].offset < p.offset
    requires k < |parts| ==> p.offset <= parts[k].offset && !(p.offset == parts[k].offset == 0)
    ensures Ordered(parts[..k] + [p] + parts[k..])
    ensures forall x :: x in parts[..k] + [p] + parts[k..] ==> x == p || x in parts
  {
    var r := parts[..k] + [p] + parts[k..];
    assert forall i :: 0 <= i < |r| ==> r[i] == if i < k then parts[i] else if i == k then p else parts[i - 1];
    forall j | k <= j < |parts| ensures p.offset <= parts[j].offset && parts[j].offset > 0 {
      if j > k { assert parts[k].offset <= parts[j].offset; }
    }
    forall j | 0 < j < |r| ensures r[j].offset > 0 && forall i :: 0 <= i < j ==> r[i].offset <= r[j].offset {
      if j == k { assert parts[j - 1].offset < p.offset; }
    }
  }

  lemma {:induction false} AddKeepsOrder(parts: seq<Part>, p: Part)
    requires Ordered(parts) && SortAdd(parts, p).Some?
    ensures Ordered(SortAdd(parts, p).value)
    ensures forall x :: x in SortAdd(parts, p).value ==> x == p || x in parts
  {
    hide SortAdd, Ordered;
    SortAddIs(parts, p);
    InsertKeepsOrder(parts, p, AddPosition(parts, p));
  }

  lemma {:induction false} SortAllOrdered(parts: seq<Part>)
    requires SortAll(parts).Some?
    ensures Ordered(SortAll(parts).value) && forall x :: x in SortAll(parts).value ==> x in parts
    decreases |parts|
  {
    if parts != [] {
      var front, p := parts[..|parts| - 1], parts[|parts| - 1];
      SortAllOrdered(front);
      AddKeepsOrder(SortAll(front).value, p);
    }
  }

  lemma {:induction false} DelKeepsOrder(parts: seq<Part>, k: nat)
    requires Ordered(parts) && k < |parts|
    ensures Ordered(WithoutPart(parts, k))
    ensures forall x :: x in WithoutPart(parts, k) ==> x in parts
  {
    var r := WithoutPart(parts, k);
    assert forall i :: 0 <= i < |r| ==> r[i] == parts[if i < k then i else i + 1];
  }

  lemma {:induction false} FindIs(devices: seq<Device>, d: nat)
    requires d < |devices| && forall i, j :: 0 <= i < j < |devices| ==> KeyOf(devices[i].id) != KeyOf(devices[j].id)
    ensures FindDevice(devices, KeyOf(devices[d].id)) == d
  {
    var k := FindDevice(devices, KeyOf(devices[d].id));
    assert k >= 0 && KeyOf(devices[k].id) == KeyOf(devices[d].id);
  }

  // ---- every operation keeps the table in order ----

  lemma {:induction false} ReplaceDevice(ids: seq<Id>, devices: seq<Device>, d: nat, dev: Device)
    requires TableOk(ids, devices) && d < |devices| && DeviceOk(ids, dev) && dev.id == devices[d].id
    ensures TableOk(ids, devices[d := dev])
    ensures forall key :: FindDevice(devices[d := dev], key) == FindDevice(devices, key)
  {
    hide DeviceOk;
    var r := devices[d := dev];
    forall key ensures FindDevice(r, key) == FindDevice(devices, key) {
      var k := FindDevice(devices, key);
      if k >= 0 {
        FindIs(r, k);
      } else {
        assert forall i :: 0 <= i < |r| ==> KeyOf(r[i].id) == KeyOf(devices[i].id);
      }
    }
  }

  lemma {:induction false} AddedDeviceOk(ids: seq<Id>, dev: Device, p: Part)
    requires DeviceOk(ids, dev) && FitsDevice(dev.id, p) && SortAdd(dev.parts, p).Some?
    ensures DeviceOk(ids, dev.(parts := SortAdd(dev.parts, p).value, numParts := dev.numParts + 1))
    ensures var k := AddPosition(dev.parts, p); SortAdd(dev.parts, p).value == dev.parts[..k] + [p] + dev.parts[k..]
  {
    hide FitsDevice, FindByName;
    SortAddIs(dev.parts, p);
    AddKeepsOrder(dev.parts, p);
    var r := SortAdd(dev.parts, p).value;
    forall i | 0 <= i < |r| ensures FitsDevice(dev.id, r[i]) { assert r[i] in r; }
  }

  lemma {:induction false} AddPartSound(ids: seq<Id>, t: Table, d: nat, p: Part)
    requires Sound(ids, t) && d < |t.devices| && FitsDevice(t.devices[d].id, p)
    requires t.devices[d].numParts == |t.devices[d].parts| && AddPart(t, d, p).Some?
    ensures Sound(ids, AddPart(t, d, p).value)
  {
    hide FitsDevice, Findable, Ordered, AddPosition, SortAdd;
    assert DeviceOk(ids, t.devices[d]);
    AddedDeviceOk(ids, t.devices[d], p);
    ReplaceDevice(ids, t.devices, d, AddPart(t, d, p).value.devices[d]);
  }

  lemma {:induction false} DelPartSound(ids: seq<Id>, t: Table, d: nat, k: nat)
    requires Sound(ids, t) && d < |t.devices| && k < |t.devices[d].parts|
    requires t.devices[d].numParts == |t.devices[d].parts|
    ensures Sound(ids, DelPart(t, d, k))
  {
    hide FitsDevice, Findable, Ordered;
    if |t.devices[d].parts| == 1 {
      DelDeviceSound(ids, t, d);
    } else {
      assert DeviceOk(ids, t.devices[d]);
      DeletedDeviceOk(ids, t.devices[d], k);
      ReplaceDevice(ids, t.devices, d, DelPart(t, d, k).devices[d]);
    }
  }

  /** The devices with one more are in order. */
  lemma {:induction false} MoreOk(ids: seq<Id>, devices: seq<Device>, dev: Device)
    requires TableOk(ids, devices) && DeviceOk(ids, dev) && FindDevice(devices, KeyOf(dev.id)) < 0
    ensures TableOk(ids, devices + [dev]) && (devices == [] ==> devices + [dev] == [dev])
  {
    hide DeviceOk;
    var more := devices + [dev];
    assert forall i :: 0 <= i < |more| ==> more[i] == if i < |devices| then devices[i] else dev;
  }

  lemma {:induction false} MoreFinds(ids: seq<Id>, devices: seq<Device>, dev: Device, key: Key)
    requires TableOk(ids, devices + [dev]) && FindDevice(devices, key) >= 0
    ensures FindDevice(devices + [dev], key) == FindDevice(devices, key)
    ensures (devices + [dev])[FindDevice(devices, key)] == devices[FindDevice(devices, key)]
  {
    hide TableOk, FindDevice;
    var k := FindDevice(devices, key);
    assert (devices + [dev])[k] == devices[k];
    KeysDiffer(ids, devices + [dev]);
    FindIs(devices + [dev], k);
  }

  lemma {:induction false} AddDeviceSound(ids: seq<Id>, t: Table, dev: Device)
    requires Sound(ids, t) && DeviceOk(ids, dev) && FindDevice(t.devices, KeyOf(dev.id)) < 0
    ensures Sound(ids, AddDevice(t, dev))
  {
    MoreOk(ids, t.devices, dev);
    hide TableOk, DeviceOk, FindDevice;
    if t.devices == [] {
      FirstFound(ids, t.devices + [dev]);
    } else {
      MoreFinds(ids, t.devices, dev, t.cur.value);
    }
  }

  /** The devices but one are in order. */
  lemma {:induction false} RestOk(ids: seq<Id>, devices: seq<Device>, d: nat)
    requires TableOk(ids, devices) && d < |devices|
    ensures TableOk(ids, RestDevices(devices, d))
  {
    hide DeviceOk;
    var rest := RestDevices(devices, d);
    assert forall i :: 0 <= i < |rest| ==> rest[i] == devices[if i < d then i else i + 1];
  }

  /** Every other device is still found. */
  lemma {:induction false} RestFinds(ids: seq<Id>, devices: seq<Device>, d: nat, key: Key)
    requires TableOk(ids, devices) && d < |devices| && key != KeyOf(devices[d].id) && FindDevice(devices, key) >= 0
    ensures var rest := RestDevices(devices, d);
      FindDevice(rest, key) >= 0 && rest[FindDevice(rest, key)] == devices[FindDevice(devices, key)]
  {
    hide TableOk, RestDevices, FindDevice;
    var k := FindDevice(devices, key);
    RestOk(ids, devices, d);
    RestAt(devices, d, k);
    KeysDiffer(ids, RestDevices(devices, d));
    FindIs(RestDevices(devices, d), if k < d then k else k - 1);
  }

  lemma RestAt(devices: seq<Device>, d: nat, k: nat)
    requires d < |devices| && k < |devices| && k != d
    ensures var rest, j := RestDevices(devices, d), if k < d then k else k - 1;
      j < |rest| && rest[j] == devices[k]
  {
  }

  lemma KeysDiffer(ids: seq<Id>, devices: seq<Device>)
    requires TableOk(ids, devices)
    ensures forall i, j :: 0 <= i < j < |devices| ==> KeyOf(devices[i].id) != KeyOf(devices[j].id)
  {
    hide DeviceOk;
  }

  lemma {:induction false} FirstFound(ids: seq<Id>, devices: seq<Device>)
    requires TableOk(ids, devices) && devices != []
    ensures FindDevice(devices, KeyOf(devices[0].id)) == 0 && 0 < |devices[0].parts|
  {
    hide DeviceOk, FindDevice;
    FindIs(devices, 0);
    NotEmpty(ids, devices[0]);
  }

  lemma {:induction false} DelDeviceSound(ids: seq<Id>, t: Table, d: nat)
    requires Sound(ids, t) && d < |t.devices|
    ensures Sound(ids, DelDevice(t, d))
  {
    RestOk(ids, t.devices, d);
    if t.cur != Some(KeyOf(t.devices[d].id)) {
      RestFinds(ids, t.devices, d, t.cur.value);
    } else if RestDevices(t.devices, d) != [] {
      FirstFound(ids, RestDevices(t.devices, d));
    }
    hide TableOk, FindDevice;
  }

  /** The comparison of offsets tells whether the new partition goes before the current one. */
  lemma {:induction false} OffsetsTellPosition(parts: seq<Part>, p: Part, c: nat)
    requires Ordered(parts) && c < |parts|
    ensures var k := AddPosition(parts, p); k < |parts| && parts[k].offset <= parts[c].offset <==> k <= c
  {
  }

  /** Where the current partition is once one was put at position k of its list. */
  function AfterAddition(c: nat, k: nat): nat {
    if k <= c then c + 1 else c
  }

  /** Adding keeps the table in order, and the current partition number on the same partition unless
      that was number 255 and is moved. */
  lemma {:induction false} AddPartKeeps(ids: seq<Id>, t: Table, d: nat, p: Part)
    requires TableInv(ids, t) && d < |t.devices| && FitsDevice(t.devices[d].id, p) && AddPart(t, d, p).Some?
    ensures var t', k, parts := AddPart(t, d, p).value, AddPosition(t.devices[d].parts, p), t.devices[d].parts;
      var isCurrent := t.cur == Some(KeyOf(t.devices[d].id));
      && TableInv(ids, t') && t'.cur == t.cur
      && t'.devices == t.devices[d := t.devices[d].(parts := parts[..k] + [p] + parts[k..], numParts := |parts| + 1)]
      && (!isCurrent ==> t'.partnum == t.partnum)
      && (isCurrent ==> (t'.partnum == AfterAddition(t.partnum, k) <==> !(k <= t.partnum == 255)))
  {
    hide FitsDevice, Findable, Ordered, AddPosition, SortAdd;
    var t', dev := AddPart(t, d, p).value, t.devices[d];
    var k := AddPosition(dev.parts, p);
    assert DeviceOk(ids, dev);
    AddedDeviceOk(ids, dev, p);
    ReplaceDevice(ids, t.devices, d, t'.devices[d]);
    FindIs(t.devices, d);
    if t.cur == Some(KeyOf(dev.id)) {
      OffsetsTellPosition(dev.parts, p, t.partnum);
      assert IsCurrent(t, d);
    }
  }

  lemma {:induction false} DeletedDeviceOk(ids: seq<Id>, dev: Device, k: nat)
    requires DeviceOk(ids, dev) && k < |dev.parts| && |dev.parts| > 1
    ensures DeviceOk(ids, dev.(parts := WithoutPart(dev.parts, k), numParts := dev.numParts - 1))
  {
    hide FitsDevice, FindByName;
    DelKeepsOrder(dev.parts, k);
    var r := WithoutPart(dev.parts, k);
    forall i | 0 <= i < |r| ensures FitsDevice(dev.id, r[i]) { assert r[i] in r; }
  }

  /** Where the current partition is once partition k of its device is gone: the first partition if
      it was the one deleted. */
  function AfterDeletion(c: nat, k: nat): nat {
    if k == c then 0 else if k < c then c - 1 else c
  }

  /** The comparison of offsets adjusts the current partition number correctly exactly when the
      deleted partition does not lie behind the current one at the same offset. */
  lemma {:induction false} DelPartKeepsCurrentExactly(ids: seq<Id>, t: Table, d: nat, k: nat)
    requires TableInv(ids, t) && d < |t.devices| && t.cur == Some(KeyOf(t.devices[d].id))
    requires k < |t.devices[d].parts| && |t.devices[d].parts| > 1
    ensures var parts := t.devices[d].parts;
      && t.partnum < |parts|
      && (DelPart(t, d, k).partnum == AfterDeletion(t.partnum, k) <==>
            !(k > t.partnum && parts[k].offset == parts[t.partnum].offset))
  {
    hide FitsDevice, Findable;
    FindIs(t.devices, d);
    assert DeviceOk(ids, t.devices[d]);
  }

  /** Deleting partition k of device d takes the current partition number off its partition. */
  predicate MovesCurrent(t: Table, d: nat, k: nat)
    requires d < |t.devices| && k < |t.devices[d].parts|
  {
    && t.cur == Some(KeyOf(t.devices[d].id)) && t.partnum < k
    && t.devices[d].parts[k].offset == t.devices[d].parts[t.partnum].offset
  }

  /** Deleting one of several partitions: the lists stay in order, and the current number is that of
      the same partition, or 0 if that was deleted, or it is moved off its partition. */
  lemma {:induction false} DelPartSteps(ids: seq<Id>, t: Table, d: nat, k: nat)
    requires TableInv(ids, t) && d < |t.devices| && k < |t.devices[d].parts| && |t.devices[d].parts| > 1
    ensures var t', dev := DelPart(t, d, k), t.devices[d];
      && TableOk(ids, t'.devices) && t'.cur == t.cur
      && t'.devices == t.devices[d := dev.(parts := WithoutPart(dev.parts, k), numParts := dev.numParts - 1)]
      && FindDevice(t'.devices, KeyOf(dev.id)) == d
      && (forall key :: FindDevice(t'.devices, key) == FindDevice(t.devices, key))
      && t'.partnum ==
           if t.cur != Some(KeyOf(dev.id)) then t.partnum
           else if MovesCurrent(t, d, k) then (t.partnum + 255) % 256
           else AfterDeletion(t.partnum, k)
  {
    hide FitsDevice, Findable, Ordered, FindDevice;
    var t', dev := DelPart(t, d, k), t.devices[d];
    assert DeviceOk(ids, dev);
    DeletedDeviceOk(ids, dev, k);
    ReplaceDevice(ids, t.devices, d, t'.devices[d]);
    FindIs(t.devices, d);
    if t.cur == Some(KeyOf(dev.id)) {
      DelPartKeepsCurrentExactly(ids, t, d, k);
    }
  }

  /** Deleting partition k of device d takes the current number from 0 to 255, and no partition has
      that number. */
  predicate LosesCurrent(t: Table, d: nat, k: nat)
    requires d < |t.devices| && k < |t.devices[d].parts|
  {
    MovesCurrent(t, d, k) && t.partnum == 0 && |t.devices[d].parts| <= 256
  }

  /** Deleting one of several partitions keeps the table in order, current partition included, exactly
      when it does not take the current number from 0 to one that no partition has. */
  lemma {:induction false} DelPartKeepsExactly(ids: seq<Id>, t: Table, d: nat, k: nat)
    requires TableInv(ids, t) && d < |t.devices| && k < |t.devices[d].parts| && |t.devices[d].parts| > 1
    ensures TableInv(ids, DelPart(t, d, k)) <==> !LosesCurrent(t, d, k)
  {
    hide TableOk, DelPart, FindDevice;
    DelPartSteps(ids, t, d, k);
    FindIsCurrent(ids, t, d);
  }

  lemma FindIsCurrent(ids: seq<Id>, t: Table, d: nat)
    requires TableInv(ids, t) && d < |t.devices|
    ensures FindDevice(t.devices, KeyOf(t.devices[d].id)) == d
  {
    hide DeviceOk, FindDevice;
    FindIs(t.devices, d);
  }

  /** It takes the number from 0 to 255, which belongs to no partition unless more than 255 remain. */
  lemma {:induction false} DeletionBreaksCurrent(ids: seq<Id>, t: Table, d: nat, k: nat)
    requires TableInv(ids, t) && d < |t.devices| && k < |t.devices[d].parts|
    requires MovesCurrent(t, d, k) && t.partnum == 0
    ensures DelPart(t, d, k).partnum == 255 && (CurrentOk(DelPart(t, d, k)) <==> |t.devices[d].parts| > 256)
  {
    hide TableOk, DelPart, FindDevice;
    DelPartSteps(ids, t, d, k);
    FindIsCurrent(ids, t, d);
  }

  lemma NotEmpty(ids: seq<Id>, d: Device)
    requires DeviceOk(ids, d)
    ensures d.parts != [] && d.numParts == |d.parts|
  {
  }

  lemma {:induction false} AddDeviceKeeps(ids: seq<Id>, t: Table, dev: Device)
    requires TableInv(ids, t) && DeviceOk(ids, dev) && FindDevice(t.devices, KeyOf(dev.id)) < 0
    ensures var t' := AddDevice(t, dev);
      && TableInv(ids, t') && t'.devices == t.devices + [dev]
      && (t.devices != [] ==> t'.cur == t.cur && t'.partnum == t.partnum)
  {
    MoreOk(ids, t.devices, dev);
    hide TableOk, DeviceOk, FindDevice;
    NotEmpty(ids, dev);
    if t.devices == [] {
      FirstFound(ids, t.devices + [dev]);
    } else {
      MoreFinds(ids, t.devices, dev, t.cur.value);
    }
  }

  lemma {:induction false} DelDeviceKeeps(ids: seq<Id>, t: Table, d: nat)
    requires TableInv(ids, t) && d < |t.devices|
    ensures var t' := DelDevice(t, d);
      && TableInv(ids, t') && t'.devices == t.devices[..d] + t.devices[d + 1..]
      && (t.cur != Some(KeyOf(t.devices[d].id)) ==> t'.cur == t.cur && t'.partnum == t.partnum)
  {
    hide TableOk, FindDevice;
    var rest := RestDevices(t.devices, d);
    RestOk(ids, t.devices, d);
    assert forall i :: 0 <= i < |rest| ==> rest[i] == t.devices[if i < d then i else i + 1];
    if t.cur != Some(KeyOf(t.devices[d].id)) {
      RestFinds(ids, t.devices, d, t.cur.value);
    } else if rest != [] {
      FirstFound(ids, rest);
    }
  }

  /** The global index of the current partition is its position among all partitions. */
  lemma {:induction false} GlobalIndexIsPosition(devices: seq<Device>, d: nat, partnum: nat)
    requires d < |devices| && partnum < |devices[d].parts|
    requires forall i :: 0 <= i < |devices| ==> devices[i].numParts == |devices[i].parts|
    requires forall i, j :: 0 <= i < j < |devices| ==> KeyOf(devices[i].id) != KeyOf(devices[j].id)
    ensures var g := GlobalIndex(devices, KeyOf(devices[d].id), partnum);
      g < |AllParts(devices)| && AllParts(devices)[g] == devices[d].parts[partnum]
    decreases d
  {
    if d > 0 {
      var rest := devices[1..];
      GlobalIndexIsPosition(rest, d - 1, partnum);
    }
  }
}
