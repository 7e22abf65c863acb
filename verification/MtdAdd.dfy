/**
 What `mtdparts add`, `mtdparts del` and `chpart` do to the table: exactly the partition that was
 described comes in, exactly the one that was named goes, and exactly the one that was named becomes
 current (do_jffs2_mtdparts and do_jffs2_chpart in cmd_jffs2.c).
 */
module MtdAdd {
  import opened Common
  import opened MtdText
  import opened PartCheck
  import opened MtdParse
  import opened MtdRoundTrip
  import opened MtdTies
  import opened MtdReread
  import opened MtdTable
  import opened MtdAccepted
  import opened EnvBytes
  import opened MtdEnv
  import opened MtdRun
  import opened MtdNotation

  /** A known device, found by its name and by its type and number. */
  ghost predicate Known(ids: seq<Id>, id: Id) {
    && ValidIds(ids) && id in ids && id.Valid() && ':' !in id.name && FindByName(ids, id.name) == Some(id)
    && forall i, j :: 0 <= i < j < |ids| ==> KeyOf(ids[i]) != KeyOf(ids[j])
  }

  /** Where a partition without an offset is put: behind the last one of its device. */
  function Behind(devices: seq<Device>, key: Key): nat {
    var k := FindDevice(devices, key);
    if k < 0 || devices[k].parts == [] then 0
    else
      var last := devices[k].parts[|devices[k].parts| - 1];
      (last.offset + last.size) % U32
  }

  /** The partition that a definition describes, None if the check does not accept it. */
  function Described(devices: seq<Device>, id: Id, d: Definition): Option<Part>
    requires id.Valid()
  {
    var offset := if Meaning(d).offset == 0xFFFF_FFFF then Behind(devices, KeyOf(id)) else Meaning(d).offset;
    var size := if Meaning(d).size < 4096 then None else PartValidate(id, offset, Meaning(d).size);
    if size.None? then None else Some(Part(size.value, offset, d.name, d.ro))
  }

  /** The name of a device as it is written in a command. */
  function DeviceName(id: Id): string {
    (if id.chip.Nor? then "nor" else "nand") + Decimal(id.num)
  }

  /** The table with one more partition: on its device, or on a new one. */
  function WithPart(devices: seq<Device>, id: Id, p: Part): Option<seq<Device>> {
    var k := FindDevice(devices, KeyOf(id));
    if k < 0 then Some(devices + [Device(id, [p], 1)])
    else
      var parts := devices[k].parts;
      var j := AddPosition(parts, p);
      if j < |parts| && p.offset == parts[j].offset == 0 then None
      else Some(devices[k := devices[k].(parts := parts[..j] + [p] + parts[j..], numParts := |parts| + 1)])
  }

  lemma MeaningFits(d: Definition)
    ensures Meaning(d).size < U32 && Meaning(d).offset < U32 && Meaning(d).name == d.name && Meaning(d).ro == d.ro
  {
    hide Number, Unit, Radix;
  }

  lemma BehindIs(devices: seq<Device>, key: Key)
    ensures StartOffset(devices, key) == Behind(devices, key) < U32
  {
    hide FindDevice;
  }

  lemma DefinitionStarts(d: Definition)
    requires ValidDefinition(d)
    ensures DefinitionText(d) != "" && DefinitionText(d)[0] != ';'
  {
    if d.size.Some? {
      var z := d.size.value;
      if z.base.Decimally? { SpelledDigit(z.digits[0]); }
    }
  }

  lemma {:induction false} OnePartRead(devices: seq<Device>, id: Id, d: Definition)
    requires id.Valid() && ValidDefinition(d)
    ensures ParseParts(id, DefinitionText(d), StartOffset(devices, KeyOf(id))) ==
      (match Described(devices, id, d) case None => None case Some(p) => Some(([p], "")))
  {
    var text, start := DefinitionText(d), StartOffset(devices, KeyOf(id));
    assert text + "" == text;
    DefinitionRead(d, "");
    DefinitionStarts(d);
    MeaningFits(d);
    BehindIs(devices, KeyOf(id));
    hide DefinitionText, ValidDefinition, Meaning, ParsePart, PartValidate, StartOffset, Behind, StartsWith;
    if Described(devices, id, d).Some? {
      var p := Described(devices, id, d).value;
      assert [p] + [] == [p];
    }
  }

  lemma {:induction false} DescriptionRead(ids: seq<Id>, devices: seq<Device>, id: Id, d: Definition)
    requires Known(ids, id) && ValidDefinition(d)
    ensures ParseDevice(ids, devices, id.name + ":" + DefinitionText(d)) ==
      (match Described(devices, id, d) case None => None case Some(p) => Some((Device(id, [p], 1), "")))
  {
    var name, text := id.name, DefinitionText(d);
    var s := name + ":" + text;
    IndexOfFirst(name, ':', text);
    assert s == name + [':'] + text && s[..|name|] == name && s[|name| + 1..] == text;
    OnePartRead(devices, id, d);
    hide ParseParts, DefinitionText, Described, ValidDefinition, StartOffset;
    if Described(devices, id, d).Some? { OneSorted(Described(devices, id, d).value); }
  }

  lemma OneSorted(p: Part)
    ensures SortAll([p]) == Some([p])
  {
    assert [p][..0] == [];
  }

  lemma {:induction false} FoundId(ids: seq<Id>, id: Id)
    requires id in ids && forall i, j :: 0 <= i < j < |ids| ==> KeyOf(ids[i]) != KeyOf(ids[j])
    ensures FindId(ids, KeyOf(id)) == Some(id)
    decreases |ids|
  {
    if ids[0] != id {
      assert id in ids[1..];
      FoundId(ids[1..], id);
    }
  }

  /** The device in the table with that type and number is this one. */
  lemma {:induction false} SameId(ids: seq<Id>, devices: seq<Device>, id: Id)
    requires Known(ids, id) && TableOk(ids, devices) && FindDevice(devices, KeyOf(id)) >= 0
    ensures var dev := devices[FindDevice(devices, KeyOf(id))];
      dev.id == id && dev.numParts == |dev.parts| && Ordered(dev.parts)
  {
    var dev := devices[FindDevice(devices, KeyOf(id))];
    assert DeviceOk(ids, dev);
    hide FitsDevice, FindDevice, Ordered;
    assert dev.id in ids;
    FoundId(ids, id);
    FoundId(ids, dev.id);
  }

  lemma NewDevice(devices: seq<Device>, id: Id, p: Part)
    ensures FindDevice(devices, KeyOf(id)) < 0 ==> WithPart(devices, id, p) == Some(devices + [Device(id, [p], 1)])
  {
    hide FindDevice;
  }

  /** A command with the description of one partition. */
  function AddCommand(id: Id, d: Definition): Command
    requires ValidDefinition(d) && d.name.Some?
  {
    Add(DeviceName(id), SizePart(d) + OffsetPart(d), d.name.value, if d.ro then "ro" else "")
  }

  function DescriptionLength(id: Id, d: Definition): nat
    requires ValidDefinition(d) && d.name.Some?
  {
    |id.name| + 1 + |SizePart(d) + OffsetPart(d)| + |d.name.value| + 2 + if d.ro then 2 else 0
  }

  lemma DescriptionIs(id: Id, d: Definition)
    requires ValidDefinition(d) && d.name.Some? && DescriptionLength(id, d) < PART_ADD_DESC_MAXLEN
    ensures AddText(id, AddCommand(id, d)) == id.name + ":" + DefinitionText(d)
    ensures AddLength(id, AddCommand(id, d)) < PART_ADD_DESC_MAXLEN
  {
    hide SizePart, OffsetPart;
    var spec, name, ro := SizePart(d) + OffsetPart(d), "(" + d.name.value + ")", if d.ro then "ro" else "";
    assert id.name + ":" + spec + "(" + d.name.value + ")" + ro == id.name + ":" + (spec + name + ro);
  }

  /** `mtdparts add` with a description that fits its buffer: if the check accepts the partition and it is
      not a second one at offset 0, the devices are what they were with exactly this partition in
      addition, before the first one with the same or a higher offset; otherwise they are unchanged. */
  lemma {:induction false} AddsOnePartition(ids: seq<Id>, names: Names, w: World, id: Id, d: Definition)
    requires Known(ids, id) && TableOk(ids, w.table.devices) && ValidDefinition(d) && d.name.Some?
    requires DescriptionLength(id, d) < PART_ADD_DESC_MAXLEN
    ensures var p := Described(w.table.devices, id, d);
      var more := if p.None? then None else WithPart(w.table.devices, id, p.value);
      Perform(ids, names, w, AddCommand(id, d)).table.devices == if more.None? then w.table.devices else more.value
  {
    var devices, c := w.table.devices, AddCommand(id, d);
    var text := AddText(id, c);
    var r := ReindexTimes(names, w, Renumberings(ids, devices, text));
    DescriptionIs(id, d);
    DescriptionRead(ids, devices, id, d);
    NameRead(id);
    FoundId(ids, id);
    if Described(devices, id, d).Some? {
      ParsedDeviceOk(ids, devices, text);
      MergeTakesFirst(ids, names, r, Device(id, [Described(devices, id, d).value], 1));
      NewDevice(devices, id, Described(devices, id, d).value);
    }
    hide TableOk, DeviceOk, ParseDevice, Described, WithPart, MergeDevice, AddText, AddLength, DefinitionText, ValidDefinition,
      ReindexTimes, Renumberings, Save, Reindex, ParseId, FindId, DeviceName;
  }

  lemma NameRead(id: Id)
    requires id.num < 256
    ensures ParseId(DeviceName(id)).Some? && ParseId(DeviceName(id)).value.0 == KeyOf(id)
  {
    hide Decimal, ParseId;
    IdRead(KeyOf(id), "");
    assert DeviceName(id) + "" == DeviceName(id);
  }

  /** Without a known device nothing is added. */
  lemma UnknownDeviceIgnored(ids: seq<Id>, names: Names, w: World, c: Command)
    requires ValidIds(ids) && TableOk(ids, w.table.devices) && c.Add?
    requires ParseId(c.dev) == None || forall i :: 0 <= i < |ids| ==> KeyOf(ids[i]) != ParseId(c.dev).value.0
    ensures Perform(ids, names, w, c) == w
  {
    hide ParseId, TableOk;
  }

  /** A description whose length, in 8 bits, does not fit its buffer is refused; a flag counts only if it
      has two characters. */
  lemma {:induction false} LongDescriptionIgnored(ids: seq<Id>, names: Names, w: World, id: Id, c: Command)
    requires Known(ids, id) && TableOk(ids, w.table.devices) && c.Add? && c.dev == DeviceName(id)
    requires (|id.name| + |c.spec| + |c.name| + 3 + if |c.flag| == 2 then 2 else 0) % 256 >= 64
    ensures Perform(ids, names, w, c) == w
  {
    NameRead(id);
    FoundId(ids, id);
    LengthIs(id, c);
    hide TableOk, ParseId, FindId, DeviceName, AddLength, Known, MergeDevice, ParseDevice, Reindex, Save;
  }

  lemma LengthIs(id: Id, c: Command)
    requires c.Add?
    ensures AddLength(id, c) == (|id.name| + |c.spec| + |c.name| + 3 + if |c.flag| == 2 then 2 else 0) % 256
  {
  }

  lemma {:induction false} MergeTakesFirst(ids: seq<Id>, names: Names, w: World, dev: Device)
    requires Known(ids, dev.id) && TableOk(ids, w.table.devices) && DeviceOk(ids, dev)
    ensures var m, devices := MergeDevice(ids, names, w, dev), w.table.devices;
      if FindDevice(devices, KeyOf(dev.id)) < 0 then m.Some? && m.value.table.devices == devices + [dev]
      else
        match WithPart(devices, dev.id, dev.parts[0])
        case None => m == None
        case Some(more) => m.Some? && m.value.table.devices == more
  {
    var devices := w.table.devices;
    var k := FindDevice(devices, KeyOf(dev.id));
    assert FitsDevice(dev.id, dev.parts[0]);
    if k < 0 {
      assert devices == [] ==> devices + [dev] == [dev];
    } else {
      SameId(ids, devices, dev.id);
      AddedIs(w.table, k, dev.id, dev.parts[0]);
    }
    hide FindDevice, AddPart, PartValidate, TableOk, DeviceOk, PartAdd, DeviceAdd, Ordered, WithPart;
  }

  lemma AddedIs(t: Table, k: nat, id: Id, p: Part)
    requires k == FindDevice(t.devices, KeyOf(id)) && t.devices[k].numParts == |t.devices[k].parts| && Ordered(t.devices[k].parts)
    ensures match WithPart(t.devices, id, p)
      case None => AddPart(t, k, p) == None
      case Some(more) => AddPart(t, k, p).Some? && AddPart(t, k, p).value.devices == more
  {
    SortAddIs(t.devices[k].parts, p);
    hide FindDevice, SortAdd, AddPosition, AddMoves, Ordered;
  }

  /** A description of any kind: what it is read as goes into the table as a new device; if the device is
      there already, only its first partition does. */
  lemma {:induction false} AddsWhatIsRead(ids: seq<Id>, names: Names, w: World, id: Id, c: Command)
    requires Known(ids, id) && TableOk(ids, w.table.devices) && c.Add? && c.dev == DeviceName(id)
    requires |id.name| + |c.spec| + |c.name| + 3 + (if |c.flag| == 2 then 2 else 0) < 64
    ensures var devices := w.table.devices;
      var read := ParseDevice(ids, devices, id.name + ":" + c.spec + "(" + c.name + ")" + c.flag);
      var r := Perform(ids, names, w, c).table.devices;
      if read.None? then r == devices
      else
        var dev := read.value.0;
        && dev.id == id && dev.parts != []
        && r ==
          if FindDevice(devices, KeyOf(id)) < 0 then devices + [dev]
          else var more := WithPart(devices, id, dev.parts[0]); if more.None? then devices else more.value
  {
    hide *;
    var devices, text := w.table.devices, AddText(id, c);
    LengthIs(id, c);
    TextParts(id, c);
    SmallLength(|id.name| + |c.spec| + |c.name| + 3 + if |c.flag| == 2 then 2 else 0);
    AddIs(ids, names, w, id, c);
    var read := ParseDevice(ids, devices, text);
    if read.Some? {
      var dev := read.value.0;
      ReadIdIs(ids, devices, id, c.spec + "(" + c.name + ")" + c.flag);
      NotEmpty(ids, dev);
      MergeTakesFirst(ids, names, ReindexTimes(names, w, Renumberings(ids, devices, text)), dev);
    }
  }

  lemma TextParts(id: Id, c: Command)
    requires c.Add?
    ensures AddText(id, c) == id.name + ":" + c.spec + "(" + c.name + ")" + c.flag
    ensures AddText(id, c) == id.name + ":" + (c.spec + "(" + c.name + ")" + c.flag)
  {
  }

  lemma SmallLength(n: nat)
    ensures n < 64 ==> n % 256 == n
  {
  }

  lemma {:induction false} AddIs(ids: seq<Id>, names: Names, w: World, id: Id, c: Command)
    requires Known(ids, id) && TableOk(ids, w.table.devices) && c.Add? && c.dev == DeviceName(id) && AddLength(id, c) < 64
    ensures ValidIds(ids)
    ensures var devices, text := w.table.devices, AddText(id, c);
      var read, r := ParseDevice(ids, devices, text), ReindexTimes(names, w, Renumberings(ids, devices, text));
      if read.None? then Perform(ids, names, w, c).table.devices == devices
      else
        DeviceOk(ids, read.value.0) &&
        var m := MergeDevice(ids, names, r, read.value.0);
        Perform(ids, names, w, c).table.devices == if m.None? then devices else m.value.table.devices
  {
    NameRead(id);
    FoundId(ids, id);
    if ParseDevice(ids, w.table.devices, AddText(id, c)).Some? { ParsedDeviceOk(ids, w.table.devices, AddText(id, c)); }
    hide TableOk, DeviceOk, ParseDevice, MergeDevice, AddText, AddLength, ReindexTimes, Renumberings, Save, Reindex, ParseId, FindId,
      DeviceName, FindDevice;
  }

  lemma {:induction false} ReadIdIs(ids: seq<Id>, devices: seq<Device>, id: Id, text: string)
    requires Known(ids, id) && ParseDevice(ids, devices, id.name + ":" + text).Some?
    ensures ParseDevice(ids, devices, id.name + ":" + text).value.0.id == id
  {
    var s := id.name + ":" + text;
    IndexOfFirst(id.name, ':', text);
    assert s == id.name + [':'] + text && s[..|id.name|] == id.name;
    hide ParseParts, SortAll, StartOffset;
  }

  // ---- part-ids ----

  /** A part-id, its numbers in any notation. */
  function PartId(nor: bool, b: Base, ds: seq<Digit>, c: Base, es: seq<Digit>): string
    requires Below(16, ds) && Below(16, es)
  {
    (if nor then "nor" else "nand") + (Prefix(b) + Spelled(ds) + ("," + (Prefix(c) + Spelled(es))))
  }

  lemma NumberStarts(b: Base, ds: seq<Digit>, tail: string)
    requires ValidDigits(b, ds) && Below(16, ds)
    ensures var s := Prefix(b) + Spelled(ds) + tail; s != "" && IsDigit(s[0])
  {
    if b.Decimally? {
      SpelledDigit(ds[0]);
      assert ds[0].value < 10;
    }
  }

  /** A part-id names the device and the partition of its two numbers, in 8 bits each, if they exist;
      with anything behind it, it names none. */
  lemma {:induction false} PartIdFound(devices: seq<Device>, nor: bool, b: Base, ds: seq<Digit>, c: Base, es: seq<Digit>, tail: string)
    requires ValidDigits(b, ds) && ValidDigits(c, es) && Below(16, ds) && Below(16, es) && NumberEnds(c, es, tail)
    ensures var key, num := Key(nor, Number(Radix(b), ds) % U32 % 256), Number(Radix(c), es) % U32 % 256;
      FindPart(devices, PartId(nor, b, ds, c, es) + tail) ==
        if tail == "" && FindDevice(devices, key) >= 0 && num < devices[FindDevice(devices, key)].numParts
        then Some((key, num)) else None
  {
    var word := if nor then "nor" else "nand";
    var number := Prefix(c) + Spelled(es) + tail;
    var behind := "," + number;
    var rest := Prefix(b) + Spelled(ds) + behind;
    var s := PartId(nor, b, ds, c, es) + tail;
    assert s == word + rest;
    NumberRead(b, ds, behind);
    NumberRead(c, es, tail);
    NumberStarts(b, ds, behind);
    NumberStarts(c, es, tail);
    assert behind[0] == ',' && behind[1..] == number;
    WordRead(nor, rest);
    hide Strtoul, Spelled, Number, Radix, FindDevice, NumberEnds, ValidDigits, Below, PartId, Prefix;
  }

  lemma WordRead(nor: bool, rest: string)
    requires rest != "" && IsDigit(rest[0])
    ensures var s := (if nor then "nor" else "nand") + rest;
      ParseId(s) == Some((Key(nor, Strtoul(rest).0 % 256), Strtoul(rest).1))
  {
    hide Strtoul;
    var s := (if nor then "nor" else "nand") + rest;
    if nor {
      assert s[..3] == "nor" && s[3..] == rest && s[1] == 'o';
      assert |s| >= 4 ==> s[..4][1] == 'o' && "nand"[1] == 'a';
    } else {
      assert s[..4] == "nand" && s[4..] == rest;
    }
  }

  /** `chpart` makes exactly the named partition current and leaves the devices as they are. */
  lemma {:induction false} ChpartSelects(ids: seq<Id>, names: Names, w: World, key: Key, num: nat)
    requires ValidIds(ids) && TableOk(ids, w.table.devices) && key.num < 256 && num < 256
    ensures var k := FindDevice(w.table.devices, key);
      var r := Perform(ids, names, w, Chpart(PartitionText(key, num)));
      if k >= 0 && num < w.table.devices[k].numParts then r.table == w.table.(cur := Some(key), partnum := num)
      else r == w
  {
    var k := FindDevice(w.table.devices, key);
    if k >= 0 && num < w.table.devices[k].numParts {
      PartitionRead(w.table.devices, key, num);
    } else {
      NoSuchPartition(w.table.devices, key, num);
    }
    hide TableOk, FindPart, SaveCurrent, PartitionText;
  }

  /** `mtdparts del` takes exactly the named partition away, and its device with the last one. */
  lemma {:induction false} DelRemoves(ids: seq<Id>, names: Names, w: World, key: Key, num: nat)
    requires ValidIds(ids) && TableOk(ids, w.table.devices) && key.num < 256 && num < 256
    ensures var k, devices := FindDevice(w.table.devices, key), w.table.devices;
      var r := Perform(ids, names, w, Del(PartitionText(key, num)));
      if k < 0 || num >= devices[k].numParts then r == w
      else if |devices[k].parts| == 1 then r.table.devices == devices[..k] + devices[k + 1..]
      else
        var parts := devices[k].parts;
        num < |parts| &&
        r.table.devices == devices[k := devices[k].(parts := parts[..num] + parts[num + 1..], numParts := |parts| - 1)]
  {
    var k, text := FindDevice(w.table.devices, key), PartitionText(key, num);
    if k >= 0 && num < w.table.devices[k].numParts {
      NotEmpty(ids, w.table.devices[k]);
      hide *;
      PartitionRead(w.table.devices, key, num);
      DelIs(ids, names, w, text, key, num);
      DevicesWithout(w.table, k, num);
    } else {
      hide *;
      NoSuchPartition(w.table.devices, key, num);
      DelOfNone(ids, names, w, text);
    }
  }

  lemma DelOfNone(ids: seq<Id>, names: Names, w: World, text: string)
    requires ValidIds(ids) && TableOk(ids, w.table.devices) && FindPart(w.table.devices, text) == None
    ensures Perform(ids, names, w, Del(text)) == w
  {
    hide TableOk, FindPart, Save, PartDel, AddPartition, SetCurrent;
  }

  lemma DelIs(ids: seq<Id>, names: Names, w: World, text: string, key: Key, num: nat)
    requires ValidIds(ids) && TableOk(ids, w.table.devices) && FindPart(w.table.devices, text) == Some((key, num))
    ensures var k := FindDevice(w.table.devices, key);
      && k >= 0 && num < |w.table.devices[k].parts| == w.table.devices[k].numParts
      && Perform(ids, names, w, Del(text)).table.devices == DelPart(w.table, k, num).devices
  {
    NotEmpty(ids, w.table.devices[FindDevice(w.table.devices, key)]);
    hide TableOk, FindPart, Save, DeviceOk, PartDel, DelPart;
  }

  lemma DevicesWithout(t: Table, k: nat, num: nat)
    requires k < |t.devices| && num < |t.devices[k].parts| == t.devices[k].numParts
    ensures var parts := t.devices[k].parts;
      DelPart(t, k, num).devices ==
        if |parts| == 1 then t.devices[..k] + t.devices[k + 1..]
        else t.devices[k := t.devices[k].(parts := parts[..num] + parts[num + 1..], numParts := |parts| - 1)]
  {
    hide IsCurrent;
  }

  /** `mtdparts delall` leaves no device and none of the four variables. */
  lemma {:induction false} DelAllClears(ids: seq<Id>, names: Names, w: World)
    requires ValidIds(ids) && TableOk(ids, w.table.devices) && EnvOk(w.env)
    ensures var r := Exec(ids, names, w, DelAll);
      && r.table.devices == [] && r.table.cur == None && r.last == ""
      && Get(r.env, PARTS) == None && Get(r.env, PARTITION) == None && Get(r.env, DEVNUM) == None && Get(r.env, DEVNAME) == None
  {
    NamesArePlain();
    var s := Sync(ids, names, w).1;
    SyncEnvOk(ids, names, w);
    hide EnvOk, Get, Unset, Sync, TableOk, Plain;
    AllUndefined(s.env);
  }

  lemma {:induction false} AllUndefined(e: Env)
    requires EnvOk(e)
    ensures var r := Unset(Unset(Unset(Unset(e, PARTS), PARTITION), DEVNUM), DEVNAME);
      Get(r, PARTS) == None && Get(r, PARTITION) == None && Get(r, DEVNUM) == None && Get(r, DEVNAME) == None
  {
    NamesArePlain();
    hide *;
    var a := Unset(e, PARTS);
    var b := Unset(a, PARTITION);
    var c := Unset(b, DEVNUM);
    Undefines(e, PARTS, PARTITION);
    Undefines(a, PARTITION, PARTS);
    Undefines(b, DEVNUM, PARTS);
    Undefines(b, DEVNUM, PARTITION);
    Undefines(c, DEVNAME, PARTS);
    Undefines(c, DEVNAME, PARTITION);
    Undefines(c, DEVNAME, DEVNUM);
  }
}
