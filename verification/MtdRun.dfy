/**
 The partition commands, with what they store in the environment, and what each of them keeps
 (do_jffs2_mtdparts, do_jffs2_chpart and mtdparts_init in cmd_jffs2.c).
 */
module MtdRun {
  import opened Common
  import opened PartCheck
  import opened MtdParse
  import opened MtdTies
  import opened MtdReread
  import opened MtdTable
  import opened MtdAccepted
  import opened EnvBytes
  import opened MtdEnv
  import opened MtdCopy

  const PART_ADD_DESC_MAXLEN: nat := 64

  /** The commands; Setenv is the one that changes variables behind the table's back. */
  datatype Command =
    | Add(dev: string, spec: string, name: string, flag: string)
    | Del(id: string)
    | Chpart(id: string)
    | DelAll
    | Setenv(name: string, args: seq<string>, accepted: bool)

  // ---- bringing the table in step with the environment ----

  /** A table that was just read: its first partition is the current one. */
  function FirstCurrent(devices: seq<Device>): Table
    requires devices != []
  {
    Table(devices, Some(KeyOf(devices[0].id)), 0)
  }

  function SetCurrent(names: Names, w: World, key: Key, num: nat): (r: World)
    ensures r.table == w.table.(cur := Some(key), partnum := num) && r.last == w.last
  {
    SaveCurrent(names, w.(table := w.table.(cur := Some(key), partnum := num)))
  }

  /** The part-id names the current partition. */
  predicate Selects(s: string, t: Table) {
    t.cur.Some? && FindPart(t.devices, s) == Some((t.cur.value, t.partnum))
  }

  /** Makes the partition current that the variable named, unless that is the one last stored. */
  function Restore(names: Names, w: World, wanted: string): (r: World)
    ensures r.table.devices == w.table.devices && r.last == w.last
    ensures r.table == w.table || Selects(wanted, r.table)
  {
    if wanted != "" && wanted != w.lastPartition then
      var f := FindPart(w.table.devices, wanted);
      if f.None? then w else SetCurrent(names, w, f.value.0, f.value.1)
    else if Get(w.env, PARTITION).None? then SaveCurrent(names, w)
    else w
  }

  /** The partition that the variable names, as far as it is kept. */
  function Wanted(w: World): string {
    match Get(w.env, PARTITION)
    case None => ""
    case Some(v) => Cut(v, PARTITION_MAXLEN)
  }

  /** The text is read anew when it is not the one last seen. */
  predicate Rereads(w: World) {
    var text := Get(w.env, PARTS);
    text.Some? && |text.value| < MTDPARTS_MAXLEN && !(w.last != "" && w.last == text.value)
  }

  /** The first partition becomes the current one, and the copy is taken from the text's old
      address. */
  function Adopt(names: Names, w: World, devices: seq<Device>): (r: World)
    requires devices != []
    ensures r.table == FirstCurrent(devices) && r.last == CopyOf(w.env)
  {
    SaveCurrent(names, DevicesInit(names, w).(table := FirstCurrent(devices), last := CopyOf(w.env)))
  }

  /** The table and the environment once the text was read. */
  function Reread(names: Names, w: World, devices: seq<Device>): (r: World)
    requires devices != []
    ensures r.table.devices == devices && r.last == CopyOf(w.env)
    ensures r.table == FirstCurrent(devices) || Selects(Wanted(w), r.table)
  {
    Restore(names, Adopt(names, w, devices), Wanted(w))
  }

  /** Brings the table in step with the variables before a command (mtdparts_init).  Also says whether
      the command goes on. */
  function Sync(ids: seq<Id>, names: Names, w: World): (r: (bool, World))
    requires ValidIds(ids)
  {
    match Get(w.env, PARTS)
    case None => (true, if w.last == "" then w else DevicesInit(names, w))
    case Some(text) =>
      if |text| > MTDPARTS_MAXLEN - 1 then (false, w)
      else if !Rereads(w) then (true, Restore(names, w, Wanted(w)))
      else
        var devices := ParseTable(ids, text);
        if devices.None? || devices.value == [] then (false, DevicesInit(names, w))
        else (true, Reread(names, w, devices.value))
  }

  // ---- adding and deleting ----

  function FindId(ids: seq<Id>, key: Key): (r: Option<Id>)
    ensures r.Some? ==> r.value in ids && KeyOf(r.value) == key
  {
    if ids == [] then None
    else if KeyOf(ids[0]) == key then Some(ids[0])
    else FindId(ids[1..], key)
  }

  function AddText(id: Id, c: Command): string
    requires c.Add?
  {
    id.name + ":" + c.spec + "(" + c.name + ")" + c.flag
  }

  /** The length that is checked, an unsigned 8-bit number. */
  function AddLength(id: Id, c: Command): nat
    requires c.Add?
  {
    (|id.name| + 1 + |c.spec| + |c.name| + 2 + if |c.flag| == 2 then 2 else 0) % 256
  }

  function DeviceAdd(names: Names, w: World, dev: Device): (r: World)
    ensures r.table == AddDevice(w.table, dev) && r.last == w.last
  {
    var r := w.(table := AddDevice(w.table, dev));
    if w.table.devices == [] then SaveCurrent(names, r) else Reindex(names, r)
  }

  /** Adds a partition to device d if it passes the check and may go into the list. */
  function PartAdd(names: Names, w: World, d: nat, p: Part): (r: Option<World>)
    requires d < |w.table.devices| && w.table.devices[d].numParts == |w.table.devices[d].parts|
    requires w.table.devices[d].id.Valid() && p.offset < U32 && p.size < U32
    ensures r.Some? <==>
      && PartValidate(w.table.devices[d].id, p.offset, p.size).Some?
      && AddPart(w.table, d, p).Some?
    ensures r.Some? ==> r.value.table == AddPart(w.table, d, p).value && r.value.last == w.last
  {
    if PartValidate(w.table.devices[d].id, p.offset, p.size).None? then None
    else
      var t := AddPart(w.table, d, p);
      if t.None? then None
      else
        var r := w.(table := t.value);
        Some(if AddMoves(w.table, d, p) then SaveCurrent(names, r) else Reindex(names, r))
  }

  /** Merges a device that was read into the table: only its first partition, if the device is there
      already. */
  function MergeDevice(ids: seq<Id>, names: Names, w: World, dev: Device): (r: Option<World>)
    requires ValidIds(ids) && TableOk(ids, w.table.devices) && DeviceOk(ids, dev)
    ensures r.Some? ==> r.value.last == w.last
  {
    var d := FindDevice(w.table.devices, KeyOf(dev.id));
    if d < 0 then Some(DeviceAdd(names, w, dev)) else PartAdd(names, w, d, dev.parts[0])
  }

  function AddPartition(ids: seq<Id>, names: Names, w: World, c: Command): World
    requires ValidIds(ids) && TableOk(ids, w.table.devices) && c.Add?
  {
    var key := ParseId(c.dev);
    var id := if key.None? then None else FindId(ids, key.value.0);
    if id.None? || AddLength(id.value, c) >= PART_ADD_DESC_MAXLEN then w
    else
      var text := AddText(id.value, c);
      var dev := ParseDevice(ids, w.table.devices, text);
      var r := ReindexTimes(names, w, Renumberings(ids, w.table.devices, text));
      if dev.None? then r
      else
        ParsedDeviceOk(ids, w.table.devices, text);
        var m := MergeDevice(ids, names, r, dev.value.0);
        if m.None? then Reindex(names, r) else Save(m.value)
  }

  function DeviceDel(names: Names, w: World, d: nat): (r: World)
    requires d < |w.table.devices|
    ensures r.table == DelDevice(w.table, d) && r.last == w.last
  {
    var r := w.(table := DelDevice(w.table, d));
    if w.table.cur == Some(KeyOf(w.table.devices[d].id)) then SaveCurrent(names, r) else Reindex(names, r)
  }

  /** Deletes partition k of device d, and the device with its last partition. */
  function PartDel(names: Names, w: World, d: nat, k: nat): (r: World)
    requires d < |w.table.devices| && w.table.devices[d].numParts == |w.table.devices[d].parts|
    requires k < |w.table.devices[d].parts|
    ensures r.table == DelPart(w.table, d, k) && r.last == w.last
  {
    if w.table.devices[d].numParts == 1 then DeviceDel(names, w, d)
    else
      var r := w.(table := DelPart(w.table, d, k));
      if IsCurrent(w.table, d) then SaveCurrent(names, r) else Reindex(names, r)
  }

  // ---- whole commands ----

  /** A command on a table in step with the variables; only those that change the partitions store
      the table's text. */
  function Perform(ids: seq<Id>, names: Names, w: World, c: Command): World
    requires ValidIds(ids) && TableOk(ids, w.table.devices) && !c.Setenv? && !c.DelAll?
  {
    match c
    case Add(_, _, _, _) => AddPartition(ids, names, w, c)
    case Del(id) =>
      var f := FindPart(w.table.devices, id);
      if f.None? then w else Save(PartDel(names, w, FindDevice(w.table.devices, f.value.0), f.value.1))
    case Chpart(id) =>
      var f := FindPart(w.table.devices, id);
      if f.None? then w else SetCurrent(names, w, f.value.0, f.value.1)
  }

  function Exec(ids: seq<Id>, names: Names, w: World, c: Command): World
    requires ValidIds(ids) && TableOk(ids, w.table.devices)
  {
    if c.Setenv? then w.(env := Put(w.env, c.name, c.args, c.accepted))
    else
      var (ok, s) := Sync(ids, names, w);
      if c.DelAll? then DevicesInit(names, s.(env := Unset(s.env, PARTS)))
      else if !ok then s
      else SyncTableOk(ids, names, w); Perform(ids, names, s, c)
  }

  lemma {:induction false} SyncTableOk(ids: seq<Id>, names: Names, w: World)
    requires ValidIds(ids) && TableOk(ids, w.table.devices)
    ensures TableOk(ids, Sync(ids, names, w).1.table.devices)
  {
    hide DeviceOk, Restore, Reread, DevicesInit;
    EmptyOk(ids);
    var text := Get(w.env, PARTS);
    if text.Some? && ParseTable(ids, text.value).Some? {
      ParsedTableOk(ids, [], text.value[9..]);
    }
  }

  // ---- the environment stays in order ----

  lemma {:induction false} RestoreOk(names: Names, w: World, wanted: string)
    requires EnvOk(w.env)
    ensures EnvOk(Restore(names, w, wanted).env)
  {
    hide EnvOk, SaveCurrent;
    SaveCurrentOk(names, w);
    var f := FindPart(w.table.devices, wanted);
    if f.Some? {
      SaveCurrentOk(names, w.(table := w.table.(cur := Some(f.value.0), partnum := f.value.1)));
    }
  }

  lemma {:induction false} RereadOk(names: Names, w: World, devices: seq<Device>)
    requires EnvOk(w.env) && devices != []
    ensures EnvOk(Reread(names, w, devices).env)
  {
    hide EnvOk, SaveCurrent, DevicesInit, Restore, CopyOf;
    DevicesInitOk(names, w);
    SaveCurrentOk(names, DevicesInit(names, w).(table := FirstCurrent(devices), last := CopyOf(w.env)));
    RestoreOk(names, Adopt(names, w, devices), Wanted(w));
  }

  lemma {:induction false} SyncEnvOk(ids: seq<Id>, names: Names, w: World)
    requires ValidIds(ids) && EnvOk(w.env)
    ensures EnvOk(Sync(ids, names, w).1.env)
  {
    hide EnvOk, DevicesInit, Restore, Reread, ParseTable, Get, Rereads, Wanted;
    DevicesInitOk(names, w);
    RestoreOk(names, w, Wanted(w));
    var text := Get(w.env, PARTS);
    if text.Some? {
      var devices := ParseTable(ids, text.value);
      if devices.Some? && devices.value != [] { RereadOk(names, w, devices.value); }
    }
  }

  lemma {:induction false} MergeEnvOk(ids: seq<Id>, names: Names, w: World, dev: Device)
    requires ValidIds(ids) && TableOk(ids, w.table.devices) && DeviceOk(ids, dev) && EnvOk(w.env)
    ensures var m := MergeDevice(ids, names, w, dev); m.Some? ==> EnvOk(m.value.env)
  {
    hide EnvOk, SaveCurrent, Reindex, AddPart, AddMoves, TableOk, DeviceOk, PartValidate;
    var m := MergeDevice(ids, names, w, dev);
    if m.Some? {
      ReindexOk(names, w.(table := m.value.table));
      SaveCurrentOk(names, w.(table := m.value.table));
    }
  }

  lemma {:induction false} AddEnvOk(ids: seq<Id>, names: Names, w: World, c: Command)
    requires ValidIds(ids) && TableOk(ids, w.table.devices) && c.Add? && EnvOk(w.env)
    ensures EnvOk(AddPartition(ids, names, w, c).env)
  {
    hide EnvOk, ReindexTimes, Reindex, MergeDevice, TableOk, ParseDevice, Save, Renumberings, ParseId, AddLength, AddText;
    var key := ParseId(c.dev);
    var id := if key.None? then None else FindId(ids, key.value.0);
    if id.Some? && AddLength(id.value, c) < PART_ADD_DESC_MAXLEN {
      var text := AddText(id.value, c);
      var dev := ParseDevice(ids, w.table.devices, text);
      var r := ReindexTimes(names, w, Renumberings(ids, w.table.devices, text));
      ReindexTimesOk(names, w, Renumberings(ids, w.table.devices, text));
      if dev.Some? {
        ParsedDeviceOk(ids, w.table.devices, text);
        var m := MergeDevice(ids, names, r, dev.value.0);
        MergeEnvOk(ids, names, r, dev.value.0);
        ReindexOk(names, r);
        if m.Some? { SaveOk(m.value); }
      }
    }
  }

  lemma {:induction false} PartDelEnvOk(names: Names, w: World, d: nat, k: nat)
    requires d < |w.table.devices| && w.table.devices[d].numParts == |w.table.devices[d].parts|
    requires k < |w.table.devices[d].parts| && EnvOk(w.env)
    ensures EnvOk(PartDel(names, w, d, k).env)
  {
    hide EnvOk, SaveCurrent, Reindex;
    ReindexOk(names, w.(table := DelPart(w.table, d, k)));
    SaveCurrentOk(names, w.(table := DelPart(w.table, d, k)));
  }

  lemma {:induction false} PerformEnvOk(ids: seq<Id>, names: Names, w: World, c: Command)
    requires ValidIds(ids) && TableOk(ids, w.table.devices) && !c.Setenv? && !c.DelAll? && EnvOk(w.env)
    ensures EnvOk(Perform(ids, names, w, c).env)
  {
    hide EnvOk, AddPartition, PartDel, SaveCurrent, Save, FindPart;
    match c
    case Add(_, _, _, _) => AddEnvOk(ids, names, w, c);
    case Del(id) =>
      var f := FindPart(w.table.devices, id);
      if f.Some? {
        var d := FindDevice(w.table.devices, f.value.0);
        PartDelEnvOk(names, w, d, f.value.1);
        SaveOk(PartDel(names, w, d, f.value.1));
      }
    case Chpart(id) =>
      var f := FindPart(w.table.devices, id);
      if f.Some? {
        SaveCurrentOk(names, w.(table := w.table.(cur := Some(f.value.0), partnum := f.value.1)));
      }
  }

  // ---- the table stays in order ----

  lemma {:induction false} SyncSound(ids: seq<Id>, names: Names, w: World)
    requires Sound(ids, w.table)
    ensures Sound(ids, Sync(ids, names, w).1.table)
  {
    hide DeviceOk, Restore, Reread, DevicesInit, FindPart, Get, Rereads, Wanted, ParseTable;
    SyncTableOk(ids, names, w);
    FoundDevice(w.table.devices, Wanted(w));
    var text := Get(w.env, PARTS);
    if text.Some? && ParseTable(ids, text.value).Some? {
      FoundDevice(ParseTable(ids, text.value).value, Wanted(w));
    }
  }

  lemma FoundDevice(devices: seq<Device>, s: string)
    ensures FindPart(devices, s).Some? ==>
      var (key, num) := FindPart(devices, s).value;
      FindDevice(devices, key) >= 0 && num < devices[FindDevice(devices, key)].numParts
  {
  }

  lemma {:induction false} MergeSound(ids: seq<Id>, names: Names, w: World, dev: Device)
    requires Sound(ids, w.table) && DeviceOk(ids, dev) && MergeDevice(ids, names, w, dev).Some?
    ensures Sound(ids, MergeDevice(ids, names, w, dev).value.table)
  {
    hide Ordered, FindByName, SortAdd, AddPosition, AddPart;
    var t := w.table;
    var d := FindDevice(t.devices, KeyOf(dev.id));
    if d < 0 {
      AddDeviceSound(ids, t, dev);
    } else {
      assert DeviceOk(ids, t.devices[d]);
      AcceptedFits(t.devices[d].id, dev.parts[0].offset, dev.parts[0].size);
      assert FitsDevice(t.devices[d].id, dev.parts[0]) by { assert FitsDevice(dev.id, dev.parts[0]); }
      AddPartSound(ids, t, d, dev.parts[0]);
    }
  }

  lemma {:induction false} PerformSound(ids: seq<Id>, names: Names, w: World, c: Command)
    requires Sound(ids, w.table) && !c.Setenv? && !c.DelAll?
    ensures Sound(ids, Perform(ids, names, w, c).table)
  {
    hide DeviceOk, ParseDevice, DelPart, MergeDevice, FindPart, Renumberings, ParseId, PartDel, SaveCurrent, Save, Reindex;
    match c
    case Add(_, _, _, _) => AddSound(ids, names, w, c);
    case Del(id) =>
      var f := FindPart(w.table.devices, id);
      if f.Some? {
        var d := FindDevice(w.table.devices, f.value.0);
        NotEmpty(ids, w.table.devices[d]);
        DelPartSound(ids, w.table, d, f.value.1);
      }
    case Chpart(id) =>
  }

  lemma {:induction false} AddSound(ids: seq<Id>, names: Names, w: World, c: Command)
    requires Sound(ids, w.table) && c.Add?
    ensures Sound(ids, AddPartition(ids, names, w, c).table)
  {
    assert ValidIds(ids) && TableOk(ids, w.table.devices);
    hide Sound, TableOk, ReindexTimes, Reindex, MergeDevice, ParseDevice, Save, Renumberings, ParseId, AddLength, AddText;
    var key := ParseId(c.dev);
    var id := if key.None? then None else FindId(ids, key.value.0);
    if id.Some? && AddLength(id.value, c) < PART_ADD_DESC_MAXLEN {
      var text := AddText(id.value, c);
      var dev := ParseDevice(ids, w.table.devices, text);
      var r := ReindexTimes(names, w, Renumberings(ids, w.table.devices, text));
      if dev.Some? {
        ParsedDeviceOk(ids, w.table.devices, text);
        if MergeDevice(ids, names, r, dev.value.0).Some? { MergeSound(ids, names, r, dev.value.0); }
      }
    }
  }

  // ---- the current partition exists ----

  /** Bringing the table in step keeps it in order. */
  lemma {:induction false} SyncKeeps(ids: seq<Id>, names: Names, w: World)
    requires ValidIds(ids) && TableInv(ids, w.table)
    ensures TableInv(ids, Sync(ids, names, w).1.table)
  {
    hide TableInv, Restore, Reread, DevicesInit, Get, Rereads, Wanted, ParseTable, Selects, FirstCurrent, CopyOf;
    var text := Get(w.env, PARTS);
    PartnumFits(ids, w.table);
    EmptiedInv(ids, w.table);
    RestoreKeeps(ids, names, w, Wanted(w));
    if text.Some? {
      var devices := ParseTable(ids, text.value);
      if devices.Some? && devices.value != [] {
        ReadInv(ids, text.value, devices.value);
        RereadInv(ids, names, w, devices.value);
      }
    }
  }

  lemma RereadInv(ids: seq<Id>, names: Names, w: World, devices: seq<Device>)
    requires devices != [] && TableInv(ids, FirstCurrent(devices))
    ensures TableInv(ids, Reread(names, w, devices).table)
  {
    hide TableInv, Reread, Selects, Wanted, CopyOf;
    SelectedInv(ids, FirstCurrent(devices), Reread(names, w, devices).table, Wanted(w));
  }

  lemma PartnumFits(ids: seq<Id>, t: Table)
    requires TableInv(ids, t)
    ensures t.partnum < 256
  {
  }

  lemma EmptiedInv(ids: seq<Id>, t: Table)
    requires ValidIds(ids) && t.partnum < 256
    ensures TableInv(ids, Emptied(t))
  {
  }

  /** A text that is read yields a table in order. */
  lemma {:induction false} ReadInv(ids: seq<Id>, text: string, devices: seq<Device>)
    requires ValidIds(ids) && ParseTable(ids, text) == Some(devices) && devices != []
    ensures TableInv(ids, FirstCurrent(devices))
  {
    hide DeviceOk, ParseDevices;
    ParsedTableOk(ids, [], text[9..]);
    FindIs(devices, 0);
    NotEmpty(ids, devices[0]);
  }

  lemma {:induction false} SelectedInv(ids: seq<Id>, t: Table, r: Table, s: string)
    requires TableInv(ids, t) && (r == t || (Selects(s, r) && r.devices == t.devices))
    ensures TableInv(ids, r)
  {
    hide FindPart, DeviceOk;
    if r != t {
      FoundDevice(r.devices, s);
      NotEmpty(ids, r.devices[FindDevice(r.devices, r.cur.value)]);
    }
  }

  lemma RestoreKeeps(ids: seq<Id>, names: Names, w: World, wanted: string)
    requires TableInv(ids, w.table)
    ensures TableInv(ids, Restore(names, w, wanted).table)
  {
    hide Restore, TableInv, Selects;
    SelectedInv(ids, w.table, Restore(names, w, wanted).table, wanted);
  }

  lemma {:induction false} MergeKeeps(ids: seq<Id>, names: Names, w: World, dev: Device)
    requires ValidIds(ids) && TableInv(ids, w.table) && DeviceOk(ids, dev) && MergeDevice(ids, names, w, dev).Some?
    ensures TableInv(ids, MergeDevice(ids, names, w, dev).value.table)
  {
    hide Ordered, FindByName, SortAdd, AddPosition, SaveCurrent, Reindex;
    var t := w.table;
    var d := FindDevice(t.devices, KeyOf(dev.id));
    var t' := MergeDevice(ids, names, w, dev).value.table;
    if d < 0 {
      AddDeviceKeeps(ids, t, dev);
    } else {
      var p := dev.parts[0];
      assert DeviceOk(ids, t.devices[d]);
      AcceptedFits(t.devices[d].id, p.offset, p.size);
      assert FitsDevice(t.devices[d].id, p);
      AddPartKeeps(ids, t, d, p);
    }
  }

  lemma {:induction false} AddKeeps(ids: seq<Id>, names: Names, w: World, c: Command)
    requires TableInv(ids, w.table) && c.Add?
    ensures TableInv(ids, AddPartition(ids, names, w, c).table)
  {
    assert ValidIds(ids) && TableOk(ids, w.table.devices);
    hide TableInv, TableOk, ReindexTimes, Reindex, MergeDevice, ParseDevice, Save, Renumberings, ParseId, AddLength, AddText;
    var key := ParseId(c.dev);
    var id := if key.None? then None else FindId(ids, key.value.0);
    if id.Some? && AddLength(id.value, c) < PART_ADD_DESC_MAXLEN {
      var text := AddText(id.value, c);
      var dev := ParseDevice(ids, w.table.devices, text);
      var r := ReindexTimes(names, w, Renumberings(ids, w.table.devices, text));
      if dev.Some? {
        ParsedDeviceOk(ids, w.table.devices, text);
        if MergeDevice(ids, names, r, dev.value.0).Some? { MergeKeeps(ids, names, r, dev.value.0); }
      }
    }
  }

  lemma {:induction false} DelKeepsExactly(ids: seq<Id>, t: Table, d: nat, k: nat)
    requires TableInv(ids, t) && d < |t.devices| && k < |t.devices[d].parts|
    ensures TableInv(ids, DelPart(t, d, k)) <==> !LosesCurrent(t, d, k)
  {
    hide Ordered, FitsDevice, FindByName;
    if |t.devices[d].parts| == 1 {
      DelDeviceKeeps(ids, t, d);
    } else {
      DelPartKeepsExactly(ids, t, d, k);
    }
  }

  /** What a command must not do for the current partition to go on existing: delete a partition behind
      the current one at the same offset, while that is number 0 and no more than 255 would remain. */
  ghost predicate Harmless(ids: seq<Id>, t: Table, c: Command)
    requires TableOk(ids, t.devices)
  {
    c.Del? ==>
      var f := FindPart(t.devices, c.id);
      f.Some? ==> !LosesCurrent(t, FindDevice(t.devices, f.value.0), f.value.1)
  }

  /** A command keeps the table in order, current partition included, exactly when it is harmless. */
  lemma {:induction false} HarmlessExactly(ids: seq<Id>, names: Names, w: World, c: Command)
    requires TableInv(ids, w.table) && !c.Setenv? && !c.DelAll?
    ensures TableInv(ids, Perform(ids, names, w, c).table) <==> Harmless(ids, w.table, c)
  {
    hide FindPart, Selects, AddPartition, SaveCurrent, DelPart, LosesCurrent, PartDel;
    match c
    case Add(_, _, _, _) =>
      AddKeeps(ids, names, w, c);
      hide TableOk;
    case Del(id) =>
      hide TableInv, Save;
      var f := FindPart(w.table.devices, id);
      if f.Some? {
        DelKeepsExactly(ids, w.table, FindDevice(w.table.devices, f.value.0), f.value.1);
      }
    case Chpart(id) =>
      hide TableInv;
      ChpartKeeps(ids, names, w, id);
  }

  lemma ChpartKeeps(ids: seq<Id>, names: Names, w: World, id: string)
    requires TableInv(ids, w.table)
    ensures var f := FindPart(w.table.devices, id);
      f.Some? ==> TableInv(ids, SetCurrent(names, w, f.value.0, f.value.1).table)
  {
    hide FindPart, SaveCurrent, TableInv;
    var f := FindPart(w.table.devices, id);
    if f.Some? {
      SelectedInv(ids, w.table, SetCurrent(names, w, f.value.0, f.value.1).table, id);
    }
  }
}
