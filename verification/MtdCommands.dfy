/**
 The partition table as the commands keep it: the list of devices, the current partition, the
 environment, and the copies of `mtdparts` and `partition` last seen.
 */
module MtdCommands {
  import opened Common
  import opened MtdText
  import opened PartCheck
  import opened MtdParse
  import opened MtdTies
  import opened MtdReread
  import opened MtdTable
  import opened MtdAccepted
  import opened EnvBytes
  import opened MtdEnv
  import opened MtdCopy
  import opened MtdRun
  import opened MtdReach
  import opened MtdParts

  /** One step of counting the partitions before those of a device. */
  lemma CountOne(devices: seq<Device>, d: nat, key: Key, partnum: nat)
    requires d < |devices|
    ensures KeyOf(devices[d].id) == key ==>
      FindDevice(devices[d..], key) == 0 && GlobalIndex(devices[d..], key, partnum) == partnum
    ensures KeyOf(devices[d].id) != key ==>
      var rest := devices[d + 1..];
      && GlobalIndex(devices[d..], key, partnum) == devices[d].numParts + GlobalIndex(rest, key, partnum)
      && FindDevice(devices[d..], key) == if FindDevice(rest, key) < 0 then -1 else FindDevice(rest, key) + 1
  {
    assert devices[d..][0] == devices[d] && devices[d..][1..] == devices[d + 1..];
  }

  class PartitionTable {
    const ids: seq<Id>
    var devices: seq<Device>
    var currentDev: Option<Key>
    var currentPartnum: nat
    var env: Env
    var lastParts: string
    var lastPartition: string

    function CurrentTable(): Table
      reads this
    {
      Table(devices, currentDev, currentPartnum)
    }

    function State(): World
      reads this
    {
      World(CurrentTable(), env, lastParts, lastPartition)
    }

    ghost predicate Valid()
      reads this
    {
      StateOk(ids, State())
    }

    /** The current device, if there is one, is in the list. */
    ghost predicate CurrentListed()
      reads this
    {
      currentDev.Some? ==> TableOk(ids, devices) && FindDevice(devices, currentDev.value) >= 0
    }

    /** At power-up. */
    constructor (ids: seq<Id>, env: Env)
      requires ValidIds(ids) && EnvOk(env)
      ensures Valid() && this.ids == ids && State() == Boot(env)
    {
      this.ids := ids;
      devices, currentDev, currentPartnum := [], None, 0;
      this.env, lastParts, lastPartition := env, "", "";
      BootOk(ids, env);
    }

    /** Finds the partition with this number (jffs2_part_info). */
    method PartInfo(d: nat, num: nat) returns (part: Option<Part>)
      requires d < |devices| && devices[d].numParts == |devices[d].parts|
      ensures part == if num < |devices[d].parts| then Some(devices[d].parts[num]) else None
    {
      if num >= devices[d].numParts {
        return None;
      }
      return Some(devices[d].parts[num]);
    }

    /** Counts the partitions of the devices before the current one, in 16 bits. */
    method PartsBefore() returns (num: nat, d: nat)
      requires currentDev.Some? && FindDevice(devices, currentDev.value) >= 0
      ensures d == FindDevice(devices, currentDev.value)
      ensures (num + currentPartnum) % 0x1_0000 == GlobalIndex(devices, currentDev.value, currentPartnum) % 0x1_0000
    {
      hide FindDevice, GlobalIndex;
      num, d := 0, 0;
      assert devices[0..] == devices;
      while KeyOf(devices[d].id) != currentDev.value
        invariant d < |devices| && FindDevice(devices[d..], currentDev.value) >= 0
        invariant FindDevice(devices[d..], currentDev.value) + d == FindDevice(devices, currentDev.value)
        invariant (num + GlobalIndex(devices[d..], currentDev.value, currentPartnum)) % 0x1_0000 ==
          GlobalIndex(devices, currentDev.value, currentPartnum) % 0x1_0000
        decreases |devices| - d
      {
        CountOne(devices, d, currentDev.value, currentPartnum);
        num := (num + devices[d].numParts) % 0x1_0000;
        d := d + 1;
      }
      CountOne(devices, d, currentDev.value, currentPartnum);
    }

    /** Stores the global number and the name of the current partition (index_partitions). */
    method IndexPartitions(names: Names)
      requires CurrentListed()
      modifies this`env
      ensures State() == Reindex(names, old(State()))
    {
      hide DeviceOk, Set, Unset, GlobalIndex, FindDevice;
      if currentDev.None? {
        env := Unset(env, DEVNUM);
        env := Unset(env, DEVNAME);
        return;
      }
      var num, d := PartsBefore();
      NotEmpty(ids, devices[d]);
      env := Set(env, DEVNUM, Decimal((num + currentPartnum) % 0x1_0000));
      var part := PartInfo(d, currentPartnum);
      var name := if part.Some? && part.value.name.Some? then part.value.name.value else names(CurrentTable());
      env := Set(env, DEVNAME, name);
    }

    /** Stores the current partition (current_save). */
    method CurrentSave(names: Names)
      requires CurrentListed()
      modifies this`env, this`lastPartition
      ensures State() == SaveCurrent(names, old(State()))
    {
      hide TableOk, FindDevice, Reindex, Set, Unset;
      if currentDev.Some? {
        var text := PartitionText(currentDev.value, currentPartnum);
        env := Set(env, PARTITION, text);
        lastPartition := text;
      } else {
        env := Unset(env, PARTITION);
        lastPartition := "";
      }
      IndexPartitions(names);
    }

    /** Links a partition into the list of device d; the current number moves with its partition. */
    method PartSortAdd(names: Names, d: nat, p: Part) returns (ok: bool)
      requires Sound(ids, CurrentTable()) && d < |devices| && FitsDevice(devices[d].id, p)
      requires devices[d].numParts == |devices[d].parts|
      modifies this`devices, this`currentPartnum, this`env, this`lastPartition
      ensures Sound(ids, CurrentTable()) && (ok <==> AddPart(old(CurrentTable()), d, p).Some?)
      ensures State() ==
        if !ok then old(State())
        else
          var r := old(State()).(table := AddPart(old(CurrentTable()), d, p).value);
          if AddMoves(old(CurrentTable()), d, p) then SaveCurrent(names, r) else Reindex(names, r)
    {
      hide TableOk, FitsDevice, SortAdd, AddPosition, SaveCurrent, Reindex;
      ghost var t := CurrentTable();
      var dev := devices[d];
      var parts, k;
      ok, parts, k := SortInto(dev.parts, p);
      if !ok {
        return;
      }
      AddPartSound(ids, t, d, p);
      var moves := false;
      if currentDev == Some(KeyOf(dev.id)) && currentPartnum < dev.numParts && k < |dev.parts| {
        moves := dev.parts[k].offset <= dev.parts[currentPartnum].offset;
      }
      devices := devices[d := dev.(parts := parts, numParts := dev.numParts + 1)];
      if moves {
        currentPartnum := (currentPartnum + 1) % 256;
        CurrentSave(names);
      } else {
        IndexPartitions(names);
      }
    }

    /** Adds a partition to an existing device if it passes the check. */
    method PartAdd(names: Names, d: nat, p: Part) returns (ok: bool)
      requires Sound(ids, CurrentTable()) && d < |devices| && p.offset < U32 && p.size < SIZE_REMAINING
      requires p.name.Some? ==> p.name.value != "" && ')' !in p.name.value
      requires devices[d].numParts == |devices[d].parts| && devices[d].id.Valid()
      modifies this`devices, this`currentPartnum, this`env, this`lastPartition
      ensures Sound(ids, CurrentTable())
      ensures var r := MtdRun.PartAdd(names, old(State()), d, p);
        ok == r.Some? && State() == if ok then r.value else old(State())
    {
      hide PartValidate, AddPart, AddMoves, TableOk, SaveCurrent, Reindex;
      var size;
      ok, size := Validate(devices[d].id, p);
      if ok {
        AcceptedFits(devices[d].id, p.offset, p.size);
        ok := PartSortAdd(names, d, p);
      }
    }

    method DeviceAdd(names: Names, dev: Device)
      requires Sound(ids, CurrentTable()) && DeviceOk(ids, dev) && FindDevice(devices, KeyOf(dev.id)) < 0
      modifies this`devices, this`currentDev, this`currentPartnum, this`env, this`lastPartition
      ensures Sound(ids, CurrentTable()) && State() == MtdRun.DeviceAdd(names, old(State()), dev)
    {
      hide TableOk, DeviceOk, FindDevice, SaveCurrent, Reindex;
      AddDeviceSound(ids, CurrentTable(), dev);
      var first := devices == [];
      if first {
        currentDev, currentPartnum := Some(KeyOf(dev.id)), 0;
      }
      devices := devices + [dev];
      assert first ==> devices == [dev];
      if first {
        CurrentSave(names);
      } else {
        IndexPartitions(names);
      }
    }

    method DeviceDel(names: Names, d: nat)
      requires Sound(ids, CurrentTable()) && d < |devices|
      modifies this`devices, this`currentDev, this`currentPartnum, this`env, this`lastPartition
      ensures Sound(ids, CurrentTable()) && State() == MtdRun.DeviceDel(names, old(State()), d)
    {
      hide TableOk, FindDevice, SaveCurrent, Reindex;
      DelDeviceSound(ids, CurrentTable(), d);
      var wasCurrent := currentDev == Some(KeyOf(devices[d].id));
      devices := devices[..d] + devices[d + 1..];
      if wasCurrent {
        if devices == [] {
          currentDev := None;
        } else {
          currentDev, currentPartnum := Some(KeyOf(devices[0].id)), 0;
        }
        CurrentSave(names);
      } else {
        IndexPartitions(names);
      }
    }

    /** Deletes partition k of device d, and the device with its last partition. */
    method PartDel(names: Names, d: nat, k: nat)
      requires Sound(ids, CurrentTable()) && d < |devices| && k < |devices[d].parts|
      requires devices[d].numParts == |devices[d].parts|
      modifies this`devices, this`currentDev, this`currentPartnum, this`env, this`lastPartition
      ensures Sound(ids, CurrentTable()) && State() == MtdRun.PartDel(names, old(State()), d, k)
    {
      hide TableOk, FindDevice, DelDevice, SaveCurrent, Reindex;
      var dev := devices[d];
      DelPartSound(ids, CurrentTable(), d, k);
      if dev.numParts == 1 {
        DeviceDel(names, d);
        return;
      }
      var saves := false;
      if currentDev == Some(KeyOf(dev.id)) && currentPartnum < dev.numParts {
        if k == currentPartnum {
          currentPartnum := 0;
        } else if dev.parts[k].offset <= dev.parts[currentPartnum].offset {
          currentPartnum := (currentPartnum + 255) % 256;
        }
        saves := true;
      }
      devices := devices[d := dev.(parts := dev.parts[..k] + dev.parts[k + 1..], numParts := dev.numParts - 1)];
      if saves {
        CurrentSave(names);
      } else {
        IndexPartitions(names);
      }
    }

    /** Forgets all devices and the copy of the table's text. */
    method DevicesInit(names: Names)
      modifies this`devices, this`currentDev, this`env, this`lastParts, this`lastPartition
      ensures State() == MtdEnv.DevicesInit(names, old(State()))
    {
      hide SaveCurrent, TableOk, FindDevice;
      lastParts := "";
      currentDev := None;
      CurrentSave(names);
      devices := [];
    }

    /** Stores the generated text; one that is too long is dropped, but the table stays. */
    method GenerateMtdpartsSave() returns (ok: bool)
      modifies this`env, this`lastParts
      ensures State() == Save(old(State())) && (ok <==> Generate(devices).Some?)
    {
      hide TableText, DevicesText, Set, Unset;
      var text := GenerateMtdparts(devices, MTDPARTS_MAXLEN);
      lastParts := if text.Some? then text.value else "";
      if lastParts != "" {
        env := Set(env, PARTS, lastParts);
      } else {
        env := Unset(env, PARTS);
      }
      ok := text.Some?;
    }

    /** Finds a device; -1 if it is not there. */
    method DeviceFind(key: Key) returns (d: int)
      ensures d == FindDevice(devices, key)
    {
      d := 0;
      assert devices[0..] == devices;
      while d < |devices|
        invariant 0 <= d <= |devices|
        invariant FindDevice(devices, key) == (var k := FindDevice(devices[d..], key); if k < 0 then -1 else d + k)
      {
        assert devices[d..][0] == devices[d] && devices[d..][1..] == devices[d + 1..];
        if KeyOf(devices[d].id) == key {
          return;
        }
        d := d + 1;
      }
      d := -1;
    }

    /** Finds the device and the partition that a part-id names (find_dev_and_part). */
    method FindDevAndPart(id: string) returns (r: Option<(Key, nat)>)
      ensures r == FindPart(devices, id)
    {
      hide ParseId, Strtoul, FindDevice;
      var key, p := IdParse(id);
      if key.None? || p == |id| || id[p] != ',' || p + 1 == |id| {
        return None;
      }
      assert id[p..][0] == id[p] && id[p..][1..] == id[p + 1..];
      var num;
      num, p := SimpleStrtoul(id, p + 1);
      if p < |id| {
        return None;
      }
      assert id[p..] == "";
      var d := DeviceFind(key.value);
      if d < 0 || num % 256 >= devices[d].numParts {
        return None;
      }
      r := Some((key.value, num % 256));
    }

    /** Makes a partition current. */
    method ChangeCurrent(names: Names, key: Key, num: nat)
      requires TableOk(ids, devices) && FindDevice(devices, key) >= 0
      modifies this`currentDev, this`currentPartnum, this`env, this`lastPartition
      ensures State() == SetCurrent(names, old(State()), key, num)
    {
      hide TableOk, FindDevice, SaveCurrent;
      currentDev, currentPartnum := Some(key), num;
      CurrentSave(names);
    }

    /** Makes the partition current that the variable `partition` named, unless that is the one last
        stored; stores the variable if there is none. */
    method RestorePartition(names: Names, wanted: string)
      requires Sound(ids, CurrentTable())
      modifies this`currentDev, this`currentPartnum, this`env, this`lastPartition
      ensures State() == Restore(names, old(State()), wanted)
    {
      hide TableOk, FindDevice, FindPart, SaveCurrent, SetCurrent;
      if wanted != "" && wanted != lastPartition {
        var f := FindDevAndPart(wanted);
        if f.Some? {
          FoundDevice(devices, wanted);
          ChangeCurrent(names, f.value.0, f.value.1);
        }
      } else if Get(env, PARTITION).None? {
        CurrentSave(names);
      }
    }

    /** Takes over devices that were read, with the copy of their text; the first partition is the
        current one. */
    method AdoptTable(names: Names, read: seq<Device>, copy: string)
      requires read != [] && TableOk(ids, read)
      modifies this
      ensures State() == SaveCurrent(names, old(State()).(table := FirstCurrent(read), last := copy))
    {
      hide SaveCurrent, TableOk;
      assert FindDevice(read, KeyOf(read[0].id)) == 0;
      devices, lastParts := read, copy;
      currentDev, currentPartnum := Some(KeyOf(devices[0].id)), 0;
      CurrentSave(names);
    }

    /** Reads the table from the variable; the copy of the text is taken from the address `p` that the
        variable had before.  While the text is read there is no current device, so that numbering the
        partitions anew changes nothing. */
    method ReadTable(names: Names, p: nat) returns (ok: bool)
      requires Valid() && Get(env, PARTS).Some? && p == ValueIndex(env.entries, PARTS)
      modifies this
      ensures var r := ParseTable(ids, old(Get(env, PARTS).value));
        ok == (r.Some? && r.value != []) &&
        State() == if ok then Adopt(names, old(State()), r.value) else MtdEnv.DevicesInit(names, old(State()))
    {
      SoundTable(ids, State());
      StateEnv();
      hide *;
      ghost var w := State();
      ForgettingMoves(env);
      Forgot(names, w, p);
      DevicesInit(names);
      var text := Get(env, PARTS).value;
      var r := ParseMtdparts(ids, text);
      if r.None? || r.value == [] {
        return false;
      }
      ReadSound(ids, text, r.value);
      AdoptTable(names, r.value, Cut(StringAt(env.data, p), MTDPARTS_MAXLEN));
      AdoptIs(names, w, r.value);
      ok := true;
    }

    lemma StateEnv()
      requires Valid()
      ensures EnvOk(env)
    {
    }

    /** Reads the table from the variable unless its text is the copy last seen, and restores the
        current partition. */
    method MtdpartsInit(names: Names) returns (ok: bool)
      requires Valid()
      modifies this
      ensures Sound(ids, CurrentTable()) && (ok, State()) == Sync(ids, names, old(State()))
    {
      SoundTable(ids, State());
      hide ParseTable, Sound, TableOk, EnvOk, Get, Restore, Adopt, ValueIndex, CopyOf, FindDevice, MtdEnv.DevicesInit;
      SyncSound(ids, names, State());
      var parts, p, current := Get(env, PARTS), ValueIndex(env.entries, PARTS), Get(env, PARTITION);
      var wanted := if current.Some? then Cut(current.value, PARTITION_MAXLEN) else "";
      if parts.Some? && |parts.value| > MTDPARTS_MAXLEN - 1 {
        return false;
      }
      if parts.Some? && (lastParts == "" || lastParts != parts.value) {
        ok := ReadTable(names, p);
        if !ok {
          return;
        }
        ReadSound(ids, parts.value, devices);
      }
      if parts.None? {
        if lastParts != "" {
          DevicesInit(names);
        }
        return true;
      }
      RestorePartition(names, wanted);
      ok := true;
    }

    /** Merges a device that was read into the table: only its first partition, if the device is
        there already. */
    method MergeDevice(names: Names, dev: Device) returns (ok: bool)
      requires ValidIds(ids) && Sound(ids, CurrentTable()) && DeviceOk(ids, dev)
      modifies this`devices, this`currentDev, this`currentPartnum, this`env, this`lastPartition
      ensures Sound(ids, CurrentTable())
      ensures var m := MtdRun.MergeDevice(ids, names, old(State()), dev);
        ok == m.Some? && State() == if ok then m.value else old(State())
    {
      hide MtdRun.PartAdd, MtdRun.DeviceAdd, Ordered, PartValidate, FindDevice;
      var d := DeviceFind(KeyOf(dev.id));
      if d < 0 {
        DeviceAdd(names, dev);
        return true;
      }
      assert DeviceOk(ids, devices[d]);
      assert FitsDevice(dev.id, dev.parts[0]);
      ok := PartAdd(names, d, dev.parts[0]);
    }

    /** Numbers the partitions anew, as often as it is done while a device is read. */
    method Renumber(names: Names, n: nat)
      requires Sound(ids, CurrentTable())
      modifies this`env
      ensures State() == ReindexTimes(names, old(State()), n)
    {
      hide Reindex, Sound;
      for i := 0 to n
        invariant CurrentTable() == old(CurrentTable())
        invariant ReindexTimes(names, State(), n - i) == ReindexTimes(names, old(State()), n)
      {
        SoundListed();
        IndexPartitions(names);
      }
    }

    lemma SoundListed()
      requires Sound(ids, CurrentTable())
      ensures CurrentListed()
    {
    }

    /** `mtdparts add`, on a table in step with the variables. */
    method AddPartition(names: Names, c: Command) returns (ok: bool)
      requires ValidIds(ids) && Sound(ids, CurrentTable()) && c.Add?
      modifies this
      ensures State() == MtdRun.AddPartition(ids, names, old(State()), c)
    {
      SoundTable(ids, State());
      hide ParseDevice, Reindex, ReindexTimes, MtdRun.MergeDevice, Save, Sound, TableOk, Renumberings, ParseId, AddText, AddLength;
      var key, q := IdParse(c.dev);
      if key.None? {
        return false;
      }
      var id := FindId(ids, key.value);
      if id.None? || AddLength(id.value, c) >= PART_ADD_DESC_MAXLEN {
        return false;
      }
      var text := AddText(id.value, c);
      assert text[0..] == text;
      var r, p, n := ParseDeviceDef(ids, devices, text, 0);
      Renumber(names, n);
      if r.None? {
        return false;
      }
      ParsedDeviceOk(ids, devices, text);
      ok := MergeDevice(names, r.value);
      SoundListed();
      if ok {
        ok := GenerateMtdpartsSave();
      } else {
        IndexPartitions(names);
      }
    }

    /** `mtdparts del`, likewise. */
    method DeletePartition(names: Names, id: string) returns (ok: bool)
      requires ValidIds(ids) && Sound(ids, CurrentTable())
      modifies this
      ensures State() == Perform(ids, names, old(State()), Del(id))
    {
      hide MtdRun.PartDel, Save, FindPart, Reindex, SaveCurrent;
      var f := FindDevAndPart(id);
      if f.None? {
        return false;
      }
      FoundDevice(devices, id);
      var d := DeviceFind(f.value.0);
      NotEmpty(ids, devices[d]);
      PartDel(names, d, f.value.1);
      ok := GenerateMtdpartsSave();
    }

    /** `chpart`, likewise. */
    method ChangePartition(names: Names, id: string) returns (ok: bool)
      requires ValidIds(ids) && Sound(ids, CurrentTable())
      modifies this
      ensures State() == Perform(ids, names, old(State()), Chpart(id))
    {
      hide FindPart, SetCurrent;
      var f := FindDevAndPart(id);
      if f.None? {
        return false;
      }
      FoundDevice(devices, id);
      ChangeCurrent(names, f.value.0, f.value.1);
      ok := true;
    }

    /** A command on a table in step with the variables. */
    method PerformCommand(names: Names, c: Command) returns (ok: bool)
      requires ValidIds(ids) && Sound(ids, CurrentTable()) && !c.Setenv? && !c.DelAll?
      modifies this
      ensures State() == Perform(ids, names, old(State()), c)
    {
      SoundTable(ids, State());
      hide Sound, TableOk, MtdRun.AddPartition, MtdRun.PartDel, SetCurrent, Save, FindPart;
      match c
      case Add(_, _, _, _) => ok := AddPartition(names, c);
      case Del(id) => ok := DeletePartition(names, id);
      case Chpart(id) => ok := ChangePartition(names, id);
    }

    /** A partition command: the table is first brought in step with the variables. */
    method ExecuteInStep(names: Names, c: Command)
      requires Valid() && !c.Setenv?
      modifies this
      ensures TableOk(ids, old(devices)) && State() == Exec(ids, names, old(State()), c)
    {
      ghost var w := State();
      StateKept(ids, names, w, c);
      hide *;
      var ok := MtdpartsInit(names);
      ExecGoesOn(ids, names, w, c, ok, State());
      if c.DelAll? {
        env := Unset(env, PARTS);
        DevicesInit(names);
      } else if ok {
        ok := PerformCommand(names, c);
      }
    }

    /** Any command, from power-up on. */
    method Execute(names: Names, c: Command)
      requires Valid()
      modifies this
      ensures Valid() && State() == Exec(ids, names, old(State()), c)
    {
      ghost var w := State();
      StateKept(ids, names, w, c);
      hide StateOk, TableOk, ValidIds, Exec, Put;
      if c.Setenv? {
        ExecSets(ids, names, w, c);
        env := Put(env, c.name, c.args, c.accepted);
      } else {
        ExecuteInStep(names, c);
      }
    }
  }

  lemma StateKept(ids: seq<Id>, names: Names, w: World, c: Command)
    requires StateOk(ids, w)
    ensures ValidIds(ids) && TableOk(ids, w.table.devices) && StateOk(ids, Exec(ids, names, w, c))
  {
    SoundTable(ids, w);
    ExecOk(ids, names, w, c);
  }

  lemma ExecSets(ids: seq<Id>, names: Names, w: World, c: Command)
    requires ValidIds(ids) && TableOk(ids, w.table.devices) && c.Setenv?
    ensures Exec(ids, names, w, c) == w.(env := Put(w.env, c.name, c.args, c.accepted))
  {
    hide TableOk, Put;
  }

  lemma ExecGoesOn(ids: seq<Id>, names: Names, w: World, c: Command, ok: bool, s: World)
    requires ValidIds(ids) && TableOk(ids, w.table.devices) && !c.Setenv? && (ok, s) == Sync(ids, names, w)
    ensures TableOk(ids, s.table.devices)
    ensures c.DelAll? ==> Exec(ids, names, w, c) == MtdEnv.DevicesInit(names, s.(env := Unset(s.env, PARTS)))
    ensures !c.DelAll? && !ok ==> Exec(ids, names, w, c) == s
    ensures !c.DelAll? && ok ==> Exec(ids, names, w, c) == Perform(ids, names, s, c)
  {
    SyncTableOk(ids, names, w);
    hide Sync, TableOk, Unset, MtdEnv.DevicesInit, Perform;
  }

  lemma Forgot(names: Names, w: World, p: nat)
    requires p == ValueIndex(w.env.entries, PARTS)
    ensures MtdEnv.DevicesInit(names, w).env == Forgotten(w.env)
    ensures Cut(StringAt(Forgotten(w.env).data, p), MTDPARTS_MAXLEN) == CopyOf(w.env)
  {
  }

  lemma AdoptIs(names: Names, w: World, devices: seq<Device>)
    requires devices != []
    ensures Adopt(names, w, devices) ==
      SaveCurrent(names, MtdEnv.DevicesInit(names, w).(table := FirstCurrent(devices), last := CopyOf(w.env)))
  {
  }

  lemma {:induction false} ReadSound(ids: seq<Id>, text: string, devices: seq<Device>)
    requires ValidIds(ids) && ParseTable(ids, text) == Some(devices) && devices != []
    ensures TableOk(ids, devices) && Sound(ids, FirstCurrent(devices)) && FindDevice(devices, KeyOf(devices[0].id)) >= 0
  {
    hide DeviceOk, ParseDevices;
    ParsedTableOk(ids, [], text[9..]);
    FindIs(devices, 0);
  }
}
