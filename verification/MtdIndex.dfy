/**
 The variable `mtddevnum` over whole runs: it holds the current partition's number among all
 partitions of all devices, or nothing if the environment was too full for it.
 */
module MtdIndex {
  import opened Common
  import opened MtdText
  import opened PartCheck
  import opened MtdParse
  import opened MtdReread
  import opened MtdTable
  import opened MtdAccepted
  import opened EnvBytes
  import opened MtdEnv
  import opened MtdCopy
  import opened MtdRun
  import opened MtdReach
  import EnvSpec

  /** The number that belongs into the variable, in 16 bits. */
  function DevNum(t: Table): string
    requires t.cur.Some?
  {
    Decimal(GlobalIndex(t.devices, t.cur.value, t.partnum) % 0x1_0000)
  }

  ghost predicate InStep(w: World) {
    var v := Get(w.env, DEVNUM);
    v == None || (w.table.cur.Some? && v == Some(DevNum(w.table)))
  }

  lemma DigitsAreText(s: string)
    requires forall i :: 0 <= i < |s| ==> IsDigit(s[i])
    ensures CText(s) == s
  {
    assert forall i :: 0 <= i < |s| ==> s[i] != EnvSpec.NUL;
  }

  /** Setting the variable gives it its value exactly when there is room for it. */
  lemma {:induction false} SetExactly(e: Env, name: string, v: string)
    requires EnvOk(e) && Plain(name) && CText(v) == v
    ensures Get(Set(e, name, v), name) ==
      if |EnvSpec.Image(Rest(e.entries, name) + [name + "=" + v])| <= |e.data| then Some(v) else None
  {
    var rest, entry := Rest(e.entries, name), name + "=" + v;
    SetIs(e, name, v);
    SetIsLast(e, name, v);
    RestHasNone(e.entries, name);
    FindAppended(rest, entry, name);
    hide Set, EnvSpec.Image, EnvSpec.KeyOf, CText, Rest, EnvSpec.Find;
  }

  /** Numbering the partitions stores the current one's number exactly when there is room for it. */
  lemma {:induction false} ReindexStores(names: Names, w: World)
    requires EnvOk(w.env)
    ensures InStep(Reindex(names, w))
    ensures w.table.cur.Some? ==>
      (Get(Reindex(names, w).env, "mtddevnum") == Some(DevNum(w.table)) <==>
       |EnvSpec.Image(Rest(w.env.entries, DEVNUM) + [DEVNUM + "=" + DevNum(w.table)])| <= |w.env.data|)
  {
    NamesArePlain();
    var t := w.table;
    hide EnvOk, Set, Unset, Get, Plain, CurrentName, GlobalIndex, Rest, EnvSpec.Image;
    if t.cur.Some? {
      var num := DevNum(t);
      DigitsAreText(num);
      SetExactly(w.env, DEVNUM, num);
      SetOk(w.env, DEVNUM, num);
      SetOther(Set(w.env, DEVNUM, num), DEVNAME, CurrentName(names, t), DEVNUM);
    } else {
      Undefines(w.env, DEVNUM, DEVNAME);
      Undefines(Unset(w.env, DEVNUM), DEVNAME, DEVNUM);
    }
  }

  // ---- every command leaves the number in step ----

  lemma {:induction false} SaveCurrentSteps(names: Names, w: World)
    requires EnvOk(w.env)
    ensures InStep(SaveCurrent(names, w))
  {
    hide EnvOk, Set, Unset, Reindex, InStep;
    if w.table.cur.None? {
      UnsetOk(w.env, PARTITION);
      ReindexStores(names, w.(env := Unset(w.env, PARTITION), lastPartition := ""));
    } else {
      var text := PartitionText(w.table.cur.value, w.table.partnum);
      SetOk(w.env, PARTITION, text);
      ReindexStores(names, w.(env := Set(w.env, PARTITION, text), lastPartition := text));
    }
  }

  lemma {:induction false} DevicesInitSteps(names: Names, w: World)
    requires EnvOk(w.env)
    ensures InStep(DevicesInit(names, w))
  {
    hide EnvOk, SaveCurrent;
    SaveCurrentSteps(names, w.(table := w.table.(cur := None), last := ""));
  }

  lemma {:induction false} SaveSteps(w: World)
    requires EnvOk(w.env) && InStep(w)
    ensures InStep(Save(w))
  {
    NamesArePlain();
    hide EnvOk, Set, Unset, Get, Generate, Plain;
    var text := Generate(w.table.devices);
    Undefines(w.env, PARTS, DEVNUM);
    if text.Some? { SetOther(w.env, PARTS, text.value, DEVNUM); }
  }

  lemma {:induction false} RenumberSteps(names: Names, w: World, n: nat)
    requires EnvOk(w.env) && InStep(w)
    ensures InStep(ReindexTimes(names, w, n))
    decreases n
  {
    hide EnvOk, Reindex, InStep;
    if n > 0 {
      ReindexOk(names, w);
      ReindexStores(names, w);
      RenumberSteps(names, Reindex(names, w), n - 1);
    }
  }

  lemma {:induction false} RestoreSteps(names: Names, w: World, wanted: string)
    requires EnvOk(w.env) && InStep(w)
    ensures InStep(Restore(names, w, wanted))
  {
    hide EnvOk, SaveCurrent, InStep, FindPart;
    SaveCurrentSteps(names, w);
    var f := FindPart(w.table.devices, wanted);
    if f.Some? {
      SaveCurrentSteps(names, w.(table := w.table.(cur := Some(f.value.0), partnum := f.value.1)));
    }
  }

  lemma {:induction false} RereadSteps(names: Names, w: World, devices: seq<Device>)
    requires EnvOk(w.env) && devices != []
    ensures InStep(Reread(names, w, devices))
  {
    hide EnvOk, SaveCurrent, DevicesInit, Restore, CopyOf, InStep;
    var s := DevicesInit(names, w).(table := FirstCurrent(devices), last := CopyOf(w.env));
    DevicesInitOk(names, w);
    SaveCurrentOk(names, s);
    SaveCurrentSteps(names, s);
    RestoreSteps(names, Adopt(names, w, devices), Wanted(w));
  }

  lemma {:induction false} SyncSteps(ids: seq<Id>, names: Names, w: World)
    requires ValidIds(ids) && EnvOk(w.env) && InStep(w)
    ensures InStep(Sync(ids, names, w).1)
  {
    hide EnvOk, DevicesInit, Restore, Reread, ParseTable, Get, Rereads, Wanted, InStep;
    DevicesInitSteps(names, w);
    RestoreSteps(names, w, Wanted(w));
    var text := Get(w.env, PARTS);
    if text.Some? {
      var devices := ParseTable(ids, text.value);
      if devices.Some? && devices.value != [] { RereadSteps(names, w, devices.value); }
    }
  }

  lemma {:induction false} MergeSteps(ids: seq<Id>, names: Names, w: World, dev: Device)
    requires ValidIds(ids) && TableOk(ids, w.table.devices) && DeviceOk(ids, dev) && EnvOk(w.env)
    ensures var m := MergeDevice(ids, names, w, dev); m.Some? ==> InStep(m.value)
  {
    hide EnvOk, SaveCurrent, Reindex, AddPart, AddMoves, TableOk, DeviceOk, PartValidate, InStep;
    var m := MergeDevice(ids, names, w, dev);
    if m.Some? {
      ReindexStores(names, w.(table := m.value.table));
      SaveCurrentSteps(names, w.(table := m.value.table));
    }
  }

  lemma {:induction false} AddSteps(ids: seq<Id>, names: Names, w: World, c: Command)
    requires ValidIds(ids) && TableOk(ids, w.table.devices) && c.Add? && EnvOk(w.env) && InStep(w)
    ensures InStep(AddPartition(ids, names, w, c))
  {
    hide EnvOk, ReindexTimes, Reindex, MergeDevice, TableOk, ParseDevice, Save, Renumberings, ParseId, AddLength, AddText, InStep;
    var key := ParseId(c.dev);
    var id := if key.None? then None else FindId(ids, key.value.0);
    if id.Some? && AddLength(id.value, c) < PART_ADD_DESC_MAXLEN {
      var text := AddText(id.value, c);
      var dev, n := ParseDevice(ids, w.table.devices, text), Renumberings(ids, w.table.devices, text);
      var r := ReindexTimes(names, w, n);
      ReindexTimesOk(names, w, n);
      RenumberSteps(names, w, n);
      if dev.Some? {
        ParsedDeviceOk(ids, w.table.devices, text);
        var m := MergeDevice(ids, names, r, dev.value.0);
        MergeEnvOk(ids, names, r, dev.value.0);
        MergeSteps(ids, names, r, dev.value.0);
        ReindexStores(names, r);
        if m.Some? { SaveSteps(m.value); }
      }
    }
  }

  lemma {:induction false} PartDelSteps(names: Names, w: World, d: nat, k: nat)
    requires d < |w.table.devices| && w.table.devices[d].numParts == |w.table.devices[d].parts|
    requires k < |w.table.devices[d].parts| && EnvOk(w.env)
    ensures InStep(PartDel(names, w, d, k))
  {
    hide EnvOk, SaveCurrent, Reindex, InStep;
    ReindexStores(names, w.(table := DelPart(w.table, d, k)));
    SaveCurrentSteps(names, w.(table := DelPart(w.table, d, k)));
  }

  lemma {:induction false} PerformSteps(ids: seq<Id>, names: Names, w: World, c: Command)
    requires ValidIds(ids) && TableOk(ids, w.table.devices) && !c.Setenv? && !c.DelAll? && EnvOk(w.env) && InStep(w)
    ensures InStep(Perform(ids, names, w, c))
  {
    hide EnvOk, AddPartition, PartDel, SaveCurrent, Save, FindPart, InStep;
    match c
    case Add(_, _, _, _) => AddSteps(ids, names, w, c);
    case Del(id) =>
      var f := FindPart(w.table.devices, id);
      if f.Some? {
        var d := FindDevice(w.table.devices, f.value.0);
        PartDelEnvOk(names, w, d, f.value.1);
        PartDelSteps(names, w, d, f.value.1);
        SaveSteps(PartDel(names, w, d, f.value.1));
      }
    case Chpart(id) =>
      var f := FindPart(w.table.devices, id);
      if f.Some? {
        SaveCurrentSteps(names, w.(table := w.table.(cur := Some(f.value.0), partnum := f.value.1)));
      }
  }

  /** The command does not set `mtddevnum` itself. */
  predicate LeavesNumber(c: Command) {
    c.Setenv? ==> EnvSpec.KeyOf(CText(c.name)) != DEVNUM
  }

  lemma {:induction false} ExecSteps(ids: seq<Id>, names: Names, w: World, c: Command)
    requires StateOk(ids, w) && ValidIds(ids) && InStep(w) && LeavesNumber(c)
    ensures InStep(Exec(ids, names, w, c))
  {
    SoundTable(ids, w);
    hide Sound, TableOk, EnvOk, Perform, Sync, DevicesInit, Put, Get;
    if c.Setenv? {
      PutOk(w.env, c.name, c.args, c.accepted);
    } else {
      hide InStep;
      var s := Sync(ids, names, w).1;
      SyncEnvOk(ids, names, w);
      SyncSteps(ids, names, w);
      SyncTableOk(ids, names, w);
      if c.DelAll? {
        UnsetOk(s.env, PARTS);
        DevicesInitSteps(names, s.(env := Unset(s.env, PARTS)));
      } else if Sync(ids, names, w).0 {
        PerformSteps(ids, names, s, c);
      }
    }
  }

  /** From power-up without the variable and over every run of commands that do not set it themselves,
      it holds the number of the current partition whenever it holds anything. */
  lemma {:induction false} NumberAlwaysInStep(ids: seq<Id>, w: World, steps: seq<Step>)
    requires StateOk(ids, w) && InStep(w) && forall i :: 0 <= i < |steps| ==> LeavesNumber(steps[i].c)
    ensures InStep(Run(ids, w, steps))
    decreases |steps|
  {
    SoundTable(ids, w);
    hide StateOk, InStep, Exec, LeavesNumber, TableOk;
    if steps != [] {
      ExecOk(ids, steps[0].names, w, steps[0].c);
      ExecSteps(ids, steps[0].names, w, steps[0].c);
      NumberAlwaysInStep(ids, Exec(ids, steps[0].names, w, steps[0].c), steps[1..]);
    }
  }
}
