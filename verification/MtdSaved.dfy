/**
 What the partition commands leave in the environment: the text of the table, the part-id and the name
 of the current partition; and what a restart makes of it (cmd_jffs2.c).
 */
module MtdSaved {
  import opened Common
  import opened MtdText
  import opened PartCheck
  import opened MtdParse
  import opened MtdReread
  import opened MtdTable
  import opened MtdAccepted
  import opened EnvBytes
  import opened MtdEnv
  import opened MtdCopy
  import opened MtdRun
  import opened MtdReach
  import opened MtdIndex
  import opened MtdOwn
  import opened MtdStale

  /** The variable holds the value if there is room for it, and else nothing. */
  ghost predicate Holds(e: Env, name: string, v: string) {
    Get(e, name) == if |EnvSpec.Image(Rest(e.entries, name) + [name + "=" + v])| <= |e.data| then Some(v) else None
  }

  lemma {:induction false} CTextTwice(s: string)
    ensures CText(CText(s)) == CText(s)
  {
  }

  lemma SetCut(e: Env, name: string, v: string)
    ensures Set(e, name, v) == Set(e, name, CText(v))
  {
    CTextTwice(v);
    assert CTexts([v]) == [CText(v)] == CTexts([CText(v)]);
    hide CText, EnvSpec.SetEnv;
  }

  lemma {:induction false} RestOfSet(e: Env, name: string, v: string)
    requires EnvOk(e) && Plain(name)
    ensures Rest(Set(e, name, v).entries, name) == Rest(e.entries, name) && |Set(e, name, v).data| == |e.data|
  {
    var rest, entry := Rest(e.entries, name), name + "=" + CText(v);
    PutOk(e, name, [v], true);
    SetIs(e, name, v);
    RestHasNone(e.entries, name);
    FindAppended(rest, entry, name);
    hide Put, EnvSpec.Image, EnvSpec.KeyOf, CText, EnvSpec.Find, EnvOk, Plain;
    assert EnvSpec.Without(rest + [entry], |rest|) == rest;
  }

  lemma {:induction false} SetHolds(e: Env, name: string, v: string)
    requires EnvOk(e) && Plain(name)
    ensures Holds(Set(e, name, v), name, CText(v))
  {
    CTextTwice(v);
    SetCut(e, name, v);
    hide EnvOk, Plain, Set, Rest, CText, EnvSpec.Image, Get;
    SetExactly(e, name, CText(v));
    RestOfSet(e, name, v);
  }

  // ---- the text of the table ----

  /** The variable and its copy hold the text of the table, if that is short enough; else there is
      none. */
  ghost predicate TextStored(w: World) {
    var text := TableText(w.table.devices);
    if text != "" && |DevicesText(w.table.devices)| < 512 then w.last == text && Holds(w.env, "mtdparts", CText(text))
    else w.last == "" && Get(w.env, "mtdparts") == None
  }

  lemma {:induction false} SaveStores(w: World)
    requires EnvOk(w.env)
    ensures TextStored(Save(w))
  {
    NamesArePlain();
    hide EnvOk, Plain, Set, Unset, Get, Holds, TableText, DevicesText, CText;
    SetHolds(w.env, PARTS, TableText(w.table.devices));
    Undefines(w.env, PARTS, PARTITION);
  }

  /** Whatever is added or deleted, the text of the new table is stored. */
  lemma {:induction false} ChangesAreStored(ids: seq<Id>, names: Names, w: World, c: Command)
    requires ValidIds(ids) && TableOk(ids, w.table.devices) && EnvOk(w.env) && (c.Add? || c.Del?)
    ensures var r := Perform(ids, names, w, c);
      TextStored(r) || (r.table.devices == w.table.devices && r.last == w.last && SameText(w.env, r.env))
  {
    assert forall i :: 0 <= i < |w.table.devices| ==> w.table.devices[i].numParts == |w.table.devices[i].parts|;
    hide EnvOk, AddPartition, PartDel, Save, FindPart, TableOk, SameText, TextStored;
    match c
    case Add(_, _, _, _) => AddIsStored(ids, names, w, c);
    case Del(id) =>
      var f := FindPart(w.table.devices, id);
      if f.Some? {
        var d := FindDevice(w.table.devices, f.value.0);
        PartDelEnvOk(names, w, d, f.value.1);
        SaveStores(PartDel(names, w, d, f.value.1));
      } else {
        SameAsItself(w.env);
      }
  }

  lemma SameAsItself(e: Env)
    ensures SameText(e, e)
  {
  }

  lemma SameTwice(a: Env, b: Env, c: Env)
    requires SameText(a, b) && SameText(b, c)
    ensures SameText(a, c)
  {
  }

  lemma {:induction false} AddIsStored(ids: seq<Id>, names: Names, w: World, c: Command)
    requires ValidIds(ids) && TableOk(ids, w.table.devices) && EnvOk(w.env) && c.Add?
    ensures var r := AddPartition(ids, names, w, c);
      TextStored(r) || (r.table.devices == w.table.devices && r.last == w.last && SameText(w.env, r.env))
  {
    hide EnvOk, ReindexTimes, Reindex, MergeDevice, TableOk, ParseDevice, Save, Renumberings, ParseId, AddLength, AddText, SameText,
      TextStored, DeviceOk;
    SameAsItself(w.env);
    var key := ParseId(c.dev);
    var id := if key.None? then None else FindId(ids, key.value.0);
    if id.Some? && AddLength(id.value, c) < PART_ADD_DESC_MAXLEN {
      var text := AddText(id.value, c);
      var dev, n := ParseDevice(ids, w.table.devices, text), Renumberings(ids, w.table.devices, text);
      var r := ReindexTimes(names, w, n);
      RenumberingLeavesText(names, w, n);
      ReindexTimesOk(names, w, n);
      if dev.Some? {
        ParsedDeviceOk(ids, w.table.devices, text);
        var m := MergeDevice(ids, names, r, dev.value.0);
        ReindexLeavesText(names, r);
        SameTwice(w.env, r.env, Reindex(names, r).env);
        if m.Some? {
          MergeEnvOk(ids, names, r, dev.value.0);
          SaveStores(m.value);
        }
      }
    }
  }

  // ---- the current partition ----

  /** Numbering stores the name of the current partition. */
  lemma {:induction false} NameStored(names: Names, w: World)
    requires EnvOk(w.env) && w.table.cur.Some?
    ensures Holds(Reindex(names, w).env, "mtddevname", CText(CurrentName(names, w.table)))
  {
    NamesArePlain();
    hide EnvOk, Plain, Set, Holds, CText, CurrentName;
    var num := Decimal(GlobalIndex(w.table.devices, w.table.cur.value, w.table.partnum) % 0x1_0000);
    SetOk(w.env, DEVNUM, num);
    SetHolds(Set(w.env, DEVNUM, num), DEVNAME, CurrentName(names, w.table));
  }

  /** That is the partition's own name if it has one. */
  lemma OwnName(names: Names, t: Table, d: nat, name: string)
    requires d < |t.devices| && t.cur == Some(KeyOf(t.devices[d].id)) && FindDevice(t.devices, t.cur.value) == d
    requires t.partnum < |t.devices[d].parts| && t.devices[d].parts[t.partnum].name == Some(name)
    ensures CurrentName(names, t) == name
  {
  }

  lemma PartitionTextIsText(key: Key, partnum: nat)
    ensures CText(PartitionText(key, partnum)) == PartitionText(key, partnum)
  {
    hide Decimal, CText;
    var s := PartitionText(key, partnum);
    var word, a, b := if key.nor then "nor" else "nand", Decimal(key.num), Decimal(partnum);
    assert forall i :: 0 <= i < |a| ==> a[i] != EnvSpec.NUL;
    assert forall i :: 0 <= i < |b| ==> b[i] != EnvSpec.NUL;
    assert EnvSpec.NUL !in word && EnvSpec.NUL !in a && EnvSpec.NUL !in ("," + b);
    assert s == word + a + ("," + b);
  }

  /** Making a partition current stores its part-id if there is room for it, and a copy of it. */
  lemma {:induction false} CurrentStored(names: Names, w: World)
    requires EnvOk(w.env) && w.table.cur.Some?
    ensures var r, text := SaveCurrent(names, w), PartitionText(w.table.cur.value, w.table.partnum);
      && r.lastPartition == text
      && Get(r.env, "partition") ==
           if |EnvSpec.Image(Rest(w.env.entries, PARTITION) + [PARTITION + "=" + text])| <= |w.env.data| then Some(text) else None
  {
    NamesArePlain();
    var text := PartitionText(w.table.cur.value, w.table.partnum);
    PartitionTextIsText(w.table.cur.value, w.table.partnum);
    hide EnvOk, Plain, Set, Get, Reindex, PartitionText, EnvSpec.Image, Rest, CText;
    SetExactly(w.env, PARTITION, text);
    SetOk(w.env, PARTITION, text);
    ReindexLeaves(names, w.(env := Set(w.env, PARTITION, text), lastPartition := text), PARTITION);
  }

  /** The variable names the current partition, if it holds anything. */
  ghost predicate NamesCurrent(w: World) {
    w.table.cur.Some? ==>
      var v := Get(w.env, PARTITION);
      v == None || v == Some(PartitionText(w.table.cur.value, w.table.partnum))
  }

  lemma {:induction false} SaveCurrentNames(names: Names, w: World)
    requires EnvOk(w.env)
    ensures NamesCurrent(SaveCurrent(names, w))
  {
    hide EnvOk, Get, PartitionText, EnvSpec.Image;
    if w.table.cur.Some? { CurrentStored(names, w); }
  }

  lemma StaysNamed(w: World, r: World)
    requires NamesCurrent(w) && r.table.cur == w.table.cur && r.table.partnum == w.table.partnum
    requires Get(r.env, PARTITION) == Get(w.env, PARTITION)
    ensures NamesCurrent(r)
  {
    hide Get, PartitionText;
  }

  lemma {:induction false} ReindexNames(names: Names, w: World)
    requires EnvOk(w.env) && NamesCurrent(w)
    ensures NamesCurrent(Reindex(names, w))
  {
    NamesArePlain();
    hide EnvOk, Reindex, NamesCurrent, Get, Plain;
    ReindexLeaves(names, w, PARTITION);
    StaysNamed(w, Reindex(names, w));
  }

  lemma {:induction false} RenumberNames(names: Names, w: World, n: nat)
    requires EnvOk(w.env) && NamesCurrent(w)
    ensures NamesCurrent(ReindexTimes(names, w, n))
    decreases n
  {
    hide EnvOk, Reindex, NamesCurrent;
    if n > 0 {
      ReindexOk(names, w);
      ReindexNames(names, w);
      RenumberNames(names, Reindex(names, w), n - 1);
    }
  }

  lemma {:induction false} SaveNames(w: World)
    requires EnvOk(w.env) && NamesCurrent(w)
    ensures NamesCurrent(Save(w))
  {
    NamesArePlain();
    hide EnvOk, Set, Unset, Get, Generate, Plain, NamesCurrent;
    var text := Generate(w.table.devices);
    Undefines(w.env, PARTS, PARTITION);
    if text.Some? { SetOther(w.env, PARTS, text.value, PARTITION); }
    StaysNamed(w, Save(w));
  }

  lemma {:induction false} RestoreNames(names: Names, w: World, wanted: string)
    requires EnvOk(w.env) && NamesCurrent(w)
    ensures NamesCurrent(Restore(names, w, wanted))
  {
    hide EnvOk, SaveCurrent, NamesCurrent, FindPart, Get;
    SaveCurrentNames(names, w);
    var f := FindPart(w.table.devices, wanted);
    if f.Some? {
      SaveCurrentNames(names, w.(table := w.table.(cur := Some(f.value.0), partnum := f.value.1)));
    }
  }

  lemma {:induction false} RereadNames(names: Names, w: World, devices: seq<Device>)
    requires EnvOk(w.env) && devices != []
    ensures NamesCurrent(Reread(names, w, devices))
  {
    hide EnvOk, SaveCurrent, DevicesInit, Restore, CopyOf, NamesCurrent, Wanted;
    DevicesInitOk(names, w);
    var a := DevicesInit(names, w).(table := FirstCurrent(devices), last := CopyOf(w.env));
    SaveCurrentOk(names, a);
    SaveCurrentNames(names, a);
    RestoreNames(names, Adopt(names, w, devices), Wanted(w));
  }

  lemma NoneIsNamed(w: World)
    requires w.table.cur == None
    ensures NamesCurrent(w)
  {
  }

  lemma {:induction false} SyncNames(ids: seq<Id>, names: Names, w: World)
    requires ValidIds(ids) && EnvOk(w.env) && NamesCurrent(w)
    ensures NamesCurrent(Sync(ids, names, w).1)
  {
    hide EnvOk, DevicesInit, Restore, Reread, ParseTable, Get, Rereads, Wanted, NamesCurrent;
    NoneIsNamed(DevicesInit(names, w));
    RestoreNames(names, w, Wanted(w));
    var text := Get(w.env, PARTS);
    if text.Some? {
      var devices := ParseTable(ids, text.value);
      if devices.Some? && devices.value != [] { RereadNames(names, w, devices.value); }
    }
  }

  /** Storing it, or numbering alone if it is the same partition as before. */
  lemma {:induction false} EitherNames(names: Names, w: World, t: Table, saved: bool)
    requires EnvOk(w.env) && NamesCurrent(w) && (saved || (t.cur == w.table.cur && t.partnum == w.table.partnum))
    ensures var r := w.(table := t); NamesCurrent(if saved then SaveCurrent(names, r) else Reindex(names, r))
  {
    hide EnvOk, SaveCurrent, Reindex, NamesCurrent, Get;
    var r := w.(table := t);
    if saved {
      SaveCurrentNames(names, r);
    } else {
      StaysNamed(w, r);
      ReindexNames(names, r);
    }
  }

  lemma {:induction false} MergeNames(ids: seq<Id>, names: Names, w: World, dev: Device)
    requires ValidIds(ids) && TableOk(ids, w.table.devices) && DeviceOk(ids, dev) && EnvOk(w.env) && NamesCurrent(w)
    ensures var m := MergeDevice(ids, names, w, dev); m.Some? ==> NamesCurrent(m.value)
  {
    var m := MergeDevice(ids, names, w, dev);
    if m.Some? {
      var d := FindDevice(w.table.devices, KeyOf(dev.id));
      var saved := if d < 0 then w.table.devices == [] else AddMoves(w.table, d, dev.parts[0]);
      hide EnvOk, SaveCurrent, Reindex, AddMoves, TableOk, DeviceOk, PartValidate, NamesCurrent, SortAdd, FindDevice;
      EitherNames(names, w, m.value.table, saved);
    }
  }

  lemma {:induction false} AddNames(ids: seq<Id>, names: Names, w: World, c: Command)
    requires ValidIds(ids) && TableOk(ids, w.table.devices) && c.Add? && EnvOk(w.env) && NamesCurrent(w)
    ensures NamesCurrent(AddPartition(ids, names, w, c))
  {
    hide EnvOk, ReindexTimes, Reindex, MergeDevice, TableOk, ParseDevice, Save, Renumberings, ParseId, AddLength, AddText,
      NamesCurrent, DeviceOk;
    var key := ParseId(c.dev);
    var id := if key.None? then None else FindId(ids, key.value.0);
    if id.Some? && AddLength(id.value, c) < PART_ADD_DESC_MAXLEN {
      var text := AddText(id.value, c);
      var dev, n := ParseDevice(ids, w.table.devices, text), Renumberings(ids, w.table.devices, text);
      var r := ReindexTimes(names, w, n);
      ReindexTimesOk(names, w, n);
      RenumberNames(names, w, n);
      if dev.Some? {
        ParsedDeviceOk(ids, w.table.devices, text);
        var m := MergeDevice(ids, names, r, dev.value.0);
        MergeEnvOk(ids, names, r, dev.value.0);
        MergeNames(ids, names, r, dev.value.0);
        ReindexNames(names, r);
        if m.Some? { SaveNames(m.value); }
      }
    }
  }

  lemma {:induction false} PartDelNames(names: Names, w: World, d: nat, k: nat)
    requires d < |w.table.devices| && w.table.devices[d].numParts == |w.table.devices[d].parts|
    requires k < |w.table.devices[d].parts| && EnvOk(w.env) && NamesCurrent(w)
    ensures NamesCurrent(PartDel(names, w, d, k))
  {
    var dev := w.table.devices[d];
    var saved := if dev.numParts == 1 then w.table.cur == Some(KeyOf(dev.id)) else IsCurrent(w.table, d);
    hide EnvOk, SaveCurrent, Reindex, NamesCurrent, IsCurrent;
    EitherNames(names, w, DelPart(w.table, d, k), saved);
  }

  lemma {:induction false} PerformNames(ids: seq<Id>, names: Names, w: World, c: Command)
    requires ValidIds(ids) && TableOk(ids, w.table.devices) && !c.Setenv? && !c.DelAll? && EnvOk(w.env) && NamesCurrent(w)
    ensures NamesCurrent(Perform(ids, names, w, c))
  {
    assert forall i :: 0 <= i < |w.table.devices| ==> w.table.devices[i].numParts == |w.table.devices[i].parts|;
    hide EnvOk, AddPartition, PartDel, SaveCurrent, Save, FindPart, NamesCurrent, TableOk;
    match c
    case Add(_, _, _, _) => AddNames(ids, names, w, c);
    case Del(id) =>
      var f := FindPart(w.table.devices, id);
      if f.Some? {
        var d := FindDevice(w.table.devices, f.value.0);
        PartDelEnvOk(names, w, d, f.value.1);
        PartDelNames(names, w, d, f.value.1);
        SaveNames(PartDel(names, w, d, f.value.1));
      }
    case Chpart(id) =>
      var f := FindPart(w.table.devices, id);
      if f.Some? {
        SaveCurrentNames(names, w.(table := w.table.(cur := Some(f.value.0), partnum := f.value.1)));
      }
  }

  /** The command does not set `partition` itself. */
  predicate LeavesPartition(c: Command) {
    c.Setenv? ==> EnvSpec.KeyOf(CText(c.name)) != PARTITION
  }

  lemma {:induction false} ExecNames(ids: seq<Id>, names: Names, w: World, c: Command)
    requires StateOk(ids, w) && NamesCurrent(w) && LeavesPartition(c)
    ensures ValidIds(ids) && TableOk(ids, w.table.devices) && NamesCurrent(Exec(ids, names, w, c))
  {
    SoundTable(ids, w);
    hide Sound, TableOk, EnvOk, Perform, Sync, DevicesInit, Put, Get;
    if c.Setenv? {
      PutOk(w.env, c.name, c.args, c.accepted);
      hide PartitionText;
    } else {
      var s := Sync(ids, names, w).1;
      NoneIsNamed(DevicesInit(names, s.(env := Unset(s.env, PARTS))));
      hide NamesCurrent;
      SyncEnvOk(ids, names, w);
      SyncNames(ids, names, w);
      SyncTableOk(ids, names, w);
      if !c.DelAll? && Sync(ids, names, w).0 { PerformNames(ids, names, s, c); }
    }
  }

  /** Over every run of commands that do not set `partition` themselves, it names the current partition
      whenever it holds anything and there is one. */
  lemma {:induction false} PartitionAlwaysNamed(ids: seq<Id>, w: World, steps: seq<Step>)
    requires StateOk(ids, w) && NamesCurrent(w) && forall i :: 0 <= i < |steps| ==> LeavesPartition(steps[i].c)
    ensures NamesCurrent(Run(ids, w, steps))
    decreases |steps|
  {
    SoundTable(ids, w);
    hide StateOk, NamesCurrent, Exec, LeavesPartition, TableOk;
    if steps != [] {
      ExecOk(ids, steps[0].names, w, steps[0].c);
      ExecNames(ids, steps[0].names, w, steps[0].c);
      PartitionAlwaysNamed(ids, Exec(ids, steps[0].names, w, steps[0].c), steps[1..]);
    }
  }

  // ---- after a restart ----

  lemma KeyNumber(ids: seq<Id>, devices: seq<Device>, key: Key)
    requires TableOk(ids, devices) && FindDevice(devices, key) >= 0
    ensures key.num < 256
  {
    hide FindDevice, FitsDevice;
    assert DeviceOk(ids, devices[FindDevice(devices, key)]);
  }

  /** The table that the first command after a restart works on, if the text gives the devices. */
  lemma {:induction false} CurrentRestored(ids: seq<Id>, names: Names, r: World)
    requires StateOk(ids, r) && NamesCurrent(r) && r.table.devices != [] && Get(r.env, PARTITION).Some?
    requires Get(r.env, PARTS) == Some(TableText(r.table.devices)) && |TableText(r.table.devices)| < MTDPARTS_MAXLEN
    requires ValidIds(ids) && ParseTable(ids, TableText(r.table.devices)) == Some(r.table.devices)
    ensures Sync(ids, names, Boot(r.env)).1.table == r.table <==> CurrentOk(r.table)
  {
    SoundTable(ids, r);
    var devices, key := r.table.devices, r.table.cur.value;
    assert FindDevice(devices, key) >= 0 && r.table.partnum < 256;
    assert devices[FindDevice(devices, key)].numParts == |devices[FindDevice(devices, key)].parts| && 0 < devices[0].numParts;
    assert CurrentOk(r.table) <==> r.table.partnum < |devices[FindDevice(devices, key)].parts|;
    KeyNumber(ids, devices, key);
    FirstFound(ids, devices);
    KeyNumber(ids, devices, KeyOf(devices[0].id));
    BootOk(ids, r.env);
    assert Get(r.env, PARTITION) == Some(PartitionText(key, r.table.partnum));
    TextIsNotEmpty(devices);
    hide StateOk, TableOk, Get, Sync, Reread, ParseTable, TableText, PartitionText, CurrentOk, FindDevice, Rereads;
    ReadsNew(ids, names, Boot(r.env), TableText(devices), devices);
    SyncKeeps(ids, names, Boot(r.env));
    CurrentOfInv(ids, Sync(ids, names, Boot(r.env)).1.table);
    if CurrentOk(r.table) {
      RereadKeepsCurrent(names, Boot(r.env), devices, key, r.table.partnum);
    }
  }

  lemma TextIsNotEmpty(devices: seq<Device>)
    requires devices != []
    ensures TableText(devices) != ""
  {
    hide DevicesText;
  }

  lemma CurrentOfInv(ids: seq<Id>, t: Table)
    requires TableInv(ids, t)
    ensures CurrentOk(t)
  {
    hide CurrentOk;
  }

  /** If the environment that a run leaves is found at the next power-up, in which no command has set
      `mtdparts` or `partition` itself, the first command has the whole table again, current partition
      included, exactly when the table is rereadable, its text not too long to be read, and its current
      partition exists. */
  lemma {:induction false} RestartRestoresTable(ids: seq<Id>, names: Names, env: Env, steps: seq<Step>)
    requires ValidIds(ids) && CleanNames(ids) && EnvOk(env) && Get(env, PARTS) == None && HandsOffRun(steps)
    requires forall i :: 0 <= i < |steps| ==> LeavesPartition(steps[i].c)
    ensures StateOk(ids, Boot(env))
    ensures var r := Run(ids, Boot(env), steps);
      Get(r.env, PARTS).Some? && Get(r.env, PARTITION).Some? ==>
        (Sync(ids, names, Boot(r.env)).1.table == r.table <==>
         Rereadable(r.table.devices) && |TableText(r.table.devices)| < MTDPARTS_MAXLEN && CurrentOk(r.table))
  {
    BootOk(ids, env);
    BootIsOwn(env);
    NoneIsNamed(Boot(env));
    hide *;
    RestartRestoresExactly(ids, names, env, steps);
    RunIsOwn(ids, Boot(env), steps);
    PartitionAlwaysNamed(ids, Boot(env), steps);
    var r := Run(ids, Boot(env), steps);
    OwnMeans(ids, r);
    if Get(r.env, PARTS).Some? && Get(r.env, PARTITION).Some? && Rereadable(r.table.devices)
      && |TableText(r.table.devices)| < MTDPARTS_MAXLEN {
      CurrentRestored(ids, names, r);
    }
  }
}
