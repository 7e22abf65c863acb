/**
 Runs in which no one sets `mtdparts` by hand: the variable then only ever holds the text of the table,
 it is never read again, and after a restart it gives the table back exactly when that is rereadable
 (mtdparts_init and generate_mtdparts_save in cmd_jffs2.c).
 */
module MtdOwn {
  import opened Common
  import opened MtdText
  import opened PartCheck
  import opened MtdParse
  import opened MtdTies
  import opened MtdReread
  import opened MtdTable
  import opened MtdAccepted
  import opened EnvBytes
  import opened MtdEnv
  import opened MtdRun
  import opened MtdReach
  import EnvSpec

  // ---- names are C strings ----

  ghost predicate CleanNames(ids: seq<Id>) {
    forall i :: 0 <= i < |ids| ==> EnvSpec.CString(ids[i].name)
  }

  ghost predicate CleanParts(parts: seq<Part>) {
    forall i :: 0 <= i < |parts| && parts[i].name.Some? ==> EnvSpec.CString(parts[i].name.value)
  }

  ghost predicate CleanDevices(devices: seq<Device>) {
    forall i :: 0 <= i < |devices| ==> EnvSpec.CString(devices[i].id.name) && CleanParts(devices[i].parts)
  }

  lemma {:induction false} DigitsLeaveText(s: string, base: nat, acc: nat)
    requires acc < U32 && EnvSpec.CString(s)
    ensures EnvSpec.CString(ReadDigits(s, base, acc).1)
    decreases |s|
  {
    if s != "" && IsXDigit(s[0]) && DigitValue(s[0]) < base {
      DigitsLeaveText(s[1..], base, Accumulate(acc, base, DigitValue(s[0])));
    }
  }

  lemma {:induction false} SizeLeavesText(s: string)
    requires EnvSpec.CString(s)
    ensures EnvSpec.CString(MemsizeParse(s).1)
  {
    hide ReadDigits;
    DigitsLeaveText(s, 10, 0);
    if s != "" { DigitsLeaveText(s[1..], 8, 0); }
    if |s| >= 2 { DigitsLeaveText(s[2..], 16, 0); }
  }

  lemma Behind(s: string, k: nat)
    requires EnvSpec.CString(s) && k <= |s|
    ensures EnvSpec.CString(s[k..]) && EnvSpec.CString(s[..k])
  {
  }

  lemma {:induction false} NameIsClean(s: string)
    requires EnvSpec.CString(s) && ParseName(s).Named?
    ensures EnvSpec.CString(ParseName(s).rest) && (ParseName(s).name.Some? ==> EnvSpec.CString(ParseName(s).name.value))
  {
  }

  lemma {:induction false} PartIsClean(s: string)
    requires EnvSpec.CString(s) && ParsePart(s).Some?
    ensures EnvSpec.CString(ParsePart(s).value.1)
    ensures var name := ParsePart(s).value.0.name; name.Some? ==> EnvSpec.CString(name.value)
  {
    hide MemsizeParse, ParseName, EnvSpec.CString;
    var (size, s1) := if StartsWith(s, '-') then (SIZE_REMAINING, s[1..]) else MemsizeParse(s);
    SizeLeavesText(s);
    if s != "" { Behind(s, 1); }
    if StartsWith(s1, '@') {
      Behind(s1, 1);
      SizeLeavesText(s1[1..]);
    }
    var s2 := if StartsWith(s1, '@') then MemsizeParse(s1[1..]).1 else s1;
    NameIsClean(s2);
    var s3 := ParseName(s2).rest;
    if StartsRo(s3) {
      Behind(s3, 2);
      if StartsWith(s3[2..], ',') { Behind(s3[2..], 1); }
    } else if StartsWith(s3, ',') {
      Behind(s3, 1);
    }
  }

  lemma {:induction false} PartsAreClean(id: Id, s: string, offset: nat)
    requires id.Valid() && offset < U32 && EnvSpec.CString(s) && ParseParts(id, s, offset).Some?
    ensures CleanParts(ParseParts(id, s, offset).value.0)
    decreases |s|
  {
    hide ParsePart, Place;
    if s != "" && s[0] != ';' {
      PartIsClean(s);
      var p := ParsePart(s).value;
      var part := Place(id, p.0, offset).value;
      PartsAreClean(id, p.1, part.offset + part.size);
    }
  }

  lemma {:induction false} DeviceIsClean(ids: seq<Id>, devices: seq<Device>, s: string)
    requires ValidIds(ids) && EnvSpec.CString(s) && ParseDevice(ids, devices, s).Some?
    ensures CleanDevices([ParseDevice(ids, devices, s).value.0])
  {
    hide ParseParts, SortAll;
    var k := IndexOf(s, ':');
    var id := FindByName(ids, s[..k]).value;
    PartsAreClean(id, s[k + 1..], StartOffset(devices, KeyOf(id)));
    var parts := ParseParts(id, s[k + 1..], StartOffset(devices, KeyOf(id))).value.0;
    SortAllOrdered(parts);
    var q := SortAll(parts).value;
    forall i | 0 <= i < |q| && q[i].name.Some? ensures EnvSpec.CString(q[i].name.value) { assert q[i] in q; }
  }

  lemma {:induction false} SizeIsText(n: nat)
    ensures EnvSpec.CString(MemsizeFormat(n))
  {
    hide Decimal;
    forall m: nat ensures EnvSpec.CString(Decimal(m)) {
      var d := Decimal(m);
      assert forall i :: 0 <= i < |d| ==> d[i] != EnvSpec.NUL;
    }
  }

  lemma {:induction false} PartsAreText(parts: seq<Part>, expected: nat)
    requires CleanParts(parts)
    ensures EnvSpec.CString(PartsText(parts, expected))
    decreases |parts|
  {
    hide MemsizeFormat;
    if parts != [] {
      SizeIsText(parts[0].size);
      SizeIsText(parts[0].offset);
      PartsAreText(parts[1..], (parts[0].offset + parts[0].size) % U32);
    }
  }

  lemma {:induction false} TableIsText(devices: seq<Device>)
    requires CleanDevices(devices)
    ensures EnvSpec.CString(DevicesText(devices)) && EnvSpec.CString(TableText(devices))
    decreases |devices|
  {
    hide PartsText;
    if devices != [] {
      PartsAreText(devices[0].parts, 0);
      TableIsText(devices[1..]);
    }
  }

  // ---- what leaves the text alone ----

  predicate SameText(e: Env, f: Env) {
    Get(f, PARTS) == Get(e, PARTS)
  }

  /** Numbering touches no other variable than `mtddevnum` and `mtddevname`. */
  lemma {:induction false} ReindexLeaves(names: Names, w: World, name: string)
    requires EnvOk(w.env) && name != DEVNUM && name != DEVNAME
    ensures Get(Reindex(names, w).env, name) == Get(w.env, name)
  {
    NamesArePlain();
    var t := w.table;
    hide EnvOk, Set, Unset, Get, Plain, CurrentName, GlobalIndex;
    if t.cur.Some? {
      var num := Decimal(GlobalIndex(t.devices, t.cur.value, t.partnum) % 0x1_0000);
      SetOther(w.env, DEVNUM, num, name);
      SetOk(w.env, DEVNUM, num);
      SetOther(Set(w.env, DEVNUM, num), DEVNAME, CurrentName(names, t), name);
    } else {
      Undefines(w.env, DEVNUM, name);
      Undefines(Unset(w.env, DEVNUM), DEVNAME, name);
    }
  }

  lemma {:induction false} ReindexLeavesText(names: Names, w: World)
    requires EnvOk(w.env)
    ensures SameText(w.env, Reindex(names, w).env)
  {
    NamesArePlain();
    ReindexLeaves(names, w, PARTS);
  }

  lemma {:induction false} RenumberingLeavesText(names: Names, w: World, n: nat)
    requires EnvOk(w.env)
    ensures SameText(w.env, ReindexTimes(names, w, n).env)
    decreases n
  {
    hide EnvOk, Reindex, Get;
    if n > 0 {
      ReindexOk(names, w);
      ReindexLeavesText(names, w);
      RenumberingLeavesText(names, Reindex(names, w), n - 1);
    }
  }

  lemma {:induction false} SaveCurrentLeavesText(names: Names, w: World)
    requires EnvOk(w.env)
    ensures SameText(w.env, SaveCurrent(names, w).env)
  {
    NamesArePlain();
    hide EnvOk, Set, Unset, Get, Plain, Reindex;
    if w.table.cur.None? {
      Undefines(w.env, PARTITION, PARTS);
      ReindexLeavesText(names, w.(env := Unset(w.env, PARTITION), lastPartition := ""));
    } else {
      var text := PartitionText(w.table.cur.value, w.table.partnum);
      SetOk(w.env, PARTITION, text);
      SetOther(w.env, PARTITION, text, PARTS);
      ReindexLeavesText(names, w.(env := Set(w.env, PARTITION, text), lastPartition := text));
    }
  }

  lemma {:induction false} RestoreLeavesText(names: Names, w: World, wanted: string)
    requires EnvOk(w.env)
    ensures SameText(w.env, Restore(names, w, wanted).env)
  {
    hide EnvOk, SaveCurrent, FindPart;
    SaveCurrentLeavesText(names, w);
    var f := FindPart(w.table.devices, wanted);
    if f.Some? {
      SaveCurrentLeavesText(names, w.(table := w.table.(cur := Some(f.value.0), partnum := f.value.1)));
    }
  }

  lemma {:induction false} DevicesInitLeavesText(names: Names, w: World)
    requires EnvOk(w.env)
    ensures SameText(w.env, DevicesInit(names, w).env)
  {
    hide EnvOk, SaveCurrent;
    SaveCurrentLeavesText(names, w.(table := w.table.(cur := None), last := ""));
  }

  lemma {:induction false} PartDelLeavesText(names: Names, w: World, d: nat, k: nat)
    requires d < |w.table.devices| && w.table.devices[d].numParts == |w.table.devices[d].parts|
    requires k < |w.table.devices[d].parts| && EnvOk(w.env)
    ensures SameText(w.env, PartDel(names, w, d, k).env)
  {
    hide EnvOk, SaveCurrent, Reindex;
    ReindexLeavesText(names, w.(table := DelPart(w.table, d, k)));
    SaveCurrentLeavesText(names, w.(table := DelPart(w.table, d, k)));
  }

  // ---- the text is that of the table ----

  /** The copy is empty or the text of the table, and the variable is undefined or equal to the copy. */
  ghost predicate Own(w: World) {
    var text := Get(w.env, PARTS);
    && CleanDevices(w.table.devices)
    && (w.last == "" || w.last == TableText(w.table.devices))
    && (text == None || (w.last != "" && text == Some(w.last)))
  }

  /** A command that does not set the text; its arguments are C strings. */
  ghost predicate HandsOff(c: Command) {
    match c
    case Setenv(name, _, _) => EnvSpec.KeyOf(CText(name)) != PARTS
    case Add(_, spec, name, flag) => EnvSpec.CString(spec) && EnvSpec.CString(name) && EnvSpec.CString(flag)
    case _ => true
  }

  lemma {:induction false} NeverRereads(w: World)
    requires Own(w)
    ensures !Rereads(w)
  {
    hide Get, CleanDevices;
  }

  lemma {:induction false} SaveIsOwn(w: World)
    requires EnvOk(w.env) && CleanDevices(w.table.devices)
    ensures Own(Save(w))
  {
    NamesArePlain();
    TableIsText(w.table.devices);
    var text := Generate(w.table.devices);
    assert text.Some? ==> text.value == TableText(w.table.devices);
    hide EnvOk, Set, Unset, Get, Plain, CleanDevices, Generate, TableText, DevicesText, EnvSpec.CString;
    if text.Some? && text.value != "" {
      SetGets(w.env, PARTS, text.value);
    } else {
      Undefines(w.env, PARTS, PARTITION);
    }
  }

  /** A variable that was set has its value, or none if the buffer was too full. */
  lemma {:induction false} SetGets(e: Env, name: string, v: string)
    requires EnvOk(e) && Plain(name) && EnvSpec.CString(v)
    ensures Get(Set(e, name, v), name) == None || Get(Set(e, name, v), name) == Some(v)
  {
    SetIsLast(e, name, v);
    hide EnvOk, Set, Plain, CText, EnvSpec.CString;
  }

  lemma {:induction false} SyncIsOwn(ids: seq<Id>, names: Names, w: World)
    requires ValidIds(ids) && EnvOk(w.env) && Own(w)
    ensures Own(Sync(ids, names, w).1)
  {
    NeverRereads(w);
    DevicesInitLeavesText(names, w);
    RestoreLeavesText(names, w, Wanted(w));
    hide EnvOk, Get, Rereads, DevicesInit, Restore, Reread, Wanted, CleanDevices, TableText, ParseTable;
    assert CleanDevices([]) by { NothingIsClean(); }
  }

  lemma NothingIsClean()
    ensures CleanDevices([])
  {
  }

  lemma {:induction false} AddedIsClean(t: Table, d: nat, p: Part)
    requires d < |t.devices| && t.devices[d].numParts == |t.devices[d].parts| && AddPart(t, d, p).Some?
    requires Ordered(t.devices[d].parts) && CleanDevices(t.devices) && CleanParts([p])
    ensures CleanDevices(AddPart(t, d, p).value.devices)
  {
    hide SortAdd, AddMoves, Ordered;
    AddKeepsOrder(t.devices[d].parts, p);
    var q := SortAdd(t.devices[d].parts, p).value;
    assert [p][0] == p;
    forall i | 0 <= i < |q| && q[i].name.Some? ensures EnvSpec.CString(q[i].name.value) { assert q[i] in q; }
  }

  lemma {:induction false} MergeIsClean(ids: seq<Id>, names: Names, w: World, dev: Device)
    requires ValidIds(ids) && TableOk(ids, w.table.devices) && DeviceOk(ids, dev) && MergeDevice(ids, names, w, dev).Some?
    requires CleanDevices(w.table.devices) && CleanDevices([dev])
    ensures CleanDevices(MergeDevice(ids, names, w, dev).value.table.devices)
  {
    hide FindByName, SortAdd, AddPart, SaveCurrent, Reindex, Ordered, FitsDevice;
    var d := FindDevice(w.table.devices, KeyOf(dev.id));
    assert [dev][0] == dev;
    if d >= 0 {
      assert DeviceOk(ids, w.table.devices[d]);
      AddedIsClean(w.table, d, dev.parts[0]);
    }
  }

  lemma {:induction false} DescriptionIsClean(id: Id, c: Command)
    requires c.Add? && HandsOff(c) && EnvSpec.CString(id.name)
    ensures EnvSpec.CString(AddText(id, c))
  {
  }

  /** The same table and copy with an environment that holds the same text. */
  lemma StaysOwn(w: World, r: World)
    requires Own(w) && r.table.devices == w.table.devices && r.last == w.last && SameText(w.env, r.env)
    ensures Own(r)
  {
    hide Get, CleanDevices, TableText;
  }

  lemma {:induction false} AddIsOwn(ids: seq<Id>, names: Names, w: World, c: Command)
    requires ValidIds(ids) && TableOk(ids, w.table.devices) && EnvOk(w.env)
    requires CleanNames(ids) && Own(w) && c.Add? && HandsOff(c)
    ensures Own(AddPartition(ids, names, w, c))
  {
    var key := ParseId(c.dev);
    var id := if key.None? then None else FindId(ids, key.value.0);
    hide EnvOk, ReindexTimes, Reindex, MergeDevice, TableOk, ParseDevice, Save, Renumberings, ParseId, AddLength, AddText,
      Own, HandsOff, SameText, CleanDevices, DeviceOk;
    if id.Some? && AddLength(id.value, c) < PART_ADD_DESC_MAXLEN {
      var text := AddText(id.value, c);
      var dev := ParseDevice(ids, w.table.devices, text);
      var n := Renumberings(ids, w.table.devices, text);
      var r := ReindexTimes(names, w, n);
      RenumberingLeavesText(names, w, n);
      ReindexTimesOk(names, w, n);
      StaysOwn(w, r);
      if dev.Some? {
        ParsedDeviceOk(ids, w.table.devices, text);
        ReindexLeavesText(names, r);
        StaysOwn(r, Reindex(names, r));
        DescriptionIsClean(id.value, c);
        DeviceIsClean(ids, w.table.devices, text);
        MergeIsOwn(ids, names, r, dev.value.0);
      }
    }
  }

  lemma {:induction false} MergeIsOwn(ids: seq<Id>, names: Names, w: World, dev: Device)
    requires ValidIds(ids) && TableOk(ids, w.table.devices) && DeviceOk(ids, dev) && EnvOk(w.env)
    requires Own(w) && CleanDevices([dev])
    ensures var m := MergeDevice(ids, names, w, dev); m.Some? ==> Own(Save(m.value))
  {
    hide EnvOk, MergeDevice, TableOk, Save, Get, CleanDevices, DeviceOk;
    var m := MergeDevice(ids, names, w, dev);
    if m.Some? {
      MergeEnvOk(ids, names, w, dev);
      MergeIsClean(ids, names, w, dev);
      SaveIsOwn(m.value);
    }
  }

  lemma {:induction false} DeletedIsClean(t: Table, d: nat, k: nat)
    requires d < |t.devices| && t.devices[d].numParts == |t.devices[d].parts| && k < |t.devices[d].parts|
    requires CleanDevices(t.devices)
    ensures CleanDevices(DelPart(t, d, k).devices)
  {
    hide IsCurrent;
    var dev := t.devices[d];
    if dev.numParts == 1 {
      var rest := RestDevices(t.devices, d);
      assert forall i :: 0 <= i < |rest| ==> rest[i] == t.devices[if i < d then i else i + 1];
    } else {
      var q := WithoutPart(dev.parts, k);
      assert forall i :: 0 <= i < |q| ==> q[i] == dev.parts[if i < k then i else i + 1];
    }
  }

  lemma {:induction false} PerformIsOwn(ids: seq<Id>, names: Names, w: World, c: Command)
    requires ValidIds(ids) && TableOk(ids, w.table.devices) && EnvOk(w.env) && !c.Setenv? && !c.DelAll?
    requires CleanNames(ids) && Own(w) && HandsOff(c)
    ensures Own(Perform(ids, names, w, c))
  {
    assert forall i :: 0 <= i < |w.table.devices| ==> w.table.devices[i].numParts == |w.table.devices[i].parts|;
    assert CleanDevices(w.table.devices);
    hide EnvOk, AddPartition, PartDel, DelPart, SaveCurrent, Save, FindPart, TableOk, Own, HandsOff, CleanDevices, SameText;
    match c
    case Add(_, _, _, _) => AddIsOwn(ids, names, w, c);
    case Del(id) =>
      var f := FindPart(w.table.devices, id);
      if f.Some? {
        var d := FindDevice(w.table.devices, f.value.0);
        PartDelEnvOk(names, w, d, f.value.1);
        DeletedIsClean(w.table, d, f.value.1);
        SaveIsOwn(PartDel(names, w, d, f.value.1));
      }
    case Chpart(id) =>
      var f := FindPart(w.table.devices, id);
      if f.Some? {
        var r := w.(table := w.table.(cur := Some(f.value.0), partnum := f.value.1));
        SaveCurrentLeavesText(names, r);
        StaysOwn(w, SetCurrent(names, w, f.value.0, f.value.1));
      }
  }

  lemma {:induction false} EmptiedIsOwn(names: Names, w: World)
    requires EnvOk(w.env)
    ensures Own(DevicesInit(names, w.(env := Unset(w.env, PARTS))))
  {
    NamesArePlain();
    hide EnvOk, Get, Unset, DevicesInit, Plain, CleanDevices, TableText;
    Undefines(w.env, PARTS, PARTITION);
    DevicesInitLeavesText(names, w.(env := Unset(w.env, PARTS)));
    NothingIsClean();
  }

  lemma {:induction false} ExecIsOwn(ids: seq<Id>, names: Names, w: World, c: Command)
    requires StateOk(ids, w) && CleanNames(ids) && Own(w) && HandsOff(c)
    ensures ValidIds(ids) && TableOk(ids, w.table.devices) && Own(Exec(ids, names, w, c))
  {
    SoundTable(ids, w);
    if c.Setenv? {
      PutOk(w.env, c.name, c.args, c.accepted);
      hide Put, Get, StateOk, TableOk, EnvOk, TableText, CleanDevices;
    } else {
      hide Sound, TableOk, EnvOk, Perform, Sync, DevicesInit, Put, Own, HandsOff;
      var s := Sync(ids, names, w).1;
      SyncEnvOk(ids, names, w);
      SyncIsOwn(ids, names, w);
      SyncTableOk(ids, names, w);
      if c.DelAll? {
        EmptiedIsOwn(names, s);
      } else if Sync(ids, names, w).0 {
        PerformIsOwn(ids, names, s, c);
      }
    }
  }

  ghost predicate HandsOffRun(steps: seq<Step>) {
    forall i :: 0 <= i < |steps| ==> HandsOff(steps[i].c)
  }

  lemma {:induction false} RunIsOwn(ids: seq<Id>, w: World, steps: seq<Step>)
    requires StateOk(ids, w) && CleanNames(ids) && Own(w) && HandsOffRun(steps)
    ensures Own(Run(ids, w, steps)) && FreshRun(ids, w, steps)
    decreases |steps|
  {
    SoundTable(ids, w);
    hide StateOk, Own, Exec, TableOk, HandsOff, Rereads, CleanNames;
    if steps != [] {
      NeverRereads(w);
      ExecOk(ids, steps[0].names, w, steps[0].c);
      ExecIsOwn(ids, steps[0].names, w, steps[0].c);
      RunIsOwn(ids, Exec(ids, steps[0].names, w, steps[0].c), steps[1..]);
    }
  }

  /** From power-up without `mtdparts`, as long as no command sets it by hand: it is never read, every
      copy is right, it holds the text of the table if it is defined, and skipping it is sound exactly
      when the table is rereadable. */
  lemma {:induction false} OwnTextIsTheTable(ids: seq<Id>, env: Env, steps: seq<Step>)
    requires ValidIds(ids) && CleanNames(ids) && EnvOk(env) && Get(env, PARTS) == None && HandsOffRun(steps)
    ensures StateOk(ids, Boot(env)) && FreshRun(ids, Boot(env), steps)
    ensures var r := Run(ids, Boot(env), steps);
      && !Rereads(r)
      && (Get(r.env, PARTS).Some? ==> Get(r.env, PARTS) == Some(TableText(r.table.devices)))
      && (r.last != "" ==> (ParseTable(ids, r.last) == Some(r.table.devices) <==> Rereadable(r.table.devices)))
  {
    BootOk(ids, env);
    BootIsOwn(env);
    hide Run, FreshRun, StateOk, Own, Rereads, HandsOffRun, CleanNames, Rereadable, ParseTable, TableText;
    RunIsOwn(ids, Boot(env), steps);
    var r := Run(ids, Boot(env), steps);
    NeverRereads(r);
    OwnMeans(ids, r);
  }

  lemma BootIsOwn(env: Env)
    requires Get(env, PARTS) == None
    ensures Own(Boot(env))
  {
    hide Get;
  }

  lemma {:induction false} OwnMeans(ids: seq<Id>, r: World)
    requires StateOk(ids, r) && Own(r)
    ensures ValidIds(ids)
    ensures Get(r.env, PARTS).Some? ==> r.last != "" && Get(r.env, PARTS) == Some(TableText(r.table.devices))
    ensures r.last != "" ==>
      && r.table.devices != [] && r.last == TableText(r.table.devices)
      && (ParseTable(ids, r.last) == Some(r.table.devices) <==> Rereadable(r.table.devices))
  {
    SoundTable(ids, r);
    assert r.last != "" ==> r.table.devices != [];
    hide StateOk, TableOk, Get, ParseTable, TableText, CleanDevices, Symmetric, AllLargeEnough;
    if r.last != "" { RereadExactly(ids, r.table.devices); }
  }

  /** If the environment that such a run leaves is found at the next power-up, the first command has the
      same devices again exactly when they are rereadable and their text is not too long to be read. */
  lemma {:induction false} RestartRestoresExactly(ids: seq<Id>, names: Names, env: Env, steps: seq<Step>)
    requires ValidIds(ids) && CleanNames(ids) && EnvOk(env) && Get(env, PARTS) == None && HandsOffRun(steps)
    ensures StateOk(ids, Boot(env))
    ensures var r := Run(ids, Boot(env), steps);
      Get(r.env, PARTS).Some? ==>
        (Sync(ids, names, Boot(r.env)).1.table.devices == r.table.devices <==>
         Rereadable(r.table.devices) && |TableText(r.table.devices)| < MTDPARTS_MAXLEN)
  {
    BootOk(ids, env);
    BootIsOwn(env);
    hide Run, FreshRun, StateOk, Own, HandsOffRun, CleanNames, Rereadable, ParseTable, TableText, Sync, Get;
    RunIsOwn(ids, Boot(env), steps);
    var r := Run(ids, Boot(env), steps);
    OwnMeans(ids, r);
    if Get(r.env, PARTS).Some? { FirstReading(ids, names, r.env, TableText(r.table.devices), r.table.devices); }
  }

  lemma {:induction false} FirstReading(ids: seq<Id>, names: Names, env: Env, text: string, devices: seq<Device>)
    requires ValidIds(ids) && Get(env, PARTS) == Some(text) && devices != []
    ensures Sync(ids, names, Boot(env)).1.table.devices == devices <==>
      ParseTable(ids, text) == Some(devices) && |text| < MTDPARTS_MAXLEN
  {
    hide Get, ParseTable, Reread, DevicesInit;
  }
}
