/**
 Reading the table anew after `mtdparts` was set by hand: which partition is current afterwards, when
 the copy of the text is stale, and what a stale copy leads to.
 */
module MtdStale {
  import opened Common
  import opened PartCheck
  import opened MtdText
  import opened MtdParse
  import opened MtdReread
  import opened MtdTable
  import opened EnvBytes
  import opened MtdEnv
  import opened MtdCopy
  import opened MtdRun
  import opened MtdReach
  import EnvSpec

  // ---- where the text stands ----

  /** Setting the variable puts the text behind everything else, so it is in place only when the three
      other variables are not defined. */
  lemma {:induction false} EditingMovesBehind(e: Env, text: string)
    requires EnvOk(e) && Get(Set(e, PARTS, text), PARTS).Some?
    ensures InPlace(Set(e, PARTS, text).entries) <==>
      Get(e, PARTITION) == None && Get(e, DEVNUM) == None && Get(e, DEVNAME) == None
  {
    NamesArePlain();
    hide EnvOk, Set, Get, Before, Plain;
    SetIsBehindAll(e, PARTS, text, PARTITION);
    SetIsBehindAll(e, PARTS, text, DEVNUM);
    SetIsBehindAll(e, PARTS, text, DEVNAME);
  }

  ghost predicate TextInPlace(e: Env, text: string) {
    EnvOk(e) && Get(e, PARTS) == Some(text) && InPlace(e.entries)
  }

  lemma {:induction false} SetKeepsInPlace(e: Env, name: string, v: string, text: string)
    requires TextInPlace(e, text) && name in {PARTITION, DEVNUM, DEVNAME}
    ensures TextInPlace(Set(e, name, v), text)
  {
    NamesArePlain();
    hide EnvOk, Set, Before, Put, Plain;
    PutOk(e, name, [v], true);
    SetIsPut(e, name, v);
    assert EnvSpec.KeyOf(CText(name)) == name by { PlainKey(name); }
    forall other | other in {PARTITION, DEVNUM, DEVNAME} ensures !Before(Set(e, name, v).entries, other, PARTS) {
      SetStandsBehind(e, name, v, PARTS, if other == name then (if name == DEVNUM then DEVNAME else DEVNUM) else other);
    }
  }

  lemma SetIsPut(e: Env, name: string, v: string)
    ensures Set(e, name, v) == Put(e, name, [v], true)
  {
  }

  lemma {:induction false} ForgottenInPlace(e: Env, text: string)
    requires EnvOk(e) && Get(e, PARTS) == Some(text)
    ensures TextInPlace(Forgotten(e), text)
  {
    NamesArePlain();
    hide EnvOk, Unset, Plain, Before;
    var e1 := Unset(e, PARTITION);
    var e2 := Unset(e1, DEVNUM);
    ForgettingMoves(e);
    Undefines(e, PARTITION, DEVNUM);
    Undefines(e1, DEVNUM, PARTITION);
    Undefines(e2, DEVNAME, PARTITION);
    Undefines(e2, DEVNAME, DEVNUM);
    NotBefore(Forgotten(e), PARTITION);
    NotBefore(Forgotten(e), DEVNUM);
    NotBefore(Forgotten(e), DEVNAME);
  }

  lemma NotBefore(e: Env, name: string)
    requires Get(e, name) == None
    ensures !Before(e.entries, name, PARTS)
  {
  }

  lemma {:induction false} SaveKeepsInPlace(names: Names, w: World, text: string)
    requires TextInPlace(w.env, text) && w.table.cur.Some?
    ensures TextInPlace(SaveCurrent(names, w).env, text)
  {
    hide TextInPlace, Set, CurrentName, GlobalIndex;
    var t := w.table;
    var e1 := Set(w.env, PARTITION, PartitionText(t.cur.value, t.partnum));
    var e2 := Set(e1, DEVNUM, Decimal(GlobalIndex(t.devices, t.cur.value, t.partnum) % 0x1_0000));
    SetKeepsInPlace(w.env, PARTITION, PartitionText(t.cur.value, t.partnum), text);
    SetKeepsInPlace(e1, DEVNUM, Decimal(GlobalIndex(t.devices, t.cur.value, t.partnum) % 0x1_0000), text);
    SetKeepsInPlace(e2, DEVNAME, CurrentName(names, t), text);
  }

  /** After a text was read it is in place, so the next copy is taken from where it is. */
  lemma {:induction false} RereadPutsInPlace(names: Names, w: World, devices: seq<Device>)
    requires EnvOk(w.env) && Get(w.env, PARTS).Some? && devices != []
    ensures TextInPlace(Reread(names, w, devices).env, Get(w.env, PARTS).value)
  {
    var text := Get(w.env, PARTS).value;
    hide EnvOk, Get, SaveCurrent, TextInPlace, FindPart, CopyOf;
    ForgottenInPlace(w.env, text);
    SaveKeepsInPlace(names, DevicesInit(names, w).(table := FirstCurrent(devices), last := CopyOf(w.env)), text);
    var a, wanted := Adopt(names, w, devices), Wanted(w);
    var f := FindPart(devices, wanted);
    SaveKeepsInPlace(names, a, text);
    if f.Some? {
      SaveKeepsInPlace(names, a.(table := a.table.(cur := Some(f.value.0), partnum := f.value.1)), text);
    }
  }

  // ---- the current partition ----

  lemma {:induction false} ShortDecimal(n: nat)
    requires n < 256
    ensures |Decimal(n)| <= 3
  {
    if n >= 10 {
      assert |Decimal(n / 10)| <= 2 by { if n >= 100 { assert |Decimal(n / 10 / 10)| == 1; } }
    }
  }

  lemma {:induction false} PartitionFits(key: Key, partnum: nat)
    requires key.num < 256 && partnum < 256
    ensures 0 < |PartitionText(key, partnum)| < PARTITION_MAXLEN
  {
    hide Decimal;
    ShortDecimal(key.num);
    ShortDecimal(partnum);
  }

  /** Reading a text keeps the current partition that was stored, if there still is one of that
      number on that device. */
  lemma {:induction false} RereadKeepsCurrent(names: Names, w: World, devices: seq<Device>, key: Key, partnum: nat)
    requires devices != [] && key.num < 256 && partnum < 256
    requires Get(w.env, PARTITION) == Some(PartitionText(key, partnum))
    requires FindDevice(devices, key) >= 0 && partnum < devices[FindDevice(devices, key)].numParts
    requires KeyOf(devices[0].id).num < 256 && 0 < devices[0].numParts
    ensures Reread(names, w, devices).table == Table(devices, Some(key), partnum)
  {
    hide PartitionText, FindPart, DevicesInit, Get, CopyOf;
    var text, first := PartitionText(key, partnum), KeyOf(devices[0].id);
    PartitionFits(key, partnum);
    PartitionRead(devices, key, partnum);
    PartitionRead(devices, first, 0);
    var a := Adopt(names, w, devices);
    assert a.lastPartition == PartitionText(first, 0) by { Adopted(names, w, devices); }
    hide Adopt, SaveCurrent;
  }

  lemma Adopted(names: Names, w: World, devices: seq<Device>)
    requires devices != []
    ensures Adopt(names, w, devices).lastPartition == PartitionText(KeyOf(devices[0].id), 0)
  {
    hide Reindex, PartitionText;
  }

  // ---- what a stale copy leads to ----

  lemma {:induction false} ReadsNew(ids: seq<Id>, names: Names, w: World, text: string, devices: seq<Device>)
    requires ValidIds(ids) && Get(w.env, PARTS) == Some(text) && |text| < MTDPARTS_MAXLEN && text != w.last
    requires ParseTable(ids, text) == Some(devices) && devices != []
    ensures Sync(ids, names, w) == (true, Reread(names, w, devices)) && Rereads(w)
  {
    hide ParseTable, Reread, Get;
  }

  /** A command that reads the text right after it was set by hand takes a stale copy of it. */
  lemma {:induction false} EditedIsStale(ids: seq<Id>, names: Names, w: World, text: string, devices: seq<Device>, id: string)
    requires StateOk(ids, w) && ValidIds(ids) && Get(w.env, PARTS) == Some(text) && |text| < MTDPARTS_MAXLEN
    requires ParseTable(ids, text) == Some(devices) && devices != [] && text != w.last && Shift(w.env.entries) <= |text|
    ensures var r := Exec(ids, names, w, Chpart(id));
      r.last == text[Shift(w.env.entries)..] && r.table.devices == devices && TextInPlace(r.env, text)
  {
    StateParts(ids, w);
    hide *;
    ReadsNew(ids, names, w, text, devices);
    ChpartIs(ids, names, w, id, Reread(names, w, devices));
    StaleCopyExactly(w.env, text);
    RereadPutsInPlace(names, w, devices);
    SyncTableOk(ids, names, w);
    ChpartFollows(ids, names, Reread(names, w, devices), id, text);
  }

  lemma ChpartIs(ids: seq<Id>, names: Names, w: World, id: string, s: World)
    requires ValidIds(ids) && TableOk(ids, w.table.devices) && Sync(ids, names, w) == (true, s)
    ensures TableOk(ids, s.table.devices) && Exec(ids, names, w, Chpart(id)) == Perform(ids, names, s, Chpart(id))
  {
    hide Sync, TableOk, Perform;
    SyncTableOk(ids, names, w);
  }

  lemma ChpartFollows(ids: seq<Id>, names: Names, w: World, id: string, text: string)
    requires ValidIds(ids) && TableOk(ids, w.table.devices) && TextInPlace(w.env, text)
    ensures var r := Perform(ids, names, w, Chpart(id));
      r.last == w.last && r.table.devices == w.table.devices && TextInPlace(r.env, text)
  {
    hide TableOk, FindPart, TextInPlace, SaveCurrent;
    var f := FindPart(w.table.devices, id);
    if f.Some? {
      SaveKeepsInPlace(names, w.(table := w.table.(cur := Some(f.value.0), partnum := f.value.1)), text);
    }
  }

  /** Any value that is no longer than the text can take its place. */
  lemma {:induction false} Replaced(w: World, text: string, v: string)
    requires TextInPlace(w.env, text) && EnvSpec.CString(v) && |v| <= |text|
    ensures Get(Put(w.env, PARTS, [v], true), PARTS) == Some(v)
  {
    NamesArePlain();
    SetIsPut(w.env, PARTS, v);
    hide Put, Plain, EnvOk, Get;
    RoomForShorter(w.env, PARTS, v);
  }

  lemma SkipsLast(ids: seq<Id>, names: Names, w: World)
    requires ValidIds(ids) && w.last != "" && Get(w.env, PARTS) == Some(w.last) && |w.last| < MTDPARTS_MAXLEN
    ensures !Rereads(w) && Sync(ids, names, w).1.table.devices == w.table.devices
  {
    hide Get, Restore, Reread, ParseTable;
  }

  /** A text set by hand moves behind `partition`, `mtddevnum` and `mtddevname`, so the command that
      reads it copies only its end.  When the variable is then set to that end, the next command takes
      it for the text it has read, although reading it would give another table, or fail. */
  lemma {:induction false} StaleCopySkipsReading(ids: seq<Id>, names: Names, w: World, text: string, devices: seq<Device>, id: string)
    requires StateOk(ids, w) && ValidIds(ids) && EnvSpec.CString(text) && |text| < MTDPARTS_MAXLEN
    requires ParseTable(ids, text) == Some(devices) && devices != [] && text != w.last
    requires Get(w.env, PARTITION).Some? || Get(w.env, DEVNUM).Some? || Get(w.env, DEVNAME).Some?
    requires Get(Put(w.env, PARTS, [text], true), PARTS) == Some(text)
    requires Shift(Put(w.env, PARTS, [text], true).entries) < |text|
    ensures var w1 := Exec(ids, names, w, Setenv(PARTS, [text], true));
      var s := Shift(w1.env.entries);
      StateOk(ids, w1) && 0 < s < |text| &&
      var w2 := Exec(ids, names, w1, Chpart(id));
      StateOk(ids, w2) && w2.last == text[s..] && w2.table.devices == devices &&
      var w3 := Exec(ids, names, w2, Setenv(PARTS, [text[s..]], true));
      && Get(w3.env, PARTS) == Some(text[s..]) && !Rereads(w3)
      && Sync(ids, names, w3).1.table.devices == devices
      && (!(PREFIX <= text[s..]) ==> ParseTable(ids, text[s..]) == None)
  {
    StateParts(ids, w);
    ExecOk(ids, names, w, Setenv(PARTS, [text], true));
    hide *;
    var e1 := Put(w.env, PARTS, [text], true);
    var w1, s := w.(env := e1), Shift(e1.entries);
    ExecSetenv(ids, names, w, text);
    SetIsPut(w.env, PARTS, text);
    EditingMovesBehind(w.env, text);
    NothingMoved(e1.entries);
    EditedIsStale(ids, names, w1, text, devices, id);
    ExecOk(ids, names, w1, Chpart(id));
    StateParts(ids, w1);
    var w2, u := Exec(ids, names, w1, Chpart(id)), text[s..];
    StateParts(ids, w2);
    CStringSuffix(text, s);
    Replaced(w2, text, u);
    ExecSetenv(ids, names, w2, u);
    SkipsLast(ids, names, w2.(env := Put(w2.env, PARTS, [u], true)));
    NoPrefix(ids, u);
  }

  lemma ExecSetenv(ids: seq<Id>, names: Names, w: World, v: string)
    requires ValidIds(ids) && TableOk(ids, w.table.devices)
    ensures Exec(ids, names, w, Setenv(PARTS, [v], true)) == w.(env := Put(w.env, PARTS, [v], true))
  {
  }

  lemma StateParts(ids: seq<Id>, w: World)
    requires StateOk(ids, w)
    ensures ValidIds(ids) && TableOk(ids, w.table.devices) && EnvOk(w.env)
  {
  }

  lemma CStringSuffix(s: string, k: nat)
    requires EnvSpec.CString(s) && k <= |s|
    ensures EnvSpec.CString(s[k..])
  {
  }

  lemma NoPrefix(ids: seq<Id>, s: string)
    requires ValidIds(ids)
    ensures !(PREFIX <= s) ==> ParseTable(ids, s) == None
  {
    hide ParseDevices;
  }
}
