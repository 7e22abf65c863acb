/**
 Whole runs of the partition commands from power-up: the lists always stay in order, the current
 partition exists throughout exactly when no command does harm, and the text that is not read again gives the table
 as long as its copy was taken from where the text still was.
 */
module MtdReach {
  import opened Common
  import opened PartCheck
  import opened MtdParse
  import opened MtdTies
  import opened MtdReread
  import opened MtdTable
  import opened EnvBytes
  import opened MtdEnv
  import opened MtdCopy
  import opened MtdRun

  /** What holds in every state. */
  ghost predicate StateOk(ids: seq<Id>, w: World) {
    Sound(ids, w.table) && EnvOk(w.env)
  }

  lemma {:induction false} ExecOk(ids: seq<Id>, names: Names, w: World, c: Command)
    requires StateOk(ids, w)
    ensures StateOk(ids, Exec(ids, names, w, c))
  {
    assert ValidIds(ids) && TableOk(ids, w.table.devices);
    SoundTable(ids, w);
    hide Sound, TableOk, EnvOk, Perform, Sync, DevicesInit, Put;
    if c.Setenv? {
      PutOk(w.env, c.name, c.args, c.accepted);
    } else {
      var s := Sync(ids, names, w).1;
      SyncEnvOk(ids, names, w);
      SyncSound(ids, names, w);
      SoundTable(ids, s);
      if c.DelAll? {
        UnsetOk(s.env, PARTS);
        DevicesInitOk(names, s.(env := Unset(s.env, PARTS)));
        EmptiedSound(ids, s.table);
      } else if Sync(ids, names, w).0 {
        PerformEnvOk(ids, names, s, c);
        PerformSound(ids, names, s, c);
      }
    }
  }

  lemma SoundTable(ids: seq<Id>, w: World)
    requires Sound(ids, w.table)
    ensures ValidIds(ids) && TableOk(ids, w.table.devices)
  {
  }

  lemma EmptiedSound(ids: seq<Id>, t: Table)
    requires Sound(ids, t)
    ensures Sound(ids, Emptied(t))
  {
  }

  /** A command, and the names that partitions without one then have. */
  datatype Step = Step(c: Command, names: Names)

  ghost function Run(ids: seq<Id>, w: World, steps: seq<Step>): (r: World)
    requires StateOk(ids, w)
    ensures StateOk(ids, r)
    decreases |steps|
  {
    if steps == [] then w
    else
      ExecOk(ids, steps[0].names, w, steps[0].c);
      Run(ids, Exec(ids, steps[0].names, w, steps[0].c), steps[1..])
  }

  /** At power-up there is no table and no copy, and the variables hold anything. */
  function Boot(env: Env): World {
    World(Table([], None, 0), env, "", "")
  }

  lemma BootOk(ids: seq<Id>, env: Env)
    requires ValidIds(ids) && EnvOk(env)
    ensures StateOk(ids, Boot(env)) && TableInv(ids, Boot(env).table) && CopyOk(ids, Boot(env))
  {
  }

  /** Every list is sorted and its length recorded, its partitions fit their flash, devices are
      distinct, and there is a current device unless the table is empty. */
  ghost predicate ListsInOrder(t: Table) {
    && (forall i :: 0 <= i < |t.devices| ==>
          && Ordered(t.devices[i].parts) && 0 < |t.devices[i].parts| == t.devices[i].numParts
          && t.devices[i].id.Valid()
          && forall j :: 0 <= j < |t.devices[i].parts| ==> FitsDevice(t.devices[i].id, t.devices[i].parts[j]))
    && (forall i, j :: 0 <= i < j < |t.devices| ==> KeyOf(t.devices[i].id) != KeyOf(t.devices[j].id))
    && (if t.cur.None? then t.devices == [] else FindDevice(t.devices, t.cur.value) >= 0)
  }

  /** In every state that any commands reach from power-up the lists are in order, and so is the
      environment. */
  lemma {:induction false} EveryReachableState(ids: seq<Id>, env: Env, steps: seq<Step>)
    requires ValidIds(ids) && EnvOk(env)
    ensures StateOk(ids, Boot(env))
    ensures var r := Run(ids, Boot(env), steps); ListsInOrder(r.table) && EnvOk(r.env)
  {
    BootOk(ids, env);
    hide Run, Ordered, FitsDevice, EnvOk;
    var t := Run(ids, Boot(env), steps).table;
    forall i | 0 <= i < |t.devices|
      ensures Ordered(t.devices[i].parts) && 0 < |t.devices[i].parts| == t.devices[i].numParts && t.devices[i].id.Valid()
      ensures forall j :: 0 <= j < |t.devices[i].parts| ==> FitsDevice(t.devices[i].id, t.devices[i].parts[j])
    {
      assert DeviceOk(ids, t.devices[i]);
    }
  }

  // ---- the current partition ----

  ghost predicate HarmlessNow(ids: seq<Id>, w: World, s: Step)
    requires StateOk(ids, w)
  {
    Sync(ids, s.names, w).0 ==> (SyncTableOk(ids, s.names, w); Harmless(ids, Sync(ids, s.names, w).1.table, s.c))
  }

  /** A command keeps the table in order exactly when it is harmless to the table in step with the
      variables. */
  lemma {:induction false} ExecKeepsExactly(ids: seq<Id>, w: World, s: Step)
    requires StateOk(ids, w) && TableInv(ids, w.table)
    ensures TableInv(ids, Exec(ids, s.names, w, s.c).table) <==> HarmlessNow(ids, w, s)
  {
    SoundTable(ids, w);
    hide Sound, TableOk, TableInv, EnvOk, Perform, Sync, DevicesInit, Put, LosesCurrent, FindPart;
    SyncKeeps(ids, s.names, w);
    SyncTableOk(ids, s.names, w);
    var r := Sync(ids, s.names, w).1;
    PartnumFits(ids, r.table);
    EmptiedInv(ids, r.table);
    if !s.c.Setenv? && !s.c.DelAll? { HarmlessExactly(ids, s.names, r, s.c); }
  }

  ghost predicate HarmlessRun(ids: seq<Id>, w: World, steps: seq<Step>)
    requires StateOk(ids, w)
    decreases |steps|
  {
    steps == [] ||
    (HarmlessNow(ids, w, steps[0]) &&
     (ExecOk(ids, steps[0].names, w, steps[0].c);
      HarmlessRun(ids, Exec(ids, steps[0].names, w, steps[0].c), steps[1..])))
  }

  /** There is a current partition unless the table is empty, and its global index is its position. */
  ghost predicate CurrentExists(t: Table) {
    && (t.cur.None? <==> t.devices == [])
    && (t.cur.Some? ==>
          var d := FindDevice(t.devices, t.cur.value);
          var g := GlobalIndex(t.devices, t.cur.value, t.partnum);
          && d >= 0 && t.partnum < |t.devices[d].parts|
          && g < |AllParts(t.devices)| && AllParts(t.devices)[g] == t.devices[d].parts[t.partnum])
  }

  /** The current partition exists in every state of a run. */
  ghost predicate CurrentThroughout(ids: seq<Id>, w: World, steps: seq<Step>)
    requires StateOk(ids, w)
    decreases |steps|
  {
    CurrentExists(w.table) &&
    (steps == [] ||
     (ExecOk(ids, steps[0].names, w, steps[0].c);
      CurrentThroughout(ids, Exec(ids, steps[0].names, w, steps[0].c), steps[1..])))
  }

  lemma {:induction false} ThroughoutExactly(ids: seq<Id>, w: World, steps: seq<Step>)
    requires StateOk(ids, w) && TableInv(ids, w.table)
    ensures CurrentThroughout(ids, w, steps) <==> HarmlessRun(ids, w, steps)
    decreases |steps|
  {
    SoundTable(ids, w);
    InvMeans(ids, w.table);
    hide StateOk, TableInv, Exec, HarmlessNow, TableOk, CurrentExists;
    if steps != [] {
      var next := Exec(ids, steps[0].names, w, steps[0].c);
      ExecOk(ids, steps[0].names, w, steps[0].c);
      ExecKeepsExactly(ids, w, steps[0]);
      if HarmlessNow(ids, w, steps[0]) {
        ThroughoutExactly(ids, next, steps[1..]);
      } else {
        NoCurrent(ids, next);
      }
    }
  }

  lemma NoCurrent(ids: seq<Id>, w: World)
    requires StateOk(ids, w) && !TableInv(ids, w.table)
    ensures !CurrentExists(w.table)
  {
    hide TableOk, FindDevice, GlobalIndex, AllParts, EnvOk;
  }

  lemma {:induction false} RunKeeps(ids: seq<Id>, w: World, steps: seq<Step>)
    requires StateOk(ids, w) && TableInv(ids, w.table) && HarmlessRun(ids, w, steps)
    ensures TableInv(ids, Run(ids, w, steps).table)
    decreases |steps|
  {
    SoundTable(ids, w);
    hide StateOk, TableInv, Exec, HarmlessNow, TableOk;
    if steps != [] {
      ExecOk(ids, steps[0].names, w, steps[0].c);
      ExecKeepsExactly(ids, w, steps[0]);
      RunKeeps(ids, Exec(ids, steps[0].names, w, steps[0].c), steps[1..]);
    }
  }

  /** From power-up the current partition exists in every state of a run exactly when every command is
      harmless; then so it does at the end. */
  lemma {:induction false} CurrentAlwaysExists(ids: seq<Id>, env: Env, steps: seq<Step>)
    requires ValidIds(ids) && EnvOk(env)
    ensures StateOk(ids, Boot(env))
    ensures CurrentThroughout(ids, Boot(env), steps) <==> HarmlessRun(ids, Boot(env), steps)
    ensures HarmlessRun(ids, Boot(env), steps) ==> CurrentExists(Run(ids, Boot(env), steps).table)
  {
    BootOk(ids, env);
    hide StateOk, HarmlessRun, Run, TableInv, CurrentExists, CurrentThroughout;
    ThroughoutExactly(ids, Boot(env), steps);
    if HarmlessRun(ids, Boot(env), steps) {
      RunKeeps(ids, Boot(env), steps);
      InvMeans(ids, Run(ids, Boot(env), steps).table);
    }
  }

  lemma {:induction false} InvMeans(ids: seq<Id>, t: Table)
    requires TableInv(ids, t)
    ensures CurrentExists(t)
  {
    hide Ordered, FitsDevice;
    assert forall i :: 0 <= i < |t.devices| ==> DeviceOk(ids, t.devices[i]);
    if t.cur.Some? {
      GlobalIndexIsPosition(t.devices, FindDevice(t.devices, t.cur.value), t.partnum);
    }
  }

  // ---- the text last seen ----

  /** The copy last seen, if there is one, was generated from the table, or the table was read from
      it. */
  ghost predicate CopyOk(ids: seq<Id>, w: World) {
    ValidIds(ids) &&
    (w.last != "" ==>
       && w.table.devices != []
       && (w.last == TableText(w.table.devices) || ParseTable(ids, w.last) == Some(w.table.devices)))
  }

  /** If the text is read now, its copy will be taken from where it then is. */
  predicate FreshNow(ids: seq<Id>, w: World, c: Command)
    requires ValidIds(ids)
  {
    var text := Get(w.env, PARTS);
    !c.Setenv? && !c.DelAll? && Rereads(w) && ParseTable(ids, text.value).Some? ==> CopyOf(w.env) == text.value
  }

  /** That is so exactly when the text's old address still holds it; for a text that is not shorter than
      what is deleted in front of it, exactly when none of `partition`, `mtddevnum` and `mtddevname`
      stands before it. */
  lemma {:induction false} FreshExactly(ids: seq<Id>, w: World, c: Command)
    requires StateOk(ids, w) && ValidIds(ids) && !c.Setenv? && !c.DelAll?
    requires Rereads(w) && ParseTable(ids, Get(w.env, PARTS).value).Some?
    ensures var text := Get(w.env, PARTS).value;
      && (FreshNow(ids, w, c) <==> CopySource(w.env, text) == text)
      && (Shift(w.env.entries) <= |text| ==> (FreshNow(ids, w, c) <==> InPlace(w.env.entries)))
  {
    hide ParseTable, Sound, Get, EnvOk, CopyOf, InPlace, Shift, CopySource;
    StaleCopyExactly(w.env, Get(w.env, PARTS).value);
  }

  lemma {:induction false} SyncCopyOk(ids: seq<Id>, names: Names, w: World)
    requires ValidIds(ids) && CopyOk(ids, w)
    requires Rereads(w) && ParseTable(ids, Get(w.env, PARTS).value).Some? ==> CopyOf(w.env) == Get(w.env, PARTS).value
    ensures CopyOk(ids, Sync(ids, names, w).1)
  {
    hide ParseTable, TableText, Restore, Reread, DevicesInit, Get, CopyOf, Wanted;
  }

  /** The text was stored anew, or neither it nor the devices were changed. */
  ghost predicate CopyFollows(w: World, r: World) {
    || (r.table.devices == w.table.devices && r.last == w.last)
    || r.last == ""
    || (r.table.devices != [] && r.last == TableText(r.table.devices))
  }

  lemma {:induction false} AddFollows(ids: seq<Id>, names: Names, w: World, c: Command)
    requires ValidIds(ids) && TableOk(ids, w.table.devices) && c.Add?
    ensures CopyFollows(w, AddPartition(ids, names, w, c))
  {
    hide TableText, ReindexTimes, Reindex, MergeDevice, TableOk, ParseDevice, Save, Renumberings, ParseId, AddLength, AddText;
  }

  lemma {:induction false} PerformFollows(ids: seq<Id>, names: Names, w: World, c: Command)
    requires ValidIds(ids) && TableOk(ids, w.table.devices) && !c.Setenv? && !c.DelAll?
    ensures CopyFollows(w, Perform(ids, names, w, c))
  {
    hide TableText, AddPartition, TableOk, FindPart, PartDel, Save, SaveCurrent;
    if c.Add? { AddFollows(ids, names, w, c); }
  }

  lemma {:induction false} ExecCopyOk(ids: seq<Id>, names: Names, w: World, c: Command)
    requires StateOk(ids, w) && CopyOk(ids, w) && ValidIds(ids) && FreshNow(ids, w, c)
    ensures CopyOk(ids, Exec(ids, names, w, c))
  {
    SoundTable(ids, w);
    hide StateOk, TableOk, ParseTable, TableText, Perform, Sync, DevicesInit, Put, Get, CopyOf;
    if !c.Setenv? && !c.DelAll? {
      SyncCopyOk(ids, names, w);
      SyncTableOk(ids, names, w);
      var s := Sync(ids, names, w).1;
      if Sync(ids, names, w).0 { PerformFollows(ids, names, s, c); }
    }
  }

  ghost predicate FreshRun(ids: seq<Id>, w: World, steps: seq<Step>)
    requires StateOk(ids, w)
    decreases |steps|
  {
    steps == [] ||
    (SoundTable(ids, w);
     FreshNow(ids, w, steps[0].c) &&
     (ExecOk(ids, steps[0].names, w, steps[0].c);
      FreshRun(ids, Exec(ids, steps[0].names, w, steps[0].c), steps[1..])))
  }

  lemma {:induction false} RunCopyOk(ids: seq<Id>, w: World, steps: seq<Step>)
    requires StateOk(ids, w) && CopyOk(ids, w) && FreshRun(ids, w, steps)
    ensures CopyOk(ids, Run(ids, w, steps))
    decreases |steps|
  {
    SoundTable(ids, w);
    hide StateOk, CopyOk, Exec, FreshNow, TableOk;
    if steps != [] {
      ExecOk(ids, steps[0].names, w, steps[0].c);
      ExecCopyOk(ids, steps[0].names, w, steps[0].c);
      RunCopyOk(ids, Exec(ids, steps[0].names, w, steps[0].c), steps[1..]);
    }
  }

  /** No partition is below the minimum size and runs of equal offsets are symmetric. */
  ghost predicate Rereadable(devices: seq<Device>) {
    AllLargeEnough(devices) && forall i :: 0 <= i < |devices| ==> Symmetric(devices[i].parts)
  }

  /** In every state that commands reach from power-up, when every copy was taken from where the text
      was: if the table is rereadable, the text that would not be read again gives the table, so that
      skipping it is sound. */
  lemma {:induction false} SkippingIsSound(ids: seq<Id>, env: Env, steps: seq<Step>)
    requires ValidIds(ids) && EnvOk(env)
    ensures StateOk(ids, Boot(env))
    ensures FreshRun(ids, Boot(env), steps) ==>
      var r := Run(ids, Boot(env), steps);
      r.last != "" && Rereadable(r.table.devices) ==> ParseTable(ids, r.last) == Some(r.table.devices)
  {
    BootOk(ids, env);
    hide FreshRun, Run, Rereadable, ParseTable;
    if FreshRun(ids, Boot(env), steps) {
      RunCopyOk(ids, Boot(env), steps);
      CopyMeans(ids, Run(ids, Boot(env), steps));
    }
  }

  lemma {:induction false} CopyMeans(ids: seq<Id>, r: World)
    requires StateOk(ids, r) && CopyOk(ids, r)
    ensures r.last != "" && Rereadable(r.table.devices) ==> ParseTable(ids, r.last) == Some(r.table.devices)
  {
    SoundTable(ids, r);
    hide TableOk, Symmetric, ParseTable, TableText, StateOk, AllLargeEnough;
    if r.last != "" { RereadExactly(ids, r.table.devices); }
  }
}
