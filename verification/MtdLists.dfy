/**
 How long the lists of partitions get.  Their lengths are kept in 16 bits (num_parts in
 include/jffs2/load_kernel.h), which no run of less than 65280 commands exceeds.
 */
module MtdLists {
  import opened Common
  import opened PartCheck
  import opened MtdParse
  import opened MtdTies
  import opened MtdReread
  import opened MtdTable
  import opened MtdAccepted
  import opened EnvBytes
  import opened MtdEnv
  import opened MtdRun
  import opened MtdReach

  /** A description that fits the buffer in which it is put together. */
  ghost predicate DescriptionFits(ids: seq<Id>, c: Command) {
    c.Add? ==> forall i :: 0 <= i < |ids| ==> |AddText(ids[i], c)| < PART_ADD_DESC_MAXLEN
  }

  /** Bringing the table in step leaves the lists alone, or reads ones that are short, as the text is. */
  lemma {:induction false} SyncLists(ids: seq<Id>, names: Names, w: World, n: nat)
    requires ValidIds(ids) && ShortLists(w.table.devices, n) && 2 * n >= MTDPARTS_MAXLEN
    ensures ShortLists(Sync(ids, names, w).1.table.devices, n)
  {
    hide ParseDevices, Restore, Reread, DevicesInit, Get, Wanted;
    var text := Get(w.env, PARTS);
    if text.Some? && |text.value| < MTDPARTS_MAXLEN && ParseTable(ids, text.value).Some? {
      ReadListsAreShort(ids, [], text.value[9..], n);
    }
  }

  lemma {:induction false} MergeLists(ids: seq<Id>, names: Names, w: World, dev: Device, n: nat)
    requires ValidIds(ids) && TableOk(ids, w.table.devices) && DeviceOk(ids, dev) && MergeDevice(ids, names, w, dev).Some?
    requires ShortLists(w.table.devices, n) && |dev.parts| <= n
    ensures ShortLists(MergeDevice(ids, names, w, dev).value.table.devices, n + 1)
  {
    hide FindByName, SortAdd, SaveCurrent, Reindex, Ordered, FitsDevice, AddMoves, PartValidate;
    var d := FindDevice(w.table.devices, KeyOf(dev.id));
    assert d >= 0 ==> |SortAdd(w.table.devices[d].parts, dev.parts[0]).value| == |w.table.devices[d].parts| + 1;
  }

  lemma {:induction false} AddLists(ids: seq<Id>, names: Names, w: World, c: Command, n: nat)
    requires ValidIds(ids) && TableOk(ids, w.table.devices) && c.Add? && DescriptionFits(ids, c)
    requires ShortLists(w.table.devices, n) && 2 * n >= MTDPARTS_MAXLEN
    ensures ShortLists(AddPartition(ids, names, w, c).table.devices, n + 1)
  {
    var key := ParseId(c.dev);
    var id := if key.None? then None else FindId(ids, key.value.0);
    hide ReindexTimes, Reindex, MergeDevice, TableOk, ParseDevice, Save, Renumberings, ParseId, AddLength, AddText;
    if id.Some? && AddLength(id.value, c) < PART_ADD_DESC_MAXLEN {
      var text := AddText(id.value, c);
      var dev := ParseDevice(ids, w.table.devices, text);
      var r := ReindexTimes(names, w, Renumberings(ids, w.table.devices, text));
      if dev.Some? {
        ParsedDeviceOk(ids, w.table.devices, text);
        DeviceIsShort(ids, w.table.devices, text, n);
        if MergeDevice(ids, names, r, dev.value.0).Some? { MergeLists(ids, names, r, dev.value.0, n); }
      }
    }
  }

  lemma {:induction false} DeleteLists(t: Table, d: nat, k: nat, n: nat)
    requires d < |t.devices| && t.devices[d].numParts == |t.devices[d].parts| && k < |t.devices[d].parts|
    requires ShortLists(t.devices, n)
    ensures ShortLists(DelPart(t, d, k).devices, n)
  {
    hide IsCurrent;
    if t.devices[d].numParts == 1 {
      var rest := RestDevices(t.devices, d);
      assert forall i :: 0 <= i < |rest| ==> rest[i] == t.devices[if i < d then i else i + 1];
    }
  }

  /** A command makes no list longer by more than one. */
  lemma {:induction false} PerformLists(ids: seq<Id>, names: Names, w: World, c: Command, n: nat)
    requires ValidIds(ids) && TableOk(ids, w.table.devices) && !c.Setenv? && !c.DelAll? && DescriptionFits(ids, c)
    requires ShortLists(w.table.devices, n) && 2 * n >= MTDPARTS_MAXLEN
    ensures ShortLists(Perform(ids, names, w, c).table.devices, n + 1)
  {
    assert forall i :: 0 <= i < |w.table.devices| ==> w.table.devices[i].numParts == |w.table.devices[i].parts|;
    hide AddPartition, PartDel, DelPart, SaveCurrent, Save, FindPart, TableOk, DescriptionFits;
    match c
    case Add(_, _, _, _) => AddLists(ids, names, w, c, n);
    case Del(id) =>
      var f := FindPart(w.table.devices, id);
      if f.Some? { DeleteLists(w.table, FindDevice(w.table.devices, f.value.0), f.value.1, n); }
    case Chpart(_) =>
  }

  lemma {:induction false} ExecLists(ids: seq<Id>, names: Names, w: World, c: Command, n: nat)
    requires StateOk(ids, w) && DescriptionFits(ids, c) && ShortLists(w.table.devices, n) && 2 * n >= MTDPARTS_MAXLEN
    ensures ValidIds(ids) && TableOk(ids, w.table.devices)
    ensures ShortLists(Exec(ids, names, w, c).table.devices, n + 1)
  {
    SoundTable(ids, w);
    hide StateOk, TableOk, Perform, Sync, DevicesInit, Put, DescriptionFits;
    SyncLists(ids, names, w, n);
    SyncTableOk(ids, names, w);
    if !c.Setenv? && !c.DelAll? && Sync(ids, names, w).0 {
      PerformLists(ids, names, Sync(ids, names, w).1, c, n);
    }
  }

  lemma {:induction false} RunLists(ids: seq<Id>, w: World, steps: seq<Step>, n: nat)
    requires StateOk(ids, w) && ShortLists(w.table.devices, n) && 2 * n >= MTDPARTS_MAXLEN
    requires forall i :: 0 <= i < |steps| ==> DescriptionFits(ids, steps[i].c)
    ensures ShortLists(Run(ids, w, steps).table.devices, n + |steps|)
    decreases |steps|
  {
    SoundTable(ids, w);
    hide StateOk, TableOk, Exec, ShortLists, DescriptionFits;
    if steps != [] {
      ExecOk(ids, steps[0].names, w, steps[0].c);
      ExecLists(ids, steps[0].names, w, steps[0].c, n);
      RunLists(ids, Exec(ids, steps[0].names, w, steps[0].c), steps[1..], n + 1);
    }
  }

  /** From power-up no list is longer than the commands so far and half the characters of a text that is
      read; so 65279 commands do not make its length wrap. */
  lemma {:induction false} CountersDoNotWrap(ids: seq<Id>, env: Env, steps: seq<Step>)
    requires ValidIds(ids) && EnvOk(env) && forall i :: 0 <= i < |steps| ==> DescriptionFits(ids, steps[i].c)
    ensures StateOk(ids, Boot(env))
    ensures ShortLists(Run(ids, Boot(env), steps).table.devices, MTDPARTS_MAXLEN / 2 + |steps|)
    ensures |steps| <= 65279 ==> ShortLists(Run(ids, Boot(env), steps).table.devices, 0xFFFF)
  {
    BootOk(ids, env);
    hide Run, StateOk, DescriptionFits;
    RunLists(ids, Boot(env), steps, MTDPARTS_MAXLEN / 2);
  }
}
