/**
 What the next command makes of variables that were changed by hand: the text, and the part-id of the
 current partition (mtdparts_init in cmd_jffs2.c).
 */
module MtdByHand {
  import opened Common
  import opened PartCheck
  import opened MtdParse
  import opened EnvBytes
  import opened MtdEnv
  import opened MtdCopy
  import opened MtdRun
  import opened MtdStale

  /** Without the text the devices are forgotten, and what named the current partition; unless there
      were none. */
  lemma {:induction false} TextDeleted(ids: seq<Id>, names: Names, w: World)
    requires ValidIds(ids) && EnvOk(w.env) && Get(w.env, PARTS) == None
    ensures var (ok, r) := Sync(ids, names, w);
      && ok
      && (if w.last == "" then r == w
          else
            && r.table.devices == [] && r.table.cur == None && r.last == ""
            && Get(r.env, PARTITION) == None && Get(r.env, DEVNUM) == None && Get(r.env, DEVNAME) == None)
  {
    ForgottenUndefined(w.env);
    hide EnvOk, Get, Unset;
  }

  lemma {:induction false} ForgottenUndefined(e: Env)
    requires EnvOk(e)
    ensures var r := Unset(Unset(Unset(e, PARTITION), DEVNUM), DEVNAME);
      Get(r, PARTITION) == None && Get(r, DEVNUM) == None && Get(r, DEVNAME) == None
  {
    NamesArePlain();
    hide *;
    var b := Unset(e, PARTITION);
    var c := Unset(b, DEVNUM);
    Undefines(e, PARTITION, DEVNUM);
    Undefines(b, DEVNUM, PARTITION);
    Undefines(c, DEVNAME, PARTITION);
    Undefines(c, DEVNAME, DEVNUM);
  }

  /** A text of 512 characters or more makes the command fail, with everything as it was. */
  lemma TooLongFails(ids: seq<Id>, names: Names, w: World, text: string)
    requires ValidIds(ids) && Get(w.env, PARTS) == Some(text) && |text| >= 512
    ensures Sync(ids, names, w) == (false, w)
  {
    hide Get, ParseTable, Restore, Reread;
  }

  /** A new text that cannot be read, or holds no device, makes the command fail and the devices be
      forgotten. */
  lemma {:induction false} UnreadableFails(ids: seq<Id>, names: Names, w: World, text: string)
    requires ValidIds(ids) && Get(w.env, PARTS) == Some(text) && |text| < 512 && (w.last == "" || text != w.last)
    requires ParseTable(ids, text) == None || ParseTable(ids, text) == Some([])
    ensures var (ok, r) := Sync(ids, names, w); !ok && r.table.devices == [] && r.table.cur == None && r.last == ""
  {
    hide Get, ParseTable, Restore, Reread;
  }

  /** A new text that can be read replaces the devices. */
  lemma {:induction false} NewTextIsRead(ids: seq<Id>, names: Names, w: World, text: string, devices: seq<Device>)
    requires ValidIds(ids) && Get(w.env, PARTS) == Some(text) && |text| < 512 && (w.last == "" || text != w.last)
    requires ParseTable(ids, text) == Some(devices) && devices != []
    ensures var (ok, r) := Sync(ids, names, w); ok && r.table.devices == devices && r.last == CopyOf(w.env)
  {
    hide Get, ParseTable, Restore, Reread, CopyOf;
  }

  /** The text last seen is not read again: the devices stay, and a part-id that was changed by hand
      becomes current if it names a partition. */
  lemma {:induction false} PartitionByHand(ids: seq<Id>, names: Names, w: World, key: Key, num: nat)
    requires ValidIds(ids) && w.last != "" && Get(w.env, PARTS) == Some(w.last) && |w.last| < 512
    requires key.num < 256 && num < 256 && Get(w.env, PARTITION) == Some(PartitionText(key, num))
    requires w.lastPartition != PartitionText(key, num)
    ensures var (ok, r) := Sync(ids, names, w);
      var k := FindDevice(w.table.devices, key);
      && ok && r.last == w.last
      && r.table == (if k >= 0 && num < w.table.devices[k].numParts then w.table.(cur := Some(key), partnum := num) else w.table)
  {
    PartitionFits(key, num);
    var k := FindDevice(w.table.devices, key);
    if k >= 0 && num < w.table.devices[k].numParts {
      PartitionRead(w.table.devices, key, num);
    } else {
      NoSuchPartition(w.table.devices, key, num);
    }
    hide Get, ParseTable, Reread, FindPart, PartitionText, SaveCurrent, FindDevice;
  }

  /** If it was deleted, the table is as it was, and it is stored again. */
  lemma {:induction false} PartitionDeleted(ids: seq<Id>, names: Names, w: World)
    requires ValidIds(ids) && w.last != "" && Get(w.env, PARTS) == Some(w.last) && |w.last| < 512
    requires Get(w.env, PARTITION) == None
    ensures Sync(ids, names, w) == (true, SaveCurrent(names, w))
  {
    hide Get, ParseTable, Reread, FindPart, SaveCurrent;
  }
}
