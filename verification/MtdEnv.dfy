/**
 The variables by which the partition commands keep their state in the environment: `partition`
 names the current partition, `mtddevnum` and `mtddevname` give its global number and its name, and
 `mtdparts` holds the table (cmd_jffs2.c).
 */
module MtdEnv {
  import opened Common
  import opened MtdText
  import opened MtdParse
  import opened MtdTable
  import opened EnvBytes

  const MTDPARTS_MAXLEN: nat := 512
  const PARTITION_MAXLEN: nat := 16

  const PARTS: string := "mtdparts"
  const PARTITION: string := "partition"
  const DEVNUM: string := "mtddevnum"
  const DEVNAME: string := "mtddevname"

  lemma NamesArePlain()
    ensures Plain(PARTS) && Plain(PARTITION) && Plain(DEVNUM) && Plain(DEVNAME)
    ensures PARTS != PARTITION && PARTS != DEVNUM && PARTS != DEVNAME
    ensures PARTITION != DEVNUM && PARTITION != DEVNAME && DEVNUM != DEVNAME
  {
    assert |PARTS| == 8 && |PARTITION| == 9 && |DEVNUM| == 9 && |DEVNAME| == 10 && PARTITION[0] == 'p' && DEVNUM[0] == 'm';
  }

  /** The table, the environment, and the copies of `mtdparts` and `partition` last seen. */
  datatype World = World(table: Table, env: Env, last: string, lastPartition: string)

  /** The names made up for partitions without a name of their own; also what is read where no
      partition is. */
  type Names = Table -> string

  // ---- part-ids ----

  /** A device id, "nor" or "nand" and a number, at the start of a text. */
  function ParseId(s: string): Option<(Key, string)> {
    var nand := |s| >= 4 && s[..4] == "nand";
    var nor := |s| >= 3 && s[..3] == "nor";
    if !nand && !nor then None
    else
      var rest := if nand then s[4..] else s[3..];
      if rest == "" || !IsDigit(rest[0]) then None
      else
        var (num, behind) := Strtoul(rest);
        Some((Key(!nand, num % 256), behind))
  }

  /** The device and the 8-bit partition number that a part-id names, if they exist. */
  function FindPart(devices: seq<Device>, s: string): (r: Option<(Key, nat)>)
    ensures r.Some? ==>
      var d := FindDevice(devices, r.value.0);
      d >= 0 && r.value.1 < devices[d].numParts && r.value.1 < 256
  {
    var id := ParseId(s);
    if id.None? || |id.value.1| < 2 || id.value.1[0] != ',' then None
    else
      var (num, rest) := Strtoul(id.value.1[1..]);
      var d := FindDevice(devices, id.value.0);
      if rest != "" || d < 0 || num % 256 >= devices[d].numParts then None
      else Some((id.value.0, num % 256))
  }

  /** The part-id of the current partition. */
  function PartitionText(key: Key, partnum: nat): string {
    (if key.nor then "nor" else "nand") + Decimal(key.num) + "," + Decimal(partnum)
  }

  lemma {:induction false} IdRead(key: Key, tail: string)
    requires key.num < 256 && NoDigit(tail) && (tail == "" || tail[0] != 'x')
    ensures ParseId((if key.nor then "nor" else "nand") + Decimal(key.num) + tail) == Some((key, tail))
  {
    var digits := Decimal(key.num);
    var rest := digits + tail;
    var s := (if key.nor then "nor" else "nand") + Decimal(key.num) + tail;
    StrtoulDecimal(key.num, tail);
    hide Strtoul, Decimal;
    if key.nor {
      BehindWord("nor", digits, tail);
      assert s[1] == 'o';
    } else {
      BehindWord("nand", digits, tail);
    }
  }

  lemma BehindWord(word: string, a: string, b: string)
    ensures var s := word + a + b; s[..|word|] == word && s[|word|..] == a + b
  {
  }

  /** A part-id that was stored is found again, as long as its partition exists. */
  lemma {:induction false} PartitionRead(devices: seq<Device>, key: Key, partnum: nat)
    requires key.num < 256 && partnum < 256
    requires FindDevice(devices, key) >= 0 && partnum < devices[FindDevice(devices, key)].numParts
    ensures FindPart(devices, PartitionText(key, partnum)) == Some((key, partnum))
  {
    hide Decimal, ParseId, Strtoul, FindDevice, PartitionText, FindPart;
    var tail := "," + Decimal(partnum);
    PartitionTextIs(key, partnum);
    IdRead(key, tail);
    StrtoulDecimal(partnum, "");
    WithEmpty(Decimal(partnum));
    FindPartIs(devices, PartitionText(key, partnum), key, partnum, tail);
  }

  lemma PartitionTextIs(key: Key, partnum: nat)
    ensures var tail := "," + Decimal(partnum);
      && PartitionText(key, partnum) == (if key.nor then "nor" else "nand") + Decimal(key.num) + tail
      && |tail| >= 2 && tail[0] == ',' && tail[1..] == Decimal(partnum) && NoDigit(tail) && NoDigit("")
  {
    hide Decimal;
  }

  lemma FindPartIs(devices: seq<Device>, s: string, key: Key, partnum: nat, tail: string)
    requires ParseId(s) == Some((key, tail)) && |tail| >= 2 && tail[0] == ',' && Strtoul(tail[1..]) == (partnum, "")
    requires partnum < 256 && FindDevice(devices, key) >= 0 && partnum < devices[FindDevice(devices, key)].numParts
    ensures FindPart(devices, s) == Some((key, partnum))
  {
    hide ParseId, Strtoul, FindDevice;
  }

  /** One of a partition that does not exist is not. */
  lemma {:induction false} NoSuchPartition(devices: seq<Device>, key: Key, num: nat)
    requires key.num < 256 && num < 256
    requires FindDevice(devices, key) < 0 || num >= devices[FindDevice(devices, key)].numParts
    ensures FindPart(devices, PartitionText(key, num)) == None
  {
    hide Decimal, ParseId, Strtoul, FindDevice;
    var tail := "," + Decimal(num);
    PartitionTextIs(key, num);
    IdRead(key, tail);
    assert tail[1..] == Decimal(num) && Decimal(num) + "" == Decimal(num);
    StrtoulDecimal(num, "");
  }

  // ---- storing the state ----

  /** The name of the current partition. */
  function CurrentName(names: Names, t: Table): string {
    if t.cur.None? then ""
    else
      var d := FindDevice(t.devices, t.cur.value);
      if d >= 0 && t.partnum < |t.devices[d].parts| && t.devices[d].parts[t.partnum].name.Some?
      then t.devices[d].parts[t.partnum].name.value
      else names(t)
  }

  /** Stores the global number, in 16 bits, and the name of the current partition. */
  function Reindex(names: Names, w: World): (r: World)
    ensures r == w.(env := r.env)
  {
    var t := w.table;
    if t.cur.None? then w.(env := Unset(Unset(w.env, DEVNUM), DEVNAME))
    else
      var num := GlobalIndex(t.devices, t.cur.value, t.partnum) % 0x1_0000;
      w.(env := Set(Set(w.env, DEVNUM, Decimal(num)), DEVNAME, CurrentName(names, t)))
  }

  function ReindexTimes(names: Names, w: World, n: nat): (r: World)
    ensures r == w.(env := r.env)
    decreases n
  {
    if n == 0 then w else ReindexTimes(names, Reindex(names, w), n - 1)
  }

  /** Stores the current partition, in the environment and in the copy. */
  function SaveCurrent(names: Names, w: World): (r: World)
    ensures r == w.(env := r.env, lastPartition := r.lastPartition)
  {
    if w.table.cur.None? then Reindex(names, w.(env := Unset(w.env, PARTITION), lastPartition := ""))
    else
      var text := PartitionText(w.table.cur.value, w.table.partnum);
      Reindex(names, w.(env := Set(w.env, PARTITION, text), lastPartition := text))
  }

  function Emptied(t: Table): Table {
    t.(devices := [], cur := None)
  }

  /** Forgets all devices and the copy of the table's text. */
  function DevicesInit(names: Names, w: World): (r: World)
    ensures r.table == Emptied(w.table) && r.last == "" && r.lastPartition == ""
    ensures r.env == Unset(Unset(Unset(w.env, PARTITION), DEVNUM), DEVNAME)
  {
    SaveCurrent(names, w.(table := w.table.(cur := None), last := "")).(table := Emptied(w.table))
  }

  /** The generated text, None if it is too long; the prefix is not counted. */
  function Generate(devices: seq<Device>): Option<string> {
    if |DevicesText(devices)| <= MTDPARTS_MAXLEN - 1 then Some(TableText(devices)) else None
  }

  /** Stores the generated text in the copy and in the variable; there is none if it is empty or too
      long. */
  function Save(w: World): (r: World)
    ensures r == w.(env := r.env, last := r.last)
    ensures r.last == "" || (w.table.devices != [] && r.last == TableText(w.table.devices))
  {
    var text := Generate(w.table.devices);
    if text.Some? && text.value != "" then w.(env := Set(w.env, PARTS, text.value), last := text.value)
    else w.(env := Unset(w.env, PARTS), last := "")
  }

  // ---- the environment stays in order ----

  lemma {:induction false} ReindexOk(names: Names, w: World)
    requires EnvOk(w.env)
    ensures EnvOk(Reindex(names, w).env)
  {
    hide EnvOk, Set, Unset, CurrentName, GlobalIndex;
    SetOk(w.env, DEVNUM, if w.table.cur.Some? then Decimal(GlobalIndex(w.table.devices, w.table.cur.value, w.table.partnum) % 0x1_0000) else "");
    UnsetOk(w.env, DEVNUM);
    if w.table.cur.Some? {
      var num := GlobalIndex(w.table.devices, w.table.cur.value, w.table.partnum) % 0x1_0000;
      SetOk(Set(w.env, DEVNUM, Decimal(num)), DEVNAME, CurrentName(names, w.table));
    } else {
      UnsetOk(Unset(w.env, DEVNUM), DEVNAME);
    }
  }

  lemma SetOk(e: Env, name: string, v: string)
    requires EnvOk(e)
    ensures EnvOk(Set(e, name, v))
  {
    PutOk(e, name, [v], true);
  }

  lemma UnsetOk(e: Env, name: string)
    requires EnvOk(e)
    ensures EnvOk(Unset(e, name))
  {
    PutOk(e, name, [], true);
  }

  lemma {:induction false} ReindexTimesOk(names: Names, w: World, n: nat)
    requires EnvOk(w.env)
    ensures EnvOk(ReindexTimes(names, w, n).env)
    decreases n
  {
    hide EnvOk, Reindex;
    if n > 0 {
      ReindexOk(names, w);
      ReindexTimesOk(names, Reindex(names, w), n - 1);
    }
  }

  lemma {:induction false} SaveCurrentOk(names: Names, w: World)
    requires EnvOk(w.env)
    ensures EnvOk(SaveCurrent(names, w).env)
  {
    hide EnvOk, Set, Unset, Reindex;
    if w.table.cur.None? {
      UnsetOk(w.env, PARTITION);
      ReindexOk(names, w.(env := Unset(w.env, PARTITION), lastPartition := ""));
    } else {
      var text := PartitionText(w.table.cur.value, w.table.partnum);
      SetOk(w.env, PARTITION, text);
      ReindexOk(names, w.(env := Set(w.env, PARTITION, text), lastPartition := text));
    }
  }

  lemma {:induction false} DevicesInitOk(names: Names, w: World)
    requires EnvOk(w.env)
    ensures EnvOk(DevicesInit(names, w).env)
  {
    hide EnvOk, SaveCurrent;
    SaveCurrentOk(names, w.(table := w.table.(cur := None), last := ""));
  }

  lemma {:induction false} SaveOk(w: World)
    requires EnvOk(w.env)
    ensures EnvOk(Save(w).env)
  {
    hide EnvOk, Set, Unset, Generate;
    var text := Generate(w.table.devices);
    UnsetOk(w.env, PARTS);
    if text.Some? { SetOk(w.env, PARTS, text.value); }
  }
}
