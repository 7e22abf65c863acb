/**
 Two texts that are read without complaint and yield tables whose own text does not give them back.
 */
module MtdExamples {
  import opened Common
  import opened MtdText
  import opened PartCheck
  import opened MtdParse
  import opened MtdRoundTrip
  import opened MtdReread
  import opened MtdAccepted

  /** A NAND device with the name "d". */
  function NandDevice(size: nat, eraseSize: nat): Id {
    Id(0, size, "d", Nand(eraseSize))
  }

  lemma NamedIsFound(id: Id, d: Device)
    requires id.name == "d" && id.num < 256 && id.Valid() && d.id == id
    ensures ValidIds([id]) && Findable([id], d)
  {
    assert [id][0] == id;
  }

  lemma SmallDecimals()
    ensures Decimal(1) == "1" && Decimal(4) == "4" && Decimal(8) == "8"
  {
  }

  lemma SmallSizes()
    ensures MemsizeFormat(1024) == "1k" && MemsizeFormat(4096) == "4k"
  {
    SmallDecimals();
  }

  lemma {:induction false} TwoPartsText(id: Id, p: Part, q: Part)
    ensures TableText([Device(id, [p, q], 2)]) ==
      PREFIX + (id.name + ":" + (PartText(p, 0) + "," + PartText(q, (p.offset + p.size) % U32)))
  {
    hide PartText;
    var d := Device(id, [p, q], 2);
    assert [p, q][1..] == [q] && [q][1..] == [] && [d][1..] == [];
    assert PartsText([q], (p.offset + p.size) % U32) == PartText(q, (p.offset + p.size) % U32);
    assert PartsText([p, q], 0) == PartText(p, 0) + "," + PartText(q, (p.offset + p.size) % U32);
    assert DevicesText([d]) == id.name + ":" + PartsText([p, q], 0);
  }

  lemma {:induction false} AtFour(name: string)
    ensures var p := Part(4096, 4096, Some(name), false);
      PartText(p, 0) == PartText(p, 8192) == "4k@4k(" + name + ")"
  {
    SmallSizes();
    hide MemsizeFormat;
  }

  /** The partition of one erase block at offset 4096 with a name. */
  function OneBlock(name: string): Part {
    Part(4096, 4096, Some(name), false)
  }

  lemma {:induction false} PairIsRegenerable(id: Id, p: Part, q: Part)
    requires id.name == "d" && id.num < 256 && id.Valid() && FitsDevice(id, p) && FitsDevice(id, q)
    requires p.size >= MIN_PART_SIZE && q.size >= MIN_PART_SIZE
    ensures Regenerable([id], [Device(id, [p, q], 2)])
  {
    hide FitsDevice, Findable;
    NamedIsFound(id, Device(id, [p, q], 2));
    assert forall i :: 0 <= i < 2 ==> [p, q][i] == p || [p, q][i] == q;
  }

  lemma BlockFits(name: string)
    requires name != "" && ')' !in name
    ensures NandDevice(0x10_0000, 4096).Valid() && FitsDevice(NandDevice(0x10_0000, 4096), OneBlock(name))
  {
  }

  lemma {:induction false} SortedPair(p: Part, q: Part)
    requires p.offset == q.offset > 0
    ensures SortAll([p, q]) == Some([q, p])
  {
    assert [p, q][..1] == [p] && [p][..0] == [];
    assert SortAll([p]) == Some([p]);
    assert [q] + [p] == [q, p];
  }

  lemma ResortedPair(id: Id, p: Part, q: Part)
    requires p.offset == q.offset > 0
    ensures AllResorted([Device(id, [p, q], 2)]) == Some([Device(id, [q, p], 2)])
  {
    hide SortAll;
    SortedPair(p, q);
    var d, r := Device(id, [p, q], 2), Device(id, [q, p], 2);
    assert |[q, p]| == 2 && Resorted(d) == Some(r);
    assert [d][1..] == [] && AllResorted([d][1..]) == Some([]);
    assert [r] + [] == [r];
  }

  lemma PairText(x: string, y: string)
    ensures TableText([Device(NandDevice(0x10_0000, 4096), [OneBlock(x), OneBlock(y)], 2)]) ==
      PREFIX + ("d:" + ("4k@4k(" + x + ")" + "," + ("4k@4k(" + y + ")")))
  {
    hide PartText, TableText;
    AtFour(x);
    AtFour(y);
    TwoPartsText(NandDevice(0x10_0000, 4096), OneBlock(x), OneBlock(y));
  }

  lemma Spelled(x: string, y: string)
    ensures PREFIX + ("d:" + ("4k@4k(" + x + ")" + "," + ("4k@4k(" + y + ")"))) ==
      "mtdparts=d:4k@4k(" + x + "),4k@4k(" + y + ")"
    ensures "mtdparts=d:4k@4k(" + "a" + "),4k@4k(" + "b" + ")" == "mtdparts=d:4k@4k(a),4k@4k(b)"
    ensures "mtdparts=d:4k@4k(" + "b" + "),4k@4k(" + "a" + ")" == "mtdparts=d:4k@4k(b),4k@4k(a)"
  {
  }

  /** Two partitions at one offset come back in the other order. */
  lemma {:induction false} PairRead(x: string, y: string)
    requires x != "" && ')' !in x && y != "" && ')' !in y
    ensures var id, p, q := NandDevice(0x10_0000, 4096), OneBlock(x), OneBlock(y);
      && ValidIds([id])
      && ParseTable([id], TableText([Device(id, [p, q], 2)])) == Some([Device(id, [q, p], 2)])
  {
    var id, p, q := NandDevice(0x10_0000, 4096), OneBlock(x), OneBlock(y);
    BlockFits(x);
    BlockFits(y);
    NamedIsFound(id, Device(id, [p, q], 2));
    hide FitsDevice, Regenerable, TableText, ParseTable, AllResorted, ValidIds;
    PairIsRegenerable(id, p, q);
    TableRead([id], [Device(id, [p, q], 2)]);
    ResortedPair(id, p, q);
  }

  /** Two different partitions at one offset: what is read is written in the other order, and that is
      read in the first order again. */
  lemma {:induction false} MirroredText()
    ensures var id := NandDevice(0x10_0000, 4096);
      && ValidIds([id])
      && ParseTable([id], "mtdparts=d:4k@4k(a),4k@4k(b)") == Some([Device(id, [OneBlock("b"), OneBlock("a")], 2)])
      && TableText([Device(id, [OneBlock("b"), OneBlock("a")], 2)]) == "mtdparts=d:4k@4k(b),4k@4k(a)"
      && ParseTable([id], "mtdparts=d:4k@4k(b),4k@4k(a)") == Some([Device(id, [OneBlock("a"), OneBlock("b")], 2)])
  {
    hide *;
    Spelled("a", "b");
    Spelled("b", "a");
    PairText("a", "b");
    PairText("b", "a");
    PairRead("a", "b");
    PairRead("b", "a");
  }

  // ---- a partition made small by taking what is left ----

  const REST: Part := Part(1024, 4096, None, false)
  const FIRST: Part := Part(4096, 0, None, false)

  lemma {:induction false} RestRead(id: Id)
    requires id == NandDevice(5120, 1024)
    ensures id.Valid() && ParseParts(id, "-", 4096) == Some(([REST], ""))
  {
    var raw := Part(SIZE_REMAINING, OFFSET_NOT_SPECIFIED, None, false);
    assert "-"[1..] == "";
    assert ParsePart("-") == Some((raw, ""));
    assert Place(id, raw, 4096) == Some(REST);
    ParsePartsStep(id, "-", 4096, raw, "", REST);
    assert [REST] + [] == [REST];
  }

  lemma FirstText()
    ensures PartText(FIRST, 0) == "4k" && PartText(FIRST, 0) + ",-" == "4k,-" && ",-"[1..] == "-"
  {
    SmallSizes();
    hide MemsizeFormat;
  }

  lemma {:induction false} FirstRead(id: Id)
    requires id == NandDevice(5120, 1024)
    ensures id.Valid() && ParseParts(id, "4k,-", 0) == Some(([FIRST, REST], ""))
  {
    FirstText();
    hide ParseParts, PartText, ParsePart, Place;
    PartRead(FIRST, 0, ",-");
    PlaceWritten(id, FIRST, 0);
    RestRead(id);
    ParsePartsStep(id, "4k,-", 0, Written(FIRST, 0), "-", FIRST);
    assert [FIRST] + [REST] == [FIRST, REST];
  }

  lemma {:induction false} SortedFirst()
    ensures SortAll([FIRST, REST]) == Some([FIRST, REST])
  {
    assert [FIRST, REST][..1] == [FIRST] && [FIRST][..0] == [] && [FIRST][1..] == [];
    assert SortAll([FIRST]) == Some([FIRST]);
    assert [FIRST] + [REST] == [FIRST, REST];
  }

  lemma {:induction false} SmallDeviceText(id: Id)
    requires id == NandDevice(5120, 1024)
    ensures ValidIds([id]) && ParseDevice([id], [], "d:4k,-") == Some((Device(id, [FIRST, REST], 2), ""))
  {
    NamedIsFound(id, Device(id, [FIRST, REST], 2));
    FirstRead(id);
    SortedFirst();
    hide SortAll, ParseParts, IndexOf, FindByName;
    BehindColon();
  }

  lemma BehindColon()
    ensures var s := "d:4k,-"; IndexOf(s, ':') == 1 && s[..1] == "d" && s[2..] == "4k,-"
  {
    assert "d:4k,-" == "d" + [':'] + "4k,-";
    IndexOfFirst("d", ':', "4k,-");
  }

  lemma {:induction false} SmallTableIsRead(id: Id)
    requires id == NandDevice(5120, 1024)
    ensures ValidIds([id]) && ParseTable([id], "mtdparts=d:4k,-") == Some([Device(id, [FIRST, REST], 2)])
    ensures TableOk([id], [Device(id, [FIRST, REST], 2)])
  {
    SmallDeviceText(id);
    hide *;
    EmptyOk([id]);
    OneDeviceText([id], "d:4k,-", Device(id, [FIRST, REST], 2));
    BehindPrefix();
    ParsedTableOk([id], [], "d:4k,-");
  }

  lemma {:induction false} OneDeviceText(ids: seq<Id>, s: string, d: Device)
    requires ValidIds(ids) && s != "" && ParseDevice(ids, [], s) == Some((d, ""))
    ensures ParseDevices(ids, [], s) == Some([d]) == ParseTable(ids, PREFIX + s)
  {
    hide ParseDevice, ValidIds;
    assert ParseDevices(ids, [], s) == ParseDevices(ids, [] + [d], "");
    assert [] + [d] == [d];
    assert (PREFIX + s)[..9] == PREFIX && (PREFIX + s)[9..] == s;
  }

  lemma BehindPrefix()
    ensures PREFIX + "d:4k,-" == "mtdparts=d:4k,-" && "d:4k,-" != ""
  {
  }

  lemma RestText()
    ensures PartText(REST, 4096) == "1k"
  {
    SmallSizes();
    hide MemsizeFormat;
  }

  lemma SmallTableText(id: Id)
    requires id == NandDevice(5120, 1024)
    ensures TableText([Device(id, [FIRST, REST], 2)]) == "mtdparts=d:4k,1k"
  {
    FirstText();
    RestText();
    hide PartText, TableText;
    TwoPartsText(id, FIRST, REST);
  }

  /** A `-` that stands for less than the minimum size: the text is read, but that of the table is not. */
  lemma {:induction false} SmallRestText()
    ensures var id := NandDevice(5120, 1024);
      && ValidIds([id])
      && ParseTable([id], "mtdparts=d:4k,-") == Some([Device(id, [FIRST, REST], 2)])
      && TableText([Device(id, [FIRST, REST], 2)]) == "mtdparts=d:4k,1k"
      && ParseTable([id], "mtdparts=d:4k,1k") == None
  {
    var id, d := NandDevice(5120, 1024), Device(NandDevice(5120, 1024), [FIRST, REST], 2);
    assert d.parts[1].size < MIN_PART_SIZE && [d][0] == d;
    assert !AllLargeEnough([d]);
    SmallTableIsRead(id);
    SmallTableText(id);
    hide ParseTable, TableText, TableOk, AllLargeEnough, ValidIds, Symmetric;
    RereadExactly([id], [d]);
  }
}
