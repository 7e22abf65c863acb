/**
 What the parser accepts: every device is in order and fits its flash, and a text has no list of
 more partitions than half its characters.
 */
module MtdAccepted {
  import opened Common
  import opened MtdText
  import opened PartCheck
  import opened MtdParse
  import opened MtdReread
  import opened MtdTable

  lemma {:induction false} ParsedDeviceOk(ids: seq<Id>, devices: seq<Device>, s: string)
    requires ValidIds(ids) && ParseDevice(ids, devices, s).Some?
    ensures DeviceOk(ids, ParseDevice(ids, devices, s).value.0)
  {
    hide FitsDevice, ParsePart, Place, PartValidate;
    var k := IndexOf(s, ':');
    var id := FindByName(ids, s[..k]).value;
    var parts := ParseParts(id, s[k + 1..], StartOffset(devices, KeyOf(id))).value.0;
    SortAllOrdered(parts);
    var q := SortAll(parts).value;
    forall i | 0 <= i < |q| ensures FitsDevice(id, q[i]) { assert q[i] in q; }
  }

  lemma {:induction false} ParsedTableOk(ids: seq<Id>, done: seq<Device>, s: string)
    requires TableOk(ids, done) && ParseDevices(ids, done, s).Some?
    ensures TableOk(ids, ParseDevices(ids, done, s).value)
    decreases |s|
  {
    hide DeviceOk, ParseDevice;
    if s != "" {
      var d := ParseDevice(ids, done, s).value;
      ParsedDeviceOk(ids, done, s);
      ParsedTableOk(ids, done + [d.0], d.1);
    }
  }

  /** No list has more than n partitions. */
  ghost predicate ShortLists(devices: seq<Device>, n: nat) {
    forall i :: 0 <= i < |devices| ==> |devices[i].parts| <= n
  }

  // ---- a text of 2n characters has no list of more than n partitions ----

  lemma {:induction false} ManyDigits(s: string, base: nat)
    requires base <= 16 && ReadDigits(s, base, 0).0 >= MIN_PART_SIZE
    ensures |ReadDigits(s, base, 0).1| + 2 <= |s|
  {
    FirstDigit(s, base);
    var d := DigitValue(s[0]);
    hide ReadDigits;
    var rest := ReadDigits(s[1..], base, d);
  }

  lemma FirstDigit(s: string, base: nat)
    requires base <= 16 && ReadDigits(s, base, 0).0 > 0
    ensures s != "" && IsXDigit(s[0]) && ReadDigits(s, base, 0) == ReadDigits(s[1..], base, DigitValue(s[0]))
  {
    hide Accumulate;
    if s != "" && IsXDigit(s[0]) { AccumulateFirst(base, DigitValue(s[0])); }
  }

  lemma {:induction false} LargeSizeTakesRoom(s: string)
    requires MemsizeParse(s).0 >= MIN_PART_SIZE
    ensures |MemsizeParse(s).1| + 2 <= |s|
  {
    var (v, rest) := Strtoul(s);
    if v >= MIN_PART_SIZE {
      if StartsWith(s, '0') {
        if |s| >= 3 && s[1] == 'x' && IsXDigit(s[2]) { } else { ManyDigits(s[1..], 8); }
      } else {
        ManyDigits(s, 10);
      }
    }
  }

  /** A partition takes two characters, or it is the last one. */
  lemma {:induction false} PartTakesRoom(s: string)
    requires ParsePart(s).Some?
    ensures var rest := ParsePart(s).value.1; |rest| + 2 <= |s| || rest == "" || rest[0] == ';'
  {
    hide MemsizeParse;
    if !StartsWith(s, '-') { LargeSizeTakesRoom(s); }
  }

  lemma {:induction false} ListTakesRoom(id: Id, s: string, offset: nat)
    requires id.Valid() && offset < U32 && ParseParts(id, s, offset).Some?
    ensures 2 * |ParseParts(id, s, offset).value.0| <= |s| + 1
    decreases |s|
  {
    hide ParsePart, Place, PartValidate;
    if s != "" && s[0] != ';' {
      var p := ParsePart(s);
      PartTakesRoom(s);
      var part := Place(id, p.value.0, offset).value;
      ListTakesRoom(id, p.value.1, part.offset + part.size);
    }
  }

  lemma {:induction false} ReadListsAreShort(ids: seq<Id>, done: seq<Device>, s: string, n: nat)
    requires ValidIds(ids) && ParseDevices(ids, done, s).Some? && ShortLists(done, n) && |s| < 2 * n
    ensures ShortLists(ParseDevices(ids, done, s).value, n)
    decreases |s|
  {
    hide ParseDevice, ParseParts;
    if s != "" {
      var d := ParseDevice(ids, done, s).value;
      DeviceIsShort(ids, done, s, n);
      ReadListsAreShort(ids, done + [d.0], d.1, n);
    }
  }

  lemma {:induction false} DeviceIsShort(ids: seq<Id>, done: seq<Device>, s: string, n: nat)
    requires ValidIds(ids) && ParseDevice(ids, done, s).Some? && |s| < 2 * n
    ensures |ParseDevice(ids, done, s).value.0.parts| <= n
  {
    hide ParseParts;
    var k := IndexOf(s, ':');
    var id := FindByName(ids, s[..k]).value;
    ListTakesRoom(id, s[k + 1..], StartOffset(done, KeyOf(id)));
  }

  lemma EmptyOk(ids: seq<Id>)
    requires ValidIds(ids)
    ensures TableOk(ids, [])
  {
  }
}
