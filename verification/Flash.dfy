/**
 Selecting and erasing flash sectors (cmd_flash.c) and the partition check that makes a NOR
 partition erasable (cmd_jffs2.c).
 */
module Flash {
  import opened Common
  import opened FlashSpec
  import opened FlashRanges
  import opened FlashExact
  import opened PartCheck

  function Prepend(done: seq<Selection>, r: Option<seq<Selection>>): Option<seq<Selection>> {
    if r.None? then None else Some(done + r.value)
  }

  lemma {:induction false} FillUnfold(banks: seq<Bank>, k: nat, f: nat, l: nat, done: seq<Selection>)
    requires AllValid(banks) && k < |banks|
    ensures var step := StepAt(banks[k], f, l);
      Prepend(done, Fill(banks[k..], f, l)) ==
        if step.Bad? then None else Prepend(done + [Chosen(step)], Fill(banks[k + 1..], Remaining(step, f), l))
  {
    var tail := banks[k..];
    assert tail[0] == banks[k] && tail[1..] == banks[k + 1..];
    var step := StepAt(banks[k], f, l);
    if !step.Bad? {
      var r := Fill(banks[k + 1..], Remaining(step, f), l);
      if r.Some? { assert done + ([Chosen(step)] + r.value) == done + [Chosen(step)] + r.value; }
    }
  }

  lemma {:induction false} CountAppend(a: seq<Selection>, s: Selection)
    ensures Count(a + [s]) == Count(a) + (if s.Sectors? then s.last - s.first + 1 else 0)
  {
    if a != [] {
      CountAppend(a[1..], s);
      assert (a + [s])[1..] == a[1..] + [s];
    }
  }

  /** Looks through the sectors of a bank for one that starts at f and one that ends at l. */
  method ScanBank(b: Bank, f: nat, l: nat) returns (first: int, last: int)
    requires b.Valid() && b.known && f <= l
    ensures first == b.Starting(f) && last == b.Ending(l)
  {
    first, last := -1, -1;
    b.SectorEndsAscend();
    for sect := 0 to |b.start|
      invariant -1 <= first < sect && -1 <= last < sect
      invariant if first >= 0 then b.start[first] == f else forall i :: 0 <= i < sect ==> b.start[i] != f
      invariant if last >= 0 then b.SectorEnd(last) == l else forall i :: 0 <= i < sect ==> b.SectorEnd(i) != l
    {
      var end := b.SectorEnd(sect);
      if !(f > end) && !(l < b.start[sect]) {
        if f == b.start[sect] {
          first := sect;
        }
        if l == end {
          last := sect;
        }
      }
    }
  }

  /** The part of the range that one bank covers; `next` is the address behind it. */
  method CoverFromBank(b: Bank, f: nat, l: nat) returns (rcode: int, first: int, last: int, next: nat)
    requires b.Valid() && b.known && f <= l
    ensures var step := BankStep(b, f, l);
      && (rcode == 0 <==> !step.Bad?)
      && (step.Take? ==> (first, last, next) == (step.first, step.last, step.next))
      && (step.Skip? ==> (first, last, next) == (-1, -1, f))
  {
    rcode, next := 0, f;
    first, last := ScanBank(b, f, l);
    if first >= 0 {
      if last < 0 {
        if l > b.End() {
          last := |b.start| - 1;
        } else {
          return 1, first, last, next;
        }
      }
      if last < first {
        return 1, first, last, next;
      }
      next := if last == |b.start| - 1 then (b.End() + 1) % ADDRESSES else b.start[last + 1];
    } else if b.start[0] <= f < b.End() {
      rcode := 1;
    } else if last >= 0 {
      rcode := 1;
    }
  }

  /** What the first k banks have contributed, and what is left for the others. */
  ghost predicate Progress(banks: seq<Bank>, first: nat, last: nat, k: nat, f: nat, done: seq<Selection>, count: int)
    requires AllValid(banks)
  {
    && |done| == k <= |banks| && count == Count(done)
    && Fill(banks, first, last) == Prepend(done, Fill(banks[k..], f, last))
  }

  lemma UnknownBank(b: Bank, f: nat, l: nat)
    requires b.Valid()
    ensures !b.known ==> BankStep(b, f, l) == Skip
    ensures var step := BankStep(b, f, l); step.Take? ==> step.first >= 0
  {
  }

  lemma ProgressStart(banks: seq<Bank>, first: nat, last: nat)
    requires AllValid(banks)
    ensures Progress(banks, first, last, 0, first, [], 0)
  {
    PrependNothing(Fill(banks, first, last));
    assert banks[0..] == banks;
  }

  lemma {:induction false} ProgressStep(banks: seq<Bank>, first: nat, last: nat, k: nat, f: nat, done: seq<Selection>, count: int)
    requires AllValid(banks) && k < |banks| && Progress(banks, first, last, k, f, done, count) && f <= last
    ensures var step := BankStep(banks[k], f, last);
      if step.Bad? then Fill(banks, first, last) == None
      else Progress(banks, first, last, k + 1, Remaining(step, f), done + [Chosen(step)],
                    count + if step.Take? then step.last - step.first + 1 else 0)
  {
    FillUnfold(banks, k, f, last, done);
    CountAppend(done, Chosen(BankStep(banks[k], f, last)));
  }

  lemma {:induction false} ProgressEnd(banks: seq<Bank>, first: nat, last: nat, k: nat, f: nat, done: seq<Selection>, count: int)
    requires AllValid(banks) && Progress(banks, first, last, k, f, done, count) && (k == |banks| || f > last)
    ensures Fill(banks, first, last).Some?
    ensures count == Count(Fill(banks, first, last).value)
    ensures forall sFirst, sLast :: |sFirst| == |banks| && Recorded(sFirst, sLast, done) ==>
      Recorded(sFirst, sLast, Fill(banks, first, last).value)
  {
    UsedUp(banks[k..], f, last);
    CountConcat(done, Fill(banks[k..], f, last).value);
  }

  method ClearRanges(sFirst: array<int>, sLast: array<int>)
    requires sFirst.Length == sLast.Length && sFirst != sLast
    modifies sFirst, sLast
    ensures Recorded(sFirst[..], sLast[..], [])
  {
    for k := 0 to sFirst.Length
      invariant forall i :: 0 <= i < k ==> sFirst[i] == -1 && sLast[i] == -1
    {
      sFirst[k] := -1;
      sLast[k] := -1;
    }
  }

  /** Translates the range addrFirst..addrLast into a range of sectors per bank. */
  method FillSectRanges(banks: seq<Bank>, addrFirst: nat, addrLast: nat, sFirst: array<int>, sLast: array<int>)
    returns (rcode: int, sCount: int)
    requires AllValid(banks) && sFirst.Length == sLast.Length == |banks| && sFirst != sLast
    modifies sFirst, sLast
    ensures rcode == 0 <==> Fill(banks, addrFirst, addrLast).Some?
    ensures rcode == 0 ==>
      var sels := Fill(banks, addrFirst, addrLast).value;
      sCount == Count(sels) && Recorded(sFirst[..], sLast[..], sels)
  {
    hide Progress, Fill, BankStep, Count;
    rcode, sCount := 0, 0;
    ClearRanges(sFirst, sLast);
    var f: nat, bank := addrFirst, 0;
    ghost var done := [];
    ProgressStart(banks, addrFirst, addrLast);
    while bank < |banks| && f <= addrLast
      invariant 0 <= bank <= |banks| && Progress(banks, addrFirst, addrLast, bank, f, done, sCount)
      invariant |done| == bank && Recorded(sFirst[..], sLast[..], done)
    {
      UnknownBank(banks[bank], f, addrLast);
      ghost var step := BankStep(banks[bank], f, addrLast);
      ProgressStep(banks, addrFirst, addrLast, bank, f, done, sCount);
      if banks[bank].known {
        var first, last, next;
        rcode, first, last, next := CoverFromBank(banks[bank], f, addrLast);
        if rcode != 0 {
          return;
        }
        sFirst[bank], sLast[bank] := first, last;
        if first >= 0 {
          f := next;
          sCount := sCount + (last - first + 1);
        }
      }
      RecordedStep(sFirst[..], sLast[..], done, Chosen(step));
      done := done + [Chosen(step)];
      bank := bank + 1;
    }
    ProgressEnd(banks, addrFirst, addrLast, bank, f, done, sCount);
  }

  lemma PrependNothing(r: Option<seq<Selection>>)
    ensures Prepend([], r) == r
  {
    if r.Some? { assert [] + r.value == r.value; }
  }

  lemma {:induction false} CountConcat(a: seq<Selection>, b: seq<Selection>)
    ensures Count(a + b) == Count(a) + Count(b)
  {
    if a == [] {
      assert a + b == b;
    } else {
      CountConcat(a[1..], b);
      assert (a + b)[1..] == a[1..] + b;
    }
  }

  /** Once the range is used up no bank contributes any more. */
  lemma {:induction false} UsedUp(banks: seq<Bank>, f: nat, l: nat)
    requires AllValid(banks) && (banks == [] || f > l)
    ensures Fill(banks, f, l).Some? && Count(Fill(banks, f, l).value) == 0
    ensures forall k :: 0 <= k < |banks| ==> Fill(banks, f, l).value[k] == Nothing
    decreases |banks|
  {
    if banks != [] { UsedUp(banks[1..], f, l); }
  }

  /** The arrays record the selections made so far and -1 for the banks still to come. */
  ghost predicate Recorded(sFirst: seq<int>, sLast: seq<int>, done: seq<Selection>) {
    && |sFirst| == |sLast| >= |done|
    && forall k :: 0 <= k < |sFirst| ==>
         sFirst[k] == (if k < |done| && done[k].Sectors? then done[k].first else -1) &&
         sLast[k] == (if k < |done| && done[k].Sectors? then done[k].last else -1)
  }

  lemma RecordedStep(sFirst: seq<int>, sLast: seq<int>, done: seq<Selection>, s: Selection)
    requires |done| < |sFirst| == |sLast|
    requires sFirst[|done|] == (if s.Sectors? then s.first else -1) && sLast[|done|] == (if s.Sectors? then s.last else -1)
    requires forall k :: 0 <= k < |sFirst| && k != |done| ==>
         sFirst[k] == (if k < |done| && done[k].Sectors? then done[k].first else -1) &&
         sLast[k] == (if k < |done| && done[k].Sectors? then done[k].last else -1)
    ensures Recorded(sFirst, sLast, done + [s])
  {
  }

  // ---- erasing ----

  /** Address `a` lies in the sectors selected in one of the first k banks. */
  ghost predicate SelectedBelow(banks: seq<Bank>, sels: seq<Selection>, k: nat, a: nat)
    requires Fits(banks, sels) && k <= |banks|
  {
    exists i :: 0 <= i < k && InSectors(banks[i], sels[i], a)
  }

  lemma {:induction false} SelectedMeansExists(banks: seq<Bank>, sels: seq<Selection>, a: nat)
    requires Fits(banks, sels)
    ensures Selected(banks, sels, a) <==> SelectedBelow(banks, sels, |banks|, a)
    decreases |banks|
  {
    if banks != [] {
      var b, s := banks[1..], sels[1..];
      SelectedMeansExists(b, s, a);
      assert forall i :: 0 <= i < |b| ==> b[i] == banks[i + 1] && s[i] == sels[i + 1];
      if SelectedBelow(b, s, |b|, a) {
        var i :| 0 <= i < |b| && InSectors(b[i], s[i], a);
        assert InSectors(banks[i + 1], sels[i + 1], a);
      }
    }
  }

  /** The selection takes sector i of bank k. */
  predicate HasSector(sels: seq<Selection>, k: nat, i: nat) {
    k < |sels| && sels[k].Sectors? && sels[k].first <= i <= sels[k].last
  }

  const ERASED: nat := 0xFF

  /** The flash chips and their contents. */
  class FlashMemory {
    const banks: seq<Bank>
    var mem: map<nat, nat>
    /** The protected sectors, by bank and sector number. */
    var locked: set<(nat, nat)>

    ghost predicate Valid()
      reads this
    {
      AllValid(banks) && forall a :: a in mem ==> a < ADDRESSES
    }

    constructor (banks: seq<Bank>, mem: map<nat, nat>)
      requires AllValid(banks) && forall a :: a in mem ==> a < ADDRESSES
      ensures Valid() && this.banks == banks && this.mem == mem && locked == {}
    {
      this.banks, this.mem, locked := banks, mem, {};
    }

    /** Erases the sectors first..last of a bank. */
    method FlashErase(bank: nat, first: nat, last: nat)
      requires Valid() && bank < |banks| && banks[bank].known && first <= last < |banks[bank].start|
      modifies this`mem
      ensures Valid() && mem.Keys == old(mem).Keys
      ensures forall a :: a in mem ==>
        mem[a] == if InSectors(banks[bank], Sectors(first, last), a) then ERASED else old(mem)[a]
    {
      mem := map a | a in mem :: if InSectors(banks[bank], Sectors(first, last), a) then ERASED else mem[a];
    }

    /** Erases the sectors of the range; without a boundary error, and with something to erase,
        exactly the bytes of the selected sectors are erased, else none. */
    method SectErase(addrFirst: nat, addrLast: nat) returns (rcode: int, erased: int)
      requires Valid()
      modifies this`mem
      ensures Valid() && mem.Keys == old(mem).Keys
      ensures rcode == 0 <==> Plans(banks, addrFirst, addrLast)
      ensures rcode == 0 ==>
        var sels := Fill(banks, addrFirst, addrLast).value;
        && erased == Count(sels)
        && forall a :: a in mem ==> mem[a] == if Selected(banks, sels, a) then ERASED else old(mem)[a]
      ensures rcode != 0 ==> mem == old(mem)
    {
      var sFirst, sLast := new int[|banks|], new int[|banks|];
      var planned;
      rcode, planned := FillSectRanges(banks, addrFirst, addrLast, sFirst, sLast);
      erased := 0;
      if rcode == 0 {
        CountNonNegative(banks, addrFirst, addrLast);
      }
      if planned != 0 && rcode == 0 {
        ghost var sels := Fill(banks, addrFirst, addrLast).value;
        erased := EraseRanges(sFirst, sLast, sels);
        forall a | a in mem ensures mem[a] == if Selected(banks, sels, a) then ERASED else old(mem)[a] {
          SelectedMeansExists(banks, sels, a);
        }
      } else if rcode == 0 {
        rcode := 1;
      }
    }

    /** Protects the sectors of the range, or makes them writable: without a boundary error, and with
        something to do, exactly the selected sectors change, else none. */
    method SectProtect(p: bool, addrFirst: nat, addrLast: nat) returns (rcode: int)
      requires Valid()
      modifies this`locked
      ensures rcode == 0 <==> Plans(banks, addrFirst, addrLast)
      ensures rcode == 0 ==>
        var sels := Fill(banks, addrFirst, addrLast).value;
        forall k: nat, i: nat :: (k, i) in locked <==> if HasSector(sels, k, i) then p else (k, i) in old(locked)
      ensures rcode != 0 ==> locked == old(locked)
    {
      hide Fill;
      var sFirst, sLast := new int[|banks|], new int[|banks|];
      var planned;
      rcode, planned := FillSectRanges(banks, addrFirst, addrLast, sFirst, sLast);
      if rcode == 0 {
        CountNonNegative(banks, addrFirst, addrLast);
      }
      if planned != 0 && rcode == 0 {
        ghost var sels := Fill(banks, addrFirst, addrLast).value;
        for bank := 0 to |banks|
          invariant forall k: nat, i: nat :: (k, i) in locked <==>
            if k < bank && HasSector(sels, k, i) then p else (k, i) in old(locked)
          invariant Recorded(sFirst[..], sLast[..], sels)
        {
          assert sFirst[bank] == sFirst[..][bank] && sLast[bank] == sLast[..][bank];
          if sFirst[bank] >= 0 {
            LockSectors(p, bank, sFirst[bank], sLast[bank]);
          }
        }
      } else if rcode == 0 {
        rcode := 1;
      }
    }

    method LockSectors(p: bool, bank: nat, first: nat, last: nat)
      requires first <= last
      modifies this`locked
      ensures forall k: nat, i: nat :: (k, i) in locked <==>
        if k == bank && first <= i <= last then p else (k, i) in old(locked)
    {
      for i := first to last + 1
        invariant forall k: nat, j: nat :: (k, j) in locked <==>
          if k == bank && first <= j < i then p else (k, j) in old(locked)
      {
        locked := if p then locked + {(bank, i)} else locked - {(bank, i)};
      }
    }

    method EraseRanges(sFirst: array<int>, sLast: array<int>, ghost sels: seq<Selection>) returns (erased: int)
      requires Valid() && Fits(banks, sels)
      requires sFirst.Length == |banks| && Recorded(sFirst[..], sLast[..], sels)
      modifies this`mem
      ensures Valid() && mem.Keys == old(mem).Keys && erased == Count(sels)
      ensures forall a :: a in mem ==>
        mem[a] == if SelectedBelow(banks, sels, |banks|, a) then ERASED else old(mem)[a]
    {
      erased := 0;
      for bank := 0 to |banks|
        invariant Valid() && mem.Keys == old(mem).Keys && erased == Count(sels[..bank])
        invariant forall a :: a in mem ==>
          mem[a] == if SelectedBelow(banks, sels, bank, a) then ERASED else old(mem)[a]
      {
        assert sFirst[bank] == sFirst[..][bank] && sLast[bank] == sLast[..][bank];
        assert sels[..bank + 1] == sels[..bank] + [sels[bank]];
        CountAppend(sels[..bank], sels[bank]);
        ghost var before := mem;
        if sFirst[bank] >= 0 {
          erased := erased + (sLast[bank] - sFirst[bank] + 1);
          FlashErase(bank, sFirst[bank], sLast[bank]);
        }
        forall a | a in mem
          ensures mem[a] == if SelectedBelow(banks, sels, bank + 1, a) then ERASED else old(mem)[a]
        {
          SelectedBelowStep(banks, sels, bank, a);
        }
      }
      assert sels[..|banks|] == sels;
    }

    /** `erase <part-id>` for a partition of the NOR device behind bank `num` that the partition
        check has accepted: the bytes of the partition are erased, without boundary error and without
        any other byte, unless the partition ends the address space and a later bank is at address 0;
        then there is an error and nothing is erased, or address 0 is erased as well. */
    method ErasePartition(num: nat, offset: nat, size: nat, ghost asked: nat) returns (rcode: int)
      requires Valid() && ValidBanks(banks) && num < |banks| && offset < U32 && asked < U32
      requires banks[num].size < SIZE_REMAINING
      requires PartValidate(NorId(banks, num), offset, asked) == Some(size)
      modifies this`mem
      ensures mem.Keys == old(mem).Keys && (rcode != 0 ==> mem == old(mem))
      ensures var f := banks[num].start[0] + offset;
        && (WrapFree(banks, f + size - 1) ==> rcode == 0 && forall a :: a in mem && !(f <= a < f + size) ==> mem[a] == old(mem)[a])
        && (rcode == 0 ==> forall a :: a in mem && f <= a < f + size ==> mem[a] == ERASED)
        && (!WrapFree(banks, f + size - 1) ==> f > 0 && (rcode == 0 && 0 in mem ==> mem[0] == ERASED))
    {
      hide PartValidate, WrapFree, Exact, Fill, Count, Selected, Bank.Starting, Bank.Ending;
      ghost var f, l := PartitionIsErasable(banks, num, offset, asked, size);
      var addrFirst := (offset + banks[num].start[0]) % ADDRESSES;
      var addrLast := (addrFirst + size - 1) % ADDRESSES;
      PartitionIsSelected(banks, num, offset, asked, size);
      var erased;
      rcode, erased := SectErase(addrFirst, addrLast);
    }
  }

  lemma {:induction false} SelectedBelowStep(banks: seq<Bank>, sels: seq<Selection>, k: nat, a: nat)
    requires Fits(banks, sels) && k < |banks|
    ensures SelectedBelow(banks, sels, k + 1, a) <==> SelectedBelow(banks, sels, k, a) || InSectors(banks[k], sels[k], a)
  {
  }

  // ---- partitions ----

  /** The device behind bank `num`. */
  function NorId(banks: seq<Bank>, num: nat): Id
    requires num < |banks|
  {
    Id(num, banks[num].size, "", Nor(banks[num]))
  }

  lemma {:induction false} OffsetIsSectorStart(b: Bank, x: nat)
    requires b.Valid() && b.known
    ensures (exists i :: 0 <= i < |b.start| && b.start[i] - b.start[0] == x) <==> b.Starting(b.start[0] + x) >= 0
  {
    var s := b.Starting(b.start[0] + x);
    if s >= 0 { assert b.start[s] - b.start[0] == x; }
  }

  lemma {:induction false} OffsetIsSectorEnd(b: Bank, x: nat)
    requires b.Valid() && b.known && 0 < x <= b.size
    ensures b.size == x || (exists i :: 0 <= i < |b.start| && b.start[i] - b.start[0] == x)
      <==> b.Ending(b.start[0] + x - 1) >= 0
  {
    var n, e := |b.start|, b.Ending(b.start[0] + x - 1);
    if b.size == x { assert b.SectorEnd(n - 1) == b.start[0] + x - 1; }
    forall i | 0 <= i < n && b.start[i] - b.start[0] == x ensures e >= 0 {
      assert b.SectorEnd(i - 1) == b.start[0] + x - 1;
    }
    if 0 <= e < n - 1 { assert b.start[e + 1] - b.start[0] == x; }
  }

  /** For a valid bank the alignment check accepts exactly the non-empty runs of whole sectors. */
  lemma {:induction false} AlignedMeansSectors(b: Bank, offset: nat, size: nat)
    requires b.Valid() && b.known && 0 < size && offset + size <= b.size < U32
    ensures NorAligned(b, offset, size) <==>
      b.Starting(b.start[0] + offset) >= 0 && b.Ending(b.start[0] + offset + size - 1) >= 0
  {
    hide Bank.Starting, Bank.Ending;
    OffsetIsSectorStart(b, offset);
    OffsetIsSectorEnd(b, offset + size);
  }

  /** The first byte of an accepted partition starts a sector and the last one ends a sector. */
  lemma {:induction false} AcceptedMeansSectors(b: Bank, id: Id, offset: nat, asked: nat, size: nat)
    requires id.Valid() && id.chip == Nor(b) && offset < U32 && asked < U32
    requires PartValidate(id, offset, asked) == Some(size)
    ensures b.known && 0 < size && offset + size <= b.size
    ensures b.Starting(b.start[0] + offset) >= 0 && b.Ending(b.start[0] + offset + size - 1) >= 0
  {
    AcceptedFits(id, offset, asked);
    AlignedMeansSectors(b, offset, size);
  }

  lemma {:induction false} OthersAreForeign(banks: seq<Bank>, num: nat, f: nat, l: nat)
    requires ValidBanks(banks) && num < |banks| && banks[num].Contains(f) && banks[num].Contains(l)
    ensures Foreign(banks[..num], f, l) && Foreign(banks[num + 1..], f, l)
  {
  }

  lemma {:induction false} SectorRunIsErasable(banks: seq<Bank>, num: nat, f: nat, l: nat)
    requires ValidBanks(banks) && num < |banks| && banks[num].known
    requires banks[num].start[0] <= f <= l <= banks[num].End()
    requires banks[num].Starting(f) >= 0 && banks[num].Ending(l) >= 0
    ensures WrapFree(banks, l) <==> Exact(banks, f, l)
    ensures WrapFree(banks, l) ==> Plans(banks, f, l)
  {
    OthersAreForeign(banks, num, f, l);
    RangeOfOneBank(banks, num, f, l);
  }

  /** The range of an accepted NOR partition is planned exactly, if and only if no bank at address
      0 follows its bank when the partition ends the address space. */
  lemma {:induction false} PartitionIsErasable(banks: seq<Bank>, num: nat, offset: nat, asked: nat, size: nat)
      returns (f: nat, l: nat)
    requires ValidBanks(banks) && num < |banks| && offset < U32 && asked < U32
    requires banks[num].size < SIZE_REMAINING
    requires PartValidate(NorId(banks, num), offset, asked) == Some(size)
    ensures banks[num].known && f == banks[num].start[0] + offset && l == f + size - 1 && f <= l <= banks[num].End()
    ensures WrapFree(banks, l) <==> Exact(banks, f, l)
    ensures WrapFree(banks, l) ==> Plans(banks, f, l)
  {
    AcceptedMeansSectors(banks[num], NorId(banks, num), offset, asked, size);
    f := banks[num].start[0] + offset;
    l := f + size - 1;
    SectorRunIsErasable(banks, num, f, l);
  }

  /** What is erased with a partition, or would be but for an error. */
  lemma {:induction false} PartitionIsSelected(banks: seq<Bank>, num: nat, offset: nat, asked: nat, size: nat)
    requires ValidBanks(banks) && num < |banks| && offset < U32 && asked < U32
    requires banks[num].size < SIZE_REMAINING
    requires PartValidate(NorId(banks, num), offset, asked) == Some(size)
    ensures banks[num].known
    ensures var f := banks[num].start[0] + offset;
      var r := Fill(banks, f, f + size - 1);
      && (r.Some? ==> forall a: nat :: f <= a < f + size ==> Selected(banks, r.value, a))
      && (WrapFree(banks, f + size - 1) ==>
            Plans(banks, f, f + size - 1) && forall a: nat :: Selected(banks, r.value, a) ==> f <= a < f + size)
      && (!WrapFree(banks, f + size - 1) ==> f > 0 && (r.Some? ==> Selected(banks, r.value, 0)))
  {
    hide PartValidate, Selected, Fill, WrapFree, Count, Foreign;
    AcceptedMeansSectors(banks[num], NorId(banks, num), offset, asked, size);
    var f := banks[num].start[0] + offset;
    var l := f + size - 1;
    SectorRunIsErasable(banks, num, f, l);
    OthersAreForeign(banks, num, f, l);
    if Fill(banks, f, l).Some? {
      forall a: nat | f <= a <= l ensures Selected(banks, Fill(banks, f, l).value, a) { OneBankSelected(banks, num, f, l, a); }
      if !WrapFree(banks, l) { WrapSelectsZero(banks, f, l); }
    }
    if f == 0 { WholeSpaceIsWrapFree(banks, num, l); }
  }

  // ---- the form "start +length" ----

  ghost predicate InSector(b: Bank, i: nat, a: nat)
    requires b.Valid() && b.known && i < |b.start|
  {
    b.start[i] <= a <= b.SectorEnd(i)
  }

  /** The end of the sector that holds `a` is the least sector end at or behind `a`. */
  lemma {:induction false} LeastSectorEnd(banks: seq<Bank>, k: nat, i: nat, a: nat, m: nat, j: nat)
    requires ValidBanks(banks) && k < |banks| && m < |banks| && banks[k].known && banks[m].known
    requires i < |banks[k].start| && j < |banks[m].start| && InSector(banks[k], i, a)
    requires a <= banks[m].SectorEnd(j)
    ensures banks[k].SectorEnd(i) <= banks[m].SectorEnd(j)
  {
    if k == m {
      banks[k].SectorEndsAscend();
    } else {
      assert Disjoint(banks[if k < m then k else m], banks[if k < m then m else k]);
      assert banks[m].start[0] <= banks[m].start[j];
    }
  }

  /** The last address of `start +length`, moved up to the end of the sector in which it lies; None
      when it is not in flash. */
  method RoundToSectorEnd(banks: seq<Bank>, addrFirst: nat, len: nat) returns (r: Option<nat>)
    requires ValidBanks(banks) && addrFirst < ADDRESSES && len < ADDRESSES
    ensures var a := (addrFirst + len + ADDRESSES - 1) % ADDRESSES;
      && (r.Some? <==> exists k :: 0 <= k < |banks| && banks[k].Contains(a))
      && (r.Some? ==>
            && a <= r.value
            && (exists k, i :: 0 <= k < |banks| && 0 <= i < |banks[k].start| && banks[k].SectorEnd(i) == r.value)
            && (forall k, i :: 0 <= k < |banks| && 0 <= i < |banks[k].start| && a <= banks[k].SectorEnd(i) ==>
                  r.value <= banks[k].SectorEnd(i)))
  {
    var a := (addrFirst + len + ADDRESSES - 1) % ADDRESSES;
    for bank := 0 to |banks|
      invariant forall k :: 0 <= k < bank ==> !banks[k].Contains(a)
    {
      var b := banks[bank];
      var i := 0;
      while i < |b.start|
        invariant 0 <= i <= |b.start|
        invariant i > 0 ==> b.SectorEnd(i - 1) < a || a < b.start[0]
      {
        if b.start[i] <= a <= b.SectorEnd(i) {
          forall k, j | 0 <= k < |banks| && 0 <= j < |banks[k].start| && a <= banks[k].SectorEnd(j)
            ensures b.SectorEnd(i) <= banks[k].SectorEnd(j)
          {
            LeastSectorEnd(banks, bank, i, a, k, j);
          }
          return Some(b.SectorEnd(i));
        }
        i := i + 1;
      }
    }
    return None;
  }
}
