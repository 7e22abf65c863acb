/**
 Flash banks and the translation of an address range into sector ranges (cmd_flash.c).  Addresses
 are 32-bit: the address behind the last byte of the address space wraps to 0.
 */
module FlashSpec {
  import opened Common

  const ADDRESSES: nat := U32

  /** A flash bank: the start address of each sector, the size in bytes, and whether the flash type
      is known. */
  datatype Bank = Bank(start: seq<nat>, size: nat, known: bool) {
    ghost predicate Valid() {
      if known then
        && |start| > 0
        && (forall i, j :: 0 <= i < j < |start| ==> start[i] < start[j])
        && start[|start| - 1] < start[0] + size <= ADDRESSES
      else start == [] && size == 0
    }

    function End(): nat
      requires Valid() && known
    {
      start[0] + size - 1
    }

    function SectorEnd(i: nat): (e: nat)
      requires Valid() && known && i < |start|
      ensures start[i] <= e <= End()
    {
      if i == |start| - 1 then End() else start[i + 1] - 1
    }

    /** The sector that starts at address `a`, or -1. */
    function Starting(a: nat): (s: int)
      requires Valid() && known
      ensures -1 <= s < |start|
      ensures s >= 0 ==> start[s] == a
      ensures s < 0 ==> forall i :: 0 <= i < |start| ==> start[i] != a
    {
      if exists i :: 0 <= i < |start| && start[i] == a
      then var i :| 0 <= i < |start| && start[i] == a; i
      else -1
    }

    /** The sector that ends at address `a`, or -1. */
    function Ending(a: nat): (s: int)
      requires Valid() && known
      ensures -1 <= s < |start|
      ensures s >= 0 ==> SectorEnd(s) == a
      ensures s < 0 ==> forall i :: 0 <= i < |start| ==> SectorEnd(i) != a
    {
      if exists i :: 0 <= i < |start| && SectorEnd(i) == a
      then SectorEndsAscend(); var i :| 0 <= i < |start| && SectorEnd(i) == a; i
      else -1
    }

    lemma SectorEndsAscend()
      requires Valid() && known
      ensures forall i, j :: 0 <= i < j < |start| ==> SectorEnd(i) < start[j] && SectorEnd(i) < SectorEnd(j)
    {
    }

    predicate Contains(a: nat)
      requires Valid()
    {
      known && start[0] <= a <= End()
    }
  }

  predicate Disjoint(b: Bank, c: Bank)
    requires b.Valid() && c.Valid()
  {
    b.known && c.known ==> b.End() < c.start[0] || c.End() < b.start[0]
  }

  ghost predicate ValidBanks(banks: seq<Bank>) {
    && (forall k :: 0 <= k < |banks| ==> banks[k].Valid())
    && (forall k, m :: 0 <= k < m < |banks| ==> Disjoint(banks[k], banks[m]))
  }

  datatype Selection = Nothing | Sectors(first: nat, last: nat)

  datatype Step = Skip | Bad | Take(first: nat, last: nat, next: nat)

  /** What one bank contributes when the range still to be covered is f..l. */
  function BankStep(b: Bank, f: nat, l: nat): (r: Step)
    requires b.Valid()
    ensures r.Take? ==> b.known && r.first <= r.last < |b.start|
  {
    if !b.known then Skip
    else
      var i, j := b.Starting(f), b.Ending(l);
      if i >= 0 then
        if j < 0 && l <= b.End() then Bad
        else
          var last := if j < 0 then |b.start| - 1 else j;
          if last < i then Bad
          else Take(i, last, if last == |b.start| - 1 then (b.End() + 1) % ADDRESSES else b.start[last + 1])
      else if b.start[0] <= f < b.End() then Bad
      else if j >= 0 then Bad
      else Skip
  }

  /** The same once the range may be used up. */
  function StepAt(b: Bank, f: nat, l: nat): (r: Step)
    requires b.Valid()
    ensures r.Take? ==> b.known && r.first <= r.last < |b.start|
  {
    if f <= l then BankStep(b, f, l) else Skip
  }

  function Chosen(step: Step): Selection {
    if step.Take? then Sectors(step.first, step.last) else Nothing
  }

  function Remaining(step: Step, f: nat): nat {
    if step.Take? then step.next else f
  }

  /** The sectors selected in each bank, or None for a boundary error. */
  function Fill(banks: seq<Bank>, f: nat, l: nat): (r: Option<seq<Selection>>)
    requires forall k :: 0 <= k < |banks| ==> banks[k].Valid()
    ensures r.Some? ==> |r.value| == |banks|
    ensures r.Some? ==> forall k :: 0 <= k < |banks| && r.value[k].Sectors? ==>
      banks[k].known && r.value[k].first <= r.value[k].last < |banks[k].start|
  {
    if banks == [] then Some([])
    else
      var step := StepAt(banks[0], f, l);
      if step.Bad? then None
      else
        var rest := Fill(banks[1..], Remaining(step, f), l);
        if rest.None? then None else Some([Chosen(step)] + rest.value)
  }

  /** The selection matches the banks it was made for. */
  ghost predicate Fits(banks: seq<Bank>, sels: seq<Selection>) {
    && |sels| == |banks|
    && (forall k :: 0 <= k < |banks| ==> banks[k].Valid())
    && (forall k :: 0 <= k < |banks| && sels[k].Sectors? ==>
          banks[k].known && sels[k].first <= sels[k].last < |banks[k].start|)
  }

  predicate InSectors(b: Bank, s: Selection, a: nat)
    requires b.Valid() && (s.Sectors? ==> b.known && s.first <= s.last < |b.start|)
  {
    s.Sectors? && b.start[s.first] <= a <= b.SectorEnd(s.last)
  }

  /** Address `a` lies in a selected sector of one of the banks. */
  predicate Selected(banks: seq<Bank>, sels: seq<Selection>, a: nat)
    requires Fits(banks, sels)
  {
    banks != [] && (InSectors(banks[0], sels[0], a) || Selected(banks[1..], sels[1..], a))
  }

  function Count(sels: seq<Selection>): int {
    if sels == [] then 0
    else (if sels[0].Sectors? then sels[0].last - sels[0].first + 1 else 0) + Count(sels[1..])
  }
}
