/**
 What flash_fill_sect_ranges guarantees about the sectors it selects.
 */
module FlashRanges {
  import opened Common
  import opened FlashSpec

  lemma {:induction false} FillStep(banks: seq<Bank>, f: nat, l: nat)
    requires banks != [] && AllValid(banks) && Fill(banks, f, l).Some?
    ensures var step, sels := StepAt(banks[0], f, l), Fill(banks, f, l).value;
      && !step.Bad? && sels[0] == Chosen(step)
      && Fill(banks[1..], Remaining(step, f), l) == Some(sels[1..])
      && Count(sels) == (if step.Take? then step.last - step.first + 1 else 0) + Count(sels[1..])
  {
  }

  /** The address at which coverage of f..l stops. */
  function Reach(banks: seq<Bank>, f: nat, l: nat): nat
    requires AllValid(banks)
  {
    if banks == [] || f > l then f
    else
      var step := BankStep(banks[0], f, l);
      if step.Take? && step.next == 0 then ADDRESSES else Reach(banks[1..], Remaining(step, f), l)
  }

  /** No bank lies at address 0. */
  predicate NoneAtZero(banks: seq<Bank>)
    requires AllValid(banks)
  {
    banks == [] || (!banks[0].Contains(0) && NoneAtZero(banks[1..]))
  }

  /** No bank at address 0 follows one that contains `l`, the last address of all. */
  predicate WrapFree(banks: seq<Bank>, l: nat)
    requires AllValid(banks)
  {
    banks == [] || l != ADDRESSES - 1 ||
    ((banks[0].Contains(l) ==> NoneAtZero(banks[1..])) && WrapFree(banks[1..], l))
  }

  ghost predicate AllValid(banks: seq<Bank>) {
    forall k :: 0 <= k < |banks| ==> banks[k].Valid()
  }

  lemma {:induction false} TakeBlock(b: Bank, f: nat, l: nat)
    requires b.Valid() && f <= l < ADDRESSES && BankStep(b, f, l).Take?
    ensures var step := BankStep(b, f, l);
      && b.start[step.first] == f
      && b.SectorEnd(step.last) <= l
      && step.next == (b.SectorEnd(step.last) + 1) % ADDRESSES
      && (step.next == 0 ==> b.SectorEnd(step.last) == l == ADDRESSES - 1)
  {
  }

  /** Where no bank has a sector that starts at f, nothing is selected. */
  lemma {:induction false} NothingSelected(banks: seq<Bank>, f: nat, l: nat)
    requires AllValid(banks) && (f > l || forall k :: 0 <= k < |banks| && banks[k].known ==> banks[k].Starting(f) < 0)
    ensures f > l ==> Fill(banks, f, l).Some?
    ensures Fill(banks, f, l).Some? ==>
      var sels := Fill(banks, f, l).value;
      Count(sels) == 0 && forall a: nat :: !Selected(banks, sels, a)
    decreases |banks|
  {
    if banks != [] {
      NothingSelected(banks[1..], f, l);
      if Fill(banks, f, l).Some? {
        FillStep(banks, f, l);
      }
    }
  }

  lemma {:induction false} NoneStartsAtZero(banks: seq<Bank>)
    requires AllValid(banks) && NoneAtZero(banks)
    ensures forall k :: 0 <= k < |banks| && banks[k].known ==> banks[k].Starting(0) < 0
  {
    if banks != [] {
      NoneStartsAtZero(banks[1..]);
      assert forall k :: 0 < k < |banks| ==> banks[k] == banks[1..][k - 1];
    }
  }

  lemma {:induction false} ReachBounds(banks: seq<Bank>, f: nat, l: nat)
    requires AllValid(banks) && f < ADDRESSES && l < ADDRESSES
    ensures f <= Reach(banks, f, l) && (f <= l ==> Reach(banks, f, l) <= l + 1)
    decreases |banks|
  {
    if f <= l && banks != [] {
      var step := BankStep(banks[0], f, l);
      if step.Take? { TakeBlock(banks[0], f, l); }
      hide BankStep;
      assert AllValid(banks[1..]);
      if !(step.Take? && step.next == 0) { ReachBounds(banks[1..], Remaining(step, f), l); }
    }
  }

  /** One bank adds the block from f up to its last chosen sector, or nothing. */
  lemma {:induction false} SelectedByStep(banks: seq<Bank>, f: nat, l: nat, a: nat)
    requires banks != [] && AllValid(banks) && f <= l < ADDRESSES && Fill(banks, f, l).Some?
    ensures var step := BankStep(banks[0], f, l);
      && !step.Bad? && Fill(banks[1..], Remaining(step, f), l).Some?
      && (Selected(banks, Fill(banks, f, l).value, a) <==>
            (step.Take? && f <= a < if step.next == 0 then ADDRESSES else step.next)
            || Selected(banks[1..], Fill(banks[1..], Remaining(step, f), l).value, a))
  {
    FillStep(banks, f, l);
    if BankStep(banks[0], f, l).Take? { TakeBlock(banks[0], f, l); }
  }

  lemma {:induction false} ReachStep(banks: seq<Bank>, f: nat, l: nat)
    requires banks != [] && AllValid(banks) && f <= l < ADDRESSES
    ensures var step := BankStep(banks[0], f, l);
      Reach(banks, f, l) == if step.Take? && step.next == 0 then ADDRESSES else Reach(banks[1..], Remaining(step, f), l)
    ensures Remaining(BankStep(banks[0], f, l), f) < ADDRESSES
  {
    if BankStep(banks[0], f, l).Take? { TakeBlock(banks[0], f, l); }
  }

  lemma {:induction false} NothingAfterWrap(banks: seq<Bank>, f: nat, l: nat)
    requires banks != [] && AllValid(banks) && f <= l < ADDRESSES && WrapFree(banks, l)
    requires BankStep(banks[0], f, l).Take? && BankStep(banks[0], f, l).next == 0
    requires Fill(banks[1..], 0, l).Some?
    ensures forall a: nat :: !Selected(banks[1..], Fill(banks[1..], 0, l).value, a)
  {
    TakeBlock(banks[0], f, l);
    NoneStartsAtZero(banks[1..]);
    NothingSelected(banks[1..], 0, l);
  }

  /** For banks in any order a plan without error selects whole sectors that tile a prefix of the
      range, provided no bank at address 0 follows one that ends with the range at the top of the
      address space. */
  lemma {:induction false} SelectionTilesPrefix(banks: seq<Bank>, f: nat, l: nat, a: nat)
    requires AllValid(banks) && f < ADDRESSES && l < ADDRESSES && WrapFree(banks, l)
    requires Fill(banks, f, l).Some?
    ensures f <= Reach(banks, f, l) && (f <= l ==> Reach(banks, f, l) <= l + 1)
    ensures Selected(banks, Fill(banks, f, l).value, a) <==> f <= a < Reach(banks, f, l)
    decreases |banks|
  {
    ReachBounds(banks, f, l);
    if f > l {
      NothingSelected(banks, f, l);
    } else if banks != [] {
      TilesFromStep(banks, f, l, a);
    }
  }

  lemma {:induction false} TilesFromStep(banks: seq<Bank>, f: nat, l: nat, a: nat)
    requires banks != [] && AllValid(banks) && f <= l < ADDRESSES && WrapFree(banks, l)
    requires Fill(banks, f, l).Some?
    ensures Selected(banks, Fill(banks, f, l).value, a) <==> f <= a < Reach(banks, f, l)
    decreases |banks|, 0
  {
    hide BankStep, Selected;
    var step, rest := BankStep(banks[0], f, l), banks[1..];
    SelectedByStep(banks, f, l, a);
    ReachStep(banks, f, l);
    if step.Take? && step.next == 0 {
      NothingAfterWrap(banks, f, l);
    } else {
      SelectionTilesPrefix(rest, Remaining(step, f), l, a);
      if step.Take? {
        assert f < step.next by { TakeBlock(banks[0], f, l); }
      }
    }
  }
}
