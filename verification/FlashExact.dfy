/**
 When flash_fill_sect_ranges covers the requested range exactly: on adjacent banks, and for the one
 bank of a partition; and the wrapped selection at the top of the address space.
 */
module FlashExact {
  import opened FlashSpec
  import opened FlashRanges

  /** The known banks follow each other without gap from address `base` on. */
  ghost predicate Chain(banks: seq<Bank>, base: nat)
    requires AllValid(banks)
  {
    banks == [] ||
    if banks[0].known then banks[0].start[0] == base && Chain(banks[1..], banks[0].End() + 1)
    else Chain(banks[1..], base)
  }

  /** The address behind the last bank of the chain. */
  function ChainEnd(banks: seq<Bank>, base: nat): nat
    requires AllValid(banks)
  {
    if banks == [] then base
    else ChainEnd(banks[1..], if banks[0].known then banks[0].End() + 1 else base)
  }

  predicate SectorStart(banks: seq<Bank>, a: nat)
    requires AllValid(banks)
  {
    banks != [] && ((banks[0].known && banks[0].Starting(a) >= 0) || SectorStart(banks[1..], a))
  }

  predicate SectorEnding(banks: seq<Bank>, a: nat)
    requires AllValid(banks)
  {
    banks != [] && ((banks[0].known && banks[0].Ending(a) >= 0) || SectorEnding(banks[1..], a))
  }

  lemma {:induction false} ChainIsAbove(banks: seq<Bank>, base: nat, a: nat)
    requires AllValid(banks) && Chain(banks, base) && a < base
    ensures !SectorStart(banks, a) && !SectorEnding(banks, a) && NoneAtZero(banks)
    ensures forall k :: 0 <= k < |banks| && banks[k].known ==> banks[k].Starting(a) < 0
    decreases |banks|
  {
    if banks != [] {
      ChainIsAbove(banks[1..], if banks[0].known then banks[0].End() + 1 else base, a);
      assert forall k :: 0 < k < |banks| ==> banks[k] == banks[1..][k - 1];
    }
  }

  lemma {:induction false} ChainIsWrapFree(banks: seq<Bank>, base: nat, l: nat)
    requires AllValid(banks) && Chain(banks, base)
    ensures WrapFree(banks, l)
    decreases |banks|
  {
    if banks != [] {
      var next := if banks[0].known then banks[0].End() + 1 else base;
      ChainIsWrapFree(banks[1..], next, l);
      if banks[0].known { ChainIsAbove(banks[1..], next, 0); }
    }
  }

  /** Whether the plan covers something without error, and where coverage then stops. */
  predicate Plans(banks: seq<Bank>, f: nat, l: nat)
    requires AllValid(banks)
  {
    var r := Fill(banks, f, l);
    r.Some? && Count(r.value) > 0
  }

  lemma {:induction false} CountNonNegative(banks: seq<Bank>, f: nat, l: nat)
    requires AllValid(banks) && Fill(banks, f, l).Some?
    ensures Count(Fill(banks, f, l).value) >= 0
    decreases |banks|
  {
    if banks != [] {
      FillStep(banks, f, l);
      CountNonNegative(banks[1..], Remaining(StepAt(banks[0], f, l), f), l);
    }
  }

  /** The bank in which the range starts, when the range ends in it too. */
  lemma {:induction false} LastBank(banks: seq<Bank>, base: nat, f: nat, l: nat)
    requires banks != [] && AllValid(banks) && Chain(banks, base)
    requires banks[0].known && base <= f <= l <= banks[0].End()
    ensures Plans(banks, f, l) <==> banks[0].Starting(f) >= 0 && banks[0].Ending(l) >= 0
    ensures Plans(banks, f, l) ==> Reach(banks, f, l) == l + 1
  {
    var b, rest := banks[0], banks[1..];
    var step := BankStep(b, f, l);
    StepInside(b, f, l);
    hide BankStep;
    if step.Take? {
      if step.next > l {
        NothingSelected(rest, step.next, l);
      } else {
        SkipsBelow(rest, b.End() + 1, step.next, l);
      }
    }
  }

  /** A range inside one bank is taken exactly when it is made of whole sectors. */
  lemma {:induction false} StepInside(b: Bank, f: nat, l: nat)
    requires b.Valid() && b.known && b.start[0] <= f <= l <= b.End()
    ensures var step := BankStep(b, f, l);
      if b.Starting(f) >= 0 && b.Ending(l) >= 0
      then step == Take(b.Starting(f), b.Ending(l), (l + 1) % ADDRESSES)
      else step.Bad?
  {
    assert b.SectorEnd(|b.start| - 1) == b.End();
    b.SectorEndsAscend();
  }

  /** Behind the range no bank of the chain raises an error. */
  lemma {:induction false} SkipsBelow(banks: seq<Bank>, base: nat, f: nat, l: nat)
    requires AllValid(banks) && Chain(banks, base) && f < base && l < base
    ensures Fill(banks, f, l).Some? && Count(Fill(banks, f, l).value) == 0
    ensures f > l ==> Reach(banks, f, l) == f
    decreases |banks|
  {
    if banks != [] {
      ChainIsAbove(banks, base, f);
      ChainIsAbove(banks, base, l);
      SkipsBelow(banks[1..], if banks[0].known then banks[0].End() + 1 else base, f, l);
    }
  }

  lemma {:induction false} ChainStartsAtBase(banks: seq<Bank>, base: nat)
    requires AllValid(banks) && Chain(banks, base) && base < ChainEnd(banks, base)
    ensures SectorStart(banks, base)
    decreases |banks|
  {
    if banks[0].known {
      assert banks[0].start[0] == base;
    } else {
      ChainStartsAtBase(banks[1..], base);
    }
  }

  /** A range that runs beyond the bank in which it starts. */
  lemma {:induction false} FirstBankStep(b: Bank, f: nat, l: nat)
    requires b.Valid() && b.known && b.start[0] <= f <= b.End() < l < ADDRESSES
    ensures var step := BankStep(b, f, l);
      if b.Starting(f) >= 0 then step == Take(b.Starting(f), |b.start| - 1, b.End() + 1)
      else !step.Take?
  {
  }

  /** The range begins in the first bank and ends in another one. */
  lemma {:induction false} ExactAcross(banks: seq<Bank>, base: nat, f: nat, l: nat)
    requires banks != [] && AllValid(banks) && Chain(banks, base) && base <= f <= l < ChainEnd(banks, base) && l < ADDRESSES
    requires banks[0].known && f <= banks[0].End() < l
    requires banks[0].Starting(f) >= 0 ==>
      var rest, next := banks[1..], banks[0].End() + 1;
      && (Plans(rest, next, l) <==> SectorStart(rest, next) && SectorEnding(rest, l))
      && (Plans(rest, next, l) ==> Reach(rest, next, l) == l + 1)
      && (Fill(rest, next, l).Some? ==> Plans(rest, next, l))
    ensures Plans(banks, f, l) <==> SectorStart(banks, f) && SectorEnding(banks, l)
    ensures Plans(banks, f, l) ==> Reach(banks, f, l) == l + 1
    ensures f == base && Fill(banks, f, l).Some? ==> Plans(banks, f, l)
  {
    hide BankStep;
    var b, rest := banks[0], banks[1..];
    FirstBankStep(b, f, l);
    ChainIsAbove(rest, b.End() + 1, f);
    if b.Starting(f) >= 0 {
      ChainStartsAtBase(rest, b.End() + 1);
    } else {
      NothingSelected(rest, f, l);
    }
  }

  /** On adjacent banks that contain the range, a plan exists exactly when the range starts at a
      sector start and ends at a sector end; it then covers all of it. */
  lemma {:induction false} ExactOnChain(banks: seq<Bank>, base: nat, f: nat, l: nat)
    requires AllValid(banks) && Chain(banks, base) && base <= f <= l < ChainEnd(banks, base) && l < ADDRESSES
    ensures Plans(banks, f, l) <==> SectorStart(banks, f) && SectorEnding(banks, l)
    ensures Plans(banks, f, l) ==> Reach(banks, f, l) == l + 1
    ensures f == base && Fill(banks, f, l).Some? ==> Plans(banks, f, l)
    decreases |banks|
  {
    var b, rest := banks[0], banks[1..];
    if !b.known {
      ExactOnChain(rest, base, f, l);
    } else if l <= b.End() {
      LastBank(banks, base, f, l);
      ChainIsAbove(rest, b.End() + 1, f);
      ChainIsAbove(rest, b.End() + 1, l);
      StepInside(b, f, l);
      if f == base && Fill(banks, f, l).Some? { TakesSomething(banks, f, l); }
    } else if f <= b.End() {
      if b.Starting(f) >= 0 { ExactOnChain(rest, b.End() + 1, b.End() + 1, l); }
      ExactAcross(banks, base, f, l);
    } else {
      assert BankStep(b, f, l).Skip? by { assert b.Starting(f) < 0 && b.Ending(l) < 0; }
      ExactOnChain(rest, b.End() + 1, f, l);
    }
  }

  lemma {:induction false} TakesSomething(banks: seq<Bank>, f: nat, l: nat)
    requires banks != [] && AllValid(banks) && banks[0].known && banks[0].Starting(f) >= 0 && f <= l
    requires Fill(banks, f, l).Some?
    ensures Count(Fill(banks, f, l).value) > 0
  {
    FillStep(banks, f, l);
    CountNonNegative(banks[1..], Remaining(StepAt(banks[0], f, l), f), l);
  }

  /** ... and the selected sectors then hold exactly the bytes of the range. */
  lemma {:induction false} RangeIsSelected(banks: seq<Bank>, base: nat, f: nat, l: nat, a: nat)
    requires AllValid(banks) && Chain(banks, base) && base <= f <= l < ChainEnd(banks, base) && l < ADDRESSES
    requires SectorStart(banks, f) && SectorEnding(banks, l)
    ensures Fill(banks, f, l).Some? && Count(Fill(banks, f, l).value) > 0
    ensures Selected(banks, Fill(banks, f, l).value, a) <==> f <= a <= l
  {
    ExactOnChain(banks, base, f, l);
    ChainIsWrapFree(banks, base, l);
    SelectionTilesPrefix(banks, f, l, a);
  }

  /** No bank contains one of the two addresses. */
  ghost predicate Foreign(banks: seq<Bank>, f: nat, l: nat)
    requires AllValid(banks)
  {
    forall k :: 0 <= k < |banks| ==> !banks[k].Contains(f) && !banks[k].Contains(l)
  }

  lemma {:induction false} SkipsForeign(banks: seq<Bank>, f: nat, l: nat)
    requires AllValid(banks) && Foreign(banks, f, l)
    ensures Fill(banks, f, l).Some? && Count(Fill(banks, f, l).value) == 0
    ensures forall a: nat :: !Selected(banks, Fill(banks, f, l).value, a)
    ensures WrapFree(banks, l)
    decreases |banks|
  {
    if banks != [] {
      SkipsForeign(banks[1..], f, l);
      assert StepAt(banks[0], f, l).Skip? by { assert !banks[0].Contains(f) && !banks[0].Contains(l); }
    }
  }

  lemma {:induction false} ZeroIsSelected(banks: seq<Bank>, l: nat)
    requires AllValid(banks) && !NoneAtZero(banks) && Fill(banks, 0, l).Some?
    requires forall k :: 0 <= k < |banks| ==> !banks[k].Contains(l)
    ensures Selected(banks, Fill(banks, 0, l).value, 0)
    decreases |banks|
  {
    FillStep(banks, 0, l);
    if banks[0].Contains(0) {
      assert banks[0].start[0] == 0;
    } else {
      ZeroIsSelected(banks[1..], l);
    }
  }

  /** The bytes f..l of bank `num`, made of whole sectors, are planned without error and exactly,
      if and only if no bank at address 0 follows it when they end the address space. */
  lemma {:induction false} RangeOfOneBank(banks: seq<Bank>, num: nat, f: nat, l: nat)
    requires AllValid(banks) && num < |banks| && banks[num].known
    requires banks[num].start[0] <= f <= l <= banks[num].End()
    requires banks[num].Starting(f) >= 0 && banks[num].Ending(l) >= 0
    requires Foreign(banks[..num], f, l) && Foreign(banks[num + 1..], f, l)
    ensures WrapFree(banks, l) <==> Exact(banks, f, l)
    ensures WrapFree(banks, l) ==> Count(Fill(banks, f, l).value) > 0
    decreases num
  {
    var b, rest := banks[0], banks[1..];
    if num > 0 {
      assert banks[..num][0] == b && banks[..num][1..] == rest[..num - 1] && rest[num..] == banks[num + 1..];
      assert StepAt(b, f, l).Skip? && !b.Contains(l);
      RangeOfOneBank(rest, num - 1, f, l);
      ExactAfterSkip(banks, f, l);
    } else {
      StepInside(b, f, l);
      RangeOfFirstBank(banks, f, l);
    }
  }

  /** Whatever a plan without error selects besides, it selects those bytes. */
  lemma {:induction false} OneBankSelected(banks: seq<Bank>, num: nat, f: nat, l: nat, a: nat)
    requires AllValid(banks) && num < |banks| && banks[num].known
    requires banks[num].start[0] <= f <= a <= l <= banks[num].End()
    requires banks[num].Starting(f) >= 0 && banks[num].Ending(l) >= 0
    requires Foreign(banks[..num], f, l) && Fill(banks, f, l).Some?
    ensures Selected(banks, Fill(banks, f, l).value, a)
    decreases num
  {
    var b, rest := banks[0], banks[1..];
    if num > 0 {
      assert banks[..num][0] == b && banks[..num][1..] == rest[..num - 1];
      assert StepAt(b, f, l).Skip?;
      SelectedBehind(banks, f, l, a);
      OneBankSelected(rest, num - 1, f, l, a);
    } else {
      StepInside(b, f, l);
      hide BankStep, Selected, Fill;
      SelectedByStep(banks, f, l, a);
    }
  }

  lemma SelectedBehind(banks: seq<Bank>, f: nat, l: nat, a: nat)
    requires banks != [] && AllValid(banks) && StepAt(banks[0], f, l).Skip? && Fill(banks, f, l).Some?
    ensures Fill(banks[1..], f, l).Some?
    ensures Selected(banks[1..], Fill(banks[1..], f, l).value, a) ==> Selected(banks, Fill(banks, f, l).value, a)
  {
    hide Fill, StepAt;
    FillStep(banks, f, l);
  }

  /** The plan has no error and selects exactly the bytes f..l. */
  ghost predicate Exact(banks: seq<Bank>, f: nat, l: nat)
    requires AllValid(banks)
  {
    Fill(banks, f, l).Some? && forall a: nat :: Selected(banks, Fill(banks, f, l).value, a) <==> f <= a <= l
  }

  lemma {:induction false} ExactAfterSkip(banks: seq<Bank>, f: nat, l: nat)
    requires banks != [] && AllValid(banks) && StepAt(banks[0], f, l).Skip?
    ensures Exact(banks, f, l) <==> Exact(banks[1..], f, l)
    ensures Fill(banks, f, l).Some? ==> Count(Fill(banks, f, l).value) == Count(Fill(banks[1..], f, l).value)
  {
    if Fill(banks, f, l).Some? {
      FillStep(banks, f, l);
      forall a: nat ensures
        Selected(banks, Fill(banks, f, l).value, a) <==> Selected(banks[1..], Fill(banks[1..], f, l).value, a) { }
    }
  }

  lemma {:induction false} RangeOfFirstBank(banks: seq<Bank>, f: nat, l: nat)
    requires banks != [] && AllValid(banks) && f <= l < ADDRESSES && banks[0].Contains(l)
    requires BankStep(banks[0], f, l).Take? && BankStep(banks[0], f, l).next == (l + 1) % ADDRESSES
    requires Foreign(banks[1..], f, l)
    ensures WrapFree(banks, l) <==> Exact(banks, f, l)
    ensures WrapFree(banks, l) ==> Count(Fill(banks, f, l).value) > 0
  {
    BehindFirstBank(banks, f, l);
    var next := (l + 1) % ADDRESSES;
    if Fill(banks, f, l).Some? {
      FirstBankSelection(banks, f, l);
    }
  }

  lemma {:induction false} FirstBankSelection(banks: seq<Bank>, f: nat, l: nat)
    requires banks != [] && AllValid(banks) && f <= l < ADDRESSES && Fill(banks, f, l).Some?
    requires BankStep(banks[0], f, l).Take? && BankStep(banks[0], f, l).next == (l + 1) % ADDRESSES
    ensures var next := (l + 1) % ADDRESSES;
      && Fill(banks[1..], next, l).Some? && Count(Fill(banks, f, l).value) > 0
      && forall a: nat :: Selected(banks, Fill(banks, f, l).value, a) <==>
           f <= a <= l || Selected(banks[1..], Fill(banks[1..], next, l).value, a)
  {
    FillStep(banks, f, l);
    CountNonNegative(banks[1..], (l + 1) % ADDRESSES, l);
    forall a: nat ensures Selected(banks, Fill(banks, f, l).value, a) <==>
      f <= a <= l || Selected(banks[1..], Fill(banks[1..], (l + 1) % ADDRESSES, l).value, a)
    {
      SelectedByStep(banks, f, l, a);
    }
  }

  /** Behind the bank that ends the range nothing more is selected, unless the address has wrapped
      to 0 and a bank lies there. */
  lemma {:induction false} BehindFirstBank(banks: seq<Bank>, f: nat, l: nat)
    requires banks != [] && AllValid(banks) && f <= l < ADDRESSES && banks[0].Contains(l)
    requires Foreign(banks[1..], f, l)
    ensures var rest, next := banks[1..], (l + 1) % ADDRESSES;
      if WrapFree(banks, l)
      then Fill(rest, next, l).Some? && forall a: nat :: !Selected(rest, Fill(rest, next, l).value, a)
      else f > 0 && (Fill(rest, next, l).Some? ==> Selected(rest, Fill(rest, next, l).value, 0))
  {
    var rest, next := banks[1..], (l + 1) % ADDRESSES;
    assert WrapFree(rest, l) by { SkipsForeign(rest, f, l); }
    if next > l {
      NothingSelected(rest, next, l);
    } else if NoneAtZero(rest) {
      NoneForeignToZero(rest, f, l);
      SkipsForeign(rest, 0, l);
    } else {
      SomeAtZero(rest, f, l);
      if Fill(rest, 0, l).Some? { ZeroIsSelected(rest, l); }
    }
  }

  lemma {:induction false} NoneForeignToZero(banks: seq<Bank>, f: nat, l: nat)
    requires AllValid(banks) && NoneAtZero(banks) && Foreign(banks, f, l)
    ensures Foreign(banks, 0, l)
    decreases |banks|
  {
    if banks != [] {
      NoneForeignToZero(banks[1..], f, l);
      assert forall k :: 0 < k < |banks| ==> banks[k] == banks[1..][k - 1];
    }
  }

  lemma {:induction false} SomeAtZero(banks: seq<Bank>, f: nat, l: nat)
    requires AllValid(banks) && !NoneAtZero(banks) && Foreign(banks, f, l)
    ensures f > 0
    decreases |banks|
  {
    if !banks[0].Contains(0) { SomeAtZero(banks[1..], f, l); }
  }

  // ---- any order of banks ----

  lemma {:induction false} ContainsLast(banks: seq<Bank>, l: nat)
    requires AllValid(banks) && !WrapFree(banks, l)
    ensures l == ADDRESSES - 1 && !NoneAtZero(banks)
    ensures exists k :: 0 <= k < |banks| && banks[k].Contains(l)
    decreases |banks|
  {
    if banks[0].Contains(l) && !NoneAtZero(banks[1..]) {
    } else {
      ContainsLast(banks[1..], l);
      var k :| 0 <= k < |banks[1..]| && banks[1..][k].Contains(l);
      assert banks[k + 1].Contains(l);
    }
  }

  lemma {:induction false} OneAtZero(banks: seq<Bank>)
    requires AllValid(banks) && !NoneAtZero(banks)
    ensures exists k :: 0 <= k < |banks| && banks[k].Contains(0)
    decreases |banks|
  {
    if !banks[0].Contains(0) {
      OneAtZero(banks[1..]);
      var k :| 0 <= k < |banks[1..]| && banks[1..][k].Contains(0);
      assert banks[k + 1].Contains(0);
    }
  }

  lemma {:induction false} RestDisjoint(banks: seq<Bank>, a: nat)
    requires ValidBanks(banks) && banks != [] && banks[0].Contains(a)
    ensures ValidBanks(banks[1..]) && forall k :: 0 <= k < |banks[1..]| ==> !banks[1..][k].Contains(a)
  {
    assert forall k :: 0 <= k < |banks[1..]| ==> banks[1..][k] == banks[k + 1] && Disjoint(banks[0], banks[k + 1]);
  }

  /** The bank that contains the last address of all is used up to its end, and the range goes on at
      address 0. */
  lemma {:induction false} StepWraps(b: Bank, f: nat)
    requires b.Valid() && b.Contains(ADDRESSES - 1) && f < ADDRESSES && !BankStep(b, f, ADDRESSES - 1).Bad?
    ensures var step := BankStep(b, f, ADDRESSES - 1);
      step.Take? && step.next == 0 && b.Contains(f)
  {
    assert b.SectorEnd(|b.start| - 1) == ADDRESSES - 1;
  }

  /** When a bank at address 0 follows one that ends with the range at the top of the address space,
      address 0 is selected although the range does not contain it. */
  lemma {:induction false} WrapSelectsZero(banks: seq<Bank>, f: nat, l: nat)
    requires ValidBanks(banks) && f <= l < ADDRESSES && Fill(banks, f, l).Some? && !WrapFree(banks, l)
    ensures f > 0 && Selected(banks, Fill(banks, f, l).value, 0)
    decreases |banks|
  {
    hide BankStep, Selected, Fill;
    var b, rest, step := banks[0], banks[1..], BankStep(banks[0], f, l);
    SelectedByStep(banks, f, l, 0);
    ContainsLast(banks, l);
    if b.Contains(l) {
      RestDisjoint(banks, l);
      StepWraps(b, f);
      if NoneAtZero(rest) { ContainsLast(rest, l); }
      OneAtZero(rest);
      ZeroIsSelected(rest, l);
      if f == 0 { RestDisjoint(banks, 0); }
    } else {
      ContainsLast(rest, l);
      OneAtZero(rest);
      RestValid(banks);
      if step.Take? {
        TakeBlock(b, f, l);
        LastNotIn(b, f, l);
        if f == 0 { RestDisjoint(banks, 0); }
      }
      WrapSelectsZero(rest, Remaining(step, f), l);
    }
  }

  lemma RestValid(banks: seq<Bank>)
    requires ValidBanks(banks) && banks != []
    ensures ValidBanks(banks[1..])
  {
  }

  lemma {:induction false} LastNotIn(b: Bank, f: nat, l: nat)
    requires b.Valid() && f <= l < ADDRESSES && BankStep(b, f, l).Take? && !b.Contains(l)
    ensures var step := BankStep(b, f, l); 0 < step.next <= l && b.Contains(f)
  {
    TakeBlock(b, f, l);
  }

  /** A range from address 0 in one bank wraps onto no other. */
  lemma {:induction false} WholeSpaceIsWrapFree(banks: seq<Bank>, num: nat, l: nat)
    requires ValidBanks(banks) && num < |banks| && banks[num].Contains(0) && banks[num].Contains(l)
    ensures WrapFree(banks, l)
    decreases |banks|
  {
    var rest := banks[1..];
    if num == 0 {
      RestDisjoint(banks, 0);
      RestDisjoint(banks, l);
      if !NoneAtZero(rest) { OneAtZero(rest); }
      if !WrapFree(rest, l) { ContainsLast(rest, l); }
    } else {
      RestValid(banks);
      assert !banks[0].Contains(l);
      WholeSpaceIsWrapFree(rest, num - 1, l);
    }
  }

  /** A plan without error tiles a prefix of the range, for disjoint banks in any order, if and only if
      no bank at address 0 follows one that contains the last address of the range at the top of the
      address space. */
  lemma {:induction false} TilesExactly(banks: seq<Bank>, f: nat, l: nat)
    requires ValidBanks(banks) && f <= l < ADDRESSES && Fill(banks, f, l).Some?
    ensures WrapFree(banks, l) <==>
      forall a: nat :: Selected(banks, Fill(banks, f, l).value, a) <==> f <= a < Reach(banks, f, l)
  {
    hide Selected, WrapFree, Fill, Reach;
    if WrapFree(banks, l) {
      forall a: nat ensures Selected(banks, Fill(banks, f, l).value, a) <==> f <= a < Reach(banks, f, l) {
        SelectionTilesPrefix(banks, f, l, a);
      }
    } else {
      WrapSelectsZero(banks, f, l);
    }
  }
}
