/**
 The RAM test of cmd_mem.c: the walking-ones address test, the increment/decrement test and one
 whole iteration, run against a memory whose address decoding is arbitrary and whose cells may hold
 stuck bits.  Offsets, the address mask and data words are mathematical integers; data words are
 below 2^32 and the bit-wise complement of `v` is written 2^32 - 1 - v.
 */
module MemTest {
  import opened DivMod

  /** The number of data lines of the memory under test, and the number of data words. */
  const WIDTH: nat := 32
  const WORDS: nat := 0x1_0000_0000

  /** The two patterns of the walking-ones test. */
  const PATTERN: nat := 0xAAAA_AAAA
  const ANTI_PATTERN: nat := 0x5555_5555

  lemma {:induction false} WordCount()
    ensures Pow2(WIDTH) == WORDS
  {
    assert Pow2(8) == 0x100;
    assert Pow2(16) == 0x1_0000;
    assert Pow2(24) == 0x100_0000;
  }

  /** The bit-wise complement of a data word. */
  function Complement(v: nat): (c: nat)
    requires v < WORDS
    ensures c < WORDS
  {
    WORDS - 1 - v
  }

  /** The condition of one storage bit. */
  datatype BitState = Good | StuckAt0 | StuckAt1

  /** A cell: the state of its storage bits, least significant first. */
  type Cell = seq<BitState>

  /** What storage bit `b` makes of the low bit of `v`. */
  function LowBit(v: nat, b: BitState): (r: nat)
    ensures r <= 1
  {
    match b case Good => v % 2 case StuckAt0 => 0 case StuckAt1 => 1
  }

  /** What a cell that last stored `v` returns when it is read. */
  function Faulty(v: nat, cell: Cell): (r: nat)
    ensures r < Pow2(|cell|)
  {
    if cell == [] then 0
    else
      LowBit(v, cell[0]) + 2 * Faulty(v / 2, cell[1..])
  }

  ghost predicate Sound(cell: Cell) {
    forall i :: 0 <= i < |cell| ==> cell[i] == Good
  }

  lemma {:induction false} SoundCellReturnsValue(v: nat, cell: Cell)
    requires v < Pow2(|cell|) && Sound(cell)
    ensures Faulty(v, cell) == v
  {
    if cell != [] {
      SoundCellReturnsValue(v / 2, cell[1..]);
    }
  }

  lemma {:induction false} SplitBit(low: nat, high: nat)
    requires low <= 1
    ensures (low + 2 * high) % 2 == low && (low + 2 * high) / 2 == high
  {
  }

  lemma {:induction false} FaultyBits(v: nat, cell: Cell)
    requires cell != []
    ensures Faulty(v, cell) % 2 == LowBit(v, cell[0])
    ensures Faulty(v, cell) / 2 == Faulty(v / 2, cell[1..])
  {
    var low, high := LowBit(v, cell[0]), Faulty(v / 2, cell[1..]);
    assert Faulty(v, cell) == low + 2 * high;
    SplitBit(low, high);
  }

  /** A cell that returns complementary words for complementary stored words has no stuck bit. */
  lemma {:induction false} ComplementsExposeStuckBits(v: nat, nv: nat, r: nat, nr: nat, cell: Cell)
    requires v + nv == r + nr == Pow2(|cell|) - 1
    requires Faulty(v, cell) == r && Faulty(nv, cell) == nr
    ensures Sound(cell) && v == r
    decreases |cell|
  {
    if cell != [] {
      assert r % 2 == LowBit(v, cell[0]) && r / 2 == Faulty(v / 2, cell[1..]) by { FaultyBits(v, cell); }
      assert nr % 2 == LowBit(nv, cell[0]) && nr / 2 == Faulty(nv / 2, cell[1..]) by { FaultyBits(nv, cell); }
      ComplementBits(v, nv, Pow2(|cell| - 1));
      ComplementBits(r, nr, Pow2(|cell| - 1));
      assert cell[0] == Good;
      ComplementsExposeStuckBits(v / 2, nv / 2, r / 2, nr / 2, cell[1..]);
      assert forall i :: 0 < i < |cell| ==> cell[i] == cell[1..][i - 1];
    }
  }

  lemma {:induction false} ComplementBits(v: nat, nv: nat, half: nat)
    requires v + nv == 2 * half - 1
    ensures v % 2 != nv % 2 && v / 2 + nv / 2 == half - 1
  {
  }

  /** The largest offset below `bound` that selects cell `c`, or -1: the last one to have written
      the cell when a loop has run up to `bound`. */
  function LastWriter(decode: seq<nat>, c: nat, bound: nat): (w: int)
    requires bound <= |decode|
    ensures -1 <= w < bound
    ensures w >= 0 ==> decode[w] == c
    ensures forall i :: w < i < bound ==> decode[i] != c
  {
    if bound == 0 then -1
    else if decode[bound - 1] == c then bound - 1
    else LastWriter(decode, c, bound - 1)
  }

  ghost predicate InjectiveBelow(decode: seq<nat>, n: nat)
    requires n <= |decode|
  {
    forall i, j :: 0 <= i < j < n ==> decode[i] != decode[j]
  }

  /** No two positions of the list `offsets` select the same cell. */
  ghost predicate InjectiveOn(decode: seq<nat>, offsets: seq<nat>)
    requires forall i :: 0 <= i < |offsets| ==> offsets[i] < |decode|
  {
    forall i, j :: 0 <= i < j < |offsets| ==> decode[offsets[i]] != decode[offsets[j]]
  }

  /** The offsets visited by a walking-ones loop that starts at `offset`: doubled at each step, as
      long as the mask bit is set. */
  function Walk(mask: nat, offset: nat): (os: seq<nat>)
    requires offset > 0
    ensures forall i :: 0 <= i < |os| ==> offset <= os[i] <= mask
    decreases mask + 1 - offset
  {
    if (mask / offset) % 2 == 1 then [offset] + Walk(mask, 2 * offset) else []
  }

  predicate MaskBit(mask: nat, k: nat) {
    (mask / Pow2(k)) % 2 == 1
  }

  lemma {:induction false} WalkElements(mask: nat, e: nat)
    ensures forall k :: 0 <= k < |Walk(mask, Pow2(e))| ==>
      Walk(mask, Pow2(e))[k] == Pow2(e + k) && MaskBit(mask, e + k)
    ensures !MaskBit(mask, e + |Walk(mask, Pow2(e))|)
    decreases mask + 1 - Pow2(e)
  {
    if MaskBit(mask, e) {
      WalkElements(mask, e + 1);
      var w, t := Walk(mask, Pow2(e)), Walk(mask, Pow2(e + 1));
      assert w == [Pow2(e)] + t;
      forall k | 0 <= k < |w|
        ensures w[k] == Pow2(e + k) && MaskBit(mask, e + k)
      {
        if k > 0 { assert w[k] == t[k - 1] == Pow2(e + 1 + (k - 1)); }
      }
    }
  }

  lemma {:induction false} Pow2Increasing(i: nat, j: nat)
    requires i < j
    ensures Pow2(i) < Pow2(j)
  {
    if i + 1 < j { Pow2Increasing(i, j - 1); }
  }

  /** The offsets of the walking-ones test are 0 and exactly the powers of two in the low run of
      ones of the mask; they are pairwise distinct. */
  lemma {:induction false} WalkIsLowRunOfOnes(mask: nat)
    ensures forall k: nat :: k < |Walk(mask, 1)| ==> MaskBit(mask, k)
    ensures !MaskBit(mask, |Walk(mask, 1)|)
    ensures forall k :: 0 <= k < |Walk(mask, 1)| ==> Walk(mask, 1)[k] == Pow2(k)
    ensures forall i, j :: 0 <= i < j < |Walk(mask, 1)| ==> Walk(mask, 1)[i] != Walk(mask, 1)[j]
  {
    assert Pow2(0) == 1;
    WalkElements(mask, 0);
    var w := Walk(mask, 1);
    forall k: nat | k < |w| ensures MaskBit(mask, k) && w[k] == Pow2(k) { assert w[k] == Pow2(0 + k); }
    forall i, j | 0 <= i < j < |w| ensures w[i] != w[j] { Pow2Increasing(i, j); }
  }

  /** The address decoding (which cell each word offset selects: an arbitrary function) and the
      storage cells of a memory. */
  datatype Wiring = Wiring(decode: seq<nat>, cells: seq<Cell>) {
    ghost predicate Valid() {
      && (forall o :: 0 <= o < |decode| ==> decode[o] < |cells|)
      && (forall c :: 0 <= c < |cells| ==> |cells[c]| == WIDTH)
    }

    ghost predicate SoundBelow(n: nat)
      requires Valid() && n <= |decode|
    {
      forall o :: 0 <= o < n ==> Sound(cells[decode[o]])
    }

    ghost predicate SoundOn(offsets: seq<nat>)
      requires Valid() && forall i :: 0 <= i < |offsets| ==> offsets[i] < |decode|
    {
      forall i :: 0 <= i < |offsets| ==> Sound(cells[decode[offsets[i]]])
    }

    ghost predicate Good(n: nat)
      requires Valid() && n <= |decode|
    {
      InjectiveBelow(decode, n) && SoundBelow(n)
    }

    function Last(c: nat, bound: nat): int
      requires bound <= |decode|
    {
      LastWriter(decode, c, bound)
    }

    /** What the cells hold after words 0..o-1 were filled with 1, 2, 3, ... */
    ghost predicate Filled(stored: seq<nat>, o: nat)
      requires o <= |decode|
    {
      forall c :: 0 <= c < |stored| ==> (Last(c, o) >= 0 ==> stored[c] == Last(c, o) + 1)
    }

    /** ... after words 0..o-1 of the first n were then inverted. */
    ghost predicate Inverted(stored: seq<nat>, o: nat, n: nat)
      requires o <= n <= |decode| && n < WORDS
    {
      forall c :: 0 <= c < |stored| ==>
        if Last(c, o) >= 0 then stored[c] == Complement(Last(c, o) + 1)
        else Last(c, n) >= 0 ==> stored[c] == Last(c, n) + 1
    }

    /** ... and after words 0..o-1 were finally zeroed. */
    ghost predicate Zeroed(stored: seq<nat>, o: nat, n: nat)
      requires o <= n <= |decode| && n < WORDS
    {
      forall c :: 0 <= c < |stored| ==>
        if Last(c, o) >= 0 then stored[c] == 0
        else Last(c, n) >= 0 ==> stored[c] == Complement(Last(c, n) + 1)
    }

    /** What the first check at word `i` tells, if `i` is the first word to select its cell: the
        cell turns the pattern of its last word into the pattern of its first one. */
    ghost predicate FirstRead(i: nat, n: nat)
      requires Valid() && i < n <= |decode| && n < WORDS
    {
      var c := decode[i];
      Last(c, i) == -1 ==> Last(c, n) >= 0 && Faulty(Last(c, n) + 1, cells[c]) == i + 1
    }

    /** What the second check tells about it. */
    ghost predicate FirstInvertedRead(i: nat, n: nat)
      requires Valid() && i < n <= |decode| && n < WORDS
    {
      var c := decode[i];
      Last(c, i) == -1 ==> Last(c, n) >= 0 && Faulty(Complement(Last(c, n) + 1), cells[c]) == Complement(i + 1)
    }

    ghost predicate FirstReads(o: nat, n: nat)
      requires Valid() && o <= n <= |decode| && n < WORDS
    {
      forall i :: 0 <= i < o ==> FirstRead(i, n)
    }

    ghost predicate FirstInvertedReads(o: nat, n: nat)
      requires Valid() && o <= n <= |decode| && n < WORDS
    {
      forall i :: 0 <= i < o ==> FirstInvertedRead(i, n)
    }

    lemma {:induction false} FirstWriterExists(i: nat) returns (f: nat)
      requires i < |decode|
      ensures f <= i && decode[f] == decode[i] && Last(decode[f], f) == -1
    {
      f := i;
      while Last(decode[f], f) != -1
        invariant f <= i && decode[f] == decode[i]
      {
        f := Last(decode[f], f);
      }
    }

    /** Both checks passed on every word: the decoding is injective and no cell has a stuck bit. */
    lemma {:induction false} ChecksImplyGood(n: nat)
      requires Valid() && n <= |decode| && n < WORDS
      requires FirstReads(n, n) && FirstInvertedReads(n, n)
      ensures Good(n)
    {
      forall i | 0 <= i < n
        ensures Sound(cells[decode[i]]) && Last(decode[i], n) == i
      {
        var f := FirstWriterExists(i);
        var last := Last(decode[f], n);
        assert FirstRead(f, n) && FirstInvertedRead(f, n);
        WordCount();
        ComplementsExposeStuckBits(last + 1, Complement(last + 1), f + 1, Complement(f + 1), cells[decode[f]]);
      }
      forall i, j | 0 <= i < j < n ensures decode[i] != decode[j] {
        assert Last(decode[i], n) == i;
      }
    }

    lemma {:induction false} LastStep(c: nat, o: nat)
      requires o < |decode|
      ensures Last(c, o + 1) == if decode[o] == c then o else Last(c, o)
    {
    }

    lemma InvertStart(s: seq<nat>, n: nat)
      requires Valid() && |s| == |cells| && n <= |decode| && n < WORDS && Filled(s, n)
      ensures Inverted(s, 0, n) && FirstReads(0, n)
    {
    }

    lemma ZeroStart(s: seq<nat>, n: nat)
      requires Valid() && |s| == |cells| && n <= |decode| && n < WORDS && Inverted(s, n, n)
      ensures Zeroed(s, 0, n) && FirstInvertedReads(0, n)
    {
    }

    lemma {:induction false} InvertStep(s: seq<nat>, o: nat, n: nat)
      requires Valid() && |s| == |cells| && o < n <= |decode| && n < WORDS
      requires Inverted(s, o, n)
      ensures Inverted(s[decode[o] := Complement(o + 1)], o + 1, n)
    {
      forall c | 0 <= c < |s| ensures Last(c, o + 1) == if decode[o] == c then o else Last(c, o) { LastStep(c, o); }
    }

    lemma {:induction false} ZeroStep(s: seq<nat>, o: nat, n: nat)
      requires Valid() && |s| == |cells| && o < n <= |decode| && n < WORDS
      requires Zeroed(s, o, n)
      ensures Zeroed(s[decode[o] := 0], o + 1, n)
    {
      forall c | 0 <= c < |s| ensures Last(c, o + 1) == if decode[o] == c then o else Last(c, o) { LastStep(c, o); }
    }

    lemma {:induction false} FirstReadStep(s: seq<nat>, o: nat, n: nat)
      requires Valid() && |s| == |cells| && o < n <= |decode| && n < WORDS
      requires Inverted(s, o, n) && FirstReads(o, n)
      requires Faulty(s[decode[o]], cells[decode[o]]) == o + 1
      ensures FirstReads(o + 1, n)
    {
    }

    lemma {:induction false} FirstInvertedReadStep(s: seq<nat>, o: nat, n: nat)
      requires Valid() && |s| == |cells| && o < n <= |decode| && n < WORDS
      requires Zeroed(s, o, n) && FirstInvertedReads(o, n)
      requires Faulty(s[decode[o]], cells[decode[o]]) == Complement(o + 1)
      ensures FirstInvertedReads(o + 1, n)
    {
    }

    /** With injective decoding and sound cells every word reads back what was last written. */
    lemma {:induction false} GoodReads(stored: seq<nat>, i: nat, n: nat)
      requires Valid() && i < n <= |decode| && Good(n)
      requires |stored| == |cells| && forall c :: 0 <= c < |stored| ==> stored[c] < WORDS
      ensures Faulty(stored[decode[i]], cells[decode[i]]) == stored[decode[i]]
      ensures Last(decode[i], n) == i && Last(decode[i], i) == -1
    {
      WordCount();
      SoundCellReturnsValue(stored[decode[i]], cells[decode[i]]);
    }

    lemma {:induction false} GoodPassesFirstCheck(s: seq<nat>, o: nat, n: nat)
      requires Valid() && |s| == |cells| && o < n <= |decode| && n < WORDS
      requires Good(n) && Inverted(s, o, n) && forall c :: 0 <= c < |s| ==> s[c] < WORDS
      ensures Faulty(s[decode[o]], cells[decode[o]]) == o + 1
    {
      GoodReads(s, o, n);
    }

    lemma {:induction false} GoodPassesSecondCheck(s: seq<nat>, o: nat, n: nat)
      requires Valid() && |s| == |cells| && o < n <= |decode| && n < WORDS
      requires Good(n) && Zeroed(s, o, n) && forall c :: 0 <= c < |s| ==> s[c] < WORDS
      ensures Faulty(s[decode[o]], cells[decode[o]]) == Complement(o + 1)
    {
      GoodReads(s, o, n);
    }

    /** No other offset of the list selects the cell of `t`. */
    ghost predicate NoAlias(t: nat, os: seq<nat>)
      requires t < |decode| && forall i :: 0 <= i < |os| ==> os[i] < |decode|
    {
      forall i :: 0 <= i < |os| && os[i] != t ==> decode[os[i]] != decode[t]
    }

    lemma {:induction false} ProbeDetectsAliases(before: seq<nat>, t: nat, os: seq<nat>)
      requires Valid() && |before| == |cells| && t < |decode|
      requires forall i :: 0 <= i < |os| ==> os[i] < |decode|
      requires forall i :: 0 <= i < |os| ==> before[decode[os[i]]] == PATTERN
      requires SoundOn(os)
      ensures NoAlias(t, os) <==>
        var after := before[decode[t] := ANTI_PATTERN];
        forall i :: 0 <= i < |os| && os[i] != t ==> Faulty(after[decode[os[i]]], cells[decode[os[i]]]) == PATTERN
    {
      var after := before[decode[t] := ANTI_PATTERN];
      forall i | 0 <= i < |os|
        ensures Faulty(after[decode[os[i]]], cells[decode[os[i]]]) == after[decode[os[i]]]
      {
        WordCount();
        SoundCellReturnsValue(after[decode[os[i]]], cells[decode[os[i]]]);
      }
    }

    lemma {:induction false} NoAliasMeansInjective(os: seq<nat>)
      requires |decode| > 0 && forall i :: 0 <= i < |os| ==> 0 < os[i] < |decode|
      requires forall i, j :: 0 <= i < j < |os| ==> os[i] != os[j]
      ensures InjectiveOn(decode, [0] + os) <==> NoAlias(0, os) && forall i :: 0 <= i < |os| ==> NoAlias(os[i], os)
    {
      if NoAlias(0, os) && forall i :: 0 <= i < |os| ==> NoAlias(os[i], os) { Distinct(os); }
      if InjectiveOn(decode, [0] + os) { Unaliased(os); }
    }

    lemma {:induction false} Distinct(os: seq<nat>)
      requires |decode| > 0 && forall i :: 0 <= i < |os| ==> 0 < os[i] < |decode|
      requires forall i, j :: 0 <= i < j < |os| ==> os[i] != os[j]
      requires NoAlias(0, os) && forall i :: 0 <= i < |os| ==> NoAlias(os[i], os)
      ensures InjectiveOn(decode, [0] + os)
    {
      var all := [0] + os;
      forall i, j | 0 <= i < j < |all| ensures decode[all[i]] != decode[all[j]] {
        assert all[j] == os[j - 1];
        if i > 0 { assert all[i] == os[i - 1] && NoAlias(os[i - 1], os); }
      }
    }

    lemma {:induction false} Unaliased(os: seq<nat>)
      requires |decode| > 0 && forall i :: 0 <= i < |os| ==> 0 < os[i] < |decode|
      requires InjectiveOn(decode, [0] + os)
      ensures NoAlias(0, os) && forall i :: 0 <= i < |os| ==> NoAlias(os[i], os)
    {
      var all := [0] + os;
      assert forall i :: 0 <= i < |os| ==> all[i + 1] == os[i];
      assert all[0] == 0;
      forall i | 0 <= i < |os| ensures NoAlias(os[i], os) {
        forall j | 0 <= j < |os| && os[j] != os[i] ensures decode[os[j]] != decode[os[i]] {
          assert all[i + 1] == os[i] && all[j + 1] == os[j];
        }
      }
    }

    lemma {:induction false} GoodIsInjectiveOnWalk(mask: nat)
      requires Valid() && mask < |decode| && Good(mask + 1)
      ensures SoundOn(Walk(mask, 1)) && InjectiveOn(decode, [0] + Walk(mask, 1))
    {
      var os := Walk(mask, 1);
      WalkIsLowRunOfOnes(mask);
      forall i | 0 <= i < |os| ensures NoAlias(os[i], os) && NoAlias(0, os) { }
      NoAliasMeansInjective(os);
    }
  }

  class Memory {
    const wiring: Wiring
    /** The word last written to each cell. */
    const stored: array<nat>

    ghost predicate Valid()
      reads stored
    {
      && wiring.Valid()
      && stored.Length == |wiring.cells|
      && (forall c :: 0 <= c < stored.Length ==> stored[c] < WORDS)
    }

    constructor (wiring: Wiring, stored: array<nat>)
      requires wiring.Valid() && stored.Length == |wiring.cells|
      requires forall c :: 0 <= c < stored.Length ==> stored[c] < WORDS
      ensures Valid() && this.wiring == wiring && this.stored == stored
    {
      this.wiring, this.stored := wiring, stored;
    }

    /** The value of a read at word offset `o`. */
    function Read(o: nat): (r: nat)
      requires Valid() && o < |wiring.decode|
      reads stored
    {
      var c := wiring.decode[o];
      Faulty(stored[c], wiring.cells[c])
    }

    method Write(o: nat, v: nat)
      requires Valid() && o < |wiring.decode| && v < WORDS
      modifies stored
      ensures Valid()
      ensures stored[..] == old(stored[..])[wiring.decode[o] := v]
    {
      stored[wiring.decode[o]] := v;
    }

    /** First pass: afterwards every cell holds the number of its last writer. */
    method Fill(n: nat)
      requires Valid() && n <= |wiring.decode| && n < WORDS
      modifies stored
      ensures Valid() && wiring.Filled(stored[..], n)
    {
      var offset, pattern := 0, 1;
      while offset < n
        invariant 0 <= offset <= n && pattern == offset + 1
        invariant Valid() && wiring.Filled(stored[..], offset)
      {
        Write(offset, pattern);
        pattern, offset := pattern + 1, offset + 1;
      }
    }

    /** Second pass: word after word, a cell that still holds its writer's number gets the complement. It
        succeeds only if every word reads its own number. */
    method CheckAndInvert(n: nat) returns (pass: bool)
      requires Valid() && n <= |wiring.decode| && n < WORDS && wiring.Filled(stored[..], n)
      modifies stored
      ensures Valid()
      ensures pass ==> wiring.Inverted(stored[..], n, n) && wiring.FirstReads(n, n)
      ensures wiring.Good(n) ==> pass
    {
      hide Wiring.Filled, Wiring.Inverted, Wiring.FirstReads, Wiring.Good, Faulty, Complement;
      wiring.InvertStart(stored[..], n);
      var offset, pattern := 0, 1;
      while offset < n
        invariant 0 <= offset <= n && pattern == offset + 1
        invariant Valid() && wiring.Inverted(stored[..], offset, n) && wiring.FirstReads(offset, n)
      {
        var temp := Read(offset);
        if temp != pattern {
          if wiring.Good(n) { wiring.GoodPassesFirstCheck(stored[..], offset, n); }
          return false;
        }
        wiring.InvertStep(stored[..], offset, n);
        wiring.FirstReadStep(stored[..], offset, n);
        Write(offset, Complement(pattern));
        pattern, offset := pattern + 1, offset + 1;
      }
      return true;
    }

    /** Third pass: the same for the complements, with 0 written behind them. */
    method CheckAndZero(n: nat) returns (pass: bool)
      requires Valid() && n <= |wiring.decode| && n < WORDS && wiring.Inverted(stored[..], n, n)
      modifies stored
      ensures Valid()
      ensures pass ==> wiring.Zeroed(stored[..], n, n) && wiring.FirstInvertedReads(n, n)
      ensures wiring.Good(n) ==> pass
    {
      hide Wiring.Zeroed, Wiring.Inverted, Wiring.FirstInvertedReads, Wiring.Good, Faulty, Complement;
      wiring.ZeroStart(stored[..], n);
      var offset, pattern := 0, 1;
      while offset < n
        invariant 0 <= offset <= n && pattern == offset + 1
        invariant Valid() && wiring.Zeroed(stored[..], offset, n) && wiring.FirstInvertedReads(offset, n)
      {
        var temp := Read(offset);
        if temp != Complement(pattern) {
          if wiring.Good(n) { wiring.GoodPassesSecondCheck(stored[..], offset, n); }
          return false;
        }
        wiring.ZeroStep(stored[..], offset, n);
        wiring.FirstInvertedReadStep(stored[..], offset, n);
        Write(offset, 0);
        pattern, offset := pattern + 1, offset + 1;
      }
      return true;
    }

    /** The three passes over the words 0..n-1 succeed exactly when distinct words
        select distinct cells and no selected cell has a stuck bit; the cells are then zero. */
    method IncrementDecrementTest(n: nat) returns (pass: bool)
      requires Valid() && n <= |wiring.decode| && n < WORDS
      modifies stored
      ensures Valid()
      ensures pass <==> InjectiveBelow(wiring.decode, n) && wiring.SoundBelow(n)
      ensures pass ==> forall o :: 0 <= o < n ==> stored[wiring.decode[o]] == 0 && Read(o) == 0
    {
      Fill(n);
      pass := CheckAndInvert(n);
      if pass {
        pass := CheckAndZero(n);
        if pass {
          wiring.ChecksImplyGood(n);
          forall o | 0 <= o < n ensures stored[wiring.decode[o]] == 0 && Read(o) == 0 {
            wiring.GoodReads(stored[..], o, n);
          }
        }
      }
    }

    /** Reads back the walking-ones offsets; tells whether all of them but `skip` hold the pattern. */
    method CheckPattern(mask: nat, skip: nat) returns (pass: bool)
      requires Valid() && mask < |wiring.decode|
      ensures pass <==> forall i :: 0 <= i < |Walk(mask, 1)| && Walk(mask, 1)[i] != skip ==> Read(Walk(mask, 1)[i]) == PATTERN
    {
      ghost var os := Walk(mask, 1);
      ghost var k := 0;
      var offset := 1;
      while (mask / offset) % 2 == 1
        invariant 0 < offset && 0 <= k <= |os| && os[k..] == Walk(mask, offset)
        invariant forall i :: 0 <= i < k && os[i] != skip ==> Read(os[i]) == PATTERN
        decreases mask + 1 - offset
      {
        assert os[k] == os[k..][0] == offset && os[k + 1..] == os[k..][1..];
        var temp := Read(offset);
        if temp != PATTERN && offset != skip {
          return false;
        }
        offset := 2 * offset;
        k := k + 1;
      }
      assert |os[k..]| == 0;
      return true;
    }

    /** Afterwards the cell behind every visited offset holds PATTERN. */
    method WritePattern(mask: nat)
      requires Valid() && mask < |wiring.decode|
      modifies stored
      ensures Valid()
      ensures forall i :: 0 <= i < |Walk(mask, 1)| ==> stored[wiring.decode[Walk(mask, 1)[i]]] == PATTERN
    {
      ghost var os := Walk(mask, 1);
      ghost var k := 0;
      var offset := 1;
      while (mask / offset) % 2 == 1
        invariant 0 < offset && 0 <= k <= |os| && os[k..] == Walk(mask, offset)
        invariant Valid() && forall i :: 0 <= i < k ==> stored[wiring.decode[os[i]]] == PATTERN
        decreases mask + 1 - offset
      {
        assert os[k] == os[k..][0] == offset && os[k + 1..] == os[k..][1..];
        Write(offset, PATTERN);
        offset := 2 * offset;
        k := k + 1;
      }
      assert |os[k..]| == 0;
    }

    /** Writes the anti-pattern at word `t`, checks the pattern at the other visited offsets, and
        restores it: on sound cells this passes exactly when none of them is an alias of `t`. */
    method Probe(mask: nat, t: nat) returns (pass: bool)
      requires Valid() && mask < |wiring.decode| && t <= mask
      requires forall i :: 0 <= i < |Walk(mask, 1)| ==> stored[wiring.decode[Walk(mask, 1)[i]]] == PATTERN
      modifies stored
      ensures Valid()
      ensures wiring.SoundOn(Walk(mask, 1)) ==> (pass <==> wiring.NoAlias(t, Walk(mask, 1)))
      ensures pass ==> forall i :: 0 <= i < |Walk(mask, 1)| ==> stored[wiring.decode[Walk(mask, 1)[i]]] == PATTERN
    {
      ghost var os, before := Walk(mask, 1), stored[..];
      Write(t, ANTI_PATTERN);
      pass := CheckPattern(mask, t);
      if wiring.SoundOn(os) {
        wiring.ProbeDetectsAliases(before, t, os);
      }
      if pass {
        Write(t, PATTERN);
      }
    }

    /** On sound cells the walking-ones test passes exactly when the decoding is injective on offset
        0 together with the visited powers of two. */
    method WalkingOnesTest(mask: nat) returns (pass: bool)
      requires Valid() && mask < |wiring.decode|
      modifies stored
      ensures Valid()
      ensures wiring.SoundOn(Walk(mask, 1)) ==>
        (pass <==> InjectiveOn(wiring.decode, [0] + Walk(mask, 1)))
    {
      hide InjectiveOn, Wiring.SoundOn;
      ghost var os := Walk(mask, 1);
      WritePattern(mask);
      pass := Probe(mask, 0);
      ghost var k := 0;
      var testOffset := 1;
      while pass && (mask / testOffset) % 2 == 1
        invariant 0 < testOffset && 0 <= k <= |os| && os[k..] == Walk(mask, testOffset)
        invariant Valid()
        invariant pass ==> forall i :: 0 <= i < |os| ==> stored[wiring.decode[os[i]]] == PATTERN
        invariant wiring.SoundOn(os) && pass ==>
          wiring.NoAlias(0, os) && forall i :: 0 <= i < k ==> wiring.NoAlias(os[i], os)
        invariant wiring.SoundOn(os) && !pass ==>
          !wiring.NoAlias(0, os) || exists i :: 0 <= i < |os| && !wiring.NoAlias(os[i], os)
        decreases pass, mask + 1 - testOffset
      {
        assert os[k] == os[k..][0] == testOffset && os[k + 1..] == os[k..][1..];
        pass := Probe(mask, testOffset);
        testOffset := 2 * testOffset;
        k := k + 1;
      }
      assert pass ==> |os[k..]| == 0;
      WalkIsLowRunOfOnes(mask);
      wiring.NoAliasMeansInjective(os);
    }

    /** One iteration of the test on the words 0..mask passes exactly when the decoding is injective
        on them and no selected cell has a stuck bit: the walking-ones test rejects no good memory. */
    method Iteration(mask: nat) returns (pass: bool)
      requires Valid() && mask < |wiring.decode| && mask + 1 < WORDS
      modifies stored
      ensures Valid()
      ensures pass <==> InjectiveBelow(wiring.decode, mask + 1) && wiring.SoundBelow(mask + 1)
      ensures pass ==> forall o :: 0 <= o <= mask ==> stored[wiring.decode[o]] == 0 && Read(o) == 0
    {
      pass := WalkingOnesTest(mask);
      if wiring.Good(mask + 1) {
        wiring.GoodIsInjectiveOnWalk(mask);
      }
      if pass {
        pass := IncrementDecrementTest(mask + 1);
      }
    }
  }
}
