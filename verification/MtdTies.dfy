/**
 Sorting a partition list in again: partitions at the same offset are mirrored, all others stay
 where they are.
 */
module MtdTies {
  import opened Common
  import opened MtdParse

  /** The order of a partition list: by offset, and none but the first at offset 0. */
  ghost predicate Ordered(parts: seq<Part>) {
    && (forall i, j :: 0 <= i < j < |parts| ==> parts[i].offset <= parts[j].offset)
    && (forall i :: 0 < i < |parts| ==> parts[i].offset > 0)
  }

  /** The first and the last position with the same offset as position i. */
  function FirstTie(parts: seq<Part>, i: nat): (f: nat)
    requires i < |parts|
    ensures f <= i
  {
    if i > 0 && parts[i - 1].offset == parts[i].offset then FirstTie(parts, i - 1) else i
  }

  function LastTie(parts: seq<Part>, i: nat): (l: nat)
    requires i < |parts|
    ensures i <= l < |parts|
    decreases |parts| - i
  {
    if i + 1 < |parts| && parts[i + 1].offset == parts[i].offset then LastTie(parts, i + 1) else i
  }

  /** Position i mirrored among the partitions with the same offset. */
  function Mirror(parts: seq<Part>, i: nat): (m: nat)
    requires i < |parts|
    ensures m < |parts|
  {
    FirstTie(parts, i) + LastTie(parts, i) - i
  }

  ghost predicate Mirrored(parts: seq<Part>, q: seq<Part>) {
    |q| == |parts| && forall i :: 0 <= i < |parts| ==> q[i] == parts[Mirror(parts, i)]
  }

  lemma {:induction false} FirstTieOffset(parts: seq<Part>, i: nat)
    requires i < |parts|
    ensures forall k :: FirstTie(parts, i) <= k <= i ==> parts[k].offset == parts[i].offset
    ensures FirstTie(parts, i) > 0 ==> parts[FirstTie(parts, i) - 1].offset != parts[i].offset
  {
    if i > 0 && parts[i - 1].offset == parts[i].offset { FirstTieOffset(parts, i - 1); }
  }

  lemma {:induction false} LastTieOffset(parts: seq<Part>, i: nat)
    requires i < |parts|
    ensures forall k :: i <= k <= LastTie(parts, i) ==> parts[k].offset == parts[i].offset
    decreases |parts| - i
  {
    if i + 1 < |parts| && parts[i + 1].offset == parts[i].offset { LastTieOffset(parts, i + 1); }
  }

  lemma {:induction false} MirrorOffset(parts: seq<Part>, i: nat)
    requires i < |parts|
    ensures parts[Mirror(parts, i)].offset == parts[i].offset
  {
    FirstTieOffset(parts, i);
    LastTieOffset(parts, i);
  }

  /** Adding a partition that belongs at the end puts it before those with its offset. */
  lemma {:induction false} SortAddLast(acc: seq<Part>, p: Part, a: nat)
    requires a <= |acc|
    requires forall i :: 0 <= i < a ==> acc[i].offset < p.offset
    requires forall i :: a <= i < |acc| ==> acc[i].offset == p.offset > 0
    ensures SortAdd(acc, p) == Some(acc[..a] + [p] + acc[a..])
    decreases |acc|
  {
    if acc == [] {
      assert acc[..a] + [p] + acc[a..] == [p];
    } else if a == 0 {
      assert acc[..a] + [p] + acc[a..] == [p] + acc;
    } else {
      SortAddLast(acc[1..], p, a - 1);
      assert acc[..a] + [p] + acc[a..] == [acc[0]] + (acc[1..][..a - 1] + [p] + acc[1..][a - 1..]);
    }
  }

  /** Where the ties of a new last partition begin. */
  function TieStart(front: seq<Part>, p: Part): nat {
    if front != [] && front[|front| - 1].offset == p.offset then FirstTie(front, |front| - 1) else |front|
  }

  lemma {:induction false} FirstTieFront(front: seq<Part>, p: Part, i: nat)
    requires i < |front|
    ensures FirstTie(front + [p], i) == FirstTie(front, i)
  {
    if i > 0 && front[i - 1].offset == front[i].offset { FirstTieFront(front, p, i - 1); }
  }

  lemma {:induction false} LastTieFront(front: seq<Part>, p: Part, i: nat)
    requires i < |front|
    ensures LastTie(front + [p], i) ==
      if LastTie(front, i) == |front| - 1 && front[|front| - 1].offset == p.offset then |front| else LastTie(front, i)
    decreases |front| - i
  {
    if i + 1 < |front| && front[i + 1].offset == front[i].offset { LastTieFront(front, p, i + 1); }
  }

  lemma {:induction false} InLastRun(front: seq<Part>, p: Part, i: nat)
    requires Ordered(front + [p]) && i < |front|
    ensures var a := TieStart(front, p);
      if i >= a then LastTie(front, i) == |front| - 1 && FirstTie(front, i) == a
      else LastTie(front, i) < a || p.offset != front[|front| - 1].offset
    decreases |front| - i
  {
    var n, a := |front|, TieStart(front, p);
    FirstTieOffset(front, n - 1);
    if i >= a {
      LastTieToEnd(front, i, n - 1);
      FirstTieFrom(front, i, a);
    } else if front[n - 1].offset == p.offset {
      LastTieOffset(front, i);
      assert (front + [p])[i].offset <= (front + [p])[a - 1].offset <= (front + [p])[a].offset;
    }
  }

  lemma {:induction false} LastTieToEnd(parts: seq<Part>, i: nat, n: nat)
    requires i <= n == |parts| - 1 && forall k :: i <= k <= n ==> parts[k].offset == parts[i].offset
    ensures LastTie(parts, i) == n
    decreases n - i
  {
    if i < n { LastTieToEnd(parts, i + 1, n); }
  }

  lemma {:induction false} FirstTieFrom(parts: seq<Part>, i: nat, a: nat)
    requires a <= i < |parts| && (forall k :: a <= k <= i ==> parts[k].offset == parts[i].offset)
    requires a > 0 ==> parts[a - 1].offset != parts[a].offset
    ensures FirstTie(parts, i) == a
  {
    if a < i { FirstTieFrom(parts, i - 1, a); }
  }

  /** Where the partitions before the last one are mirrored to, with it. */
  lemma {:induction false} MirrorFront(front: seq<Part>, p: Part, i: nat)
    requires Ordered(front + [p]) && i < |front|
    ensures var a := TieStart(front, p);
      Mirror(front + [p], i) == if i >= a then Mirror(front, i) + 1 else Mirror(front, i)
    ensures i >= TieStart(front, p) ==> Mirror(front, i) == TieStart(front, p) + |front| - 1 - i
  {
    hide Ordered, TieStart;
    FirstTieFront(front, p, i);
    LastTieFront(front, p, i);
    InLastRun(front, p, i);
    LastRunMeets(front, p, i);
  }

  lemma LastRunMeets(front: seq<Part>, p: Part, i: nat)
    requires i < |front|
    ensures TieStart(front, p) <= i ==> front[|front| - 1].offset == p.offset
    ensures front[|front| - 1].offset == p.offset ==> TieStart(front, p) < |front|
  {
  }

  lemma {:induction false} MirrorLast(front: seq<Part>, p: Part)
    requires Ordered(front + [p])
    ensures TieStart(front, p) <= |front| && Mirror(front + [p], |front|) == TieStart(front, p)
  {
    var parts, n, a := front + [p], |front|, TieStart(front, p);
    assert LastTie(parts, n) == n;
    if a < n {
      FirstTieOffset(front, n - 1);
      FirstTieFrom(parts, n, a);
    }
  }

  lemma {:induction false} MirrorStep(front: seq<Part>, p: Part, q: seq<Part>)
    requires Ordered(front + [p]) && Mirrored(front, q)
    ensures var a := TieStart(front, p); a <= |q| && Mirrored(front + [p], q[..a] + [p] + q[a..])
  {
    hide Ordered, Mirror, TieStart;
    var parts, n, a := front + [p], |front|, TieStart(front, p);
    MirrorLast(front, p);
    var r := q[..a] + [p] + q[a..];
    forall i | 0 <= i <= n ensures r[i] == parts[Mirror(parts, i)] {
      if i < n { MirrorFront(front, p, i); }
      if i > a {
        MirrorFront(front, p, i - 1);
        assert r[i] == q[i - 1];
      }
    }
  }

  /** Sorting an ordered list in again mirrors the partitions at equal offsets. */
  lemma {:induction false} SortAllMirrors(parts: seq<Part>)
    requires Ordered(parts)
    ensures SortAll(parts).Some? && Mirrored(parts, SortAll(parts).value)
    decreases |parts|
  {
    hide SortAll, Mirrored, Mirror, TieStart;
    if parts != [] {
      var n := |parts| - 1;
      var front, p := parts[..n], parts[n];
      assert parts == front + [p];
      SortAllMirrors(front);
      var q, a := SortAll(front).value, TieStart(front, p);
      MirrorStep(front, p, q);
      LastRunOffsets(front, p, q);
      SortAddLast(q, p, a);
      SortAllUnfold(parts);
    } else {
      NothingToSort();
    }
  }

  lemma SortAllUnfold(parts: seq<Part>)
    requires parts != []
    ensures var front := SortAll(parts[..|parts| - 1]);
      SortAll(parts) == if front.None? then None else SortAdd(front.value, parts[|parts| - 1])
  {
  }

  lemma NothingToSort()
    ensures SortAll([]) == Some([]) && Mirrored([], [])
  {
  }

  lemma {:induction false} RunOffsets(front: seq<Part>, p: Part)
    requires Ordered(front + [p])
    ensures var a := TieStart(front, p);
      && a <= |front|
      && (forall i :: 0 <= i < a ==> front[i].offset < p.offset)
      && (forall i :: a <= i < |front| ==> front[i].offset == p.offset > 0)
  {
    hide FirstTie;
    var parts, n := front + [p], |front|;
    assert parts[n] == p && forall i :: 0 <= i < n ==> parts[i] == front[i];
    if n > 0 && front[n - 1].offset == p.offset {
      var a := FirstTie(front, n - 1);
      FirstTieOffset(front, n - 1);
      assert a > 0 ==> parts[a - 1].offset <= parts[a].offset;
    } else if n > 0 {
      assert parts[n - 1].offset <= parts[n].offset;
    }
  }

  lemma {:induction false} LastRunOffsets(front: seq<Part>, p: Part, q: seq<Part>)
    requires Ordered(front + [p]) && Mirrored(front, q)
    ensures var a := TieStart(front, p);
      && (forall i :: 0 <= i < a ==> q[i].offset < p.offset)
      && (forall i :: a <= i < |q| ==> q[i].offset == p.offset > 0)
  {
    hide Mirror, TieStart, Ordered;
    RunOffsets(front, p);
    var a := TieStart(front, p);
    forall i | 0 <= i < |q|
      ensures q[i].offset == front[i].offset && (if i < a then front[i].offset < p.offset else front[i].offset == p.offset > 0)
    {
      MirrorOffset(front, i);
    }
  }

  lemma {:induction false} NoTies(parts: seq<Part>)
    requires forall i, j :: 0 <= i < j < |parts| ==> parts[i].offset != parts[j].offset
    ensures forall i :: 0 <= i < |parts| ==> Mirror(parts, i) == i
  {
  }

  /** The list is unchanged exactly when every run of equal offsets reads the same backwards; so it
      is whenever the offsets are distinct. */
  lemma {:induction false} UnchangedExactly(parts: seq<Part>)
    requires Ordered(parts)
    ensures SortAll(parts) == Some(parts) <==> forall i :: 0 <= i < |parts| ==> parts[i] == parts[Mirror(parts, i)]
    ensures (forall i, j :: 0 <= i < j < |parts| ==> parts[i].offset != parts[j].offset) ==> SortAll(parts) == Some(parts)
  {
    hide SortAll, Mirror;
    SortAllMirrors(parts);
    var q := SortAll(parts).value;
    if forall i :: 0 <= i < |parts| ==> parts[i] == parts[Mirror(parts, i)] {
      assert q == parts;
    }
    if forall i, j :: 0 <= i < j < |parts| ==> parts[i].offset != parts[j].offset {
      NoTies(parts);
      assert q == parts;
    }
  }
}
