/**
 Reading from a floppy disk: where a block lies, and the loop that reads a range of blocks track by
 track with retries (cmd_fdc.c).
 */
module Floppy {
  import opened DivMod

  /** Sectors per track, heads, tracks, and the bytes in a sector. */
  datatype Geometry = Geometry(sect: nat, heads: nat, tracks: nat, size: nat) {
    predicate Valid() {
      0 < sect < 256 && 0 < heads <= 2 && 0 < tracks <= 256 && size > 0
    }

    function Blocks(): nat {
      tracks * (sect * heads)
    }

    function Bytes(n: nat): nat {
      n * size
    }

    /** The blocks left on the track of a block, that block included. */
    function Left(block: nat): (n: nat)
      requires Valid()
      ensures n > 0
    {
      sect - block % sect
    }

    /** The registers that select the sector of a block; they are 8 bits wide and sectors count
        from 1. */
    function PlaceOf(block: nat): (p: Place)
      requires Valid()
    {
      Place(block / (sect * heads) % 256, block % (sect * heads) / sect % 256, SectorOf(block))
    }

    function SectorOf(block: nat): nat
      requires Valid()
    {
      (block % (sect * heads) % sect + 1) % 256
    }

    predicate HasPlace(p: Place) {
      p.track < tracks && p.head < heads && 1 <= p.sector <= sect
    }

    /** The number of the block at a place, track after track and one head after the other. */
    function BlockAt(p: Place): nat
      requires p.sector >= 1
    {
      p.track * (sect * heads) + p.head * sect + (p.sector - 1)
    }
  }

  datatype Place = Place(track: nat, head: nat, sector: nat)

  /** Every place holds the block with its number. */
  lemma {:induction false} PlaceOfBlockAt(g: Geometry, p: Place)
    requires g.Valid() && g.HasPlace(p)
    ensures g.BlockAt(p) < g.Blocks() && g.PlaceOf(g.BlockAt(p)) == p
  {
    var m, s := g.sect * g.heads, p.sector - 1;
    MulBelow(p.head, g.heads, g.sect, s);
    MulBelow(p.track, g.tracks, m, p.head * g.sect + s);
    DivModOf(p.track, m, p.head * g.sect + s);
    DivModOf(p.head, g.sect, s);
  }

  /** Every block of the disk is at the place its registers select. */
  lemma {:induction false} BlockAtPlaceOf(g: Geometry, block: nat)
    requires g.Valid() && block < g.Blocks()
    ensures g.HasPlace(g.PlaceOf(block)) && g.BlockAt(g.PlaceOf(block)) == block
  {
    var a, b, c := Decompose(block, g.tracks, g.heads, g.sect);
    assert g.PlaceOf(block) == Place(a, b, c + 1) by {
      assert a % 256 == a && b % 256 == b && (c + 1) % 256 == c + 1;
    }
  }

  /** Behind the last sector of a track under one head come those under the next head, and behind those
      under the last head the next track. */
  lemma {:induction false} NextSide(g: Geometry, block: nat)
    requires g.Valid() && block + g.sect < g.Blocks()
    ensures g.PlaceOf(0) == Place(0, 0, 1)
    ensures var p := g.PlaceOf(block);
      g.PlaceOf(block + g.sect) == if p.head + 1 < g.heads then p.(head := p.head + 1) else Place(p.track + 1, 0, p.sector)
  {
    PlaceOfBlockAt(g, Place(0, 0, 1));
    BlockAtPlaceOf(g, block);
    BlockAtPlaceOf(g, block + g.sect);
    var p, q := g.PlaceOf(block), g.PlaceOf(block + g.sect);
    var next := if p.head + 1 < g.heads then p.(head := p.head + 1) else Place(p.track + 1, 0, p.sector);
    NextNumber(g, p, next);
    hide Geometry.PlaceOf;
    if p.head + 1 == g.heads {
      LastTrack(g, p, block + g.sect);
    }
    PlaceOfBlockAt(g, next);
  }

  lemma NextNumber(g: Geometry, p: Place, next: Place)
    requires g.Valid() && g.HasPlace(p)
    requires next == if p.head + 1 < g.heads then p.(head := p.head + 1) else Place(p.track + 1, 0, p.sector)
    ensures g.BlockAt(next) == g.BlockAt(p) + g.sect
  {
    var m := g.sect * g.heads;
    assert (p.track + 1) * m == p.track * m + m && (p.head + 1) * g.sect == p.head * g.sect + g.sect;
    if p.head + 1 == g.heads {
      assert m == (p.head + 1) * g.sect;
    }
  }

  lemma LastTrack(g: Geometry, p: Place, block: nat)
    requires g.Valid() && g.HasPlace(p) && block == g.BlockAt(p) + g.sect < g.Blocks() && p.head + 1 == g.heads
    ensures p.track + 1 < g.tracks
  {
    var m := g.sect * g.heads;
    NextNumber(g, p, Place(p.track + 1, 0, p.sector));
    assert block == (p.track + 1) * m + (p.sector - 1);
  }

  lemma {:induction false} Decompose(block: nat, tracks: nat, heads: nat, sect: nat) returns (a: nat, b: nat, c: nat)
    requires sect > 0 && heads > 0 && block < tracks * (sect * heads)
    ensures var m := sect * heads;
      m > 0 && a == block / m && b == block % m / sect && c == block % m % sect
    ensures a < tracks && b < heads && c < sect && block == a * (sect * heads) + b * sect + c
  {
    var m := sect * heads;
    MulAtLeast(heads, 1, sect);
    a, b, c := block / m, block % m / sect, block % m % sect;
    QuotientBelow(block, tracks, m);
    Divided(block, m);
    QuotientBelow(block % m, heads, sect);
    Divided(block % m, sect);
  }

  lemma {:induction false} Shifted(block: nat, i: nat, sect: nat, heads: nat)
    requires sect > 0 && heads > 0 && block % sect + i < sect
    ensures var m := sect * heads;
      && m > 0 && (block + i) / m == block / m && (block + i) % m == block % m + i
      && (block % m + i) / sect == block % m / sect && (block % m + i) % sect == block % m % sect + i
      && block % m % sect == block % sect
  {
    ModOfMultiple(block, sect, heads);
    var m := sect * heads;
    Divided(block, m);
    UnitEnd(block % m, sect, heads);
    assert heads * sect == m;
    ModAdd(block, i, m);
    ModAdd(block % m, i, sect);
  }

  /** The blocks behind a block are behind it on its track, up to the end of the track. */
  lemma {:induction false} SameTrack(g: Geometry, block: nat, i: nat)
    requires g.Valid() && block % g.sect + i < g.sect
    ensures var p := g.PlaceOf(block); g.PlaceOf(block + i) == p.(sector := p.sector + i)
  {
    Shifted(block, i, g.sect, g.heads);
    SectorIs(g, block);
    SectorIs(g, block + i);
    ModAdd(block, i, g.sect);
    hide Geometry.SectorOf;
  }

  type Disk = Place -> seq<bv8>

  ghost predicate Formatted(g: Geometry, disk: Disk) {
    forall p :: |disk(p)| == g.size
  }

  /** The contents of n blocks. */
  ghost function Image(g: Geometry, disk: Disk, block: nat, n: nat): seq<bv8>
    requires g.Valid()
  {
    if n == 0 then [] else Image(g, disk, block, n - 1) + disk(g.PlaceOf(block + n - 1))
  }

  /** The bytes that pass under a head from a sector on. */
  ghost function Passing(disk: Disk, p: Place, n: nat): seq<bv8> {
    if n == 0 then [] else Passing(disk, p, n - 1) + disk(p.(sector := p.sector + n - 1))
  }

  /** What is delivered is what passes under the head. */
  ghost predicate Delivers(delivery: (Place, nat) -> seq<bv8>, disk: Disk) {
    forall p, n :: delivery(p, n) == Passing(disk, p, n)
  }

  lemma {:induction false} ImageLength(g: Geometry, disk: Disk, block: nat, n: nat)
    requires g.Valid() && Formatted(g, disk)
    ensures |Image(g, disk, block, n)| == n * g.size
    decreases n
  {
    if n > 0 {
      ImageLength(g, disk, block, n - 1);
      assert n * g.size == (n - 1) * g.size + g.size;
    }
  }

  lemma {:induction false} ImageConcat(g: Geometry, disk: Disk, block: nat, n: nat, m: nat)
    requires g.Valid()
    ensures Image(g, disk, block, n + m) == Image(g, disk, block, n) + Image(g, disk, block + n, m)
    decreases m
  {
    if m == 0 {
      assert Image(g, disk, block, n) + [] == Image(g, disk, block, n);
    } else {
      ImageConcat(g, disk, block, n, m - 1);
    }
  }

  /** As long as the track goes on, the bytes that pass under the head are those of the blocks. */
  lemma {:induction false} PassingIsImage(g: Geometry, disk: Disk, block: nat, n: nat)
    requires g.Valid() && n <= g.Left(block)
    ensures Passing(disk, g.PlaceOf(block), n) == Image(g, disk, block, n)
    decreases n
  {
    if n > 0 {
      PassingIsImage(g, disk, block, n - 1);
      SameTrack(g, block, n - 1);
    }
  }

  // ---- what happens at the drive ----

  /** What the drive does with a command: it may refuse it, or break off a transfer after some bytes
      of any content. */
  datatype Answer = Works | Refused | TransferError(junk: seq<bv8>)

  datatype Event =
    | Seek(track: nat, answer: Answer)
    | Recalibrate(answer: Answer)
    | Read(headTrack: nat, place: Place, count: nat, answer: Answer)

  const FDC_RW_RETRIES: nat := 3
  const FDC_CAL_RETRIES: nat := 3

  function Errors(log: seq<Event>): (n: nat) {
    if log == [] then 0
    else
      var e := log[|log| - 1];
      Errors(log[..|log| - 1]) + if e.Read? && e.answer.TransferError? then 1 else 0
  }

  function Recalibrations(log: seq<Event>): (n: nat) {
    if log == [] then 0 else Recalibrations(log[..|log| - 1]) + if log[|log| - 1].Recalibrate? then 1 else 0
  }

  predicate AnyRefused(log: seq<Event>) {
    exists i :: 0 <= i < |log| && log[i].answer.Refused?
  }

  /** Every read stays on one track under one head, and the head is at that track. */
  predicate ReadsOnTrack(g: Geometry, log: seq<Event>) {
    forall i :: 0 <= i < |log| && log[i].Read? ==>
      log[i].headTrack == log[i].place.track && 1 <= log[i].place.sector && log[i].place.sector - 1 + log[i].count <= g.sect
  }

  lemma {:induction false} LogStep(log: seq<Event>, e: Event)
    ensures Errors(log + [e]) == Errors(log) + if e.Read? && e.answer.TransferError? then 1 else 0
    ensures Recalibrations(log + [e]) == Recalibrations(log) + if e.Recalibrate? then 1 else 0
    ensures AnyRefused(log + [e]) <==> AnyRefused(log) || e.answer.Refused?
  {
    var l := log + [e];
    assert l[..|log|] == log;
    assert l[|log|] == e;
    assert forall i :: 0 <= i < |log| ==> l[i] == log[i];
  }

  lemma {:induction false} TrackStep(g: Geometry, log: seq<Event>, e: Event)
    requires ReadsOnTrack(g, log)
    requires e.Read? ==> e.headTrack == e.place.track && 1 <= e.place.sector && e.place.sector - 1 + e.count <= g.sect
    ensures ReadsOnTrack(g, log + [e])
  {
    assert forall i :: 0 <= i < |log| ==> (log + [e])[i] == log[i];
  }

  lemma Nothing(g: Geometry, disk: Disk, block: nat)
    requires g.Valid()
    ensures Image(g, disk, block, 0) == [] && Errors([]) == Recalibrations([]) == 0 && !AnyRefused([])
  {
  }

  /** The drive and the controller's command block. */
  class Controller {
    const g: Geometry
    ghost const disk: Disk
    /** What the drive answers, command by command. */
    const drive: nat -> Answer
    /** The bytes it delivers. */
    const delivery: (Place, nat) -> seq<bv8>
    var blnr: nat
    var headTrack: nat
    var log: seq<Event>

    ghost predicate Valid()
      reads this
    {
      g.Valid() && Formatted(g, disk) && ReadsOnTrack(g, log) && Delivers(delivery, disk)
    }

    /** Moves the head to the track of the current block. */
    method FdcSeek() returns (ok: bool)
      requires Valid()
      modifies this`headTrack, this`log
      ensures Valid()
      ensures log == old(log) + [Seek(g.PlaceOf(blnr).track, drive(|old(log)|))]
      ensures Recalibrations(log) == Recalibrations(old(log))
      ensures Errors(log) == Errors(old(log)) && (AnyRefused(log) <==> AnyRefused(old(log)) || !ok)
      ensures ok ==> headTrack == g.PlaceOf(blnr).track
    {
      LogStep(log, Seek(g.PlaceOf(blnr).track, drive(|log|)));
      var a := drive(|log|);
      log := log + [Seek(g.PlaceOf(blnr).track, a)];
      ok := !a.Refused?;
      if ok {
        headTrack := g.PlaceOf(blnr).track;
      }
    }

    method FdcRecalibrate() returns (ok: bool)
      requires Valid()
      modifies this`headTrack, this`log
      ensures Valid()
      ensures log == old(log) + [Recalibrate(drive(|old(log)|))]
      ensures Recalibrations(log) == Recalibrations(old(log)) + 1
      ensures Errors(log) == Errors(old(log)) && (AnyRefused(log) <==> AnyRefused(old(log)) || !ok)
    {
      LogStep(log, Recalibrate(drive(|log|)));
      var a := drive(|log|);
      log := log + [Recalibrate(a)];
      ok := !a.Refused?;
      headTrack := 0;
    }

    /** Issues a read of n sectors from the current block on, and stores what the drive delivers;
        nothing can go wrong with a transfer of no bytes. */
    method ReadChunk(buffer: array<bv8>, offset: nat, n: nat, ghost end: nat) returns (answer: Answer)
      requires Valid() && headTrack == g.PlaceOf(blnr).track
      requires n <= g.Left(blnr) && offset + g.Bytes(n) <= end <= buffer.Length
      modifies this`log, buffer
      ensures Valid()
      ensures log == old(log) + [Read(headTrack, g.PlaceOf(blnr), n, answer)]
      ensures Errors(log) == Errors(old(log)) + if answer.TransferError? then 1 else 0
      ensures Recalibrations(log) == Recalibrations(old(log))
      ensures AnyRefused(log) <==> AnyRefused(old(log)) || answer.Refused?
      ensures answer == if drive(|old(log)|).TransferError? && n == 0 then Works else drive(|old(log)|)
      ensures answer.Works? ==> buffer[..offset + g.Bytes(n)] == old(buffer[..offset]) + Image(g, disk, blnr, n)
      ensures buffer[..offset] == old(buffer[..offset]) && buffer[end..] == old(buffer[end..])
    {
      hide Image, Passing, Errors, Recalibrations, AnyRefused, ReadsOnTrack, Geometry.PlaceOf, Formatted, Geometry.Blocks;
      ghost var size := g.Bytes(n);
      var p := g.PlaceOf(blnr);
      answer := drive(|log|);
      if answer.TransferError? && n == 0 {
        answer := Works;
      }
      LogStep(log, Read(headTrack, p, n, answer));
      SectorRegister(g, blnr);
      TrackStep(g, log, Read(headTrack, p, n, answer));
      log := log + [Read(headTrack, p, n, answer)];
      match answer
      case Works =>
        PassingIsImage(g, disk, blnr, n);
        ImageLength(g, disk, blnr, n);
        Transfer(buffer, offset, delivery(p.(track := headTrack), n));
        assert buffer[..offset + size] == buffer[..offset] + buffer[offset..offset + size];
      case TransferError(junk) =>
        if n > 0 { LongEnough(n, g.size); }
        var k := if |junk| < g.Bytes(n) then |junk| else g.Bytes(n) - 1;
        Transfer(buffer, offset, junk[..k]);
      case Refused =>
    }

    /** The same, for the chunk that follows those stored since block `start`. */
    method ReadNext(buffer: array<bv8>, offset: nat, n: nat, ghost start: nat, ghost end: nat) returns (answer: Answer)
      requires Valid() && headTrack == g.PlaceOf(blnr).track && start <= blnr
      requires n <= g.Left(blnr) && offset + g.Bytes(n) <= end <= buffer.Length
      requires buffer[..offset] == Image(g, disk, start, blnr - start)
      modifies this`log, buffer
      ensures Valid()
      ensures Errors(log) == Errors(old(log)) + if answer.TransferError? then 1 else 0
      ensures Recalibrations(log) == Recalibrations(old(log))
      ensures AnyRefused(log) <==> AnyRefused(old(log)) || answer.Refused?
      ensures answer.Works? ==> buffer[..offset + g.Bytes(n)] == Image(g, disk, start, blnr - start + n)
      ensures buffer[..offset] == old(buffer[..offset]) && buffer[end..] == old(buffer[end..])
    {
      hide Image, Errors, Recalibrations, AnyRefused, ReadsOnTrack, Formatted, Delivers, Geometry.Bytes, Geometry.PlaceOf, Geometry.Left;
      ImageConcat(g, disk, start, blnr - start, n);
      answer := ReadChunk(buffer, offset, n, end);
    }

    /** Counts a transfer error: some are followed by another try at once, every fifth by one after a
        recalibration, and the last one by none. */
    method Retry(rw0: nat, cal0: nat) returns (ok: bool, rw: nat, cal: nat)
      requires Valid() && Errors(log) == 5 * cal0 + rw0 + 1 && !AnyRefused(log) && Recalibrations(log) == cal0
      requires rw0 <= FDC_RW_RETRIES + 1 && cal0 <= FDC_CAL_RETRIES + 1
      requires headTrack == g.PlaceOf(blnr).track
      modifies this`headTrack, this`log
      ensures Valid() && Errors(log) == old(Errors(log))
      ensures ok ==> !AnyRefused(log) && Errors(log) == 5 * cal + rw && headTrack == g.PlaceOf(blnr).track
      ensures Recalibrations(log) == if Errors(log) == 25 then 4 else Errors(log) / 5
      ensures ok ==> rw <= FDC_RW_RETRIES + 1 && cal <= FDC_CAL_RETRIES + 1
      ensures !ok ==> AnyRefused(log) || Errors(log) == 25
    {
      hide Errors, Recalibrations, AnyRefused, ReadsOnTrack, Formatted, Delivers, Geometry.PlaceOf;
      ok, rw, cal := true, rw0 + 1, cal0;
      if rw0 > FDC_RW_RETRIES {
        cal := cal + 1;
        if cal0 > FDC_CAL_RETRIES {
          return false, rw, cal;
        }
        ok := FdcRecalibrate();
        if ok {
          rw := 0;
          ok := FdcSeek();
        }
      }
    }

    /** Reads the given number of blocks from the current one on. */
    method FdcReadData(buffer: array<bv8>, blocks0: nat) returns (ok: bool)
      requires Valid() && log == [] && g.Bytes(blocks0) <= buffer.Length
      modifies this, buffer
      ensures Valid()
      ensures ok ==> buffer[..g.Bytes(blocks0)] == Image(g, disk, old(blnr), blocks0) && blnr == old(blnr) + blocks0
      ensures buffer[g.Bytes(blocks0)..] == old(buffer[g.Bytes(blocks0)..])
      ensures ok <==> !AnyRefused(log) && Errors(log) <= 24
      ensures Errors(log) <= 25 && Recalibrations(log) == if Errors(log) == 25 then 4 else Errors(log) / 5
    {
      hide Image, Errors, Recalibrations, AnyRefused, ReadsOnTrack, Formatted, Delivers, Passing, Geometry.Bytes, Geometry.PlaceOf,
        Geometry.Blocks, Geometry.Left, Geometry.Valid;
      Split(g, blocks0, blocks0, 0);
      ghost var start, total, last := blnr, g.Bytes(blocks0), old(buffer[g.Bytes(blocks0)..]);
      assert Image(g, disk, blnr, 0) == [] && Errors(log) == Recalibrations(log) == 0 && !AnyRefused(log) by { Nothing(g, disk, blnr); }
      var retriesrw: nat, retriescal: nat := 0, 0;
      var offset, blocks := 0, blocks0;
      ok := FdcSeek();
      if !ok {
        return;
      }
      var readblk := g.Left(blnr);
      if readblk > blocks {
        readblk := blocks;
      }
      while true
        invariant Valid() && 0 <= blocks <= blocks0 && blnr == start + (blocks0 - blocks)
        invariant readblk == if g.Left(blnr) > blocks then blocks else g.Left(blnr)
        invariant headTrack == g.PlaceOf(blnr).track
        invariant offset == g.Bytes(blocks0 - blocks) && offset + g.Bytes(blocks) == total
        invariant buffer[..offset] == Image(g, disk, start, blocks0 - blocks)
        invariant buffer[total..] == last
        invariant !AnyRefused(log) && Errors(log) == 5 * retriescal + retriesrw && Recalibrations(log) == retriescal
        invariant retriesrw <= FDC_RW_RETRIES + 1 && retriescal <= FDC_CAL_RETRIES + 1
        decreases blocks, 25 - Errors(log)
      {
        Split(g, blocks0, blocks, readblk);
        var answer := ReadNext(buffer, offset, readblk, start, total);
        match answer
        case Refused =>
          return false;
        case TransferError(_) =>
          ok, retriesrw, retriescal := Retry(retriesrw, retriescal);
          if !ok {
            return;
          }
        case Works =>
          offset := offset + g.Bytes(readblk);
          var block := blnr;
          blnr := blnr + readblk;
          blocks := blocks - readblk;
          if blocks == 0 {
            return true;
          }
          NextTrack(g, block);
          readblk := g.sect;
          if readblk > blocks {
            readblk := blocks;
          }
          ok := FdcSeek();
          if !ok {
            return;
          }
      }
    }
  }

  lemma {:induction false} SectorRegister(g: Geometry, block: nat)
    requires g.Valid()
    ensures g.PlaceOf(block).sector == block % g.sect + 1
  {
    SectorIs(g, block);
    hide Geometry.SectorOf;
  }

  lemma {:induction false} SectorIs(g: Geometry, block: nat)
    requires g.Valid()
    ensures g.SectorOf(block) == block % g.sect + 1
  {
    ModOfMultiple(block, g.sect, g.heads);
    var s := block % g.sect + 1;
    assert g.SectorOf(block) == s % 256 && s < 256;
  }

  lemma LongEnough(n: nat, size: nat)
    requires n > 0 && size > 0
    ensures n * size > 0
  {
  }

  lemma Split(g: Geometry, total: nat, blocks: nat, n: nat)
    requires n <= blocks <= total
    ensures g.Bytes(total - blocks) + g.Bytes(n) == g.Bytes(total - (blocks - n))
    ensures g.Bytes(total - blocks) + g.Bytes(n) + g.Bytes(blocks - n) == g.Bytes(total)
  {
    assert (total - blocks) * g.size + n * g.size + (blocks - n) * g.size == total * g.size;
  }

  /** A chunk that does not end the transfer ends its track. */
  lemma {:induction false} NextTrack(g: Geometry, block: nat)
    requires g.Valid()
    ensures g.Left(block + g.Left(block)) == g.sect
  {
    assert block + g.Left(block) == (block / g.sect + 1) * g.sect;
    DivModOf(block / g.sect + 1, g.sect, 0);
  }

  method Transfer(buffer: array<bv8>, offset: nat, data: seq<bv8>)
    requires offset + |data| <= buffer.Length
    modifies buffer
    ensures buffer[offset..offset + |data|] == data
    ensures forall i :: 0 <= i < offset || offset + |data| <= i < buffer.Length ==> buffer[i] == old(buffer[i])
  {
    var i := 0;
    while i < |data|
      invariant 0 <= i <= |data|
      invariant buffer[offset..offset + i] == data[..i]
      invariant forall j :: 0 <= j < offset || offset + i <= j < buffer.Length ==> buffer[j] == old(buffer[j])
    {
      buffer[offset + i] := data[i];
      i := i + 1;
    }
  }
}
