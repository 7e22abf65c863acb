/**
 Booting an image: where the parts of a multi-file image are, and copying in chunks so that the
 watchdog can be served (cmd_bootm.c).
 */
module Bootm {
  import opened Common

  const CHUNKSZ: nat := 64 * 1024

  // ---- the layout ----

  /** A number as a 32-bit word in network byte order. */
  function Word(n: nat): (s: seq<byte>)
    requires n < U32
    ensures |s| == 4
  {
    [n / 0x100_0000, n / 0x1_0000 % 256, n / 0x100 % 256, n % 256]
  }

  function WordAt(m: seq<byte>, at: nat): (n: nat)
    requires at + 4 <= |m|
    ensures n < U32
  {
    var a: nat, b: nat, c: nat, d: nat := m[at], m[at + 1], m[at + 2], m[at + 3];
    a * 0x100_0000 + b * 0x1_0000 + c * 0x100 + d
  }

  function Padding(n: nat): (k: nat)
    ensures k < 4 && (n + k) % 4 == 0
  {
    (4 - n % 4) % 4
  }

  function Padded(image: seq<byte>): seq<byte> {
    image + seq(Padding(|image|), i => 0)
  }

  ghost predicate Images(images: seq<seq<byte>>) {
    forall i :: 0 <= i < |images| ==> 0 < |images[i]| < U32
  }

  /** The sizes of the images and a zero. */
  ghost function Sizes(images: seq<seq<byte>>): (s: seq<byte>)
    requires Images(images)
    ensures |s| == 4 * (|images| + 1)
  {
    if images == [] then Word(0) else Word(|images[0]|) + Sizes(images[1..])
  }

  ghost function Bodies(images: seq<seq<byte>>): seq<byte> {
    if images == [] then [] else Padded(images[0]) + Bodies(images[1..])
  }

  /** A multi-file image: the sizes, a terminating zero, and the images, each padded to whole words. */
  ghost function MultiImage(images: seq<seq<byte>>): seq<byte>
    requires Images(images)
  {
    Sizes(images) + Bodies(images)
  }

  /** The most significant octet comes first. */
  lemma WordOrder()
    ensures Word(0x1234_5678) == [0x12, 0x34, 0x56, 0x78]
  {
  }

  lemma WordValue(n: nat)
    requires n < U32
    ensures WordAt(Word(n), 0) == n
  {
    var hi, lo := n / 0x1_0000, n % 0x1_0000;
    assert n / 0x100_0000 == hi / 0x100 && n / 0x1_0000 % 256 == hi % 0x100;
    assert n / 0x100 % 256 == lo / 0x100 && n % 256 == lo % 0x100;
  }

  lemma {:induction false} WordRead(n: nat, a: seq<byte>, b: seq<byte>)
    requires n < U32
    ensures WordAt(a + Word(n) + b, |a|) == n
  {
    var w := Word(n);
    var m := a + w + b;
    assert m[|a|] == w[0] && m[|a| + 1] == w[1] && m[|a| + 2] == w[2] && m[|a| + 3] == w[3];
    WordValue(n);
    hide Word;
  }

  /** The list of sizes holds each image's size at its place, and a zero behind them. */
  lemma {:induction false} SizeRead(images: seq<seq<byte>>, a: seq<byte>, b: seq<byte>, i: nat)
    requires Images(images) && i <= |images|
    ensures WordAt(a + Sizes(images) + b, |a| + 4 * i) == if i < |images| then |images[i]| else 0
    decreases i
  {
    if images == [] {
      WordRead(0, a, b);
    } else {
      var w, rest := Word(|images[0]|), Sizes(images[1..]);
      assert a + Sizes(images) + b == a + w + (rest + b);
      assert a + Sizes(images) + b == (a + w) + rest + b;
      if i == 0 {
        WordRead(|images[0]|, a, rest + b);
      } else {
        SizeRead(images[1..], a + w, b, i - 1);
      }
    }
  }

  // ---- finding the images ----

  /** The first zero word at index i or behind, if the memory holds one. */
  function Terminator(m: seq<byte>, base: nat, i: nat): (r: Option<nat>)
    ensures r.Some? ==> i <= r.value && base + 4 * r.value + 4 <= |m|
    decreases |m| - base - 4 * i
  {
    if base + 4 * i + 4 > |m| then None
    else if WordAt(m, base + 4 * i) == 0 then Some(i)
    else Terminator(m, base, i + 1)
  }

  /** Counts the sizes behind the first one, starting from an address for one size and the zero. */
  method SkipSizes(m: seq<byte>, base: nat) returns (data: nat)
    requires Terminator(m, base, 1).Some?
    ensures data == base + 4 * Terminator(m, base, 1).value + 4
  {
    data := base + 8;
    var i := 1;
    while WordAt(m, base + 4 * i) != 0
      invariant 1 <= i && base + 4 * i + 4 <= |m| && data == base + 4 * i + 4
      invariant Terminator(m, base, i) == Terminator(m, base, 1)
      decreases |m| - base - 4 * i
    {
      data := data + 4;
      i := i + 1;
    }
  }

  /** The first image of a multi-file image: its address and size. */
  method KernelImage(m: seq<byte>, base: nat) returns (data: nat, len: nat)
    requires Terminator(m, base, 1).Some?
    ensures data == base + 4 * Terminator(m, base, 1).value + 4 && len == WordAt(m, base)
  {
    len := WordAt(m, base);
    data := SkipSizes(m, base);
  }

  /** The second image, if there is one; no address otherwise. */
  method RamdiskImage(m: seq<byte>, base: nat) returns (data: nat, len: nat)
    requires Terminator(m, base, 1).Some?
    ensures Terminator(m, base, 1).value == 1 ==> data == len == 0
    ensures Terminator(m, base, 1).value > 1 ==>
      && data == base + 4 * Terminator(m, base, 1).value + 4 + WordAt(m, base) + Padding(WordAt(m, base))
      && len == WordAt(m, base + 4)
  {
    if WordAt(m, base + 4) == 0 {
      return 0, 0;
    }
    var tail := WordAt(m, base) % 4;
    data := SkipSizes(m, base);
    data := data + WordAt(m, base);
    if tail > 0 {
      data := data + (4 - tail);
    }
    len := WordAt(m, base + 4);
  }

  lemma {:induction false} TerminatorIs(m: seq<byte>, base: nat, i: nat, n: nat)
    requires i <= n && base + 4 * n + 4 <= |m| && WordAt(m, base + 4 * n) == 0
    requires forall j :: i <= j < n ==> WordAt(m, base + 4 * j) != 0
    ensures Terminator(m, base, i) == Some(n)
    decreases n - i
  {
    if i < n { TerminatorIs(m, base, i + 1, n); }
  }

  /** The sizes of a multi-file image in memory. */
  lemma {:induction false} SizesFound(m: seq<byte>, base: nat, images: seq<seq<byte>>, before: seq<byte>, behind: seq<byte>)
    requires Images(images) && |images| >= 1 && |before| == base && m == before + MultiImage(images) + behind
    ensures Terminator(m, base, 1) == Some(|images|) && WordAt(m, base) == |images[0]|
    ensures |images| >= 2 ==> WordAt(m, base + 4) == |images[1]|
  {
    var b := Bodies(images) + behind;
    assert m == before + Sizes(images) + b;
    forall i | 0 <= i <= |images|
      ensures base + 4 * i + 4 <= |m| && WordAt(m, base + 4 * i) == if i < |images| then |images[i]| else 0
    {
      SizeRead(images, before, b, i);
    }
    TerminatorIs(m, base, 1, |images|);
    assert WordAt(m, base + 4 * 0) == |images[0]|;
    assert |images| >= 2 ==> WordAt(m, base + 4 * 1) == |images[1]|;
  }

  lemma SliceOf(a: seq<byte>, b: seq<byte>, c: seq<byte>)
    ensures (a + b + c)[|a|..|a| + |b|] == b
  {
  }

  /** Wherever a multi-file image lies in memory, its first image is found. */
  lemma {:induction false} KernelFound(m: seq<byte>, base: nat, images: seq<seq<byte>>, before: seq<byte>, behind: seq<byte>)
    requires Images(images) && |images| >= 1 && |before| == base && m == before + MultiImage(images) + behind
    ensures Terminator(m, base, 1) == Some(|images|)
    ensures var data, len := base + 4 * |images| + 4, WordAt(m, base);
      data + len <= |m| && m[data..data + len] == images[0]
  {
    SizesFound(m, base, images, before, behind);
    var pad := seq(Padding(|images[0]|), i => 0);
    var a := before + Sizes(images);
    var c := pad + Bodies(images[1..]) + behind;
    assert m == a + images[0] + c;
    SliceOf(a, images[0], c);
  }

  /** And so is its second one. */
  lemma {:induction false} RamdiskFound(m: seq<byte>, base: nat, images: seq<seq<byte>>, before: seq<byte>, behind: seq<byte>)
    requires Images(images) && |images| >= 2 && |before| == base && m == before + MultiImage(images) + behind
    ensures Terminator(m, base, 1) == Some(|images|)
    ensures var first, len := WordAt(m, base), WordAt(m, base + 4);
      var data := base + 4 * |images| + 4 + first + Padding(first);
      data + len <= |m| && m[data..data + len] == images[1]
  {
    SizesFound(m, base, images, before, behind);
    var pad := seq(Padding(|images[1]|), i => 0);
    var a := before + Sizes(images) + Padded(images[0]);
    var c := pad + Bodies(images[1..][1..]) + behind;
    assert Bodies(images) == Padded(images[0]) + (Padded(images[1]) + Bodies(images[1..][1..]));
    assert m == a + images[1] + c;
    SliceOf(a, images[1], c);
  }

  // ---- copying in chunks ----

  /** The memory after memmove. */
  function Moved(m: seq<byte>, to: nat, from: nat, n: nat): (r: seq<byte>)
    requires to + n <= |m| && from + n <= |m|
    ensures |r| == |m|
    ensures forall a :: to <= a < to + n ==> r[a] == m[a - to + from]
    ensures forall a :: 0 <= a < |m| && !(to <= a < to + n) ==> r[a] == m[a]
  {
    m[..to] + m[from..from + n] + m[to + n..]
  }

  function MovedInChunks(m: seq<byte>, to: nat, from: nat, n: nat): (r: seq<byte>)
    requires to + n <= |m| && from + n <= |m|
    ensures |r| == |m|
    decreases n
  {
    if n == 0 then m
    else
      var k := if n > CHUNKSZ then CHUNKSZ else n;
      MovedInChunks(Moved(m, to, from, k), to + k, from + k, n - k)
  }

  lemma MovedIs(r: seq<byte>, m: seq<byte>, to: nat, from: nat, n: nat)
    requires to + n <= |m| && from + n <= |m| && |r| == |m|
    requires forall a :: to <= a < to + n ==> r[a] == m[a - to + from]
    requires forall a :: 0 <= a < |m| && !(to <= a < to + n) ==> r[a] == m[a]
    ensures r == Moved(m, to, from, n)
  {
    var q := Moved(m, to, from, n);
    forall a | 0 <= a < |m| ensures r[a] == q[a] { }
  }

  method Memmove(memory: array<byte>, to: nat, from: nat, n: nat)
    requires to + n <= memory.Length && from + n <= memory.Length
    modifies memory
    ensures memory[..] == Moved(old(memory[..]), to, from, n)
  {
    hide Moved;
    if to <= from {
      var i := 0;
      while i < n
        invariant 0 <= i <= n
        invariant forall a :: to <= a < to + i ==> memory[a] == old(memory[a - to + from])
        invariant forall a :: 0 <= a < memory.Length && !(to <= a < to + i) ==> memory[a] == old(memory[a])
      {
        memory[to + i] := memory[from + i];
        i := i + 1;
      }
    } else {
      var i := n;
      while i > 0
        invariant 0 <= i <= n
        invariant forall a :: to + i <= a < to + n ==> memory[a] == old(memory[a - to + from])
        invariant forall a :: 0 <= a < memory.Length && !(to + i <= a < to + n) ==> memory[a] == old(memory[a])
      {
        i := i - 1;
        memory[to + i] := memory[from + i];
      }
    }
    MovedIs(memory[..], old(memory[..]), to, from, n);
  }

  /** The loop that copies an image and serves the watchdog after each chunk. */
  method CopyInChunks(memory: array<byte>, to0: nat, from0: nat, n: nat)
    requires to0 + n <= memory.Length && from0 + n <= memory.Length
    modifies memory
    ensures memory[..] == MovedInChunks(old(memory[..]), to0, from0, n)
    ensures to0 <= from0 || from0 + n <= to0 || n <= 0x1_0000 ==> memory[..] == Moved(old(memory[..]), to0, from0, n)
  {
    hide Moved, MovedInChunks;
    var l, to, from := n, to0, from0;
    while l > 0
      invariant 0 <= l <= n && to == to0 + (n - l) && from == from0 + (n - l)
      invariant MovedInChunks(memory[..], to, from, l) == MovedInChunks(old(memory[..]), to0, from0, n)
    {
      var tail := if l > CHUNKSZ then CHUNKSZ else l;
      ChunkStep(memory[..], to, from, l);
      Memmove(memory, to, from, tail);
      to := to + tail;
      from := from + tail;
      l := l - tail;
    }
    NoChunk(memory[..], to, from);
    if to0 <= from0 || from0 + n <= to0 || n <= CHUNKSZ {
      ChunksAreOneMove(old(memory[..]), to0, from0, n);
    }
  }

  lemma ChunkStep(m: seq<byte>, to: nat, from: nat, n: nat)
    requires to + n <= |m| && from + n <= |m| && n > 0
    ensures var k := if n > CHUNKSZ then CHUNKSZ else n;
      MovedInChunks(m, to, from, n) == MovedInChunks(Moved(m, to, from, k), to + k, from + k, n - k)
  {
  }

  lemma NoChunk(m: seq<byte>, to: nat, from: nat)
    requires to <= |m| && from <= |m|
    ensures MovedInChunks(m, to, from, 0) == m
  {
  }

  /** When the destination is not above the source, or the regions are disjoint, or there is only one
      chunk, the chunks add up to one move. */
  lemma {:induction false} ChunksAreOneMove(m: seq<byte>, to: nat, from: nat, n: nat)
    requires to + n <= |m| && from + n <= |m|
    requires to <= from || from + n <= to || n <= CHUNKSZ
    ensures MovedInChunks(m, to, from, n) == Moved(m, to, from, n)
    decreases n
  {
    hide MovedInChunks, Moved;
    if n > 0 {
      ChunkStep(m, to, from, n);
    }
    if n > CHUNKSZ {
      MoveSplit(m, to, from, CHUNKSZ, n);
      ChunksAreOneMove(Moved(m, to, from, CHUNKSZ), to + CHUNKSZ, from + CHUNKSZ, n - CHUNKSZ);
    } else if n > 0 {
      NoChunk(Moved(m, to, from, n), to + n, from + n);
    } else {
      NoChunk(m, to, from);
      MovedIs(m, m, to, from, 0);
    }
  }

  lemma {:induction false} MoveSplit(m: seq<byte>, to: nat, from: nat, k: nat, n: nat)
    requires to + n <= |m| && from + n <= |m| && k <= n && (to <= from || from + n <= to)
    ensures Moved(Moved(m, to, from, k), to + k, from + k, n - k) == Moved(m, to, from, n)
  {
    var m' := Moved(m, to, from, k);
    var r, q := Moved(m', to + k, from + k, n - k), Moved(m, to, from, n);
    hide Moved;
    forall a | 0 <= a < |m| ensures r[a] == q[a] {
      if to <= a < to + n { assert r[a] == m[a - to + from]; } else { assert r[a] == m[a]; }
    }
  }

  lemma {:induction false} OutsideStays(m: seq<byte>, to: nat, from: nat, n: nat, a: nat)
    requires to + n <= |m| && from + n <= |m| && a < |m| && !(to <= a < to + n)
    ensures MovedInChunks(m, to, from, n)[a] == m[a]
    decreases n
  {
    if n > 0 {
      var k := if n > CHUNKSZ then CHUNKSZ else n;
      OutsideStays(Moved(m, to, from, k), to + k, from + k, n - k, a);
    }
  }

  predicate Zero(m: seq<byte>, from: nat, n: nat)
    requires from + n <= |m|
  {
    forall a :: from <= a < from + n ==> m[a] == 0
  }

  /** Chunks of zeros arrive as zeros. */
  lemma {:induction false} ZerosMove(m: seq<byte>, to: nat, from: nat, n: nat, a: nat)
    requires to + n <= |m| && from + n <= |m| && Zero(m, from, n) && to <= a < to + n
    ensures MovedInChunks(m, to, from, n)[a] == 0
    decreases n
  {
    var k := if n > CHUNKSZ then CHUNKSZ else n;
    var m' := Moved(m, to, from, k);
    if a < to + k {
      OutsideStays(m', to + k, from + k, n - k, a);
    } else {
      ZerosMove(m', to + k, from + k, n - k, a);
    }
  }

  ghost predicate AlwaysOneMove(size: nat, to: nat, from: nat, n: nat)
    requires to + n <= size && from + n <= size
  {
    forall m: seq<byte> :: |m| == size ==> MovedInChunks(m, to, from, n) == Moved(m, to, from, n)
  }

  /** Only the byte at `mark` is set. */
  function Marked(size: nat, mark: nat): (m: seq<byte>)
    ensures |m| == size && forall a :: 0 <= a < size ==> m[a] == if a == mark then 1 else 0
  {
    seq(size, a => if a == mark then 1 else 0)
  }

  lemma {:induction false} FirstChunk(m: seq<byte>, to: nat, from: nat, j: nat)
    requires to + CHUNKSZ <= |m| && from + j < |m| && to <= from + j && CHUNKSZ <= j
    requires forall a :: 0 <= a < |m| && a != from + j ==> m[a] == 0
    ensures var m' := Moved(m, to, from, CHUNKSZ);
      && (forall a :: 0 <= a < |m| && a != from + j ==> m'[a] == 0)
      && (from + j < to + CHUNKSZ ==> m'[from + j] == 0)
  {
    var m' := Moved(m, to, from, CHUNKSZ);
    assert from + j < to + CHUNKSZ ==> m'[from + j] == m[from + j - to + from];
  }

  lemma Multiple(j: nat, d: nat)
    requires d > 0 && j >= d + CHUNKSZ && (j == d || j % CHUNKSZ == 0)
    ensures (j - CHUNKSZ) % CHUNKSZ == 0 && CHUNKSZ <= j - CHUNKSZ
  {
    var q := j / CHUNKSZ;
    assert j == q * CHUNKSZ;
  }

  /** A byte that only a later chunk gets to read is overwritten before that. */
  lemma {:induction false} MarkIsLost(m: seq<byte>, to: nat, from: nat, n: nat, j: nat)
    requires to + n <= |m| && from + n <= |m| && from < to <= from + j && CHUNKSZ <= j < n
    requires j == to - from || j % CHUNKSZ == 0
    requires forall a :: 0 <= a < |m| && a != from + j ==> m[a] == 0
    ensures MovedInChunks(m, to, from, n)[to + j] == 0
    decreases n
  {
    hide MovedInChunks, Moved;
    var m' := Moved(m, to, from, CHUNKSZ);
    ChunkStep(m, to, from, n);
    FirstChunk(m, to, from, j);
    if from + j < to + CHUNKSZ {
      ZerosMove(m', to + CHUNKSZ, from + CHUNKSZ, n - CHUNKSZ, to + j);
    } else {
      assert (j - CHUNKSZ) % CHUNKSZ == 0 && CHUNKSZ <= j - CHUNKSZ by { Multiple(j, to - from); }
      MarkIsLost(m', to + CHUNKSZ, from + CHUNKSZ, n - CHUNKSZ, j - CHUNKSZ);
    }
  }

  /** The copy loop does what one memmove does, whatever the memory holds, exactly in those cases. */
  lemma {:induction false} ChunksAreOneMoveExactly(size: nat, to: nat, from: nat, n: nat)
    requires to + n <= size && from + n <= size
    ensures AlwaysOneMove(size, to, from, n) <==> to <= from || from + n <= to || n <= 0x1_0000
  {
    if to <= from || from + n <= to || n <= CHUNKSZ {
      forall m: seq<byte> | |m| == size ensures MovedInChunks(m, to, from, n) == Moved(m, to, from, n) {
        ChunksAreOneMove(m, to, from, n);
      }
    } else {
      var j := if to - from > CHUNKSZ then to - from else CHUNKSZ;
      var m := Marked(size, from + j);
      MarkIsLost(m, to, from, n, j);
      assert Moved(m, to, from, n)[to + j] == 1;
    }
  }
}
