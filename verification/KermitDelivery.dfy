/**
 Whole downloads: a stop-and-wait sender that repeats a packet until it sees its acknowledge, over a
 line that loses replies and damages packets, and the receiver at the other end.
 */
module KermitDelivery {
  import opened Common
  import opened KermitSpec
  import opened KermitFrames
  import opened KermitReceiver

  /** One transmission of the sender's current packet: what the line made of it, and whether the
      receiver's reply got back. */
  datatype Attempt =
    | Intact(noise: seq<byte>, long: bool, replySeen: bool)
    | Damaged(noise: seq<byte>, lenChar: byte, rest: seq<byte>, replySeen: bool)
    | BadHeader(noise: seq<byte>, head: seq<byte>, junk: seq<byte>, replySeen: bool)

  /** The sequence number of packet i. */
  function SeqOf(i: nat): byte {
    i % 64
  }

  /** What reaches the receiver. */
  function Input(a: Attempt, p: Packet, i: nat): seq<byte> {
    match a
    case Intact(noise, long, _) => noise + Frame(p, SeqOf(i), long)
    case Damaged(noise, lenChar, rest, _) => noise + [START_CHAR, lenChar, ToChar(SeqOf(i))] + rest
    case BadHeader(noise, head, junk, _) => noise + ([START_CHAR] + head) + junk
  }

  /** Between packets only characters that start nothing; a damaged packet keeps its sequence number
      and is found out by the frame checks; or its length or sequence number is a control character. */
  ghost predicate Possible(a: Attempt, i: nat) {
    Clean(a.noise) &&
    match a
    case Intact(_, _, _) => true
    case Damaged(_, lenChar, rest, _) =>
      !Control(lenChar) &&
      var v := Judge(lenChar, ToChar(SeqOf(i)), rest);
      v.Reject? && Clean(rest[v.used..])
    case BadHeader(_, head, junk, _) => BadHead(head) && Clean(junk)
  }

  /** The sender, at packet `next`; whether it has just moved on to it; the packets so far, where a
      data packet that was rolled back after its acknowledge is shown without data; the receiver. */
  datatype World = World(next: nat, moved: bool, kept: seq<Packet>, receiver: State)

  const START: World := World(0, true, [], INITIAL)

  function Blanked(p: Packet): Packet {
    if p.kind == DATA_TYPE then p.(data := []) else p
  }

  function BlankLast(kept: seq<Packet>): seq<Packet> {
    if kept == [] then [] else kept[..|kept| - 1] + [Blanked(kept[|kept| - 1])]
  }

  /** The reply that the receiver sent last acknowledges sequence number n. */
  predicate Acknowledges(s: State, n: byte) {
    s.replies != [] && s.replies[|s.replies| - 1].kind == ACK_TYPE && s.replies[|s.replies| - 1].n == n
  }

  /** One transmission; nothing happens any more once the receiver has finished or the sender has no
      packet left. */
  function Transmit(packets: seq<Packet>, w: World, a: Attempt): World {
    if w.receiver.phase != Scan || w.next >= |packets| then w
    else
      var p := packets[w.next];
      var r := Run(w.receiver, Input(a, p, w.next));
      if a.BadHeader? && w.moved then World(w.next, false, BlankLast(w.kept), r)
      else if a.replySeen && Acknowledges(r, SeqOf(w.next)) then World(w.next + 1, true, w.kept + [p], r)
      else World(w.next, false, w.kept, r)
  }

  function Download(packets: seq<Packet>, attempts: seq<Attempt>): World {
    if attempts == [] then START
    else Transmit(packets, Download(packets, attempts[..|attempts| - 1]), attempts[|attempts| - 1])
  }

  /** What a list of packets means when each is delivered exactly once. */
  datatype Delivery = Delivery(cur: Cursor, quote: byte)

  function Deliver(d: Delivery, p: Packet): Delivery {
    if p.kind == DATA_TYPE then d.(cur := FeedAll(d.cur, d.quote, p.data))
    else if p.kind == SEND_TYPE then d.(quote := PeerFrom(p.data).quote)
    else d
  }

  function DeliverAll(packets: seq<Packet>): Delivery {
    if packets == [] then Delivery(Cursor(false, []), K_ESCAPE)
    else Deliver(DeliverAll(packets[..|packets| - 1]), packets[|packets| - 1])
  }

  /** A download ends with the only break packet. */
  ghost predicate ValidDownload(packets: seq<Packet>) {
    && (forall i :: 0 <= i < |packets| ==> ValidPacket(packets[i]))
    && (forall i :: 0 <= i < |packets| ==> (packets[i].kind == BREAK_TYPE <==> i == |packets| - 1))
  }

  function Received(s: State): Delivery {
    Delivery(s.cur, s.peer.quote)
  }

  /** The receiver has not seen the sender's packet since the packet before it was settled. */
  ghost predicate Waiting(s: State, i: nat, kept: seq<Packet>) {
    s.lastN == (if i == 0 then -1 else SeqOf(i - 1)) && Received(s) == DeliverAll(kept)
  }

  /** The receiver has seen the sender's packet: its checkpoint is the download without it, and it is
      at the checkpoint or behind the packet. */
  ghost predicate Tried(s: State, p: Packet, i: nat, kept: seq<Packet>) {
    && s.lastN == SeqOf(i) && s.saved == DeliverAll(kept).cur
    && (Received(s) == DeliverAll(kept) || Received(s) == DeliverAll(kept + [p])
        || (s.cur == s.saved && s.peer.quote == DeliverAll(kept + [p]).quote))
  }

  ghost predicate Inv(packets: seq<Packet>, w: World) {
    && |w.kept| == w.next <= |packets|
    && (forall k :: 0 <= k < w.next ==> w.kept[k] == packets[k] || w.kept[k] == Blanked(packets[k]))
    && (w.receiver.phase == Scan || w.receiver.phase == Done)
    && (w.next == |packets| ==> w.receiver.phase == Done)
    && (w.receiver.phase == Done ==> Received(w.receiver).cur == DeliverAll(w.kept).cur && w.next + 1 >= |packets|)
    && (w.receiver.phase == Scan ==>
          if w.moved then Waiting(w.receiver, w.next, w.kept) && CheckpointBehind(w)
          else (Waiting(w.receiver, w.next, w.kept) && w.receiver.saved == w.receiver.cur)
               || Tried(w.receiver, packets[w.next], w.next, w.kept))
  }

  /** Just after an acknowledge the checkpoint is the download without the packet acknowledged. */
  ghost predicate CheckpointBehind(w: World) {
    w.receiver.saved == DeliverAll(BlankLast(w.kept)).cur
  }

  lemma {:induction false} DeliverAppend(kept: seq<Packet>, p: Packet)
    ensures DeliverAll(kept + [p]) == Deliver(DeliverAll(kept), p)
  {
    assert (kept + [p])[..|kept|] == kept;
  }

  lemma {:induction false} DeliverBlanked(kept: seq<Packet>)
    ensures DeliverAll(BlankLast(kept)).quote == DeliverAll(kept).quote
    ensures kept != [] && kept[|kept| - 1].kind == DATA_TYPE ==>
      DeliverAll(BlankLast(kept)).cur == DeliverAll(kept[..|kept| - 1]).cur
    ensures kept == [] || kept[|kept| - 1].kind != DATA_TYPE ==>
      DeliverAll(BlankLast(kept)).cur == DeliverAll(kept).cur
  {
    if kept != [] {
      var front, p := kept[..|kept| - 1], kept[|kept| - 1];
      DeliverAppend(front, Blanked(p));
      DeliverAppend(front, p);
      assert kept == front + [p];
    }
  }

  /** Once the sequence number is read, the download stands at the packets settled so far, and the
      checkpoint with it. */
  lemma {:induction false} OpenedAtCheckpoint(s: State, lenChar: byte, p: Packet, i: nat, kept: seq<Packet>)
    requires Waiting(s, i, kept) || Tried(s, p, i, kept)
    ensures var o := Opened(s, lenChar, SeqOf(i));
      && o.n == o.lastN == SeqOf(i) && o.cur == o.saved == DeliverAll(kept).cur && o.peer == s.peer
      && o.replies == s.replies
      && (p.kind != SEND_TYPE ==> o.peer.quote == DeliverAll(kept).quote)
      && (o.peer.quote == DeliverAll(kept).quote || o.peer.quote == DeliverAll(kept + [p]).quote)
      && o.parms == s.parms
  {
    DeliverAppend(kept, p);
    assert i > 0 ==> SeqOf(i) != SeqOf(i - 1);
  }

  lemma {:induction false} AcceptDelivers(o: State, p: Packet, kept: seq<Packet>)
    requires o.cur == o.saved == DeliverAll(kept).cur && o.parms == [] && o.phase == Type
    requires p.kind != SEND_TYPE ==> o.peer.quote == DeliverAll(kept).quote
    ensures var r := Accepted(o, p.kind, p.data);
      && Received(r) == DeliverAll(kept + [p]) && r.saved == o.saved && r.lastN == o.lastN && r.parms == []
      && r.phase == (if p.kind == BREAK_TYPE then Done else Scan)
      && Acknowledges(r, o.n)
  {
    DeliverAppend(kept, p);
    assert [] + p.data == p.data;
  }

  lemma {:induction false} ErrorGoesBack(o: State)
    ensures var r := PacketError(o);
      && r.cur == o.saved == r.saved && r.peer == o.peer && r.lastN == o.lastN && r.phase == Scan && r.parms == []
      && forall n :: !Acknowledges(r, n)
  {
  }

  ghost predicate InvAndClear(packets: seq<Packet>, w: World) {
    Inv(packets, w) && (w.receiver.phase == Scan ==> w.receiver.parms == [])
  }

  lemma {:induction false} IntactStep(packets: seq<Packet>, w: World, a: Attempt)
    requires ValidDownload(packets) && InvAndClear(packets, w)
    requires w.receiver.phase == Scan && w.next < |packets| && a.Intact? && Possible(a, w.next)
    ensures InvAndClear(packets, Transmit(packets, w, a))
  {
    var s, i, p := w.receiver, w.next, packets[w.next];
    var lenChar := LenChar(p, a.long);
    FrameRun(s, a.noise, p, SeqOf(i), a.long);
    OpenedAtCheckpoint(s, lenChar, p, i, w.kept);
    AcceptDelivers(Opened(s, lenChar, SeqOf(i)), p, w.kept);
    Settle(packets, w, Transmit(packets, w, a), Run(s, Input(a, p, i)));
  }

  /** The length character of a frame. */
  function LenChar(p: Packet, long: bool): byte {
    if long || |p.data| > MAX_SHORT then ToChar(0) else ToChar(|p.data| + 3)
  }

  /** Receiving a frame as the sender wrote it. */
  lemma {:induction false} FrameRun(s: State, noise: seq<byte>, p: Packet, n: byte, long: bool)
    requires s.phase == Scan && Clean(noise) && ValidPacket(p) && n < 224
    ensures Run(s, noise + Frame(p, n, long)) == Accepted(Opened(s, LenChar(p, long), n), p.kind, p.data)
  {
    hide Run, Judge, PacketDone, TakeAll, Checkpoint, BlockCheck;
    var isLong := long || |p.data| > MAX_SHORT;
    var lenChar := LenChar(p, long);
    var tail := if isLong then LongTail(p, n) else ShortTail(p, n);
    if isLong { LongFrameAccepted(p, n); } else { ShortFrameAccepted(p, n); }
    Characters(if isLong then 0 else |p.data| + 3);
    PacketRun(s, noise, lenChar, n, tail);
    assert noise + Frame(p, n, long) == noise + [START_CHAR, lenChar, ToChar(n)] + tail;
  }

  /** The sender's packet has been accepted: the sender moves on, or tries it again. */
  lemma {:induction false} Settle(packets: seq<Packet>, w: World, w': World, r: State)
    requires ValidDownload(packets) && InvAndClear(packets, w) && w.next < |packets| && w.receiver.phase == Scan
    requires var p := packets[w.next];
      && Received(r) == DeliverAll(w.kept + [p]) && r.saved == DeliverAll(w.kept).cur && r.lastN == SeqOf(w.next)
      && r.parms == [] && r.phase == (if p.kind == BREAK_TYPE then Done else Scan)
      && (w' == World(w.next + 1, true, w.kept + [p], r) || w' == World(w.next, false, w.kept, r))
    ensures InvAndClear(packets, w')
  {
    var p := packets[w.next];
    var kept := w.kept + [p];
    DeliverAppend(w.kept, p);
    DeliverBlanked(kept);
    assert kept[..|kept| - 1] == w.kept;
  }

  lemma {:induction false} DamagedStep(packets: seq<Packet>, w: World, a: Attempt)
    requires ValidDownload(packets) && InvAndClear(packets, w)
    requires w.receiver.phase == Scan && w.next < |packets| && a.Damaged? && Possible(a, w.next)
    ensures InvAndClear(packets, Transmit(packets, w, a))
  {
    var s, i, p := w.receiver, w.next, packets[w.next];
    PacketRun(s, a.noise, a.lenChar, SeqOf(i), a.rest);
    OpenedAtCheckpoint(s, a.lenChar, p, i, w.kept);
    ErrorGoesBack(Opened(s, a.lenChar, SeqOf(i)));
  }

  lemma {:induction false} BadHeaderStep(packets: seq<Packet>, w: World, a: Attempt)
    requires ValidDownload(packets) && InvAndClear(packets, w)
    requires w.receiver.phase == Scan && w.next < |packets| && a.BadHeader? && Possible(a, w.next)
    ensures InvAndClear(packets, Transmit(packets, w, a))
  {
    hide Run, PacketError, Step, DeliverAll, Deliver, BadHead, ValidPacket;
    var s := w.receiver;
    BadHeaderRun(s, a.noise, a.head, a.junk);
    ErrorGoesBack(s);
    DeliverBlanked(w.kept);
    DeliverAppend(w.kept, packets[w.next]);
  }

  /** Every transmission keeps the receiver at the packets settled so far. */
  lemma {:induction false} DownloadInv(packets: seq<Packet>, attempts: seq<Attempt>)
    requires ValidDownload(packets) && PossibleRun(packets, attempts) && packets != []
    ensures InvAndClear(packets, Download(packets, attempts))
    decreases |attempts|
  {
    if attempts == [] {
      assert DeliverAll([]) == Received(INITIAL);
    } else {
      var front, a := attempts[..|attempts| - 1], attempts[|attempts| - 1];
      DownloadInv(packets, front);
      var w := Download(packets, front);
      if w.receiver.phase == Scan && w.next < |packets| {
        match a
        case Intact(_, _, _) => IntactStep(packets, w, a);
        case Damaged(_, _, _, _) => DamagedStep(packets, w, a);
        case BadHeader(_, _, _, _) => BadHeaderStep(packets, w, a);
      }
    }
  }

  /** Every transmission is possible for the packet that the sender is at. */
  ghost predicate PossibleRun(packets: seq<Packet>, attempts: seq<Attempt>)
    decreases |attempts|
  {
    attempts != [] ==>
      var front := attempts[..|attempts| - 1];
      PossibleRun(packets, front) && Possible(attempts[|attempts| - 1], Download(packets, front).next)
  }

  /** Header damage hits the first transmission after an acknowledged packet. */
  predicate HitsAfterAcknowledge(packets: seq<Packet>, attempts: seq<Attempt>)
  {
    attempts != [] &&
    var front, a := attempts[..|attempts| - 1], attempts[|attempts| - 1];
    var w := Download(packets, front);
    || HitsAfterAcknowledge(packets, front)
    || (a.BadHeader? && w.moved && w.receiver.phase == Scan && 0 < w.next < |packets|
        && packets[w.next - 1].kind == DATA_TYPE && packets[w.next - 1].data != [])
  }

  /** The packets settled are the packets sent, unless and only unless header damage has hit the
      first transmission after an acknowledged data packet. */
  lemma {:induction false} KeptExactly(packets: seq<Packet>, attempts: seq<Attempt>)
    requires ValidDownload(packets) && PossibleRun(packets, attempts) && packets != []
    ensures var w := Download(packets, attempts);
      && |w.kept| == w.next <= |packets|
      && (w.kept == packets[..w.next] <==> !HitsAfterAcknowledge(packets, attempts))
      && (w.moved && w.next > 0 ==> w.kept[w.next - 1] == packets[w.next - 1])
    decreases |attempts|
  {
    hide Inv, InvAndClear, ValidDownload, Transmit, Possible;
    DownloadInv(packets, attempts);
    InvCounts(packets, Download(packets, attempts));
    if attempts != [] {
      var front, a := attempts[..|attempts| - 1], attempts[|attempts| - 1];
      KeptExactly(packets, front);
      DownloadInv(packets, front);
      InvCounts(packets, Download(packets, front));
      KeptStep(packets, Download(packets, front), a);
    }
  }

  /** What the invariant says of the packets settled. */
  lemma InvCounts(packets: seq<Packet>, w: World)
    requires InvAndClear(packets, w)
    ensures Inv(packets, w) && |w.kept| == w.next <= |packets|
    ensures forall k :: 0 <= k < w.next ==> w.kept[k] == packets[k] || w.kept[k] == Blanked(packets[k])
    ensures w.receiver.phase == Done ==> w.receiver.cur == DeliverAll(w.kept).cur && w.next + 1 >= |packets|
  {
    hide DeliverAll, Deliver;
  }

  lemma {:induction false} KeptStep(packets: seq<Packet>, w: World, a: Attempt)
    requires ValidDownload(packets) && Inv(packets, w)
    requires w.moved && w.next > 0 ==> w.kept[w.next - 1] == packets[w.next - 1]
    ensures var w' := Transmit(packets, w, a);
      && (|w'.kept| == w'.next <= |packets| ==>
           (w'.kept == packets[..w'.next] <==>
             w.kept == packets[..w.next] &&
             !(a.BadHeader? && w.moved && w.receiver.phase == Scan && 0 < w.next < |packets|
               && packets[w.next - 1].kind == DATA_TYPE && packets[w.next - 1].data != [])))
      && (w'.moved && w'.next > 0 ==> |w'.kept| == w'.next ==> w'.kept[w'.next - 1] == packets[w'.next - 1])
  {
    var w' := Transmit(packets, w, a);
    if w.receiver.phase == Scan && w.next < |packets| {
      if a.BadHeader? && w.moved {
        if w.next > 0 {
          var n := w.next - 1;
          assert w'.kept == w.kept[..n] + [Blanked(w.kept[n])];
          assert w'.kept[n] == Blanked(packets[n]);
          assert w'.kept == packets[..w.next] ==> w'.kept[n] == packets[n];
          assert w.kept == packets[..w.next] && Blanked(packets[n]) == packets[n] ==> w'.kept == packets[..w.next];
          assert w'.kept == packets[..w.next] ==> forall k :: 0 <= k < n ==> w.kept[k] == w'.kept[k] == packets[k];
        }
      } else if w'.next == w.next + 1 {
        assert packets[..w'.next] == packets[..w.next] + [packets[w.next]];
        assert w'.kept == packets[..w'.next] ==> w.kept == w'.kept[..w.next] == packets[..w.next];
      }
    }
  }

  lemma LastIsBreak(packets: seq<Packet>)
    requires ValidDownload(packets) && packets != []
    ensures DeliverAll(packets) == DeliverAll(packets[..|packets| - 1])
  {
    var n := |packets| - 1;
    assert packets == packets[..n] + [packets[n]];
    DeliverAppend(packets[..n], packets[n]);
  }

  /** When a download ends, the receiver holds the decoded data of the packets settled, each
      delivered exactly once and in order: those sent, if no header damage has hit the first
      transmission after an acknowledged data packet. */
  lemma {:induction false} DeliveredExactlyOnce(packets: seq<Packet>, attempts: seq<Attempt>)
    requires ValidDownload(packets) && PossibleRun(packets, attempts) && packets != []
    requires Download(packets, attempts).receiver.phase == Done
    ensures var w := Download(packets, attempts);
      && w.receiver.cur == DeliverAll(w.kept).cur && |packets| - 1 <= |w.kept| <= |packets|
      && (forall k :: 0 <= k < |w.kept| ==> w.kept[k] == packets[k] || w.kept[k] == Blanked(packets[k]))
      && (!HitsAfterAcknowledge(packets, attempts) ==> w.receiver.cur == DeliverAll(packets).cur)
  {
    var w, n := Download(packets, attempts), |packets| - 1;
    LastIsBreak(packets);
    hide Inv, InvAndClear, ValidDownload, Download, HitsAfterAcknowledge, DeliverAll, Deliver;
    DownloadInv(packets, attempts);
    InvCounts(packets, w);
    KeptExactly(packets, attempts);
    if w.next == |packets| { assert packets[..w.next] == packets; }
  }
}
