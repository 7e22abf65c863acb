/**
 The Kermit receiver of cmd_load.c as an automaton that takes one character at a time: packet
 framing, checksums, control unquoting, and the checkpoint of the download that goes with the
 packet sequence numbers.  Characters are numbers 0..255.
 */
module KermitSpec {
  import opened Common

  const START_CHAR: byte := 0x01
  const ETX_CHAR: byte := 0x03
  const END_CHAR: byte := 0x0D
  const SPACE: byte := 0x20
  const K_ESCAPE: byte := 0x23
  const SEND_TYPE: byte := 0x53
  const DATA_TYPE: byte := 0x44
  const ACK_TYPE: byte := 0x59
  const NACK_TYPE: byte := 0x4E
  const BREAK_TYPE: byte := 0x42

  function ToChar(x: int): byte {
    (x + 32) % 256
  }

  function UnChar(c: byte): byte {
    (c + 224) % 256
  }

  /** A character that may not occur inside a packet. */
  predicate Control(c: byte) {
    c < SPACE
  }

  /** The type 1 block check of a character sum, as a character. */
  function BlockCheck(sum: nat): (c: byte)
    ensures 32 <= c < 96
  {
    (sum + (sum / 64) % 4) % 64 + 32
  }

  /** Converts an escaped character to the character it stands for. */
  function KTrans(c: byte): byte {
    if (c / 32) % 4 == 2 then c - 64
    else if c % 128 == 63 then c + 64
    else c
  }

  /** The progress of the download: a pending escape and the characters stored so far. */
  datatype Cursor = Cursor(escape: bool, stored: seq<byte>)

  function Feed(cur: Cursor, quote: byte, c: byte): Cursor {
    if cur.escape then Cursor(false, cur.stored + [KTrans(c)])
    else if c == quote then Cursor(true, cur.stored)
    else Cursor(false, cur.stored + [c])
  }

  function FeedAll(cur: Cursor, quote: byte, data: seq<byte>): Cursor
    decreases |data|
  {
    if data == [] then cur else FeedAll(Feed(cur, quote, data[0]), quote, data[1..])
  }

  /** What the sender has asked for in its send-initiate packet. */
  datatype Peer = Peer(eol: byte, padCount: byte, padChar: byte, quote: byte)

  const DEFAULT_PEER: Peer := Peer(END_CHAR, 0, 0, K_ESCAPE)

  const SEND_DATA_SIZE: nat := 20

  /** How many parameter characters count: the last one that fills the buffer is ignored. */
  function ParmCount(n: nat): nat {
    if n >= SEND_DATA_SIZE - 1 then SEND_DATA_SIZE - 2 else n
  }

  function PeerFrom(parms: seq<byte>): Peer {
    var n := ParmCount(|parms|);
    Peer(
      if n >= 5 then UnChar(parms[4]) else END_CHAR,
      if n >= 3 then UnChar(parms[2]) else 0,
      if n >= 4 then KTrans(parms[3]) else 0,
      if n >= 6 then parms[5] else K_ESCAPE)
  }

  /** The parameters offered in return: MAXL, TIME, NPAD, PADC, EOL, QCTL, QBIN, CHKT, REPT, and
      CAPAS with the window size and the long packet length. */
  const OFFER: seq<byte> := [126, 33, 32, 0x40, 45, 0x23, 0x4E, 0x31, 0x4E, 34, 32, 126, 126]

  function Offered(parms: seq<byte>): seq<byte> {
    var n := ParmCount(|parms|);
    if n >= 10 then OFFER else OFFER[..n]
  }

  /** A reply of the receiver and the line parameters it is sent with. */
  datatype Reply = Reply(kind: byte, n: byte, data: seq<byte>, peer: Peer)

  function Sum(s: seq<byte>): nat {
    if s == [] then 0 else s[0] + Sum(s[1..])
  }

  /** The frame of a reply. */
  function ReplyFrame(r: Reply): seq<byte> {
    var body := [ToChar(|r.data| + 3), ToChar(r.n), r.kind] + r.data;
    [START_CHAR] + body + [BlockCheck(Sum(body)), r.peer.eol]
  }

  datatype Phase = Scan | Len | Seq | Type | Hi | Lo | HeadCheck | Data | Check | End | Done | Aborted

  datatype State = State(
    phase: Phase, sum: nat, length: int, hi: byte, n: byte, lastN: int, kind: byte, kindSaved: byte,
    cur: Cursor, saved: Cursor, parms: seq<byte>, peer: Peer, replies: seq<Reply>)

  const INITIAL: State :=
    State(Scan, 0, 0, 0, 0, -1, 0, 0, Cursor(false, []), Cursor(false, []), [], DEFAULT_PEER, [])

  /** Back to waiting for a packet (or, after the last one, at the end). */
  function Idle(s: State, phase: Phase): State {
    s.(phase := phase, sum := 0, length := 0, hi := 0, parms := [])
  }

  /** A bad packet: the download goes back to its checkpoint and a negative acknowledge is sent. */
  function PacketError(s: State): State {
    Idle(s.(kind := s.kindSaved, cur := s.saved, replies := s.replies + [Reply(NACK_TYPE, s.n, [], s.peer)]), Scan)
  }

  /** A packet that has arrived in full. */
  function PacketDone(s: State): State {
    if s.kind == SEND_TYPE then
      var peer := PeerFrom(s.parms);
      Idle(s.(peer := peer, replies := s.replies + [Reply(ACK_TYPE, s.n, Offered(s.parms), peer)]), Scan)
    else
      Idle(s.(replies := s.replies + [Reply(ACK_TYPE, s.n, [], s.peer)]), if s.kind == BREAK_TYPE then Done else Scan)
  }

  /** A sequence number seen before restores the checkpoint, a new one sets it. */
  function Checkpoint(s: State, n: byte): State {
    if n == s.lastN then s.(n := n, kind := s.kindSaved, cur := s.saved)
    else s.(n := n, lastN := n, kindSaved := s.kind, saved := s.cur)
  }

  function EnterBody(s: State): State {
    s.(phase := if s.length > 1 then Data else Check)
  }

  function TakeData(s: State, c: byte): State {
    if s.kind == DATA_TYPE then s.(cur := Feed(s.cur, s.peer.quote, c))
    else if s.kind == SEND_TYPE then s.(parms := s.parms + [c])
    else s
  }

  /** What one received character does. */
  function Step(s: State, c: byte): State {
    match s.phase
    case Scan => if c == START_CHAR then s.(phase := Len) else if c == ETX_CHAR then s.(phase := Aborted) else s
    case Len =>
      if Control(c) then PacketError(s) else s.(phase := Seq, sum := c, length := UnChar(c))
    case Seq =>
      if Control(c) then PacketError(s)
      else Checkpoint(s.(phase := Type, sum := s.sum + c, length := s.length - 1), UnChar(c))
    case Type =>
      if Control(c) then PacketError(s)
      else
        var t := s.(kind := c, sum := s.sum + c, length := s.length - 1);
        if t.length == -2 then t.(phase := Hi) else EnterBody(t)
    case Hi =>
      if Control(c) then PacketError(s) else s.(phase := Lo, sum := s.sum + c, hi := UnChar(c))
    case Lo =>
      if Control(c) then PacketError(s)
      else s.(phase := HeadCheck, sum := s.sum + c, length := s.hi * 95 + UnChar(c))
    case HeadCheck =>
      if Control(c) || c != BlockCheck(s.sum) then PacketError(s) else EnterBody(s.(sum := s.sum + c))
    case Data =>
      if Control(c) then PacketError(s)
      else EnterBody(TakeData(s.(sum := s.sum + c, length := s.length - 1), c))
    case Check =>
      if Control(c) || c != BlockCheck(s.sum) then PacketError(s) else s.(phase := End)
    case End => if c != END_CHAR then PacketError(s) else PacketDone(s)
    case Done => s
    case Aborted => s
  }

  function Run(s: State, input: seq<byte>): State
    decreases |input|
  {
    if input == [] then s else Run(Step(s, input[0]), input[1..])
  }

  lemma {:induction false} RunConcat(s: State, a: seq<byte>, b: seq<byte>)
    ensures Run(s, a + b) == Run(Run(s, a), b)
    decreases |a|
  {
    if a == [] {
      assert a + b == b;
    } else {
      RunConcat(Step(s, a[0]), a[1..], b);
      assert (a + b)[1..] == a[1..] + b;
    }
  }

  lemma {:induction false} FeedConcat(cur: Cursor, quote: byte, a: seq<byte>, b: seq<byte>)
    ensures FeedAll(cur, quote, a + b) == FeedAll(FeedAll(cur, quote, a), quote, b)
    decreases |a|
  {
    if a == [] {
      assert a + b == b;
    } else {
      FeedConcat(Feed(cur, quote, a[0]), quote, a[1..], b);
      assert (a + b)[1..] == a[1..] + b;
    }
  }
}
