/**
 Kermit frames, independently of the receiver: how a sender writes a packet (short and long
 form), how a frame is judged, and that the receiver's automaton agrees with that judgement.
 */
module KermitFrames {
  import opened Common
  import opened KermitSpec

  datatype Packet = Packet(kind: byte, data: seq<byte>)

  ghost predicate Printable(s: seq<byte>) {
    forall i :: 0 <= i < |s| ==> !Control(s[i])
  }

  /** The longest data field of a long packet: its length, with the block check, has two digits to
      the base 95. */
  const MAX_DATA: nat := 95 * 95 - 2
  const MAX_SHORT: nat := 91

  ghost predicate ValidPacket(p: Packet) {
    !Control(p.kind) && Printable(p.data) && |p.data| <= MAX_DATA
  }

  /** The part of a frame behind the sequence number. */
  function ShortTail(p: Packet, n: byte): seq<byte> {
    var sum := ToChar(|p.data| + 3) + ToChar(n) + p.kind + Sum(p.data);
    [p.kind] + p.data + [BlockCheck(sum), END_CHAR]
  }

  function LongTail(p: Packet, n: byte): seq<byte> {
    var hi, lo := ToChar((|p.data| + 1) / 95), ToChar((|p.data| + 1) % 95);
    var head := ToChar(0) + ToChar(n) + p.kind + hi + lo;
    var sum := head + BlockCheck(head) + Sum(p.data);
    [p.kind, hi, lo, BlockCheck(head)] + p.data + [BlockCheck(sum), END_CHAR]
  }

  /** The frame of a packet with sequence number n, in long form if so chosen or necessary. */
  function Frame(p: Packet, n: byte, long: bool): seq<byte> {
    if long || |p.data| > MAX_SHORT then [START_CHAR, ToChar(0), ToChar(n)] + LongTail(p, n)
    else [START_CHAR, ToChar(|p.data| + 3), ToChar(n)] + ShortTail(p, n)
  }

  // ---- judging a frame ----

  datatype Verdict = Accept(kind: byte, data: seq<byte>, used: nat) | Reject(used: nat) | Incomplete

  function Shift(v: Verdict, k: nat, data: seq<byte>): Verdict {
    match v
    case Accept(kind, d, used) => Accept(kind, data + d, used + k)
    case Reject(used) => Reject(used + k)
    case Incomplete => Incomplete
  }

  /** k data characters, the block check and the end character. */
  function JudgeBody(kind: byte, sum: nat, k: nat, rest: seq<byte>): (v: Verdict)
    ensures !v.Incomplete? ==> 0 < v.used <= |rest|
    decreases |rest|
  {
    if rest == [] then Incomplete
    else if Control(rest[0]) then Reject(1)
    else if k > 0 then Shift(JudgeBody(kind, sum + rest[0], k - 1, rest[1..]), 1, [rest[0]])
    else if rest[0] != BlockCheck(sum) then Reject(1)
    else if |rest| == 1 then Incomplete
    else if rest[1] != END_CHAR then Reject(2)
    else Accept(kind, [], 2)
  }

  /** The two length characters and the header check of a long packet, and its body. */
  function JudgeLong(kind: byte, sum: nat, rest: seq<byte>): (v: Verdict)
    ensures !v.Incomplete? ==> 0 < v.used <= |rest|
  {
    if |rest| < 1 then Incomplete
    else if Control(rest[0]) then Reject(1)
    else if |rest| < 2 then Incomplete
    else if Control(rest[1]) then Reject(2)
    else if |rest| < 3 then Incomplete
    else
      var head := sum + rest[0] + rest[1];
      var length := UnChar(rest[0]) * 95 + UnChar(rest[1]);
      if Control(rest[2]) || rest[2] != BlockCheck(head) then Reject(3)
      else Shift(JudgeBody(kind, head + rest[2], if length > 1 then length - 1 else 0, rest[3..]), 3, [])
  }

  /** The text behind a length and a sequence character. */
  function Judge(lenChar: byte, seqChar: byte, rest: seq<byte>): (v: Verdict)
    ensures !v.Incomplete? ==> 0 < v.used <= |rest|
  {
    if rest == [] then Incomplete
    else if Control(rest[0]) then Reject(1)
    else
      var sum: nat, length := lenChar + seqChar + rest[0], UnChar(lenChar);
      if length == 0 then Shift(JudgeLong(rest[0], sum, rest[1..]), 1, [])
      else Shift(JudgeBody(rest[0], sum, if length > 3 then length - 3 else 0, rest[1..]), 1, [])
  }

  // ---- what is written is accepted ----

  lemma {:induction false} BodyAccepted(kind: byte, sum: nat, data: seq<byte>, check: byte)
    requires Printable(data) && check == BlockCheck(sum + Sum(data)) && !Control(check)
    ensures JudgeBody(kind, sum, |data|, data + [check, END_CHAR]) == Accept(kind, data, |data| + 2)
    decreases |data|
  {
    var rest := data + [check, END_CHAR];
    if data == [] {
      assert rest == [check, END_CHAR];
    } else {
      var c, tail := data[0], data[1..];
      assert Printable(tail);
      BodyAccepted(kind, sum + c, tail, check);
      assert rest[0] == c && rest[1..] == tail + [check, END_CHAR];
      assert [c] + tail == data;
    }
  }

  lemma Characters(x: nat)
    ensures x < 224 ==> !Control(ToChar(x)) && UnChar(ToChar(x)) == x
    ensures !Control(BlockCheck(x))
  {
  }

  /** A frame is judged by its body. */
  lemma ShortJudged(lenChar: byte, seqChar: byte, kind: byte, k: nat, body: seq<byte>, data: seq<byte>, n: nat)
    requires !Control(kind) && UnChar(lenChar) == k + 3
    requires JudgeBody(kind, lenChar + seqChar + kind, k, body) == Accept(kind, data, n)
    ensures Judge(lenChar, seqChar, [kind] + body) == Accept(kind, data, n + 1)
  {
    hide JudgeBody, JudgeLong, UnChar, Control;
    assert [] + data == data;
  }

  /** A frame of length 0 is judged as one in the extended format. */
  lemma LongJudged(lenChar: byte, seqChar: byte, kind: byte, body: seq<byte>, data: seq<byte>, n: nat)
    requires !Control(kind) && UnChar(lenChar) == 0
    requires JudgeLong(kind, lenChar + seqChar + kind, body) == Accept(kind, data, n)
    ensures Judge(lenChar, seqChar, [kind] + body) == Accept(kind, data, n + 1)
  {
    hide JudgeBody, JudgeLong, UnChar, Control;
    assert [] + data == data;
  }

  lemma ShortTailIs(p: Packet, n: byte)
    ensures var sum: nat := ToChar(|p.data| + 3) + ToChar(n) + p.kind;
      ShortTail(p, n) == [p.kind] + (p.data + [BlockCheck(sum + Sum(p.data)), END_CHAR])
  {
    hide ToChar, BlockCheck, Sum;
  }

  lemma {:induction false} ShortFrameAccepted(p: Packet, n: byte)
    requires ValidPacket(p) && |p.data| <= MAX_SHORT && n < 224
    ensures Judge(ToChar(|p.data| + 3), ToChar(n), ShortTail(p, n)) == Accept(p.kind, p.data, |ShortTail(p, n)|)
  {
    Characters(|p.data| + 3);
    hide BlockCheck, JudgeBody, JudgeLong, Judge, Sum, ToChar, UnChar, Shift, Control, ShortTail;
    var sum: nat := ToChar(|p.data| + 3) + ToChar(n) + p.kind;
    var check := BlockCheck(sum + Sum(p.data));
    Characters(sum + Sum(p.data));
    ShortTailIs(p, n);
    BodyAccepted(p.kind, sum, p.data, check);
    ShortJudged(ToChar(|p.data| + 3), ToChar(n), p.kind, |p.data|, p.data + [check, END_CHAR], p.data, |p.data| + 2);
  }

  /** The length characters of a long packet. */
  lemma LengthDigits(length: nat)
    requires length < 95 * 95
    ensures var hi, lo := ToChar(length / 95), ToChar(length % 95);
      !Control(hi) && !Control(lo) && UnChar(hi) * 95 + UnChar(lo) == length
  {
    Characters(length / 95);
    Characters(length % 95);
  }

  lemma {:induction false} LongBodyAccepted(kind: byte, sum: nat, data: seq<byte>, hi: byte, lo: byte, headCheck: byte, check: byte)
    requires Printable(data) && !Control(hi) && !Control(lo) && UnChar(hi) * 95 + UnChar(lo) == |data| + 1
    requires headCheck == BlockCheck(sum + hi + lo) && check == BlockCheck(sum + hi + lo + headCheck + Sum(data))
    ensures JudgeLong(kind, sum, [hi, lo, headCheck] + data + [check, END_CHAR]) == Accept(kind, data, |data| + 5)
  {
    hide BlockCheck, JudgeBody, UnChar, Sum, Control, Printable;
    var rest := [hi, lo, headCheck] + data + [check, END_CHAR];
    var head: nat := sum + hi + lo;
    Characters(head);
    Characters(head + headCheck + Sum(data));
    BodyAccepted(kind, head + headCheck, data, check);
    assert rest[0] == hi && rest[1] == lo && rest[2] == headCheck;
    assert rest[3..] == data + [check, END_CHAR];
    assert [] + data == data;
  }

  lemma {:induction false} LongFrameAccepted(p: Packet, n: byte)
    requires ValidPacket(p) && n < 224
    ensures Judge(ToChar(0), ToChar(n), LongTail(p, n)) == Accept(p.kind, p.data, |LongTail(p, n)|)
  {
    LengthDigits(|p.data| + 1);
    Characters(0);
    hide BlockCheck, JudgeBody, JudgeLong, Judge, Sum, ToChar, UnChar, Shift, Control, LongTail;
    var hi, lo := ToChar((|p.data| + 1) / 95), ToChar((|p.data| + 1) % 95);
    var sum: nat := ToChar(0) + ToChar(n) + p.kind;
    var head: nat := sum + hi + lo;
    var headCheck := BlockCheck(head);
    var check := BlockCheck(head + headCheck + Sum(p.data));
    var body := [hi, lo, headCheck] + p.data + [check, END_CHAR];
    LongTailIs(p, n);
    LongBodyAccepted(p.kind, sum, p.data, hi, lo, headCheck, check);
    LongJudged(ToChar(0), ToChar(n), p.kind, body, p.data, |p.data| + 5);
  }

  lemma LongTailIs(p: Packet, n: byte)
    ensures var hi, lo := ToChar((|p.data| + 1) / 95), ToChar((|p.data| + 1) % 95);
      var head: nat := ToChar(0) + ToChar(n) + p.kind + hi + lo;
      var headCheck := BlockCheck(head);
      LongTail(p, n) == [p.kind] + ([hi, lo, headCheck] + p.data + [BlockCheck(head + headCheck + Sum(p.data)), END_CHAR])
  {
    hide ToChar, BlockCheck, Sum;
  }

  /** Every reply of the receiver, whatever it answers, is a frame that its own checks accept, with
      the same sequence number and type, if and only if the peer wants frames ended by CR. */
  lemma {:induction false} ReplyIsAcceptable(r: Reply)
    requires !Control(r.kind) && Printable(r.data) && |r.data| <= 13 && r.n < 224
    ensures var f := ReplyFrame(r);
      && |f| == |r.data| + 6 && f[0] == START_CHAR && !Control(f[1]) && !Control(f[2]) && UnChar(f[2]) == r.n
      && (Judge(f[1], f[2], f[3..]) == Accept(r.kind, r.data, |r.data| + 3) <==> r.peer.eol == END_CHAR)
  {
    var f := ReplyFrame(r);
    var lenChar, seqChar, check := ToChar(|r.data| + 3), ToChar(r.n), f[|r.data| + 4];
    Characters(|r.data| + 3);
    Characters(r.n);
    SumOfBody(lenChar, seqChar, r.kind, r.data);
    assert f[3..] == [r.kind] + r.data + [check, r.peer.eol];
    ReplyTail(r, lenChar, seqChar, check);
  }

  lemma {:induction false} ReplyTail(r: Reply, lenChar: byte, seqChar: byte, check: byte)
    requires !Control(r.kind) && Printable(r.data) && UnChar(lenChar) == |r.data| + 3
    requires check == BlockCheck(0 + lenChar + seqChar + r.kind + Sum(r.data))
    ensures var tail := [r.kind] + r.data + [check, r.peer.eol];
      Judge(lenChar, seqChar, tail) == Accept(r.kind, r.data, |r.data| + 3) <==> r.peer.eol == END_CHAR
  {
    var tail := [r.kind] + r.data + [check, r.peer.eol];
    var sum: nat := 0 + lenChar + seqChar + r.kind;
    var body := JudgeBody(r.kind, sum, |r.data|, tail[1..]);
    assert tail[1..] == r.data + [check, r.peer.eol];
    assert [] + r.data == r.data;
    if r.peer.eol == END_CHAR {
      BodyAccepted(r.kind, sum, r.data, check);
    } else if body.Accept? {
      AcceptEndsInCr(r.kind, sum, |r.data|, tail[1..]);
    }
  }

  lemma {:induction false} SumOfBody(a: byte, b: byte, c: byte, data: seq<byte>)
    ensures Sum([a, b, c] + data) == a + b + c + Sum(data)
  {
    assert [a, b, c] + data == [a] + ([b] + ([c] + data));
    SumCons(a, [b] + ([c] + data));
    SumCons(b, [c] + data);
    SumCons(c, data);
  }

  lemma SumCons(a: byte, s: seq<byte>)
    ensures Sum([a] + s) == a + Sum(s)
  {
    assert ([a] + s)[1..] == s;
  }

  lemma {:induction false} AcceptEndsInCr(kind: byte, sum: nat, k: nat, rest: seq<byte>)
    requires JudgeBody(kind, sum, k, rest).Accept?
    ensures JudgeBody(kind, sum, k, rest).used == k + 2 && rest[k + 1] == END_CHAR
    decreases |rest|
  {
    if k > 0 {
      AcceptEndsInCr(kind, sum + rest[0], k - 1, rest[1..]);
    }
  }

  /** The replies that the receiver builds. */
  lemma RepliesAreValid(s: State)
    requires s.n < 224
    ensures var r := PacketDone(s).replies[|s.replies|];
      r.n == s.n && r.kind == ACK_TYPE && Printable(r.data) && |r.data| <= 13
    ensures var r := PacketError(s).replies[|s.replies|];
      r.n == s.n && r.kind == NACK_TYPE && r.data == []
  {
    assert Printable(OFFER);
  }
}
