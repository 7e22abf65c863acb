/**
 What a sender gets back on the line: replies as he has asked for them, and a whole session as it is.
 */
module KermitSession {
  import opened Common
  import opened KermitSpec
  import opened KermitFrames
  import opened KermitReceiver
  import opened KermitDelivery
  import opened KermitFile
  import opened KermitPort
  import opened KermitLoad

  // ---- padding and end of line ----

  lemma {:induction false} PaddingIs(k: nat, c: byte)
    ensures |Padding(k, c)| == k && forall i :: 0 <= i < k ==> Padding(k, c)[i] == c
  {
    if k > 0 { PaddingIs(k - 1, c); }
  }

  /** k padding characters, a frame, and an end of line. */
  ghost predicate AsAsked(w: seq<byte>, k: nat, pad: byte, eol: byte) {
    && |w| > k + 4 && (forall i :: 0 <= i < k ==> w[i] == pad) && w[k] == 1
    && (eol != 0 ==> w[|w| - 1] == eol)
  }

  /** The parameters of a send-initiate packet that asks for k padding characters and an end of line. */
  ghost predicate Asks(parms: seq<byte>, k: nat, pad: byte, eol: byte) {
    |parms| >= 5 && parms[2] == k + 32 && NeedsQuote(pad) && parms[3] == Ctl(pad) && parms[4] == eol as int + 32
  }

  lemma AskedFor(parms: seq<byte>, k: nat, pad: byte, eol: byte)
    requires Asks(parms, k, pad, eol)
    ensures PeerFrom(parms).padCount == k && PeerFrom(parms).padChar == pad && PeerFrom(parms).eol == eol
  {
    CtlUndone(pad);
  }

  /** Every reply is sent in the way that the parameters ask for. */
  lemma {:induction false} ReplyAsAsked(r: Reply, parms: seq<byte>, k: nat, pad: byte, eol: byte)
    requires Asks(parms, k, pad, eol) && r.peer == PeerFrom(parms)
    ensures AsAsked(WireOf(r), k, pad, eol)
  {
    AskedFor(parms, k, pad, eol);
    PaddingIs(k, pad);
    FrameParts(r);
    hide Padding, ReplyFrame, WireOf, PeerFrom, BlockCheck, Sum, Asks;
  }

  /** A send-initiate packet is answered in the way that it asks for. */
  lemma {:induction false} SendInitAnswered(s: State, noise: seq<byte>, parms: seq<byte>, n: byte, long: bool,
      k: nat, pad: byte, eol: byte)
    requires s.phase == Scan && s.parms == [] && Clean(noise) && ValidPacket(Packet(SEND_TYPE, parms)) && n < 224
    requires Asks(parms, k, pad, eol)
    ensures var t := Run(s, noise + Frame(Packet(SEND_TYPE, parms), n, long));
      var before, now := Wire(s.replies), Wire(t.replies);
      && t.peer == PeerFrom(parms)
      && |now| > |before| && now[..|before|] == before && AsAsked(now[|before|..], k, pad, eol)
  {
    var p := Packet(SEND_TYPE, parms);
    FrameRun(s, noise, p, n, long);
    var t := Accepted(Opened(s, LenChar(p, long), n), SEND_TYPE, parms);
    var r := Reply(ACK_TYPE, n, Offered(parms), PeerFrom(parms));
    assert t.replies == s.replies + [r] && t.peer == PeerFrom(parms) by { assert [] + parms == parms; }
    hide *;
    WireAppend(s.replies, r);
    ReplyAsAsked(r, parms, k, pad, eol);
  }

  /** A reply is sent with the parameters last taken over, and only a send-initiate packet changes
      them. */
  lemma {:induction false} StepReplies(s: State, c: byte)
    ensures var t := Step(s, c);
      && (t.replies == s.replies ||
          (|t.replies| == |s.replies| + 1 && t.replies[..|s.replies|] == s.replies && t.replies[|s.replies|].peer == t.peer))
      && (t.peer != s.peer ==> s.kind == SEND_TYPE && t.peer == PeerFrom(s.parms))
  {
    hide PeerFrom, Offered, BlockCheck, KTrans, Feed;
  }

  // ---- a session as it is ----

  lemma SumFirst(b: byte, bs: seq<byte>)
    ensures Sum([b] + bs) == b + Sum(bs) && Sum([]) == 0
  {
    assert ([b] + bs)[1..] == bs;
  }

  /** Ten parameters, with `&` for quoting. */
  const PARMS: seq<byte> := [126, 40, 32, 64, 45, 38, 78, 49, 78, 34]

  lemma SumOfTwo(a: byte, b: byte)
    ensures Sum([a, b]) == a as int + b
  {
    SumFirst(b, []);
    SumFirst(a, [b]);
    assert [b] + [] == [b] && [a] + [b] == [a, b];
  }

  lemma SumOfFive(a: byte, b: byte, c: byte, d: byte, e: byte, rest: seq<byte>)
    ensures Sum([a, b, c, d, e] + rest) == a as int + b + c + d + e + Sum(rest)
  {
    hide Sum;
    SumFirst(e, rest);
    SumFirst(d, [e] + rest);
    SumFirst(c, [d, e] + rest);
    SumFirst(b, [c, d, e] + rest);
    SumFirst(a, [b, c, d, e] + rest);
    assert [d] + ([e] + rest) == [d, e] + rest && [c] + ([d, e] + rest) == [c, d, e] + rest;
    assert [b] + ([c, d, e] + rest) == [b, c, d, e] + rest && [a] + ([b, c, d, e] + rest) == [a, b, c, d, e] + rest;
  }

  lemma SumOfParms()
    ensures Sum(PARMS) == 584
  {
    hide Sum;
    SumOfFive(126, 40, 32, 64, 45, [38, 78, 49, 78, 34]);
    SumOfFive(38, 78, 49, 78, 34, []);
    SumFirst(0, []);
    assert [38, 78, 49, 78, 34] + [] == [38, 78, 49, 78, 34];
    assert [126, 40, 32, 64, 45] + [38, 78, 49, 78, 34] == PARMS;
  }

  lemma SendFrame()
    ensures Frame(Packet(SEND_TYPE, PARMS), 0, false) == [1, 45, 32, 83, 126, 40, 32, 64, 45, 38, 78, 49, 78, 34, 75, 13]
  {
    SumOfParms();
    hide Sum;
  }

  lemma DataFrame()
    ensures Frame(Packet(DATA_TYPE, [38, 77]), 1, false) == [1, 37, 33, 68, 38, 77, 32, 13]
  {
    SumOfTwo(38, 77);
    hide Sum;
  }

  lemma BreakFrame()
    ensures Frame(Packet(BREAK_TYPE, []), 2, false) == [1, 35, 34, 66, 41, 13]
  {
  }

  const OFFER_BODY: seq<byte> := [48, 32, 89, 126, 33, 32, 64, 45, 35, 78, 49, 78, 34, 32, 126, 126]

  lemma OfferSum()
    ensures Sum(OFFER_BODY) == 1027
  {
    hide Sum;
    SumFirst(126, []);
    SumOfFive(49, 78, 34, 32, 126, [126]);
    SumOfFive(32, 64, 45, 35, 78, [49, 78, 34, 32, 126] + [126]);
    SumOfFive(48, 32, 89, 126, 33, [32, 64, 45, 35, 78] + ([49, 78, 34, 32, 126] + [126]));
    assert [126] + [] == [126];
    assert OFFER_BODY == [48, 32, 89, 126, 33] + ([32, 64, 45, 35, 78] + ([49, 78, 34, 32, 126] + [126]));
  }

  lemma OfferIs()
    ensures [ToChar(|Offered(PARMS)| + 3), ToChar(0), ACK_TYPE] + Offered(PARMS) == OFFER_BODY && PeerFrom(PARMS) == Peer(13, 0, 0, 38)
  {
  }

  lemma OfferReply(r: Reply)
    requires r == Reply(ACK_TYPE, 0, Offered(PARMS), PeerFrom(PARMS))
    ensures WireOf(r) == [1, 48, 32, 89, 126, 33, 32, 64, 45, 35, 78, 49, 78, 34, 32, 126, 126, 35, 13]
  {
    OfferSum();
    OfferIs();
    OfferLiteral();
    hide *;
    UnpaddedWire(r, OFFER_BODY);
  }

  lemma OfferLiteral()
    ensures [START_CHAR] + OFFER_BODY + [BlockCheck(1027), 13] == [1, 48, 32, 89, 126, 33, 32, 64, 45, 35, 78, 49, 78, 34, 32, 126, 126, 35, 13]
  {
  }

  /** A reply without padding. */
  lemma UnpaddedWire(r: Reply, body: seq<byte>)
    requires r.peer.padCount == 0 && r.peer.eol != 0 && body == [ToChar(|r.data| + 3), ToChar(r.n), r.kind] + r.data
    ensures WireOf(r) == [START_CHAR] + body + [BlockCheck(Sum(body)), r.peer.eol]
  {
    FrameParts(r);
    assert Padding(0, r.peer.padChar) == [];
    hide Sum, BlockCheck, ToChar, ReplyFrame, WireOf, Padding;
  }

  lemma ShortReply(r: Reply)
    requires r.kind == ACK_TYPE && r.n < 3 && r.data == [] && r.peer == PeerFrom(PARMS)
    ensures r.n == 1 ==> WireOf(r) == [1, 35, 33, 89, 63, 13]
    ensures r.n == 2 ==> WireOf(r) == [1, 35, 34, 89, 64, 13]
  {
    SumFirst(89, []);
    SumOfTwo(33, 89);
    SumOfTwo(34, 89);
    SumFirst(35, [33, 89]);
    SumFirst(35, [34, 89]);
    hide Sum;
    FrameParts(r);
    assert [35, 33, 89] + [] == [35] + [33, 89] && [35, 34, 89] + [] == [35] + [34, 89];
  }

  /** A negative acknowledge with the numbers 0 and 1. */
  lemma NackReply(r: Reply)
    requires r.kind == NACK_TYPE && r.n < 2 && r.data == [] && r.peer == DEFAULT_PEER
    ensures r.n == 0 ==> WireOf(r) == [1, 35, 32, 78, 51, 13]
    ensures r.n == 1 ==> WireOf(r) == [1, 35, 33, 78, 52, 13]
  {
    NackSum(r.n);
    assert [35, 32 + r.n, 78] + r.data == [35, 32 + r.n, 78];
    hide Sum, WireOf;
    UnpaddedWire(r, [35, 32 + r.n, 78]);
  }

  lemma NackSum(n: byte)
    requires n < 2
    ensures Sum([35, 32 + n, 78]) == 145 + n as int
  {
    SumFirst(78, []);
    SumOfTwo(32 + n, 78);
    SumFirst(35, [32 + n, 78]);
    assert [35, 32 + n, 78] == [35] + [32 + n, 78];
  }

  /** Every parameter sent is answered by one of these, and the tenth by four. */
  lemma OfferedIs(parms: seq<byte>)
    ensures Offered(parms) ==
      if |parms| >= 10 then [126, 33, 32, 64, 45, 35, 78, 49, 78, 34, 32, 126, 126]
      else [126, 33, 32, 64, 45, 35, 78, 49, 78][..|parms|]
  {
    assert OFFER[..9] == [126, 33, 32, 64, 45, 35, 78, 49, 78];
  }

  /** A ^C between packets ends the receiver. */
  lemma {:induction false} Interrupted(s: State, noise: seq<byte>, rest: seq<byte>)
    requires s.phase == Scan && Clean(noise)
    ensures Run(s, noise + [3] + rest).phase == Aborted
  {
    CleanRun(s, noise);
    RunConcat(s, noise, [3] + rest);
    assert noise + [3] + rest == noise + ([3] + rest) && ([3] + rest)[1..] == rest;
    EndedStays(s.(phase := Aborted), rest);
  }

  lemma Served(s: State, kind: byte, data: seq<byte>, n: byte) returns (t: State)
    requires s.phase == Scan && s.parms == [] && ValidPacket(Packet(kind, data)) && n < 224 && s.lastN != n && |data| <= MAX_SHORT
    ensures t == Run(s, Frame(Packet(kind, data), n, false))
    ensures t.peer == if kind == SEND_TYPE then PeerFrom(data) else s.peer
    ensures t.replies == s.replies + [Reply(ACK_TYPE, n, if kind == SEND_TYPE then Offered(data) else [], t.peer)]
    ensures t.cur == if kind == DATA_TYPE then FeedAll(s.cur, s.peer.quote, data) else s.cur
    ensures t.phase == (if kind == BREAK_TYPE then Done else Scan) && t.parms == [] && t.lastN == n
  {
    var p := Packet(kind, data);
    FrameRun(s, [], p, n, false);
    assert [] + Frame(p, n, false) == Frame(p, n, false) && [] + data == data;
    t := Accepted(Opened(s, LenChar(p, false), n), kind, data);
  }

  /** What a sender sends who quotes with `&`: his parameters, a control character, and the break. */
  const SENT: seq<seq<byte>> :=
    [[1, 45, 32, 83, 126, 40, 32, 64, 45, 38, 78, 49, 78, 34, 75, 13], [1, 37, 33, 68, 38, 77, 32, 13], [1, 35, 34, 66, 41, 13]]

  /** What he gets back. */
  const ANSWERED: seq<seq<byte>> :=
    [[1, 48, 32, 89, 126, 33, 32, 64, 45, 35, 78, 49, 78, 34, 32, 126, 126, 35, 13], [1, 35, 33, 89, 63, 13], [1, 35, 34, 89, 64, 13]]

  lemma InitialIs()
    ensures INITIAL.phase == Scan && INITIAL.parms == [] && INITIAL.lastN == -1 && INITIAL.replies == []
    ensures INITIAL.cur == Cursor(false, [])
  {
  }

  lemma PacketsAreValid()
    ensures PeerFrom(PARMS).quote == 38 && |PARMS| <= MAX_SHORT
    ensures ValidPacket(Packet(SEND_TYPE, PARMS)) && ValidPacket(Packet(DATA_TYPE, [38, 77])) && ValidPacket(Packet(BREAK_TYPE, []))
  {
  }

  lemma DataStored()
    ensures FeedAll(Cursor(false, []), 38, [38, 77]) == Cursor(false, [13])
  {
    FeedTwo(Cursor(false, []), 38, 38, 77);
    hide FeedAll;
    assert [] + [13] == [13];
  }

  lemma FramesSent()
    ensures SENT[0] == Frame(Packet(SEND_TYPE, PARMS), 0, false) && SENT[1] == Frame(Packet(DATA_TYPE, [38, 77]), 1, false)
    ensures SENT[2] == Frame(Packet(BREAK_TYPE, []), 2, false)
  {
    SendFrame();
    DataFrame();
    BreakFrame();
    hide Frame;
  }

  lemma {:induction false} KnownStates() returns (a: State, b: State, c: State)
    ensures a == Run(INITIAL, SENT[0]) && b == Run(a, SENT[1]) && c == Run(b, SENT[2])
    ensures a.replies == [Reply(ACK_TYPE, 0, Offered(PARMS), PeerFrom(PARMS))]
    ensures b.replies == a.replies + [Reply(ACK_TYPE, 1, [], PeerFrom(PARMS))]
    ensures c.replies == b.replies + [Reply(ACK_TYPE, 2, [], PeerFrom(PARMS))]
    ensures c.phase == Done && c.cur == Cursor(false, [13])
  {
    InitialIs();
    PacketsAreValid();
    DataStored();
    FramesSent();
    hide Run, Frame, FeedAll, ValidPacket, PeerFrom, Offered, SENT, PARMS, INITIAL;
    a := Served(INITIAL, SEND_TYPE, PARMS, 0);
    b := Served(a, DATA_TYPE, [38, 77], 1);
    c := Served(b, BREAK_TYPE, [], 2);
  }

  /** These characters store one character 13, and are answered by those. */
  lemma {:induction false} KnownSession()
    ensures var s := Run(INITIAL, SENT[0] + SENT[1] + SENT[2]);
      s.phase == Done && s.cur == Cursor(false, [13]) && Wire(s.replies) == ANSWERED[0] + ANSWERED[1] + ANSWERED[2]
  {
    var a, b, c := KnownStates();
    var x := Reply(ACK_TYPE, 0, Offered(PARMS), PeerFrom(PARMS));
    var y, z := Reply(ACK_TYPE, 1, [], PeerFrom(PARMS)), Reply(ACK_TYPE, 2, [], PeerFrom(PARMS));
    assert WireOf(x) == ANSWERED[0] by { OfferReply(x); hide WireOf; }
    assert WireOf(y) == ANSWERED[1] && WireOf(z) == ANSWERED[2] by { ShortReply(y); ShortReply(z); hide WireOf; }
    hide *;
    RunConcat(INITIAL, SENT[0], SENT[1]);
    RunConcat(INITIAL, SENT[0] + SENT[1], SENT[2]);
    NothingSent(x);
    WireAppend(a.replies, y);
    WireAppend(b.replies, z);
  }

  lemma NothingSent(r: Reply)
    ensures Wire([r]) == WireOf(r)
  {
    WireAppend([], r);
    assert [] + [r] == [r];
    hide WireOf;
  }
}
