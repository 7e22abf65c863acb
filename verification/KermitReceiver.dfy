/**
 The receiver's automaton agrees with the judgement of frames: an accepted frame is delivered and
 acknowledged, a rejected one leaves the checkpoint and a negative acknowledge.
 */
module KermitReceiver {
  import opened Common
  import opened KermitSpec
  import opened KermitFrames

  /** The state after the data of a packet, in a given state, has been taken. */
  function TakeAll(s: State, data: seq<byte>): State {
    if s.kind == DATA_TYPE then s.(cur := FeedAll(s.cur, s.peer.quote, data))
    else if s.kind == SEND_TYPE then s.(parms := s.parms + data)
    else s
  }

  function BodyLength(s: State): nat {
    if s.length > 1 then s.length - 1 else 0
  }

  /** The automaton does with the body of a packet what the judgement says. */
  ghost predicate BodyHolds(s: State, rest: seq<byte>) {
    match JudgeBody(s.kind, s.sum, BodyLength(s), rest)
    case Accept(kind, data, used) => kind == s.kind && Run(s, rest[..used]) == PacketDone(TakeAll(s, data))
    case Reject(used) => Run(s, rest[..used]) == PacketError(s)
    case Incomplete => true
  }

  lemma {:induction false} BodyRun(s: State, rest: seq<byte>)
    requires s.phase == if s.length > 1 then Data else Check
    ensures BodyHolds(s, rest)
    decreases |rest|
  {
    hide BodyHolds, BlockCheck;
    if rest != [] && s.phase == Data && !Control(rest[0]) {
      BodyRun(Step(s, rest[0]), rest[1..]);
      BodyStep(s, rest);
    } else {
      BodyEnd(s, rest);
    }
  }

  lemma {:induction false} BodyStep(s: State, rest: seq<byte>)
    requires s.phase == Data && s.length > 1 && rest != [] && !Control(rest[0]) && BodyHolds(Step(s, rest[0]), rest[1..])
    ensures BodyHolds(s, rest)
  {
    hide BlockCheck, TakeAll, PacketDone;
    var t, v := Step(s, rest[0]), JudgeBody(s.kind, s.sum, BodyLength(s), rest);
    if !v.Incomplete? {
      RunFirst(s, rest, v.used);
      TakeMore(s, rest[0], JudgeBody(t.kind, t.sum, BodyLength(t), rest[1..]));
    }
  }

  lemma {:induction false} BodyEnd(s: State, rest: seq<byte>)
    requires s.phase == if s.length > 1 then Data else Check
    requires rest == [] || s.phase == Check || Control(rest[0])
    ensures BodyHolds(s, rest)
  {
    hide BlockCheck, TakeAll, PacketDone;
    var v := JudgeBody(s.kind, s.sum, BodyLength(s), rest);
    if !v.Incomplete? {
      RunFirst(s, rest, v.used);
      if !Control(rest[0]) && rest[0] == BlockCheck(s.sum) {
        RunFirst(Step(s, rest[0]), rest[1..], 1);
        TakeNothing(s);
      }
    }
  }

  lemma TakeNothing(s: State)
    ensures PacketDone(s.(phase := End)) == PacketDone(TakeAll(s, []))
    ensures PacketError(s.(phase := End)) == PacketError(s)
  {
    assert s.parms + [] == s.parms;
  }

  lemma {:induction false} RunFirst(s: State, rest: seq<byte>, used: nat)
    requires 0 < used <= |rest|
    ensures Run(s, rest[..used]) == Run(Step(s, rest[0]), rest[1..][..used - 1])
    ensures used == 1 ==> Run(s, rest[..used]) == Step(s, rest[0])
  {
    assert rest[..used][1..] == rest[1..][..used - 1];
  }

  lemma {:induction false} TakeMore(s: State, c: byte, v: Verdict)
    requires s.phase == Data && !Control(c)
    ensures var t := Step(s, c);
      && PacketError(t) == PacketError(s)
      && (v.Accept? ==> PacketDone(TakeAll(t, v.data)) == PacketDone(TakeAll(s, [c] + v.data)))
  {
    if v.Accept? {
      assert ([c] + v.data)[1..] == v.data;
      assert s.parms + [c] + v.data == s.parms + ([c] + v.data);
    }
  }

  lemma {:induction false} LongRun(s: State, rest: seq<byte>)
    requires s.phase == Hi
    ensures match JudgeLong(s.kind, s.sum, rest)
      case Accept(kind, data, used) => kind == s.kind && Run(s, rest[..used]) == PacketDone(TakeAll(s, data))
      case Reject(used) => Run(s, rest[..used]) == PacketError(s)
      case Incomplete => true
  {
    hide BlockCheck, UnChar, PeerFrom, Offered, PacketDone, TakeAll, JudgeBody;
    var v := JudgeLong(s.kind, s.sum, rest);
    if !v.Incomplete? {
      RunFirst(s, rest, v.used);
      if !Control(rest[0]) {
        var s1 := Step(s, rest[0]);
        RunFirst(s1, rest[1..], v.used - 1);
        assert PacketError(s1) == PacketError(s);
        if !Control(rest[1]) {
          assert rest[1..][1..] == rest[2..];
          HeadCheckRun(s, Step(s1, rest[1]), rest[2..]);
        }
      }
    }
  }

  /** From the header check on. */
  lemma {:induction false} HeadCheckRun(s: State, t: State, rest: seq<byte>)
    requires t == s.(phase := HeadCheck, sum := t.sum, length := t.length, hi := t.hi) && rest != []
    ensures
      if Control(rest[0]) || rest[0] != BlockCheck(t.sum) then Run(t, rest[..1]) == PacketError(s)
      else
        match JudgeBody(s.kind, t.sum + rest[0], if t.length > 1 then t.length - 1 else 0, rest[1..])
        case Accept(kind, data, used) => kind == s.kind && Run(t, rest[..used + 1]) == PacketDone(TakeAll(s, [] + data))
        case Reject(used) => Run(t, rest[..used + 1]) == PacketError(s)
        case Incomplete => true
  {
    hide BlockCheck, UnChar, PacketDone, TakeAll, JudgeBody;
    RunFirst(t, rest, 1);
    if !Control(rest[0]) && rest[0] == BlockCheck(t.sum) {
      var u := Step(t, rest[0]);
      BodyRun(u, rest[1..]);
      var v := JudgeBody(u.kind, u.sum, BodyLength(u), rest[1..]);
      if !v.Incomplete? { RunFirst(t, rest, v.used + 1); }
      LongBody(s, u, v, Shift(v, 3, []));
    }
  }

  /** The header of a long packet changes only the framing. */
  lemma LongBody(s: State, t: State, v: Verdict, w: Verdict)
    requires t == s.(phase := t.phase, sum := t.sum, length := t.length, hi := t.hi) && w == Shift(v, 3, [])
    ensures PacketError(t) == PacketError(s)
    ensures v.Accept? ==> w.data == v.data && PacketDone(TakeAll(t, v.data)) == PacketDone(TakeAll(s, v.data))
  {
    if v.Accept? { assert [] + v.data == v.data; }
  }

  /** What an accepted packet does to a state whose checkpoint is set. */
  function Accepted(s: State, kind: byte, data: seq<byte>): State {
    PacketDone(TakeAll(s.(kind := kind), data))
  }

  lemma {:induction false} TailRun(s: State, lenChar: byte, seqChar: byte, rest: seq<byte>)
    requires s.phase == Type && s.sum == lenChar + seqChar && s.length == UnChar(lenChar) - 1
    ensures match Judge(lenChar, seqChar, rest)
      case Accept(kind, data, used) => Run(s, rest[..used]) == Accepted(s, kind, data)
      case Reject(used) => Run(s, rest[..used]) == PacketError(s)
      case Incomplete => true
  {
    hide BlockCheck, PacketDone, TakeAll, JudgeBody, JudgeLong;
    var v := Judge(lenChar, seqChar, rest);
    if !v.Incomplete? {
      RunFirst(s, rest, v.used);
      var t := Step(s, rest[0]);
      if !Control(rest[0]) {
        if UnChar(lenChar) == 0 {
          LongRun(t, rest[1..]);
          SameAfterType(s, rest[0], t, JudgeLong(t.kind, t.sum, rest[1..]), v);
        } else {
          BodyRun(t, rest[1..]);
          SameAfterType(s, rest[0], t, JudgeBody(t.kind, t.sum, BodyLength(t), rest[1..]), v);
        }
      }
    }
  }

  lemma SameAfterType(s: State, kind: byte, t: State, v: Verdict, w: Verdict)
    requires t == s.(phase := t.phase, sum := t.sum, length := t.length, kind := kind) && w == Shift(v, 1, [])
    ensures PacketError(t) == PacketError(s)
    ensures v.Accept? ==> w.data == v.data && PacketDone(TakeAll(t, v.data)) == Accepted(s, kind, v.data)
  {
    if v.Accept? { assert [] + v.data == v.data; }
  }

  // ---- between packets ----

  /** Characters that do not start a packet or end the download. */
  ghost predicate Clean(s: seq<byte>) {
    forall i :: 0 <= i < |s| ==> s[i] != START_CHAR && s[i] != ETX_CHAR
  }

  lemma {:induction false} CleanRun(s: State, noise: seq<byte>)
    requires Clean(noise) && (s.phase == Scan || s.phase == Done)
    ensures Run(s, noise) == s
    decreases |noise|
  {
    if noise != [] { CleanRun(s, noise[1..]); }
  }

  /** The state of a receiver that has read the length and sequence characters of a packet. */
  function Opened(s: State, lenChar: byte, n: byte): State {
    Checkpoint(s.(phase := Type, sum := lenChar + ToChar(n), length := UnChar(lenChar) - 1), n)
  }

  /** Receiving a packet whose sequence number is intact: accepted and delivered, or rejected. */
  lemma {:induction false} PacketRun(s: State, noise: seq<byte>, lenChar: byte, n: byte, rest: seq<byte>)
    requires s.phase == Scan && Clean(noise) && !Control(lenChar) && n < 224
    ensures var input := noise + [START_CHAR, lenChar, ToChar(n)] + rest;
      match Judge(lenChar, ToChar(n), rest)
      case Accept(kind, data, used) => used == |rest| ==> Run(s, input) == Accepted(Opened(s, lenChar, n), kind, data)
      case Reject(used) => Clean(rest[used..]) ==> Run(s, input) == PacketError(Opened(s, lenChar, n))
      case Incomplete => true
  {
    var head := [START_CHAR, lenChar, ToChar(n)];
    assert noise + head + rest == noise + (head + rest);
    RunConcat(s, noise, head + rest);
    CleanRun(s, noise);
    RunConcat(s, head, rest);
    HeadRun(s, lenChar, n);
    var t := Opened(s, lenChar, n);
    TailRun(t, lenChar, ToChar(n), rest);
    match Judge(lenChar, ToChar(n), rest)
    case Accept(kind, data, used) =>
      if used == |rest| { assert rest[..used] == rest; }
    case Reject(used) =>
      assert rest == rest[..used] + rest[used..];
      RunConcat(t, rest[..used], rest[used..]);
      if Clean(rest[used..]) { CleanRun(PacketError(t), rest[used..]); }
    case Incomplete =>
  }

  lemma {:induction false} HeadRun(s: State, lenChar: byte, n: byte)
    requires s.phase == Scan && !Control(lenChar) && n < 224
    ensures Run(s, [START_CHAR, lenChar, ToChar(n)]) == Opened(s, lenChar, n)
  {
    Characters(n);
    RunThree(s, START_CHAR, lenChar, ToChar(n));
  }

  lemma RunThree(s: State, a: byte, b: byte, c: byte)
    ensures Run(s, [a, b, c]) == Step(Step(Step(s, a), b), c)
    ensures Run(s, [a, b]) == Step(Step(s, a), b)
  {
    assert [a, b, c][1..] == [b, c] && [b, c][1..] == [c] && [c][1..] == [];
    assert [a, b][1..] == [b] && [b][1..] == [];
    assert Run(s, [a, b, c]) == Run(Step(s, a), [b, c]);
    assert Run(Step(s, a), [b, c]) == Run(Step(Step(s, a), b), [c]);
    assert Run(s, [a, b]) == Run(Step(s, a), [b]);
    assert Run(Step(s, a), [b]) == Run(Step(Step(s, a), b), []);
  }

  /** A control character in place of the length or the sequence number rolls back to the checkpoint. */
  lemma {:induction false} BadHeaderRun(s: State, noise: seq<byte>, head: seq<byte>, junk: seq<byte>)
    requires s.phase == Scan && Clean(noise) && Clean(junk)
    requires BadHead(head)
    ensures Run(s, noise + ([START_CHAR] + head) + junk) == PacketError(s)
  {
    var start := [START_CHAR] + head;
    assert noise + start + junk == noise + (start + junk);
    RunConcat(s, noise, start + junk);
    CleanRun(s, noise);
    RunConcat(s, start, junk);
    if |head| == 1 {
      RunThree(s, START_CHAR, head[0], 0);
      assert start == [START_CHAR, head[0]];
    } else {
      RunThree(s, START_CHAR, head[0], head[1]);
      assert start == [START_CHAR, head[0], head[1]];
    }
    assert Run(s, start) == PacketError(s);
    CleanRun(PacketError(s), junk);
  }

  ghost predicate BadHead(head: seq<byte>) {
    || (|head| == 1 && Control(head[0]))
    || (|head| == 2 && !Control(head[0]) && Control(head[1]))
  }
}
