/**
 The Kermit receiver of cmd_load.c as it works: characters are read one by one, data goes straight
 into memory, a checkpoint is kept in saved copies of the state, and replies are built in a small
 buffer.  It is proved to follow the automaton of KermitSpec.
 */
module KermitPort {
  import opened Common
  import opened KermitSpec
  import opened KermitFrames

  function Padding(k: nat, c: byte): seq<byte> {
    if k == 0 then [] else Padding(k - 1, c) + [c]
  }

  /** What goes out on the line for a reply: the padding, and the frame up to a NUL. */
  function WireOf(r: Reply): seq<byte> {
    var f := ReplyFrame(r);
    Padding(r.peer.padCount, r.peer.padChar) + if r.peer.eol == 0 then f[..|f| - 1] else f
  }

  function Wire(replies: seq<Reply>): seq<byte> {
    if replies == [] then [] else Wire(replies[..|replies| - 1]) + WireOf(replies[|replies| - 1])
  }

  lemma WireAppend(replies: seq<Reply>, r: Reply)
    ensures Wire(replies + [r]) == Wire(replies) + WireOf(r)
  {
    assert (replies + [r])[..|replies|] == replies;
  }

  lemma {:induction false} SumAppend(s: seq<byte>, c: byte)
    ensures Sum(s + [c]) == Sum(s) + c
  {
    if s == [] {
      assert (s + [c])[1..] == [];
    } else {
      SumAppend(s[1..], c);
      assert (s + [c])[1..] == s[1..] + [c];
    }
  }

  /** The part of the automaton's state that outlives a packet. */
  datatype Core = Core(n: byte, lastN: int, kind: byte, kindSaved: byte, cur: Cursor, saved: Cursor, peer: Peer, replies: seq<Reply>)

  function CoreOf(s: State): Core {
    Core(s.n, s.lastN, s.kind, s.kindSaved, s.cur, s.saved, s.peer, s.replies)
  }

  predicate InPacket(phase: Phase) {
    phase != Scan && phase != End && phase != Done && phase != Aborted
  }

  /** The result of receiving one packet. */
  datatype Outcome = Good | Bad | Starved

  class KermitPort {
    /** The memory loaded into, and the load address. */
    const memory: array<byte>
    const binStart: nat
    /** The characters that arrive. */
    const input: seq<byte>
    /** Send-initiate parameters, and the buffer for replies. */
    const sendParms: array<byte>
    const aB: array<byte>
    var pos: nat
    var sendPtr: nat
    var hisEol: byte
    var hisPadCount: byte
    var hisPadChar: byte
    var hisQuote: byte
    var osDataAddr: nat
    var osDataAddrSaved: nat
    var kDataEscape: bool
    var kDataEscapeSaved: bool
    var kState: byte
    var kStateSaved: byte
    var n: byte
    var lastN: int
    /** The characters sent. */
    var wire: seq<byte>
    /** The automaton's state after the characters read so far. */
    ghost var st: State

    ghost predicate Fixed() {
      && memory != sendParms && memory != aB && sendParms != aB
      && sendParms.Length == SEND_DATA_SIZE && aB.Length == 24
      && binStart + |input| <= memory.Length
    }

    ghost predicate AtCursor(addr: nat, escape: bool, cur: Cursor)
      requires Fixed()
      reads memory
    {
      binStart <= addr <= memory.Length && memory[binStart..addr] == cur.stored && escape == cur.escape
    }

    /** The fields agree with the state s. */
    ghost predicate Mirrors(s: Core)
      reads this, memory
    {
      && Fixed()
      && n == s.n < 224 && lastN == s.lastN && kState == s.kind && kStateSaved == s.kindSaved
      && Peer(hisEol, hisPadCount, hisPadChar, hisQuote) == s.peer
      && pos <= |input| && binStart <= osDataAddrSaved <= osDataAddr <= binStart + pos
      && AtCursor(osDataAddr, kDataEscape, s.cur) && AtCursor(osDataAddrSaved, kDataEscapeSaved, s.saved)
      && wire == Wire(s.replies)
    }

    /** The buffer holds the parameters collected so far; the last place is written again and again. */
    ghost predicate HoldsParms(parms: seq<byte>)
      requires Fixed()
      reads this, sendParms
    {
      && sendPtr == (if |parms| < SEND_DATA_SIZE then |parms| else SEND_DATA_SIZE - 1)
      && forall i :: 0 <= i < sendPtr && i < SEND_DATA_SIZE - 1 ==> sendParms[i] == parms[i]
    }

    /** The automaton has read what has been read. */
    ghost predicate InStep()
      reads this
    {
      pos <= |input| && st == Run(INITIAL, input[..pos])
    }

    /** The next character, if there is one. */
    method Getc() returns (c: byte, eof: bool)
      requires InStep()
      modifies this`pos, this`st
      ensures InStep()
      ensures eof ==> pos == old(pos) == |input| && st == old(st)
      ensures !eof ==> pos == old(pos) + 1 && st == Step(old(st), c)
    {
      if pos == |input| {
        return 0, true;
      }
      c, eof := input[pos], false;
      assert input[..pos + 1] == input[..pos] + [c];
      RunConcat(INITIAL, input[..pos], [c]);
      assert [c][1..] == [] && Run(st, [c]) == Run(Step(st, c), []);
      pos := pos + 1;
      st := Step(st, c);
    }

    /** One character of file data into memory. */
    method OsDataChar(c: byte)
      requires Fixed() && osDataAddr < memory.Length
      modifies this`osDataAddr, memory
      ensures osDataAddr == old(osDataAddr) + 1
      ensures forall b :: 0 <= b <= old(osDataAddr) ==> memory[b..osDataAddr] == old(memory[b..osDataAddr]) + [c]
      ensures forall b, e :: 0 <= b <= e <= old(osDataAddr) ==> memory[b..e] == old(memory[b..e])
    {
      memory[osDataAddr] := c;
      osDataAddr := osDataAddr + 1;
    }

    /** One character of packet data through the control unquoting. */
    method KDataChar(c: byte, ghost s: Core)
      requires Mirrors(s) && osDataAddr < binStart + pos
      modifies this`osDataAddr, this`kDataEscape, memory
      ensures Mirrors(s.(cur := Feed(s.cur, s.peer.quote, c)))
    {
      hide Wire, KTrans;
      if kDataEscape {
        OsDataChar(KTrans(c));
        kDataEscape := false;
      } else {
        if c == hisQuote {
          kDataEscape := true;
        } else {
          OsDataChar(c);
        }
      }
    }

    // ---- receiving a packet ----

    /** Waits for the start character; `started` is false when the download ends before it. */
    method WaitForStart() returns (started: bool)
      requires InStep() && Mirrors(CoreOf(st)) && st.phase == Scan
      modifies this`pos, this`st
      ensures InStep() && Mirrors(CoreOf(st)) && pos >= old(pos) && (started ==> pos > old(pos))
      ensures started ==> st == old(st).(phase := Len)
      ensures !started ==> st == old(st).(phase := Aborted) || (st == old(st) && pos == |input|)
    {
      started := false;
      while true
        invariant InStep() && Mirrors(CoreOf(st)) && st == old(st) && pos >= old(pos)
        decreases |input| - pos
      {
        var c, eof := Getc();
        if eof {
          return false;
        }
        if c == START_CHAR {
          return true;
        } else if c == ETX_CHAR {
          return false;
        }
      }
    }

    /** The next character of a packet; a control character is an error. */
    method PacketChar() returns (o: Outcome, c: byte)
      requires InStep() && InPacket(st.phase)
      modifies this`pos, this`st
      ensures InStep() && pos >= old(pos)
      ensures o.Starved? ==> pos == old(pos) == |input| && st == old(st)
      ensures o.Bad? ==> pos == old(pos) + 1 && st == PacketError(old(st))
      ensures o.Good? ==> pos == old(pos) + 1 && !Control(c) && st == Step(old(st), c)
    {
      var eof;
      c, eof := Getc();
      o := if eof then Starved else if Control(c) then Bad else Good;
    }

    /** The checkpoint: saves the download, or goes back to the saved one. */
    method KDataSave(ghost s: Core)
      requires Mirrors(s)
      modifies this`kStateSaved, this`kDataEscapeSaved, this`osDataAddrSaved
      ensures Mirrors(s.(kindSaved := s.kind, saved := s.cur))
    {
      kStateSaved := kState;
      kDataEscapeSaved, osDataAddrSaved := kDataEscape, osDataAddr;
    }

    method KDataRestore(ghost s: Core)
      requires Mirrors(s)
      modifies this`kState, this`kDataEscape, this`osDataAddr
      ensures Mirrors(s.(kind := s.kindSaved, cur := s.saved))
    {
      kState := kStateSaved;
      kDataEscape, osDataAddr := kDataEscapeSaved, osDataAddrSaved;
    }

    /** The length character. */
    method LengthChar() returns (o: Outcome, sum: nat, length: int)
      requires InStep() && Mirrors(CoreOf(st)) && st.phase == Len
      modifies this`pos, this`st
      ensures InStep() && pos >= old(pos) && Mirrors(CoreOf(old(st)))
      ensures o.Good? ==> st.phase == Seq && st.sum == sum && st.length == length
                          && CoreOf(st) == CoreOf(old(st)) && st.parms == old(st.parms)
      ensures o.Bad? ==> st == PacketError(old(st))
      ensures o.Starved? ==> st == old(st) && pos == |input|
    {
      var c;
      o, c := PacketChar();
      sum, length := c, UnChar(c);
    }

    /** A repeated sequence number goes back to the checkpoint, a new one sets it. */
    method SequenceNumber(c: byte, ghost s: State)
      requires Mirrors(CoreOf(s)) && !Control(c)
      modifies this`n, this`lastN, this`kState, this`kStateSaved,
        this`kDataEscape, this`kDataEscapeSaved, this`osDataAddr, this`osDataAddrSaved
      ensures Mirrors(CoreOf(Checkpoint(s, UnChar(c))))
    {
      ghost var core := CoreOf(s);
      n := UnChar(c);
      if n == lastN {
        KDataRestore(core.(n := n));
      } else {
        lastN := n;
        KDataSave(core.(n := n, lastN := lastN));
      }
    }

    /** The sequence character. */
    method SequenceChar(sum0: nat, length0: int) returns (o: Outcome, sum: nat, length: int)
      requires InStep() && Mirrors(CoreOf(st)) && st.phase == Seq && st.sum == sum0 && st.length == length0
      modifies this`pos, this`st, this`n, this`lastN, this`kState, this`kStateSaved,
        this`kDataEscape, this`kDataEscapeSaved, this`osDataAddr, this`osDataAddrSaved
      ensures InStep() && pos >= old(pos)
      ensures o.Good? ==> Mirrors(CoreOf(st)) && st.phase == Type && st.sum == sum && st.length == length && st.parms == old(st.parms)
      ensures o.Bad? ==> Mirrors(CoreOf(old(st))) && st == PacketError(old(st))
      ensures o.Starved? ==> Mirrors(CoreOf(st)) && st == old(st) && pos == |input|
    {
      ghost var s := st;
      var c;
      o, c := PacketChar();
      sum, length := sum0 + c, length0 - 1;
      if o.Good? {
        SequenceNumber(c, s);
        SequenceStep(s, c);
      }
    }

    /** The packet type. */
    method TypeChar(sum0: nat, length0: int) returns (o: Outcome, sum: nat, length: int)
      requires InStep() && Mirrors(CoreOf(st)) && st.phase == Type && st.sum == sum0 && st.length == length0
      modifies this`pos, this`st, this`kState
      ensures InStep() && pos >= old(pos)
      ensures o.Good? ==> Mirrors(CoreOf(st)) && st.parms == old(st.parms) && st.sum == sum && st.length == length
                          && st.phase == (if length == -2 then Hi else if length > 1 then Data else Check)
      ensures o.Bad? ==> Mirrors(CoreOf(old(st))) && st == PacketError(old(st))
      ensures o.Starved? ==> Mirrors(CoreOf(st)) && st == old(st) && pos == |input|
    {
      var c;
      o, c := PacketChar();
      sum, length := sum0 + c, length0 - 1;
      if o.Good? {
        kState := c;
      }
    }

    /** The two length characters of a long packet. */
    method LengthPair(sum0: nat) returns (o: Outcome, sum: nat, length: int)
      requires InStep() && st.phase == Hi && st.sum == sum0
      modifies this`pos, this`st
      ensures InStep() && pos >= old(pos)
      ensures o.Good? ==> st == old(st).(phase := HeadCheck, sum := sum, hi := st.hi, length := length)
      ensures o.Bad? ==> st == PacketError(old(st))
      ensures o.Starved? ==> CoreOf(st) == CoreOf(old(st)) && InPacket(st.phase) && pos == |input|
    {
      hide Run, Checkpoint, PacketDone, TakeData, EnterBody;
      sum, length := sum0, -2;
      var hi, lo;
      o, hi := PacketChar();
      if !o.Good? { return; }
      sum := sum + hi;
      o, lo := PacketChar();
      if !o.Good? { return; }
      sum := sum + lo;
      length := UnChar(hi) * 95 + UnChar(lo);
    }

    /** The length characters and the header check of a long packet. */
    method LongLength(sum0: nat) returns (o: Outcome, sum: nat, length: int)
      requires InStep() && st.phase == Hi && st.sum == sum0
      modifies this`pos, this`st
      ensures InStep() && pos >= old(pos)
      ensures o.Good? ==> st.phase == (if length > 1 then Data else Check) && st.sum == sum && st.length == length
                          && CoreOf(st) == CoreOf(old(st)) && st.parms == old(st.parms)
      ensures o.Bad? ==> st == PacketError(old(st))
      ensures o.Starved? ==> CoreOf(st) == CoreOf(old(st)) && InPacket(st.phase) && pos == |input|
    {
      hide Run, Checkpoint, PacketDone, TakeData, BlockCheck, UnChar;
      o, sum, length := LengthPair(sum0);
      if !o.Good? { return; }
      var c;
      o, c := PacketChar();
      if !o.Good? { return; }
      if c != BlockCheck(sum) {
        return Bad, sum, length;
      }
      sum := sum + c;
    }

    /** One character of packet contents: file data into memory, parameters into their buffer. */
    method TakeChar(c: byte, ghost s: State)
      requires Mirrors(CoreOf(s)) && HoldsParms(s.parms) && osDataAddr < binStart + pos
      modifies this`osDataAddr, this`kDataEscape, this`sendPtr, memory, sendParms
      ensures Mirrors(CoreOf(TakeData(s, c))) && HoldsParms(TakeData(s, c).parms)
    {
      if kState == DATA_TYPE {
        KDataChar(c, CoreOf(s));
      } else if kState == SEND_TYPE {
        sendParms[sendPtr] := c;
        sendPtr := sendPtr + 1;
        if sendPtr >= SEND_DATA_SIZE {
          sendPtr := sendPtr - 1;
        }
      }
    }

    /** The fields agree with the automaton inside a packet body, with `length` still to come. */
    ghost predicate InBody(sum: nat, length: int)
      reads this, memory, sendParms
    {
      && InStep() && Mirrors(CoreOf(st)) && HoldsParms(st.parms)
      && st.phase == (if length > 1 then Data else Check) && st.sum == sum && st.length == length
    }

    method DataChar(sum: nat, length: int) returns (o: Outcome, c: byte)
      requires InBody(sum, length) && length > 1
      modifies this`pos, this`st, this`osDataAddr, this`kDataEscape, this`sendPtr, memory, sendParms
      ensures o.Good? ==> InBody(sum + c, length - 1) && pos == old(pos) + 1
      ensures !o.Good? ==> InStep() && Mirrors(CoreOf(old(st))) && pos >= old(pos)
      ensures o.Bad? ==> st == PacketError(old(st))
      ensures o.Starved? ==> st == old(st) && pos == |input|
    {
      hide Run, Step, TakeData, KermitPort.Mirrors, KermitPort.HoldsParms;
      ghost var e := st;
      o, c := BodyChar();
      if o.Good? {
        TakeChar(c, e);
        SameButFraming(e, c);
      }
    }

    /** The next character of a packet body; nothing is done with it yet. */
    method BodyChar() returns (o: Outcome, c: byte)
      requires InStep() && Mirrors(CoreOf(st)) && HoldsParms(st.parms) && st.phase == Data
      modifies this`pos, this`st
      ensures InStep() && pos >= old(pos) && Mirrors(CoreOf(old(st))) && HoldsParms(old(st.parms))
      ensures o.Good? ==> pos == old(pos) + 1 && !Control(c) && st == Step(old(st), c) && osDataAddr < binStart + pos
      ensures o.Bad? ==> st == PacketError(old(st))
      ensures o.Starved? ==> st == old(st) && pos == |input|
    {
      hide Run, Step;
      o, c := PacketChar();
    }

    /** The contents of the packet. */
    method Body(sum0: nat, length0: int) returns (o: Outcome, sum: nat, ghost e: State)
      requires InBody(sum0, length0)
      modifies this`pos, this`st, this`osDataAddr, this`kDataEscape, this`sendPtr, memory, sendParms
      ensures InStep() && pos >= old(pos) && Mirrors(CoreOf(e))
      ensures o.Good? ==> st == e && st.phase == Check && st.sum == sum && HoldsParms(st.parms)
      ensures o.Bad? ==> st == PacketError(e)
      ensures o.Starved? ==> st == e && InPacket(st.phase) && pos == |input|
    {
      o, sum, e := Good, sum0, st;
      var length := length0;
      while length > 1
        invariant InBody(sum, length) && o.Good? && e == st && pos >= old(pos)
      {
        var c;
        o, c := DataChar(sum, length);
        if !o.Good? { return; }
        sum := sum + c;
        length := length - 1;
        e := st;
      }
    }

    /** The block check and the end character. */
    method Tail(sum: nat) returns (o: Outcome)
      requires InStep() && st.phase == Check && st.sum == sum && Mirrors(CoreOf(st)) && HoldsParms(st.parms)
      modifies this`pos, this`st
      ensures InStep() && pos >= old(pos) && Mirrors(CoreOf(old(st))) && HoldsParms(old(st.parms))
      ensures o.Good? ==> st == PacketDone(old(st))
      ensures o.Bad? ==> st == PacketError(old(st))
      ensures o.Starved? ==> CoreOf(st) == CoreOf(old(st)) && st.phase != Done && st.phase != Aborted && pos == |input|
    {
      hide Run, Checkpoint, TakeData, EnterBody, BlockCheck;
      var c, eof;
      o, c := PacketChar();
      if !o.Good? { return; }
      if c != BlockCheck(sum) {
        return Bad;
      }
      c, eof := Getc();
      if eof {
        return Starved;
      }
      o := if c != END_CHAR then Bad else Good;
    }

    /** The length and the sequence number. */
    method Header() returns (o: Outcome, sum: nat, length: int, ghost e: State)
      requires InStep() && Mirrors(CoreOf(st)) && st.phase == Len && HoldsParms(st.parms)
      modifies this`pos, this`st, this`n, this`lastN, this`kState, this`kStateSaved,
        this`kDataEscape, this`kDataEscapeSaved, this`osDataAddr, this`osDataAddrSaved
      ensures InStep() && Mirrors(CoreOf(e)) && pos >= old(pos)
      ensures o.Good? ==> st == e && st.phase == Type && st.sum == sum && st.length == length && HoldsParms(st.parms)
      ensures o.Bad? ==> st == PacketError(e)
      ensures o.Starved? ==> st == e && InPacket(st.phase) && pos == |input|
    {
      e := st;
      o, sum, length := LengthChar();
      if !o.Good? { return; }
      e := st;
      o, sum, length := SequenceChar(sum, length);
      if !o.Good? { return; }
      e := st;
    }

    /** The type, the length of a long packet, and the contents. */
    method Contents(sum0: nat, length0: int) returns (o: Outcome, sum: nat, ghost e: State)
      requires InStep() && Mirrors(CoreOf(st)) && st.phase == Type && st.sum == sum0 && st.length == length0
      requires HoldsParms(st.parms)
      modifies this`pos, this`st, this`kState, this`kDataEscape, this`osDataAddr, this`sendPtr, memory, sendParms
      ensures InStep() && Mirrors(CoreOf(e)) && pos >= old(pos)
      ensures o.Good? ==> st == e && st.phase == Check && st.sum == sum && HoldsParms(st.parms)
      ensures o.Bad? ==> st == PacketError(e)
      ensures o.Starved? ==> CoreOf(st) == CoreOf(e) && InPacket(st.phase) && pos == |input|
    {
      hide Run, Step, PacketDone, PacketError;
      var length;
      e := st;
      o, sum, length := TypeChar(sum0, length0);
      if !o.Good? { return; }
      e := st;
      if length == -2 {
        o, sum, length := LongLength(sum);
        if !o.Good? { return; }
      }
      o, sum, e := Body(sum, length);
    }

    /** One packet, from its length on. */
    method ReceivePacket() returns (o: Outcome, ghost e: State)
      requires InStep() && Mirrors(CoreOf(st)) && st.phase == Len && HoldsParms(st.parms)
      modifies this`pos, this`st, this`n, this`lastN, this`kState, this`kStateSaved, this`kDataEscape, this`kDataEscapeSaved,
        this`osDataAddr, this`osDataAddrSaved, this`sendPtr, memory, sendParms
      ensures InStep() && Mirrors(CoreOf(e)) && pos >= old(pos)
      ensures o.Good? ==> st == PacketDone(e) && HoldsParms(e.parms)
      ensures o.Bad? ==> st == PacketError(e)
      ensures o.Starved? ==> CoreOf(st) == CoreOf(e) && st.phase != Done && st.phase != Aborted && pos == |input|
    {
      hide Run, Step, PacketDone, PacketError, KermitPort.Mirrors, KermitPort.HoldsParms;
      var sum, length;
      o, sum, length, e := Header();
      if !o.Good? { return; }
      o, sum, e := Contents(sum, length);
      if !o.Good? { return; }
      o := Tail(sum);
    }

    // ---- replies ----

    /** The check of the NUL-terminated text behind the start character. */
    method Chk1(ghost body: seq<byte>) returns (r: int)
      requires Fixed() && |body| + 1 < aB.Length && aB[1..|body| + 1] == body && aB[|body| + 1] == 0
      requires forall i :: 0 <= i < |body| ==> body[i] != 0
      ensures r == BlockCheck(Sum(body)) - 32
    {
      var total: nat, p := 0, 1;
      assert forall i :: 0 <= i < |body| ==> aB[i + 1] == aB[1..|body| + 1][i] == body[i];
      while aB[p] != 0
        invariant 1 <= p <= |body| + 1 && total == Sum(body[..p - 1])
        decreases |body| - p
      {
        SumAppend(body[..p - 1], aB[p]);
        assert body[..p] == body[..p - 1] + [aB[p]];
        total := total + aB[p];
        p := p + 1;
      }
      assert body[..|body|] == body;
      r := (total + (total / 64) % 4) % 64;
    }

    method SendPad()
      modifies this`wire
      ensures wire == old(wire) + Padding(hisPadCount, hisPadChar)
    {
      var count := 0;
      while count < hisPadCount
        invariant 0 <= count <= hisPadCount && wire == old(wire) + Padding(count, hisPadChar)
      {
        wire := wire + [hisPadChar];
        count := count + 1;
      }
    }

    /** Sends the padding and the text in the reply buffer up to its NUL. */
    method S1SendPacket(ghost text: seq<byte>)
      requires Fixed() && |text| < aB.Length && aB[..|text|] == text && aB[|text|] == 0
      requires forall i :: 0 <= i < |text| ==> text[i] != 0
      modifies this`wire
      ensures wire == old(wire) + (Padding(hisPadCount, hisPadChar) + text)
    {
      SendPad();
      var p := 0;
      ghost var before := wire;
      assert forall i :: 0 <= i < |text| ==> aB[i] == aB[..|text|][i] == text[i];
      while aB[p] != 0
        invariant 0 <= p <= |text| && wire == before + text[..p]
        decreases |text| - p
      {
        wire := wire + [aB[p]];
        p := p + 1;
      }
      assert text[..|text|] == text;
    }

    /** Adds the block check to a reply whose text fills the buffer up to index `length`. */
    method PutCheck(length: nat, ghost body: seq<byte>)
      requires Fixed() && length == |body| + 1 < aB.Length && aB[..length] == [START_CHAR] + body
      requires forall i :: 0 <= i < |body| ==> body[i] != 0
      modifies aB
      ensures aB[..length + 1] == [START_CHAR] + body + [BlockCheck(Sum(body))]
    {
      hide Sum, BlockCheck;
      aB[length] := 0;
      assert aB[1..length] == aB[..length][1..] == body;
      var check := Chk1(body);
      aB[length] := ToChar(check);
    }

    /** Adds the block check and the end of line to a reply of `length` characters behind the start
        character, and sends it. */
    method Seal(length0: nat, ghost r: Reply)
      requires Fixed() && length0 + 3 < aB.Length && r.peer == Peer(hisEol, hisPadCount, hisPadChar, hisQuote)
      requires !Control(r.kind) && Printable(r.data) && length0 == |r.data| + 3 < 100 && r.n < 224
      requires aB[..length0 + 1] == [START_CHAR, ToChar(|r.data| + 3), ToChar(r.n), r.kind] + r.data
      modifies this`wire, aB
      ensures wire == old(wire) + WireOf(r)
    {
      ghost var body := [ToChar(|r.data| + 3), ToChar(r.n), r.kind] + r.data;
      BodyNotZero(r);
      FrameParts(r);
      hide Sum, BlockCheck, Padding, ReplyFrame, WireOf, Printable, Control, ToChar;
      assert aB[..length0 + 1] == [START_CHAR] + body;
      var length := length0 + 1;
      PutCheck(length, body);
      ghost var f := [START_CHAR] + body + [BlockCheck(Sum(body)), r.peer.eol];
      length := length + 1;
      aB[length] := hisEol;
      assert aB[..length + 1] == f;
      length := length + 1;
      aB[length] := 0;
      assert aB[..length] == f;
      if hisEol == 0 {
        assert aB[..length - 1] == f[..|f| - 1];
        S1SendPacket(f[..|f| - 1]);
      } else {
        S1SendPacket(f);
      }
    }

    method SendAck(ghost s: Core)
      requires Mirrors(s)
      modifies this`wire, aB
      ensures Mirrors(s.(replies := s.replies + [Reply(ACK_TYPE, s.n, [], s.peer)]))
    {
      aB[0], aB[1], aB[2], aB[3] := START_CHAR, ToChar(3), ToChar(n), ACK_TYPE;
      ghost var r := Reply(ACK_TYPE, n, [], s.peer);
      assert aB[..4] == [START_CHAR, ToChar(3), ToChar(n), ACK_TYPE] + [];
      Seal(3, r);
      WireAppend(s.replies, r);
    }

    method SendNack(ghost s: Core)
      requires Mirrors(s)
      modifies this`wire, aB
      ensures Mirrors(s.(replies := s.replies + [Reply(NACK_TYPE, s.n, [], s.peer)]))
    {
      aB[0], aB[1], aB[2], aB[3] := START_CHAR, ToChar(3), ToChar(n), NACK_TYPE;
      ghost var r := Reply(NACK_TYPE, n, [], s.peer);
      assert aB[..4] == [START_CHAR, ToChar(3), ToChar(n), NACK_TYPE] + [];
      Seal(3, r);
      WireAppend(s.replies, r);
    }

    /** One more parameter in the reply. */
    method Offer(length0: nat, c: byte) returns (length: nat)
      requires Fixed() && 3 <= length0 < 20
      modifies aB
      ensures length == length0 + 1 && aB[4..length + 1] == old(aB[4..length0 + 1]) + [c]
    {
      length := length0 + 1;
      aB[length] := c;
    }

    /** Takes the sender's parameters and builds the answer to each of them, as many as he sent. */
    method AnswerParms(ghost parms: seq<byte>) returns (length: nat)
      requires Fixed() && HoldsParms(parms)
      modifies this`hisEol, this`hisPadCount, this`hisPadChar, this`hisQuote, this`sendPtr, aB
      ensures Peer(hisEol, hisPadCount, hisPadChar, hisQuote) == PeerFrom(parms)
      ensures length == |Offered(parms)| + 3 && aB[4..length + 1] == Offered(parms)
    {
      length := 3;
      InitPeer();
      if sendPtr == SEND_DATA_SIZE - 1 {
        sendPtr := sendPtr - 1;
      }
      var bytes := sendPtr;
      assert aB[4..length + 1] == OFFER[..0] == [];
      label Answers: {
        if bytes <= 0 { break Answers; }
        length := Offer(length, ToChar(94));
        assert aB[4..length + 1] == OFFER[..1];
        if bytes <= 1 { break Answers; }
        length := Offer(length, ToChar(1));
        assert aB[4..length + 1] == OFFER[..2];
        if bytes <= 2 { break Answers; }
        hisPadCount := UnChar(sendParms[2]);
        length := Offer(length, ToChar(0));
        assert aB[4..length + 1] == OFFER[..3];
        if bytes <= 3 { break Answers; }
        length := AnswerSettings(parms, length, bytes);
      }
    }

    /** The answers from the padding character on. */
    method AnswerSettings(ghost parms: seq<byte>, length0: nat, bytes: nat) returns (length: nat)
      requires Fixed() && length0 == 6 && aB[4..7] == OFFER[..3]
      requires bytes == ParmCount(|parms|) >= 4
      requires forall i :: 0 <= i < bytes ==> sendParms[i] == parms[i]
      requires Peer(hisEol, hisPadCount, hisPadChar, hisQuote) == Peer(END_CHAR, UnChar(parms[2]), 0, K_ESCAPE)
      modifies this`hisEol, this`hisPadChar, this`hisQuote, aB
      ensures Peer(hisEol, hisPadCount, hisPadChar, hisQuote) == PeerFrom(parms)
      ensures length == |Offered(parms)| + 3 && aB[4..length + 1] == Offered(parms)
    {
      length := length0;
      label Answers: {
        hisPadChar := KTrans(sendParms[3]);
        length := Offer(length, 0x40);
        assert aB[4..length + 1] == OFFER[..4];
        if bytes <= 4 { break Answers; }
        hisEol := UnChar(sendParms[4]);
        length := Offer(length, ToChar(END_CHAR));
        assert aB[4..length + 1] == OFFER[..5];
        if bytes <= 5 { break Answers; }
        hisQuote := sendParms[5];
        length := Offer(length, 0x23);
        assert aB[4..length + 1] == OFFER[..6];
        length := AnswerMore(length, bytes);
      }
    }

    /** The answers to the parameters that are ignored. */
    method AnswerMore(length0: nat, bytes: nat) returns (length: nat)
      requires Fixed() && length0 == 9 && aB[4..10] == OFFER[..6] && bytes >= 6
      modifies aB
      ensures var k := if bytes >= 10 then 13 else bytes; length == k + 3 && aB[4..length + 1] == OFFER[..k]
    {
      length := length0;
      if bytes <= 6 { return; }
      length := Offer(length, 0x4E);
      assert aB[4..length + 1] == OFFER[..7];
      if bytes <= 7 { return; }
      length := Offer(length, 0x31);
      assert aB[4..length + 1] == OFFER[..8];
      if bytes <= 8 { return; }
      length := Offer(length, 0x4E);
      assert aB[4..length + 1] == OFFER[..9];
      if bytes <= 9 { return; }
      length := Offer(length, ToChar(2));
      length := Offer(length, ToChar(0));
      length := Offer(length, ToChar(94));
      length := Offer(length, ToChar(94));
      assert aB[4..length + 1] == OFFER[..9] + [34, 32, 126, 126] == OFFER[..13];
    }

    method HandleSendPacket(ghost s: Core, ghost parms: seq<byte>)
      requires Mirrors(s) && HoldsParms(parms)
      modifies this`wire, this`hisEol, this`hisPadCount, this`hisPadChar, this`hisQuote, this`sendPtr, aB
      ensures var peer := PeerFrom(parms);
        Mirrors(s.(peer := peer, replies := s.replies + [Reply(ACK_TYPE, s.n, Offered(parms), peer)]))
    {
      hide PeerFrom, Offered, WireOf, Wire, Printable;
      var length := AnswerParms(parms);
      ghost var r := Reply(ACK_TYPE, n, Offered(parms), PeerFrom(parms));
      OfferedIsShort(parms);
      aB[0], aB[1], aB[2], aB[3] := START_CHAR, ToChar(length), ToChar(n), ACK_TYPE;
      assert aB[4..length + 1] == Offered(parms);
      assert aB[..length + 1] == [START_CHAR, ToChar(length), ToChar(n), ACK_TYPE] + aB[4..length + 1];
      Seal(length, r);
      WireAppend(s.replies, r);
    }

    // ---- the receiver ----

    /** Answers a packet: a negative acknowledge after going back to the checkpoint, or an
        acknowledge; `done` tells whether it was the last packet. */
    method Answer(good: bool, ghost e: State) returns (done: bool)
      requires Mirrors(CoreOf(e)) && (good ==> HoldsParms(e.parms))
      modifies this`wire, this`hisEol, this`hisPadCount, this`hisPadChar, this`hisQuote, this`sendPtr,
        this`kState, this`kDataEscape, this`osDataAddr, aB
      ensures Mirrors(CoreOf(if good then PacketDone(e) else PacketError(e)))
      ensures done <==> good && e.kind == BREAK_TYPE
    {
      done := false;
      if !good {
        KDataRestore(CoreOf(e));
        SendNack(CoreOf(e.(kind := e.kindSaved, cur := e.saved)));
      } else if kState == SEND_TYPE {
        HandleSendPacket(CoreOf(e), e.parms);
      } else {
        SendAck(CoreOf(e));
        if kState == BREAK_TYPE {
          done := true;
        }
      }
    }

    /** Empties the parameter buffer and waits for a packet. */
    method BeginPacket() returns (started: bool)
      requires InStep() && Mirrors(CoreOf(st)) && st.phase == Scan && st.parms == []
      modifies this`pos, this`st, this`sendPtr
      ensures InStep() && Mirrors(CoreOf(st)) && pos >= old(pos)
      ensures started ==> st.phase == Len && HoldsParms(st.parms) && pos > old(pos)
      ensures !started ==> st.phase == Aborted || (st.phase == Scan && pos == |input|)
    {
      sendPtr := 0;
      started := WaitForStart();
    }

    /** Waits for a packet, receives and answers it; `ended` says that no packet came in full. */
    method NextPacket() returns (done: bool, ended: bool)
      requires InStep() && Mirrors(CoreOf(st)) && st.phase == Scan && st.parms == []
      modifies this, memory, sendParms, aB
      ensures InStep() && Mirrors(CoreOf(st)) && pos >= old(pos)
      ensures !ended ==> pos > old(pos) && st.parms == [] && st.phase == if done then Done else Scan
      ensures ended ==> st.phase == Aborted || (st.phase != Done && pos == |input|)
    {
      hide Run, Step, PacketDone, PacketError, KermitPort.Mirrors, KermitPort.HoldsParms;
      done, ended := false, true;
      var started := BeginPacket();
      if started {
        var o;
        ghost var e;
        o, e := ReceivePacket();
        if !o.Starved? {
          done := Answer(o.Good?, e);
          ended := false;
          AfterPacket(e);
        }
      }
    }

    /** Receives a file: the result is the number of bytes stored from the load address on. The
        characters read drive the automaton, until the break packet or an abort character has been
        read or no more characters come. */
    method KRecv() returns (size: nat)
      requires Fixed() && pos == 0 && wire == []
      modifies this, memory, sendParms, aB
      ensures InStep() && wire == Wire(st.replies)
      ensures st.phase == Done || st.phase == Aborted || pos == |input|
      ensures st.phase == Done ==> AtCursor(binStart + size, st.cur.escape, st.cur)
      ensures st.phase == Aborted ==> size == 0
    {
      Start();
      var done := false;
      while !done
        invariant InStep() && Mirrors(CoreOf(st)) && st.parms == []
        invariant st.phase == if done then Done else Scan
        decreases |input| - pos
      {
        var ended;
        done, ended := NextPacket();
        if ended {
          return 0;
        }
      }
      return osDataAddr - binStart;
    }

    method Start()
      requires Fixed() && pos == 0 && wire == []
      modifies this
      ensures InStep() && Mirrors(CoreOf(st)) && st == INITIAL
    {
      InitPeer();
      KDataInit();
      InitPackets();
      AtStart();
    }

    /** The line parameters assumed before the sender has said what he wants. */
    method InitPeer()
      modifies this`hisEol, this`hisPadCount, this`hisPadChar, this`hisQuote
      ensures Peer(hisEol, hisPadCount, hisPadChar, hisQuote) == DEFAULT_PEER
    {
      hisEol, hisPadCount, hisPadChar, hisQuote := END_CHAR, 0, 0, K_ESCAPE;
    }

    /** No escape pending and nothing stored, in the download and in its checkpoint. */
    method KDataInit()
      modifies this`kDataEscape, this`kDataEscapeSaved, this`osDataAddr, this`osDataAddrSaved
      ensures !kDataEscape && !kDataEscapeSaved && osDataAddr == osDataAddrSaved == binStart
    {
      kDataEscape, osDataAddr := false, binStart;
      kDataEscapeSaved, osDataAddrSaved := kDataEscape, osDataAddr;
    }

    method InitPackets()
      modifies this`kState, this`kStateSaved, this`n, this`lastN, this`st
      ensures kState == kStateSaved == n == 0 && lastN == -1 && st == INITIAL
    {
      kState, kStateSaved, n, lastN, st := 0, 0, 0, -1, INITIAL;
    }

    lemma AtStart()
      requires Fixed() && pos == 0 && wire == [] && st == INITIAL
      requires Peer(hisEol, hisPadCount, hisPadChar, hisQuote) == DEFAULT_PEER
      requires !kDataEscape && !kDataEscapeSaved && osDataAddr == osDataAddrSaved == binStart
      requires kState == kStateSaved == n == 0 && lastN == -1
      ensures InStep() && Mirrors(CoreOf(st))
    {
      assert input[..0] == [];
      assert memory[binStart..binStart] == [];
    }
  }

  lemma AfterPacket(e: State)
    ensures PacketDone(e).parms == PacketError(e).parms == [] && PacketError(e).phase == Scan
    ensures PacketDone(e).phase == if e.kind == BREAK_TYPE then Done else Scan
  {
  }

  lemma OfferedIsShort(parms: seq<byte>)
    ensures Printable(Offered(parms)) && |Offered(parms)| <= 13
  {
    assert Printable(OFFER);
  }

  /** No character of a reply before the end of line is a NUL. */
  lemma BodyNotZero(r: Reply)
    requires !Control(r.kind) && Printable(r.data) && |r.data| < 100 && r.n < 224
    ensures var body := [ToChar(|r.data| + 3), ToChar(r.n), r.kind] + r.data;
      forall i :: 0 <= i < |body| ==> body[i] != 0
    ensures var f := ReplyFrame(r); forall i :: 0 <= i < |f| - 1 ==> f[i] != 0
  {
  }

  lemma FrameParts(r: Reply)
    ensures var body := [ToChar(|r.data| + 3), ToChar(r.n), r.kind] + r.data;
      var f := [START_CHAR] + body + [BlockCheck(Sum(body)), r.peer.eol];
      && ReplyFrame(r) == f
      && WireOf(r) == Padding(r.peer.padCount, r.peer.padChar) + if r.peer.eol == 0 then f[..|f| - 1] else f
  {
    hide Sum, BlockCheck, Padding;
  }

  lemma SequenceStep(s: State, c: byte)
    requires s.phase == Seq && !Control(c)
    ensures var t := Step(s, c);
      && CoreOf(t) == CoreOf(Checkpoint(s, UnChar(c))) && t.parms == s.parms
      && t.phase == Type && t.sum == s.sum + c && t.length == s.length - 1
  {
  }

  /** What a content character changes besides the framing does not depend on the framing. */
  lemma SameButFraming(s: State, c: byte)
    requires s.phase == Data && !Control(c)
    ensures CoreOf(Step(s, c)) == CoreOf(TakeData(s, c)) && Step(s, c).parms == TakeData(s, c).parms
    ensures var t := Step(s, c);
      t.sum == s.sum + c && t.length == s.length - 1 && t.phase == if t.length > 1 then Data else Check
  {
  }
}
