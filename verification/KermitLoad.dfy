/**
 `loadb`: the receiver at the end of a line on which a stop-and-wait sender sends a file.
 */
module KermitLoad {
  import opened Common
  import opened KermitSpec
  import opened KermitFrames
  import opened KermitDelivery
  import opened KermitFile
  import opened KermitPort

  /** The characters that reach the receiver over a whole download. */
  function Line(packets: seq<Packet>, attempts: seq<Attempt>): seq<byte> {
    if attempts == [] then []
    else
      var front, a := attempts[..|attempts| - 1], attempts[|attempts| - 1];
      var w := Download(packets, front);
      Line(packets, front) +
      if w.receiver.phase != Scan || w.next >= |packets| then [] else Input(a, packets[w.next], w.next)
  }

  lemma {:induction false} LineDrivesReceiver(packets: seq<Packet>, attempts: seq<Attempt>)
    ensures Run(INITIAL, Line(packets, attempts)) == Download(packets, attempts).receiver
    decreases |attempts|
  {
    if attempts != [] {
      var front, a := attempts[..|attempts| - 1], attempts[|attempts| - 1];
      var w := Download(packets, front);
      LineDrivesReceiver(packets, front);
      if w.receiver.phase != Scan || w.next >= |packets| {
        assert Line(packets, attempts) == Line(packets, front);
      } else {
        RunConcat(INITIAL, Line(packets, front), Input(a, packets[w.next], w.next));
      }
    }
  }

  lemma {:induction false} EndedStays(s: State, input: seq<byte>)
    requires s.phase == Done || s.phase == Aborted
    ensures Run(s, input) == s
    decreases |input|
  {
    if input != [] { EndedStays(s, input[1..]); }
  }

  /** Where the receiver stops, the automaton has the state it has at the end of the line. */
  lemma {:induction false} StoppedAtEnd(input: seq<byte>, pos: nat)
    requires pos <= |input|
    requires var s := Run(INITIAL, input[..pos]); s.phase == Done || s.phase == Aborted || pos == |input|
    ensures Run(INITIAL, input[..pos]) == Run(INITIAL, input)
  {
    assert input == input[..pos] + input[pos..];
    RunConcat(INITIAL, input[..pos], input[pos..]);
    if pos == |input| {
      assert input[pos..] == [];
    } else {
      EndedStays(Run(INITIAL, input[..pos]), input[pos..]);
    }
  }

  /** Loads a file over the line: when the download comes to its end, the memory from the load address
      on, for the size returned, holds the file exactly when no header damage has hit the first
      transmission after an acknowledged data packet. */
  method LoadSerialBin(port: KermitPort, ghost parms: seq<byte>, ghost name: seq<byte>, ghost chunks: seq<seq<byte>>,
      ghost file: seq<byte>, ghost attempts: seq<Attempt>) returns (size: nat)
    requires port.Fixed() && port.pos == 0 && port.wire == []
    requires var q := SenderQuote(parms); UsableQuote(q) && Concat(chunks) == Encode(q, file)
    requires var packets := FilePackets(parms, name, chunks);
      && ValidDownload(packets) && PossibleRun(packets, attempts) && port.input == Line(packets, attempts)
      && Download(packets, attempts).receiver.phase == Done
    modifies port, port.memory, port.sendParms, port.aB
    ensures port.binStart + size <= port.memory.Length
    ensures port.memory[port.binStart..port.binStart + size] == file <==>
      !HitsAfterAcknowledge(FilePackets(parms, name, chunks), attempts)
  {
    size := port.KRecv();
    FileIsStored(port.input, port.pos, parms, name, chunks, file, attempts);
  }

  lemma {:induction false} FileIsStored(input: seq<byte>, pos: nat, parms: seq<byte>, name: seq<byte>,
      chunks: seq<seq<byte>>, file: seq<byte>, attempts: seq<Attempt>)
    requires var q := SenderQuote(parms); UsableQuote(q) && Concat(chunks) == Encode(q, file)
    requires var packets := FilePackets(parms, name, chunks);
      && ValidDownload(packets) && PossibleRun(packets, attempts) && input == Line(packets, attempts)
      && Download(packets, attempts).receiver.phase == Done
    requires pos <= |input|
    requires var s := Run(INITIAL, input[..pos]); s.phase == Done || s.phase == Aborted || pos == |input|
    ensures var s := Run(INITIAL, input[..pos]);
      && s.phase == Done
      && (s.cur.stored == file <==> !HitsAfterAcknowledge(FilePackets(parms, name, chunks), attempts))
  {
    LineDrivesReceiver(FilePackets(parms, name, chunks), attempts);
    StoppedAtEnd(input, pos);
    FileArrives(parms, name, chunks, file, attempts);
  }
}
