/**
 `saves` and `loads` as they work: bytes are collected and written as records, and lines are read and
 stored, over a serial console.
 */
module SRecordPort {
  import opened Common
  import opened SRecord

  datatype LineStatus = GotLine | Interrupt | NoInput

  /** The text behind a line that was begun. */
  function Continued(begun: string, r: LineRead): LineRead {
    if r.Line? then Line(begun + r.text, r.rest) else r
  }

  lemma ContinuedStep(begun: string, c: char, r: LineRead)
    ensures Continued([], r) == r
    ensures Continued(begun, if r.Line? then Line([c] + r.text, r.rest) else r) == Continued(begun + [c], r)
  {
    if r.Line? {
      assert begun + ([c] + r.text) == begun + [c] + r.text;
      assert [] + r.text == r.text;
    }
  }

  class Console {
    const input: string
    var pos: nat
    var output: string
    var memory: Memory

    ghost predicate Valid()
      reads this
    {
      pos <= |input|
    }

    /** Reads a line of less than `room0` characters into a buffer. */
    method ReadLine(room0: nat) returns (status: LineStatus, line: string)
      requires Valid()
      modifies this`pos
      ensures Valid()
      ensures match ReadRecord(input[old(pos)..], room0)
        case Line(text, rest) => status == GotLine && line == text && input[pos..] == rest
        case Interrupted => status == Interrupt
        case Waiting => status == NoInput
    {
      line := [];
      var i := 0;
      ContinuedStep([], ' ', ReadRecord(input[pos..], room0));
      while i < room0
        invariant 0 <= i <= room0 && pos <= |input|
        invariant ReadRecord(input[old(pos)..], room0) == Continued(line, ReadRecord(input[pos..], room0 - i))
      {
        if pos == |input| {
          return NoInput, line;
        }
        var c := input[pos];
        assert input[pos..][0] == c && input[pos..][1..] == input[pos + 1..];
        pos := pos + 1;
        if c == '\r' || c == '\n' {
          assert line + "" == line;
          return GotLine, line;
        }
        if c == '\0' || c == 3 as char {
          return Interrupt, line;
        }
        ContinuedStep(line, c, ReadRecord(input[pos..], room0 - i - 1));
        line := line + [c];
        i := i + 1;
      }
      assert line + "" == line;
      status := GotLine;
    }

    /** Loads records into the memory until an end record. */
    method LoadSerial(offset: nat) returns (outcome: Outcome)
      requires Valid()
      modifies this`pos, this`memory
      ensures (outcome, memory) == LoadText(old(memory), input[old(pos)..], offset)
    {
      hide Decode, ReadRecord;
      var first: nat, last: nat := U32 - 1, 0;
      while true
        invariant Valid() && first < U32 && 0 <= last
        invariant Load(Progress(memory, first, last), input[pos..], offset) == LoadText(old(memory), input[old(pos)..], offset)
        decreases |input| - pos
      {
        LineIsRead(input[pos..]);
        var status, line := ReadLine(MAX_LINE);
        if status != GotLine {
          return if status == Interrupt then Aborted else Stuck;
        }
        match Decode(line)
        case Bad =>
          return Aborted;
        case Nothing =>
        case Record(kind, address, count, data) =>
          if kind == '1' || kind == '2' || kind == '3' {
            if count < 0 {
              return Overrun;
            }
            var at := (address + offset) % U32;
            memory := Store(memory, at, data);
            if at < first {
              first := at;
            }
            var end := EndOf(at, |data|);
            if end > last {
              last := end;
            }
          } else if kind == '7' || kind == '8' || kind == '9' {
            return Done(address, (last + U32 - first + 1) % U32);
          }
      }
    }

    method WriteRecord(buf: string)
      modifies this`output
      ensures output == old(output) + buf
    {
      var i := 0;
      while i < |buf|
        invariant 0 <= i <= |buf| && output == old(output) + buf[..i]
      {
        assert buf[..i + 1] == buf[..i] + [buf[i]];
        output := output + [buf[i]];
        i := i + 1;
      }
      assert buf[..i] == buf;
    }

    /** Adds the n low octets of a number to a checksum. */
    method AddOctets(sum0: nat, v: nat, n: nat) returns (sum: nat)
      ensures sum == sum0 + Sum(Octets(v, n))
    {
      var i, w := 0, v;
      sum := sum0;
      while i < n
        invariant 0 <= i <= n && 0 <= w && sum + Sum(Octets(w, n - i)) == sum0 + Sum(Octets(v, n))
      {
        OctetsStep(w, n - i);
        sum := sum + w % 256;
        w := w / 256;
        i := i + 1;
      }
    }

    /** Writes the record of the bytes collected so far. */
    method Dump(address: nat, data: seq<byte>, hexData: string, sum: nat)
      requires 0 < |data| <= BYTES_PER_RECORD && hexData == HexAll(data) && sum == Sum(data)
      modifies this`output
      ensures output == old(output) + (RecordText('3', address, data) + "\n")
    {
      hide HexAll, Sum, Octets, Hex;
      var length: nat := 4 + |data| + 1;
      var checksum := AddOctets(sum, length, 2);
      LengthOctets(length);
      checksum := AddOctets(checksum, address, 4);
      WriteRecord("S3" + Hex(length) + HexAll(Octets(address, 4)) + hexData + Hex(255 - checksum % 256) + "\n");
    }

    /** Writes `count0` bytes of the memory as records. */
    method SaveSerial(address0: nat, count0: nat)
      requires address0 < U32
      modifies this`output
      ensures output == old(output) + DumpText(memory, address0, count0)
    {
      hide RecordText, Bytes, HexAll, Sum, Hex;
      var address, count, reclen, hexData := address0, count0, 0, "";
      var sum: nat := 0;
      ghost var before := output + (START + "\n");
      NothingCollected(memory, address);
      WriteRecord(START + "\n");
      ghost var rest := DataText(memory, address0, count0);
      hide DataText;
      while true
        invariant 0 <= address < U32 && 0 <= count && 0 <= reclen < BYTES_PER_RECORD && (reclen > 0 ==> count > 0)
        invariant hexData == HexAll(Bytes(memory, address, reclen)) && sum == Sum(Bytes(memory, address, reclen))
        invariant rest == DataText(memory, address, reclen + count)
        invariant output + rest == before + DataText(memory, address0, count0)
        decreases count
      {
        if count > 0 {
          var c := memory((address + reclen) % U32);
          Collected(memory, address, reclen);
          sum := sum + c;
          hexData := hexData + Hex(c);
          reclen := reclen + 1;
          count := count - 1;
        }
        if reclen == BYTES_PER_RECORD || count == 0 {
          if reclen > 0 {
            ghost var record := RecordText('3', address, Bytes(memory, address, reclen)) + "\n";
            ghost var was := output;
            Dump(address, Bytes(memory, address, reclen), hexData, sum);
            DataTextIs(memory, address, reclen, count);
            rest := DataText(memory, (address + reclen) % U32, count);
            Associate(was, record, rest);
          }
          address := (address + reclen) % U32;
          sum, reclen, hexData := 0, 0, "";
          NothingCollected(memory, address);
          if count == 0 {
            break;
          }
        }
      }
      NothingCollected(memory, address);
      WithEmpty(output);
      WriteRecord(END + "\n");
      Associate4(old(output), START + "\n", DataText(memory, address0, count0), END + "\n");
      DumpTextIs(memory, address0, count0);
    }
  }

  lemma LineIsRead(s: string)
    ensures var r := ReadRecord(s, MAX_LINE); r.Line? ==> |r.rest| < |s|
  {
  }

  lemma {:induction false} OctetsStep(v: nat, n: nat)
    requires n > 0
    ensures Sum(Octets(v, n)) == v % 256 + Sum(Octets(v / 256, n - 1))
  {
    assert Octets(v, n)[..n - 1] == Octets(v / 256, n - 1);
  }

  lemma {:induction false} LengthOctets(n: nat)
    requires n < 256
    ensures Sum(Octets(n, 2)) == n
  {
    OctetsStep(n, 2);
    OctetsStep(n / 256, 1);
  }

  lemma NothingCollected(m: Memory, address: nat)
    ensures Bytes(m, address, 0) == [] && HexAll([]) == "" && Sum([]) == 0 && DataText(m, address, 0) == ""
  {
  }

  lemma DumpTextIs(m: Memory, address: nat, n: nat)
    ensures DumpText(m, address, n) == START + "\n" + DataText(m, address, n) + (END + "\n")
  {
    hide DataText;
    Associate(START + "\n" + DataText(m, address, n), END, "\n");
  }

  lemma {:induction false} Collected(m: Memory, address: nat, n: nat)
    ensures var c, bs := m((address + n) % U32), Bytes(m, address, n);
      var bs' := Bytes(m, address, n + 1);
      bs' == bs + [c] && HexAll(bs') == HexAll(bs) + Hex(c) && Sum(bs') == Sum(bs) + c
  {
    assert Bytes(m, address, n + 1)[..n] == Bytes(m, address, n);
  }

  lemma DataTextIs(m: Memory, address: nat, reclen: nat, count: nat)
    requires 0 < reclen <= BYTES_PER_RECORD && (reclen == BYTES_PER_RECORD || count == 0)
    ensures DataText(m, address, reclen + count) ==
      RecordText('3', address, Bytes(m, address, reclen)) + "\n" + DataText(m, (address + reclen) % U32, count)
  {
    hide RecordText, Bytes;
    assert RecordLength(reclen + count) == reclen;
  }
}
