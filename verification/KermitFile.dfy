/**
 Control quoting, and the download of a file in any number of data packets.
 */
module KermitFile {
  import opened Common
  import opened KermitSpec
  import opened KermitFrames
  import opened KermitReceiver
  import opened KermitDelivery

  /** Control characters, with and without the eighth bit. */
  predicate NeedsQuote(b: byte) {
    b % 128 < 32 || b % 128 == 127
  }

  /** The character sent for a quoted control character. */
  function Ctl(b: byte): byte {
    if (b / 64) % 2 == 0 then b + 64 else b - 64
  }

  function EncodeChar(q: byte, b: byte): seq<byte> {
    if NeedsQuote(b) then [q, Ctl(b)] else if b == q then [q, q] else [b]
  }

  /** How a sender quotes a text with quote character q. */
  function Encode(q: byte, s: seq<byte>): seq<byte> {
    if s == [] then [] else EncodeChar(q, s[0]) + Encode(q, s[1..])
  }

  /** The quote characters the protocol allows, and all others that work. */
  predicate UsableQuote(q: byte) {
    !(63 <= q % 128 <= 95)
  }

  lemma QuotedChar(q: byte, b: byte, stored: seq<byte>)
    requires NeedsQuote(b) || b != q || UsableQuote(q)
    ensures FeedAll(Cursor(false, stored), q, EncodeChar(q, b)) == Cursor(false, stored + [b])
  {
    var e := EncodeChar(q, b);
    if |e| == 2 {
      FeedTwo(Cursor(false, stored), q, e[0], e[1]);
      assert e == [e[0], e[1]];
      CtlUndone(b);
    } else {
      assert e[1..] == [];
    }
  }

  lemma CtlUndone(b: byte)
    ensures NeedsQuote(b) ==> KTrans(Ctl(b)) == b
    ensures !(63 <= b % 128 <= 95) <==> KTrans(b) == b
  {
  }

  lemma FeedTwo(cur: Cursor, q: byte, a: byte, b: byte)
    ensures FeedAll(cur, q, [a, b]) == Feed(Feed(cur, q, a), q, b)
  {
    assert [a, b][1..] == [b] && [b][1..] == [];
    assert FeedAll(cur, q, [a, b]) == FeedAll(Feed(cur, q, a), q, [b]);
    assert FeedAll(Feed(cur, q, a), q, [b]) == FeedAll(Feed(Feed(cur, q, a), q, b), q, []);
  }

  lemma {:induction false} Unquoted(q: byte, s: seq<byte>, stored: seq<byte>)
    requires UsableQuote(q)
    ensures FeedAll(Cursor(false, stored), q, Encode(q, s)) == Cursor(false, stored + s)
    decreases |s|
  {
    if s == [] {
      assert stored + s == stored;
    } else {
      QuotedChar(q, s[0], stored);
      FeedConcat(Cursor(false, stored), q, EncodeChar(q, s[0]), Encode(q, s[1..]));
      Unquoted(q, s[1..], stored + [s[0]]);
      assert stored + [s[0]] + s[1..] == stored + s;
    }
  }

  /** Unquoting undoes quoting for every text exactly when the quote character is usable. */
  lemma {:induction false} QuotingRoundTrip(q: byte)
    ensures UsableQuote(q) <==>
      forall s: seq<byte> :: FeedAll(Cursor(false, []), q, Encode(q, s)) == Cursor(false, s)
  {
    if UsableQuote(q) {
      forall s: seq<byte> ensures FeedAll(Cursor(false, []), q, Encode(q, s)) == Cursor(false, s) {
        Unquoted(q, s, []);
        assert [] + s == s;
      }
    } else {
      assert Encode(q, [q]) == [q, q] by { assert [q][1..] == []; }
      FeedTwo(Cursor(false, []), q, q, q);
      CtlUndone(q);
      assert FeedAll(Cursor(false, []), q, Encode(q, [q])).stored == [KTrans(q)];
    }
  }

  lemma {:induction false} EncodedIsPrintable(q: byte, s: seq<byte>)
    requires !Control(q)
    ensures Printable(Encode(q, s))
  {
    if s != [] { EncodedIsPrintable(q, s[1..]); }
  }

  // ---- the packets of a file ----

  const FILE_TYPE: byte := 0x46
  const EOF_TYPE: byte := 0x5A

  function Concat(chunks: seq<seq<byte>>): seq<byte> {
    if chunks == [] then [] else Concat(chunks[..|chunks| - 1]) + chunks[|chunks| - 1]
  }

  function DataPackets(chunks: seq<seq<byte>>): seq<Packet> {
    if chunks == [] then [] else DataPackets(chunks[..|chunks| - 1]) + [Packet(DATA_TYPE, chunks[|chunks| - 1])]
  }

  /** Send-initiate, file header, the data cut into chunks in any way, end of file, break. */
  function FilePackets(parms: seq<byte>, name: seq<byte>, chunks: seq<seq<byte>>): seq<Packet> {
    [Packet(SEND_TYPE, parms), Packet(FILE_TYPE, name)] + DataPackets(chunks) +
    [Packet(EOF_TYPE, []), Packet(BREAK_TYPE, [])]
  }

  lemma {:induction false} DataDelivered(head: seq<Packet>, chunks: seq<seq<byte>>)
    requires DeliverAll(head).cur == Cursor(false, [])
    ensures DeliverAll(head + DataPackets(chunks)) ==
      DeliverAll(head).(cur := FeedAll(Cursor(false, []), DeliverAll(head).quote, Concat(chunks)))
    decreases |chunks|
  {
    if chunks == [] {
      assert head + DataPackets(chunks) == head;
    } else {
      var front, c := chunks[..|chunks| - 1], chunks[|chunks| - 1];
      DataDelivered(head, front);
      assert head + DataPackets(chunks) == head + DataPackets(front) + [Packet(DATA_TYPE, c)];
      DeliverAppend(head + DataPackets(front), Packet(DATA_TYPE, c));
      FeedConcat(Cursor(false, []), DeliverAll(head).quote, Concat(front), c);
    }
  }

  /** The quote character that a sender announces: the sixth of his parameters, or '#' when he sends
      fewer. */
  function SenderQuote(parms: seq<byte>): byte {
    if |parms| >= 6 then parms[5] else 0x23
  }

  lemma QuoteIsTaken(parms: seq<byte>)
    ensures PeerFrom(parms).quote == SenderQuote(parms)
  {
  }

  /** The packets of a file deliver the file, wherever its quoted text is cut. */
  lemma {:induction false} PacketsDeliverFile(parms: seq<byte>, name: seq<byte>, chunks: seq<seq<byte>>, file: seq<byte>)
    requires var q := SenderQuote(parms); UsableQuote(q) && Concat(chunks) == Encode(q, file)
    ensures DeliverAll(FilePackets(parms, name, chunks)).cur == Cursor(false, file)
  {
    var s, f := Packet(SEND_TYPE, parms), Packet(FILE_TYPE, name);
    var q := SenderQuote(parms);
    QuoteIsTaken(parms);
    DeliverAppend([], s);
    DeliverAppend([s], f);
    assert [] + [s] == [s] && [s] + [f] == [s, f];
    DataDelivered([s, f], chunks);
    Unquoted(q, file, []);
    assert [] + file == file;
    var body := [s, f] + DataPackets(chunks);
    DeliverAppend(body, Packet(EOF_TYPE, []));
    DeliverAppend(body + [Packet(EOF_TYPE, [])], Packet(BREAK_TYPE, []));
    assert FilePackets(parms, name, chunks) == body + [Packet(EOF_TYPE, [])] + [Packet(BREAK_TYPE, [])];
  }

  // ---- what lost data does to the file ----

  /** The quoted data of all data packets. */
  function DataOf(packets: seq<Packet>): seq<byte> {
    if packets == [] then []
    else DataOf(packets[..|packets| - 1]) + Part(packets[|packets| - 1])
  }

  function Part(p: Packet): seq<byte> {
    if p.kind == DATA_TYPE then p.data else []
  }

  /** Characters that quoted text consists of. */
  predicate Quoted(q: byte, s: seq<byte>) {
    forall i :: 0 <= i < |s| ==> s[i] == q || !NeedsQuote(s[i])
  }

  lemma QuotedConcat(q: byte, a: seq<byte>, b: seq<byte>)
    ensures Quoted(q, a + b) <==> Quoted(q, a) && Quoted(q, b)
  {
    assert forall i :: 0 <= i < |a| ==> (a + b)[i] == a[i];
    assert forall i :: 0 <= i < |b| ==> (a + b)[|a| + i] == b[i];
  }

  lemma {:induction false} EncodedIsQuoted(q: byte, s: seq<byte>)
    ensures Quoted(q, Encode(q, s))
    decreases |s|
  {
    if s != [] {
      EncodedIsQuoted(q, s[1..]);
      QuotedConcat(q, EncodeChar(q, s[0]), Encode(q, s[1..]));
    }
  }

  lemma {:induction false} EncodeAppend(q: byte, s: seq<byte>, b: byte)
    ensures Encode(q, s + [b]) == Encode(q, s) + EncodeChar(q, b)
    decreases |s|
  {
    hide EncodeChar;
    if s == [] {
      assert [b][1..] == [] && [] + [b] == [b];
      assert EncodeChar(q, b) + [] == EncodeChar(q, b);
    } else {
      EncodeAppend(q, s[1..], b);
      assert (s + [b])[1..] == s[1..] + [b];
      assert EncodeChar(q, s[0]) + (Encode(q, s[1..]) + EncodeChar(q, b)) ==
        EncodeChar(q, s[0]) + Encode(q, s[1..]) + EncodeChar(q, b);
    }
  }

  /** No quoted text is shorter than the quoting of what it stores: quoting wastes nothing. */
  lemma {:induction false} QuotingIsShortest(q: byte, w: seq<byte>)
    requires Quoted(q, w)
    ensures var cur := FeedAll(Cursor(false, []), q, w);
      |Encode(q, cur.stored)| + (if cur.escape then 1 else 0) <= |w|
    decreases |w|
  {
    if w != [] {
      var front, c := w[..|w| - 1], w[|w| - 1];
      QuotingIsShortest(q, front);
      assert w == front + [c];
      FeedConcat(Cursor(false, []), q, front, [c]);
      var cur := FeedAll(Cursor(false, []), q, front);
      FeedOne(cur, q, c);
      EncodeAppend(q, cur.stored, KTrans(c));
      EncodeAppend(q, cur.stored, c);
    }
  }

  lemma FeedOne(cur: Cursor, q: byte, c: byte)
    ensures FeedAll(cur, q, [c]) == Feed(cur, q, c)
  {
    assert [c][1..] == [];
  }

  /** Packets of which some data packets were taken back: each is the one sent, or it without its
      data. */
  predicate TakenBack(kept: seq<Packet>, packets: seq<Packet>) {
    |kept| <= |packets| && forall k :: 0 <= k < |kept| ==> kept[k] == packets[k] || kept[k] == Blanked(packets[k])
  }

  lemma DataOfAppend(packets: seq<Packet>, p: Packet)
    ensures DataOf(packets + [p]) == DataOf(packets) + Part(p)
    ensures DataOf([]) == []
  {
    assert (packets + [p])[..|packets|] == packets;
  }

  /** Taking data back makes the data shorter, and the rest is still quoted text. */
  lemma {:induction false} TakenBackData(q: byte, kept: seq<Packet>, packets: seq<Packet>)
    requires TakenBack(kept, packets) && |kept| == |packets| && Quoted(q, DataOf(packets))
    ensures Quoted(q, DataOf(kept)) && |DataOf(kept)| <= |DataOf(packets)|
    ensures |DataOf(kept)| == |DataOf(packets)| ==> kept == packets
    decreases |kept|
  {
    hide DataOf, Quoted;
    if kept == [] {
      assert kept == packets;
    } else {
      var n := |kept| - 1;
      var before, sent, left := packets[..n], packets[n], kept[n];
      assert packets == before + [sent] && kept == kept[..n] + [left];
      DataOfAppend(before, sent);
      DataOfAppend(kept[..n], left);
      QuotedConcat(q, DataOf(before), Part(sent));
      QuotedConcat(q, DataOf(kept[..n]), Part(left));
      NoneQuoted(q);
      assert Part(left) == Part(sent) || Part(left) == [];
      TakenBackData(q, kept[..n], before);
      assert |Part(left)| == |Part(sent)| ==> left == sent;
    }
  }

  lemma NoneQuoted(q: byte)
    ensures Quoted(q, [])
  {
  }

  /** Behind the send-initiate packet the data packets are fed with the quote character it sets. */
  lemma {:induction false} DeliveredData(kept: seq<Packet>)
    requires kept != [] && kept[0].kind == SEND_TYPE && forall k :: 0 < k < |kept| ==> kept[k].kind != SEND_TYPE
    ensures var q := PeerFrom(kept[0].data).quote;
      DeliverAll(kept) == Delivery(FeedAll(Cursor(false, []), q, DataOf(kept)), q)
    decreases |kept|
  {
    var n, q := |kept| - 1, PeerFrom(kept[0].data).quote;
    assert kept == kept[..n] + [kept[n]];
    DeliverAppend(kept[..n], kept[n]);
    if n == 0 {
      assert kept[..0] == [];
    } else {
      DeliveredData(kept[..n]);
      FeedConcat(Cursor(false, []), q, DataOf(kept[..n]), Part(kept[n]));
    }
  }

  lemma {:induction false} DataOfConcat(a: seq<Packet>, b: seq<Packet>)
    ensures DataOf(a + b) == DataOf(a) + DataOf(b)
    decreases |b|
  {
    hide DataOf;
    DataOfAppend([], Packet(0, []));
    if b == [] {
      assert a + b == a;
    } else {
      var front, p := b[..|b| - 1], b[|b| - 1];
      DataOfConcat(a, front);
      assert b == front + [p] && a + b == (a + front) + [p];
      DataOfAppend(front, p);
      DataOfAppend(a + front, p);
    }
  }

  lemma {:induction false} DataOfDataPackets(chunks: seq<seq<byte>>)
    ensures DataOf(DataPackets(chunks)) == Concat(chunks)
    ensures forall k :: 0 <= k < |DataPackets(chunks)| ==> DataPackets(chunks)[k].kind == DATA_TYPE
    decreases |chunks|
  {
    if chunks != [] {
      var front := chunks[..|chunks| - 1];
      DataOfDataPackets(front);
      assert DataPackets(chunks)[..|DataPackets(front)|] == DataPackets(front);
    }
  }

  lemma {:induction false} DataOfFile(parms: seq<byte>, name: seq<byte>, chunks: seq<seq<byte>>)
    ensures var packets := FilePackets(parms, name, chunks);
      && DataOf(packets) == Concat(chunks) && |packets| >= 4
      && packets[0] == Packet(SEND_TYPE, parms)
      && (forall k :: 0 < k < |packets| ==> packets[k].kind != SEND_TYPE)
      && packets[|packets| - 1] == Packet(BREAK_TYPE, [])
  {
    hide DataOf;
    var s, f, z, e := Packet(SEND_TYPE, parms), Packet(FILE_TYPE, name), Packet(EOF_TYPE, []), Packet(BREAK_TYPE, []);
    var body := DataPackets(chunks);
    DataOfDataPackets(chunks);
    DataOfAppend([], s);
    DataOfAppend([s], f);
    assert [] + [s] == [s] && [s] + [f] == [s, f];
    DataOfConcat([s, f], body);
    DataOfAppend([s, f] + body, z);
    DataOfAppend([s, f] + body + [z], e);
    assert FilePackets(parms, name, chunks) == [s, f] + body + [z] + [e];
  }

  /** Whatever is left of a file's packets when some data was taken back does not store the file. */
  lemma {:induction false} LostDataShows(parms: seq<byte>, name: seq<byte>, chunks: seq<seq<byte>>, file: seq<byte>, kept: seq<Packet>)
    requires var q := SenderQuote(parms); Concat(chunks) == Encode(q, file)
    requires var packets := FilePackets(parms, name, chunks);
      TakenBack(kept, packets) && |kept| >= |packets| - 1 && kept != packets[..|kept|]
    ensures DeliverAll(kept).cur.stored != file
  {
    hide DataOf, Quoted, Encode, FilePackets, DeliverAll, NeedsQuote;
    QuoteIsTaken(parms);
    var q, packets := SenderQuote(parms), FilePackets(parms, name, chunks);
    var front := packets[..|kept|];
    DataOfFile(parms, name, chunks);
    EncodedIsQuoted(q, file);
    assert packets == front + packets[|kept|..];
    DataOfConcat(front, packets[|kept|..]);
    QuotedConcat(q, DataOf(front), DataOf(packets[|kept|..]));
    TakenBackData(q, kept, front);
    assert kept[0] == packets[0];
    DeliveredData(kept);
    QuotingIsShortest(q, DataOf(kept));
  }

  /** A download of a file that ends has stored exactly the file, however the line behaved, if and
      only if no header damage has hit the first transmission after an acknowledged data packet. */
  lemma {:induction false} FileArrives(parms: seq<byte>, name: seq<byte>, chunks: seq<seq<byte>>, file: seq<byte>, attempts: seq<Attempt>)
    requires var q := SenderQuote(parms); UsableQuote(q) && Concat(chunks) == Encode(q, file)
    requires var packets := FilePackets(parms, name, chunks);
      && ValidDownload(packets) && PossibleRun(packets, attempts) && Download(packets, attempts).receiver.phase == Done
    ensures var packets := FilePackets(parms, name, chunks);
      var cur := Download(packets, attempts).receiver.cur;
      && (cur.stored == file <==> !HitsAfterAcknowledge(packets, attempts))
      && (cur == Cursor(false, file) <==> !HitsAfterAcknowledge(packets, attempts))
  {
    hide DeliverAll, FilePackets, Download, HitsAfterAcknowledge, Encode, Concat, PossibleRun, ValidDownload;
    var packets := FilePackets(parms, name, chunks);
    assert packets != [] by { DataOfFile(parms, name, chunks); }
    DeliveredExactlyOnce(packets, attempts);
    if HitsAfterAcknowledge(packets, attempts) {
      KeptExactly(packets, attempts);
      LostDataShows(parms, name, chunks, file, Download(packets, attempts).kept);
    } else {
      PacketsDeliverFile(parms, name, chunks, file);
    }
  }

  /** For text that is not quoted in this way lost data need not show: a quote before a character that
      stands for itself makes no difference. */
  lemma RedundantQuote(q: byte, c: byte)
    requires c != q && KTrans(c) == c
    ensures FeedAll(Cursor(false, []), q, [q, c]) == FeedAll(Cursor(false, []), q, [c]) == Cursor(false, [c])
  {
    FeedTwo(Cursor(false, []), q, q, c);
    FeedOne(Cursor(false, []), q, c);
  }

  /** An undamaged transmission whose reply is seen moves the sender on. */
  lemma {:induction false} IntactMoves(packets: seq<Packet>, w: World, long: bool)
    requires ValidDownload(packets) && InvAndClear(packets, w) && w.receiver.phase == Scan && w.next < |packets|
    ensures var w' := Transmit(packets, w, Intact([], long, true));
      && w'.next == w.next + 1 && w'.moved && w'.kept == w.kept + [packets[w.next]]
      && w'.receiver.phase == (if packets[w.next].kind == BREAK_TYPE then Done else Scan)
  {
    var s, i, p := w.receiver, w.next, packets[w.next];
    var lenChar := LenChar(p, long);
    FrameRun(s, [], p, SeqOf(i), long);
    hide DeliverAll, Deliver, FeedAll, Run, Frame, PeerFrom, Opened, Accepted;
    OpenedAtCheckpoint(s, lenChar, p, i, w.kept);
    AcceptDelivers(Opened(s, lenChar, SeqOf(i)), p, w.kept);
  }

  /** A character that needs no quoting, sent with a quote in the packet before it. */
  function SplitQuote(c: byte): seq<Packet> {
    [Packet(DATA_TYPE, [K_ESCAPE]), Packet(DATA_TYPE, [c]), Packet(BREAK_TYPE, [])]
  }

  /** The quote is acknowledged, and then taken back by a damaged header. */
  const LOSING: seq<Attempt> :=
    [Intact([], false, true), BadHeader([], [0], [], false), Intact([], false, true), Intact([], false, true)]

  lemma {:induction false} SplitQuoteStored(c: byte)
    requires c != K_ESCAPE && KTrans(c) == c
    ensures DeliverAll(SplitQuote(c)).cur == DeliverAll([Packet(DATA_TYPE, []), Packet(DATA_TYPE, [c]), Packet(BREAK_TYPE, [])]).cur
      == Cursor(false, [c])
  {
    var x, z := Packet(DATA_TYPE, [c]), Packet(BREAK_TYPE, []);
    ThreeDelivered(Packet(DATA_TYPE, [K_ESCAPE]), x, z);
    ThreeDelivered(Packet(DATA_TYPE, []), x, z);
    hide DeliverAll, FeedAll, KTrans;
    FeedOne(Cursor(false, []), K_ESCAPE, K_ESCAPE);
    FeedOne(Cursor(true, []), K_ESCAPE, c);
    FeedOne(Cursor(false, []), K_ESCAPE, c);
    FeedNone(Cursor(false, []), K_ESCAPE);
    assert [] + [c] == [c];
  }

  lemma FeedNone(cur: Cursor, q: byte)
    ensures FeedAll(cur, q, []) == cur
  {
  }

  lemma ThreeDelivered(x: Packet, y: Packet, z: Packet)
    ensures DeliverAll([x, y, z]) == Deliver(Deliver(Deliver(Delivery(Cursor(false, []), K_ESCAPE), x), y), z)
  {
    hide Deliver;
    NothingDelivered();
    DeliverAppend([], x);
    DeliverAppend([x], y);
    DeliverAppend([x, y], z);
    assert [] + [x] == [x] && [x] + [y] == [x, y] && [x, y] + [z] == [x, y, z];
  }

  lemma NothingDelivered()
    ensures DeliverAll([]) == Delivery(Cursor(false, []), K_ESCAPE)
  {
  }

  /** A download in which an acknowledged packet's data was taken back, and nothing is missing at the
      end. */
  lemma {:induction false} LossNeedNotShow(c: byte)
    requires SPACE <= c < 256 && c != K_ESCAPE && KTrans(c) == c
    ensures var packets := SplitQuote(c);
      && ValidDownload(packets) && PossibleRun(packets, LOSING) && HitsAfterAcknowledge(packets, LOSING)
      && Download(packets, LOSING).receiver.phase == Done
      && Download(packets, LOSING).receiver.cur == DeliverAll(packets).cur
  {
    var packets := SplitQuote(c);
    var a, b, d, e := LOSING[0], LOSING[1], LOSING[2], LOSING[3];
    SplitQuoteValid(c);
    SplitQuoteStored(c);
    assert LOSING == [a] + [b] + [d] + [e];
    assert [] + [a] == [a];
    hide Inv, InvAndClear, ValidDownload, PossibleRun, HitsAfterAcknowledge, Download, Transmit, DeliverAll;
    NothingYet(packets);
    DownloadInv(packets, []);
    OneMore(packets, [], a);
    IntactMoves(packets, START, false);
    DownloadInv(packets, [a]);
    OneMore(packets, [a], b);
    HeaderBlanks(packets, Download(packets, [a]), b);
    DownloadInv(packets, [a] + [b]);
    OneMore(packets, [a] + [b], d);
    IntactMoves(packets, Download(packets, [a] + [b]), false);
    DownloadInv(packets, [a] + [b] + [d]);
    OneMore(packets, [a] + [b] + [d], e);
    IntactMoves(packets, Download(packets, [a] + [b] + [d]), false);
    DownloadInv(packets, LOSING);
    InvCounts(packets, Download(packets, LOSING));
    assert Download(packets, LOSING).kept == [Packet(DATA_TYPE, []), Packet(DATA_TYPE, [c]), Packet(BREAK_TYPE, [])];
  }

  lemma SplitQuoteValid(c: byte)
    requires SPACE <= c < 256
    ensures ValidDownload(SplitQuote(c))
  {
  }

  lemma NothingYet(packets: seq<Packet>)
    ensures Download(packets, []) == START && PossibleRun(packets, []) && !HitsAfterAcknowledge(packets, [])
  {
  }

  /** A run with one more transmission. */
  lemma OneMore(packets: seq<Packet>, attempts: seq<Attempt>, a: Attempt)
    ensures var w, more := Download(packets, attempts), attempts + [a];
      && Download(packets, more) == Transmit(packets, w, a)
      && (PossibleRun(packets, more) <==> PossibleRun(packets, attempts) && Possible(a, w.next))
      && (HitsAfterAcknowledge(packets, more) <==>
            || HitsAfterAcknowledge(packets, attempts)
            || (a.BadHeader? && w.moved && w.receiver.phase == Scan && 0 < w.next < |packets|
                && packets[w.next - 1].kind == DATA_TYPE && packets[w.next - 1].data != []))
  {
    hide Transmit, Possible;
    assert (attempts + [a])[..|attempts|] == attempts;
  }

  /** A damaged header right after an acknowledge. */
  lemma HeaderBlanks(packets: seq<Packet>, w: World, a: Attempt)
    requires a.BadHeader? && w.moved && w.receiver.phase == Scan && w.next < |packets|
    requires BadHead(a.head) && Clean(a.noise) && Clean(a.junk)
    ensures var w' := Transmit(packets, w, a);
      w'.next == w.next && w'.kept == BlankLast(w.kept) && w'.receiver.phase == Scan
  {
    BadHeaderRun(w.receiver, a.noise, a.head, a.junk);
    hide Run, BlankLast;
  }

  /** Header damage on the first transmission after an acknowledged data packet takes its data back,
      although the sender will not send it again. */
  lemma {:induction false} AcknowledgedDataIsLost(packets: seq<Packet>, w: World, a: Attempt)
    requires ValidDownload(packets) && InvAndClear(packets, w) && w.receiver.phase == Scan
    requires w.moved && 0 < w.next < |packets| && a.BadHeader? && Possible(a, w.next)
    requires w.kept[w.next - 1].kind == DATA_TYPE
    ensures var w' := Transmit(packets, w, a);
      && w'.next == w.next && w'.receiver.cur == DeliverAll(w.kept[..w.next - 1]).cur
  {
    BadHeaderRun(w.receiver, a.noise, a.head, a.junk);
    DeliverBlanked(w.kept);
  }
}
