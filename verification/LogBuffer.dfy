/**
 The log ring of cmd_log.c.  The ring indices are 32-bit counters; the work buffer is rewritten in
 place to add a missing level prefix.
 */
module LogBuffer {
  import opened Common
  import opened LogSpec

  const LOGBUFF_LEN: nat := 16384
  const WORK_SIZE: nat := 1024

  class LogBuffer {
    /** The ring, LOGBUFF_LEN characters. */
    const ring: array<char>
    /** The work buffer: three characters of room, then the line and its NUL. */
    const buf: array<char>
    var logStart: nat
    var logSize: nat
    var loggedChars: nat
    /** The level of the open line, or -1. */
    var msgLevel: int
    /** Everything logged since the last reset. */
    ghost var stream: string

    ghost predicate Valid()
      reads this, ring
    {
      && ring.Length == LOGBUFF_LEN && buf.Length == WORK_SIZE && ring != buf
      && logSize == (if |stream| < LOGBUFF_LEN then |stream| else LOGBUFF_LEN)
      && logStart == (|stream| - logSize) % U32
      && loggedChars == |stream| % U32
      && forall i :: |stream| - logSize <= i < |stream| ==> ring[i % LOGBUFF_LEN] == stream[i]
    }

    constructor ()
      ensures Valid() && stream == "" && msgLevel == -1 && fresh(ring) && fresh(buf)
    {
      ring := new char[LOGBUFF_LEN](_ => ' ');
      buf := new char[WORK_SIZE](_ => ' ');
      logStart, logSize, loggedChars, msgLevel, stream := 0, 0, 0, -1, "";
    }

    /** The characters in the ring, oldest first. */
    function Contents(): (c: string)
      requires Valid()
      reads this, ring
      ensures c == stream[|stream| - logSize..] && |c| == if |stream| < 16384 then |stream| else 16384
    {
      var c := seq(logSize, i requires 0 <= i < logSize reads this, ring requires Valid() => ring[(logStart + i) % LOGBUFF_LEN]);
      assert c == stream[|stream| - logSize..] by {
        forall i | 0 <= i < logSize ensures c[i] == stream[|stream| - logSize + i] {
          WrapIndex(|stream| - logSize, i);
        }
      }
      c
    }

    /** Stores one character behind the others, over the oldest one when the ring is full. */
    method Store(c: char)
      requires Valid()
      modifies this`logStart, this`logSize, this`loggedChars, this`stream, ring
      ensures Valid() && stream == old(stream) + [c]
    {
      WrapIndex(|stream| - logSize, logSize);
      ring[(logStart + logSize) % U32 % LOGBUFF_LEN] := c;
      if logSize < LOGBUFF_LEN {
        logSize := logSize + 1;
      } else {
        logStart := (logStart + 1) % U32;
      }
      loggedChars := (loggedChars + 1) % U32;
      stream := stream + [c];
      WrapStep(|stream| - 1);
      WrapStep(|stream| - 1 - LOGBUFF_LEN);
      forall i | |stream| - logSize <= i < |stream| - 1 ensures i % LOGBUFF_LEN != (|stream| - 1) % LOGBUFF_LEN {
        DistinctSlots(i, |stream| - 1);
      }
    }

    /** Copies the line and its NUL behind the room for a prefix. */
    method CopyLine(line: string)
      requires buf.Length == WORK_SIZE && |line| + 4 <= WORK_SIZE
      modifies buf
      ensures buf[3..3 + |line|] == line && buf[3 + |line|] == '\0'
    {
      for i := 0 to |line|
        invariant buf[3..3 + i] == line[..i]
      {
        buf[3 + i] := line[i];
      }
      buf[3 + |line|] := '\0';
    }

    /** Stores the text from `from` up to a line feed or to `end`; `p` is where it stopped. */
    method StoreLine(from: nat, end: nat) returns (p: nat, lineFeed: bool)
      requires Valid() && from < end < buf.Length
      modifies this`logStart, this`logSize, this`loggedChars, this`stream, ring
      ensures Valid()
      ensures var t := buf[from..end];
        && stream == old(stream) + t[..LineLength(t)]
        && lineFeed == EndsLine(t) && p == from + LineLength(t) - (if lineFeed then 1 else 0)
    {
      ghost var t := buf[from..end];
      p := from;
      while p < end
        invariant from <= p <= end && Valid() && buf[from..end] == t
        invariant stream == old(stream) + t[..p - from]
        invariant forall i :: 0 <= i < p - from ==> t[i] != '\n'
      {
        assert buf[p] == t[p - from];
        Store(buf[p]);
        assert t[..p - from + 1] == t[..p - from] + [t[p - from]];
        if buf[p] == '\n' {
          LineLengthIs(t, p - from + 1);
          return p, true;
        }
        p := p + 1;
      }
      LineLengthIs(t, |t|);
      return p, false;
    }

    /** The level prefix at `p` in the work buffer is looked for only as far as the text goes. */
    method FindPrefix(p: nat, end: nat) returns (missing: bool)
      requires p < end < buf.Length && buf[end] == '\0'
      ensures missing == !HasPrefix(buf[p..end])
    {
      assert buf[p..end + 1] == buf[p..end] + ['\0'];
      missing := buf[p] != '<' || buf[p + 1] < '0' || buf[p + 1] > '7' || buf[p + 2] != '>';
    }

    /** Opens the line at `p0`: when no line is open and it has no prefix of its own, the default
        prefix is written over the three characters before it. */
    method OpenLine(p0: nat, end: nat) returns (p: nat)
      requires buf.Length == WORK_SIZE && ring != buf && 3 <= p0 < end < buf.Length && buf[end] == '\0'
      modifies this`msgLevel, buf
      ensures var (prefix, level) := Opening(old(msgLevel), old(buf[p0..end]));
        && p == p0 - |prefix| && msgLevel == level
        && buf[p..end] == prefix + old(buf[p0..end]) && buf[p0..end] == old(buf[p0..end]) && buf[end] == '\0'
    {
      p := p0;
      if msgLevel < 0 {
        var missing := FindPrefix(p, end);
        if missing {
          p := p - 3;
          buf[p] := '<';
          buf[p + 1] := '4';
          buf[p + 2] := '>';
          assert buf[p..end] == buf[p..p0] + buf[p0..end];
        }
        msgLevel := (buf[p + 1] - '0') as int;
        assert missing || buf[p + 1] == buf[p0..end][1];
      }
    }

    /** Adds the next line of the work buffer to the log; `p` is where the one after it starts. */
    method PrintLine(p0: nat, end: nat) returns (p: nat)
      requires Valid() && 3 <= p0 < end < buf.Length && buf[end] == '\0'
      modifies this, ring, buf
      ensures var s := old(buf[p0..end]);
        && Valid() && buf[p0..end] == s && buf[end] == '\0'
        && stream == old(stream) + (Opening(old(msgLevel), s).0 + s[..LineLength(s)])
        && msgLevel == (if EndsLine(s) then -1 else Opening(old(msgLevel), s).1)
        && p == (if EndsLine(s) then p0 + LineLength(s) else end + 1)
    {
      hide LineLength, Opening;
      ghost var s := buf[p0..end];
      OpenedLine(msgLevel, s);
      var from := OpenLine(p0, end);
      var lineFeed;
      p, lineFeed := StoreLine(from, end);
      if lineFeed {
        msgLevel := -1;
      }
      p := p + 1;
    }

    /** Adds a line, or part of one, to the log. */
    method Printk(line: string) returns (n: int)
      requires Valid() && |line| + 4 <= WORK_SIZE
      modifies this, ring, buf
      ensures Valid() && n == |line|
      ensures stream == old(stream) + Logged(old(msgLevel), line).0
      ensures msgLevel == Logged(old(msgLevel), line).1
    {
      hide LineLength, Opening, Logged, StillToLog;
      CopyLine(line);
      n := |line|;
      StillToLogStart(msgLevel, stream, line);
      var end, p := 3 + n, 3;
      ghost var rest := line;
      while p < end
        invariant 3 <= p && end == 3 + |line| && buf[end] == '\0' && Valid()
        invariant rest == if p < end then buf[p..end] else ""
        invariant StillToLog(old(msgLevel), old(stream), line, msgLevel, stream, rest)
        decreases |rest|
      {
        ghost var start, k := p, LineLength(rest);
        StillToLogStep(old(msgLevel), old(stream), line, msgLevel, stream, rest);
        p := PrintLine(p, end);
        assert rest[k..] == if p < end then buf[p..end] else "" by {
          assert p < end ==> buf[p..end] == buf[start..end][k..];
        }
        rest := rest[k..];
      }
      AllLogged(old(msgLevel), old(stream), line, msgLevel, stream);
    }

    /** `log append`: the arguments separated by spaces and ended by a line feed, one call each. */
    method Append(args: seq<string>)
      requires Valid() && forall i :: 0 <= i < |args| ==> |args[i]| + 4 <= WORK_SIZE
      modifies this, ring, buf
      ensures Valid()
      ensures stream == old(stream) + Run(old(msgLevel), AppendCalls(args)).0
      ensures msgLevel == Run(old(msgLevel), AppendCalls(args)).1
    {
      hide Logged, Run;
      NothingRun(msgLevel);
      ghost var done := [];
      var i := 0;
      assert args[0..] == args;
      while i < |args|
        invariant 0 <= i <= |args| && Valid()
        invariant AppendCalls(args) == done + AppendCalls(args[i..])
        invariant stream == old(stream) + Run(old(msgLevel), done).0
        invariant msgLevel == Run(old(msgLevel), done).1
      {
        var sep := if i < |args| - 1 then " " else "\n";
        assert args[i..][1..] == args[i + 1..];
        assert AppendCalls(args[i..]) == [args[i], sep] + AppendCalls(args[i + 1..]);
        LogCall(args[i], old(msgLevel), old(stream), done);
        LogCall(sep, old(msgLevel), old(stream), done + [args[i]]);
        assert done + ([args[i], sep] + AppendCalls(args[i + 1..])) == done + [args[i]] + [sep] + AppendCalls(args[i + 1..]);
        done := done + [args[i]] + [sep];
        i := i + 1;
      }
      assert done + [] == done;
    }

    /** One more call of a run that began at `level0` and `stream0`. */
    method LogCall(s: string, ghost level0: int, ghost stream0: string, ghost done: seq<string>)
      requires Valid() && |s| + 4 <= WORK_SIZE
      requires stream == stream0 + Run(level0, done).0 && msgLevel == Run(level0, done).1
      modifies this, ring, buf
      ensures Valid()
      ensures stream == stream0 + Run(level0, done + [s]).0 && msgLevel == Run(level0, done + [s]).1
    {
      RunAppend(level0, done, s);
      Associate(stream0, Run(level0, done).0, Logged(msgLevel, s).0);
      var n := Printk(s);
    }

    /** `log reset` empties the ring; it leaves an open line open. */
    method Reset()
      requires Valid()
      modifies this`logStart, this`logSize, this`loggedChars, this`stream
      ensures Valid() && stream == ""
    {
      logStart, logSize, loggedChars, stream := 0, 0, 0, "";
    }
  }

  /** The calls that `log append` makes. */
  function AppendCalls(args: seq<string>): seq<string> {
    if args == [] then [] else [args[0], if |args| > 1 then " " else "\n"] + AppendCalls(args[1..])
  }

  function Concatenated(calls: seq<string>): string {
    if calls == [] then "" else calls[0] + Concatenated(calls[1..])
  }

  /** The arguments with one space before each further one. */
  function Spaced(args: seq<string>): string {
    if args == [] then ""
    else if |args| == 1 then args[0]
    else Spaced(args[..|args| - 1]) + " " + args[|args| - 1]
  }

  lemma {:induction false} SpacedFront(args: seq<string>)
    requires |args| > 1
    ensures Spaced(args) == args[0] + " " + Spaced(args[1..])
    decreases |args|
  {
    var front, last := args[..|args| - 1], args[|args| - 1];
    if |args| == 2 {
      assert args[1..] == [last] && front == [args[0]];
    } else {
      SpacedFront(front);
      assert front[1..] == args[1..][..|args| - 2] && args[1..][|args| - 2] == last;
      Associate(args[0] + " ", Spaced(front[1..]), " " + last);
      assert Spaced(front[1..]) + (" " + last) == Spaced(front[1..]) + " " + last;
    }
  }

  /** `log append` logs its arguments, separated by spaces and ended by a line feed. */
  lemma {:induction false} AppendedText(args: seq<string>)
    requires args != []
    ensures Concatenated(AppendCalls(args)) == Spaced(args) + "\n"
    decreases |args|
  {
    var rest := args[1..];
    var sep, more := if |args| > 1 then " " else "\n", AppendCalls(rest);
    assert ([args[0], sep] + more)[1..] == [sep] + more && ([sep] + more)[1..] == more;
    assert Concatenated([args[0], sep] + more) == args[0] + (sep + Concatenated(more));
    if |args| == 1 {
      assert more == [];
    } else {
      AppendedText(rest);
      SpacedFront(args);
      Associate4(args[0], " ", Spaced(rest), "\n");
      assert args[0] + (" " + (Spaced(rest) + "\n")) == args[0] + " " + Spaced(rest) + "\n";
    }
  }

  ghost predicate OneLine(s: string) {
    '\n' !in s
  }

  lemma {:induction false} NoLineEnds(s: string)
    requires s != "" && OneLine(s)
    ensures LineLength(s) == |s| && !EndsLine(s)
  {
    assert s[LineLength(s) - 1] in s;
  }

  /** On an open line text without line feeds is logged as it is. */
  lemma {:induction false} LoggedOnLine(level: int, s: string)
    requires level >= 0 && OneLine(s)
    ensures Logged(level, s) == (s, level) && Logged(level, "\n") == ("\n", -1)
  {
    FeedLogged(level);
    NothingLogged(level);
    if s != "" {
      NoLineEnds(s);
      LoggedUnfold(level, s);
      assert s[..|s|] == s && s[|s|..] == "" && "" + s + "" == s;
    }
  }

  lemma FeedLogged(level: int)
    requires level >= 0
    ensures Logged(level, "\n") == ("\n", -1)
  {
    var feed := "\n";
    LineLengthIs(feed, 1);
    NothingLogged(-1);
    LoggedUnfold(level, feed);
    assert feed[..1] == feed && feed[1..] == "" && "" + feed + "" == feed;
  }

  /** A text that begins with a level. */
  predicate Leveled(s: string) {
    |s| >= 3 && s[..3] in {"<0>", "<1>", "<2>", "<3>", "<4>", "<5>", "<6>", "<7>"}
  }

  lemma LeveledIsPrefix(s: string)
    ensures HasPrefix(s) <==> Leveled(s)
  {
    if |s| >= 3 {
      var p := s[..3];
      assert p == [s[0], s[1], s[2]];
      if HasPrefix(s) {
        assert s[1] == '0' || s[1] == '1' || s[1] == '2' || s[1] == '3' || s[1] == '4' || s[1] == '5' || s[1] == '6' || s[1] == '7';
      }
    }
  }

  /** The first text on a line gets the default prefix if it has none of its own, and the line that
      level. */
  lemma {:induction false} LoggedAtStart(s: string)
    requires s != "" && OneLine(s)
    ensures var (text, level) := Logged(-1, s);
      if Leveled(s) then text == s && level == (s[1] - '0') as int else text == "<4>" + s && level == 4
  {
    LeveledIsPrefix(s);
    NoLineEnds(s);
    LoggedUnfold(-1, s);
    assert s[..|s|] == s && s[|s|..] == "";
  }

  lemma RunTwo(level: int, a: string, b: string, more: seq<string>)
    ensures var (x, l) := Logged(level, a);
      var (y, m) := Logged(l, b);
      var (z, n) := Run(m, more);
      Run(level, [a, b] + more) == (x + (y + z), n)
  {
    hide Logged;
    assert ([a, b] + more)[1..] == [b] + more && ([b] + more)[1..] == more;
  }

  lemma NothingLogged(level: int)
    ensures Logged(level, "") == ("", level) && Run(level, []) == ("", level)
  {
  }

  lemma CallsFront(args: seq<string>)
    requires args != []
    ensures AppendCalls(args) == [args[0], if |args| > 1 then " " else "\n"] + AppendCalls(args[1..])
    ensures |args| == 1 ==> AppendCalls(args[1..]) == [] && Spaced(args) == args[0]
  {
  }

  /** Arguments behind the first one continue the open line and end it. */
  lemma {:induction false} AppendOnLine(level: int, args: seq<string>)
    requires level >= 0 && args != [] && forall i :: 0 <= i < |args| ==> OneLine(args[i])
    ensures Run(level, AppendCalls(args)) == (Spaced(args) + "\n", -1)
    decreases |args|
  {
    var rest := args[1..];
    assert OneLine(" ") && forall i :: 0 <= i < |rest| ==> OneLine(rest[i]);
    CallsFront(args);
    hide *;
    LoggedOnLine(level, args[0]);
    LoggedOnLine(level, " ");
    RunTwo(level, args[0], if |args| > 1 then " " else "\n", AppendCalls(rest));
    if |args| == 1 {
      NothingLogged(-1);
      assert args[0] + ("\n" + "") == args[0] + "\n";
    } else {
      AppendOnLine(level, rest);
      SpacedFront(args);
      Associate4(args[0], " ", Spaced(rest), "\n");
    }
  }

  lemma Regroup(a: string, b: string, c: string)
    ensures (a + b) + (" " + (c + "\n")) == a + (b + " " + c) + "\n"
  {
  }

  /** On no open line `log append` logs one line, with the default level 4 unless the first argument
      brings its own. */
  lemma {:induction false} AppendLogsLine(args: seq<string>)
    requires args != [] && forall i :: 0 <= i < |args| ==> OneLine(args[i])
    requires args[0] != ""
    ensures Run(-1, AppendCalls(args)) == ((if Leveled(args[0]) then "" else "<4>") + Spaced(args) + "\n", -1)
  {
    var rest := args[1..];
    var (text, level) := Logged(-1, args[0]);
    LoggedAtStart(args[0]);
    LoggedOnLine(level, " ");
    RunTwo(-1, args[0], if |args| > 1 then " " else "\n", AppendCalls(rest));
    var prefix := if Leveled(args[0]) then "" else "<4>";
    assert text == prefix + args[0];
    hide Logged, Leveled;
    if |args| == 1 {
      NothingLogged(-1);
      assert AppendCalls(rest) == [] && text + ("\n" + "") == text + "\n";
    } else {
      AppendOnLine(level, rest);
      SpacedFront(args);
      Regroup(prefix, args[0], Spaced(rest));
    }
  }

  /** With `rest` still to come, the log will be what the whole line makes of it. */
  ghost predicate StillToLog(level0: int, stream0: string, line: string, level: int, stream: string, rest: string) {
    && stream0 + Logged(level0, line).0 == stream + Logged(level, rest).0
    && Logged(level0, line).1 == Logged(level, rest).1
  }

  lemma NothingRun(level: int)
    ensures Run(level, []) == ("", level)
  {
  }

  lemma StillToLogStart(level: int, stream: string, line: string)
    ensures StillToLog(level, stream, line, level, stream, line)
  {
  }

  lemma AllLogged(level0: int, stream0: string, line: string, level: int, stream: string)
    requires StillToLog(level0, stream0, line, level, stream, "")
    ensures stream == stream0 + Logged(level0, line).0 && level == Logged(level0, line).1
  {
    assert stream + "" == stream;
  }

  lemma {:induction false} StillToLogStep(level0: int, stream0: string, line: string, level: int, stream: string, rest: string)
    requires rest != "" && StillToLog(level0, stream0, line, level, stream, rest)
    ensures var (prefix, lineLevel) := Opening(level, rest);
      StillToLog(level0, stream0, line, if EndsLine(rest) then -1 else lineLevel,
                 stream + (prefix + rest[..LineLength(rest)]), rest[LineLength(rest)..])
  {
    LoggedUnfold(level, rest);
    Associate(stream, Opening(level, rest).0 + rest[..LineLength(rest)], AfterLine(level, rest).0);
  }

  /** The line that is stored: the prefix and the text up to the line feed. */
  lemma {:induction false} OpenedLine(level: int, s: string)
    requires s != ""
    ensures var prefix := Opening(level, s).0;
      && LineLength(prefix + s) == |prefix| + LineLength(s) && (EndsLine(prefix + s) <==> EndsLine(s))
      && (prefix + s)[..LineLength(prefix + s)] == prefix + s[..LineLength(s)]
  {
    var prefix := Opening(level, s).0;
    if prefix == "" {
      assert prefix + s == s;
    } else {
      LineLengthIs(prefix, 3);
      LineOfConcat(prefix, s);
    }
  }

  /** The length of the ring divides the range of the counters. */
  lemma WrapIndex(x: nat, i: nat)
    ensures (x % U32 + i) % LOGBUFF_LEN == (x + i) % LOGBUFF_LEN
    ensures (x % U32 + i) % U32 % LOGBUFF_LEN == (x + i) % LOGBUFF_LEN
  {
  }

  lemma WrapStep(x: int)
    ensures (x % U32 + 1) % U32 == (x + 1) % U32
  {
  }

  lemma DistinctSlots(i: nat, j: nat)
    requires i < j < i + LOGBUFF_LEN
    ensures i % LOGBUFF_LEN != j % LOGBUFF_LEN
  {
  }
}
