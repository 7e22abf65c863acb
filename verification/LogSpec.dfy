/**
 The text that the log buffer of cmd_log.c is meant to hold: every line carries one `<0>`..`<7>`
 level prefix, the one it was given or the default one, even when it arrives in several calls.
 */
module LogSpec {
  import opened Common

  const DEFAULT_LEVEL: int := 4

  predicate HasPrefix(s: string) {
    |s| >= 3 && s[0] == '<' && '0' <= s[1] <= '7' && s[2] == '>'
  }

  const DEFAULT_PREFIX: string := "<4>"

  /** The number of characters up to and including the first line feed, or all of them. */
  function LineLength(s: string): (k: nat)
    ensures k <= |s| && (s != "" ==> k > 0)
    ensures forall i :: 0 <= i < k - 1 ==> s[i] != '\n'
    ensures k < |s| ==> k > 0 && s[k - 1] == '\n'
  {
    if s == "" then 0 else if s[0] == '\n' then 1 else 1 + LineLength(s[1..])
  }

  predicate EndsLine(s: string) {
    s != "" && s[LineLength(s) - 1] == '\n'
  }

  /** The prefix to be added to a line that begins with `s`, and the level of the line; a level of
      -1 says that no line has been begun. */
  function Opening(level: int, s: string): (string, int) {
    if level >= 0 then ("", level)
    else if HasPrefix(s) then ("", (s[1] - '0') as int)
    else (DEFAULT_PREFIX, DEFAULT_LEVEL)
  }

  /** What one call adds to the log, and the level of the line that it leaves open. */
  function Logged(level: int, s: string): (string, int)
    decreases |s|
  {
    if s == "" then ("", level)
    else
      var (prefix, lineLevel) := Opening(level, s);
      var k := LineLength(s);
      var (rest, last) := Logged(if EndsLine(s) then -1 else lineLevel, s[k..]);
      (prefix + s[..k] + rest, last)
  }

  function Run(level: int, calls: seq<string>): (string, int)
    decreases |calls|
  {
    if calls == [] then ("", level)
    else
      var (text, next) := Logged(level, calls[0]);
      var (rest, last) := Run(next, calls[1..]);
      (text + rest, last)
  }

  /** Every line of the text begins with a level prefix. */
  predicate Prefixed(s: string)
    decreases |s|
  {
    s == "" || (HasPrefix(s) && Prefixed(s[LineLength(s)..]))
  }

  /** A text that continues a line: its lines behind the first line feed begin with a prefix. */
  predicate Continues(s: string) {
    s == "" || Prefixed(s[LineLength(s)..])
  }

  /** What is logged for the text behind the first line. */
  function AfterLine(level: int, s: string): (string, int)
    requires s != ""
  {
    Logged(if EndsLine(s) then -1 else Opening(level, s).1, s[LineLength(s)..])
  }

  lemma {:induction false} LoggedUnfold(level: int, s: string)
    requires s != ""
    ensures Logged(level, s) ==
      (Opening(level, s).0 + s[..LineLength(s)] + AfterLine(level, s).0, AfterLine(level, s).1)
  {
  }

  lemma {:induction false} LineOfConcat(a: string, b: string)
    requires a != ""
    ensures EndsLine(a) ==> LineLength(a + b) == LineLength(a) && EndsLine(a + b)
    ensures !EndsLine(a) ==> LineLength(a) == |a| && LineLength(a + b) == |a| + LineLength(b)
    ensures !EndsLine(a) ==> (EndsLine(a + b) <==> EndsLine(b))
    decreases |a|
  {
    assert (a + b)[0] == a[0] && (a + b)[1..] == a[1..] + b;
    if a[0] != '\n' {
      if |a| > 1 {
        LineOfConcat(a[1..], b);
        assert a[LineLength(a) - 1] == a[1..][LineLength(a[1..]) - 1];
        assert (a + b)[LineLength(a + b) - 1] == (a[1..] + b)[LineLength(a[1..] + b) - 1];
      } else {
        assert a[1..] + b == b && LineLength(a) == 1;
        if b != "" { assert (a + b)[LineLength(a + b) - 1] == b[LineLength(b) - 1]; }
      }
    }
  }

  lemma {:induction false} LineLengthIs(s: string, k: nat)
    requires 0 < k <= |s| && (forall i :: 0 <= i < k - 1 ==> s[i] != '\n') && (k < |s| ==> s[k - 1] == '\n')
    ensures LineLength(s) == k
  {
    var n := LineLength(s);
    assert n < k ==> n < |s|;
  }

  /** A prefix without line feed lengthens the first line. */
  lemma {:induction false} LengthenedLine(prefix: string, s: string, tail: string)
    requires s != "" && '\n' !in prefix && (tail != "" ==> EndsLine(s))
    ensures var k, out := LineLength(s), prefix + s[..LineLength(s)] + tail;
      LineLength(out) == |prefix| + k && (EndsLine(out) <==> EndsLine(s))
  {
    var k, out := LineLength(s), prefix + s[..LineLength(s)] + tail;
    assert forall i :: 0 <= i < k ==> s[i] == out[|prefix| + i];
    assert forall i :: 0 <= i < |prefix| ==> out[i] == prefix[i] != '\n';
    LineLengthIs(out, |prefix| + k);
  }

  lemma OpeningParts(level: int, s: string)
    requires s != ""
    ensures var prefix := Opening(level, s).0;
      && '\n' !in prefix && (level < 0 && !HasPrefix(s) ==> HasPrefix(prefix))
      && (level < 0 && HasPrefix(s) ==> prefix == "")
    ensures AfterLine(level, s).0 != "" ==> EndsLine(s)
  {
    if !EndsLine(s) { assert s[LineLength(s)..] == ""; }
  }

  /** The first line of the output: the added prefix and the line that was given. */
  lemma {:induction false} FirstLine(level: int, s: string)
    requires s != ""
    ensures var (prefix, lineLevel) := Opening(level, s);
      var k, out := LineLength(s), Logged(level, s).0;
      && LineLength(out) == |prefix| + k
      && out[..|prefix| + k] == prefix + s[..k]
      && out[|prefix| + k..] == Logged(if EndsLine(s) then -1 else lineLevel, s[k..]).0
      && (EndsLine(out) <==> EndsLine(s))
      && (level < 0 ==> HasPrefix(out))
  {
    var prefix, k := Opening(level, s).0, LineLength(s);
    LoggedUnfold(level, s);
    OpeningParts(level, s);
    hide Logged, LineLength, Opening, EndsLine;
    LengthenedLine(prefix, s, AfterLine(level, s).0);
    if level < 0 && HasPrefix(s) { PrefixInFirstLine(s); }
  }

  lemma {:induction false} PrefixInFirstLine(s: string)
    requires HasPrefix(s)
    ensures LineLength(s) >= 3
  {
    assert LineLength(s) < |s| ==> s[LineLength(s) - 1] == '\n';
  }

  /** One call keeps the prefixes in order: it adds prefixed lines, preceded by the rest of an open
      line; and the level tells whether a line is open. */
  lemma {:induction false} CallIsPrefixed(level: int, s: string)
    ensures if level < 0 then Prefixed(Logged(level, s).0) else Continues(Logged(level, s).0)
    ensures Logged(level, s).1 < 0 <==> if s == "" then level < 0 else Closed(Logged(level, s).0)
    ensures s != "" ==> Logged(level, s).0 != ""
    decreases |s|
  {
    if s != "" {
      var (prefix, lineLevel) := Opening(level, s);
      var k, out := LineLength(s), Logged(level, s).0;
      FirstLine(level, s);
      CallIsPrefixed(if EndsLine(s) then -1 else lineLevel, s[k..]);
      LevelIsDigit(level, s);
      LoggedUnfold(level, s);
      assert s[k..] != "" ==> EndsLine(s);
      hide Logged, LineLength, Opening, HasPrefix, EndsLine;
      LastOfRest(out, |prefix| + k);
    }
  }

  /** Behind its first line a text ends as it ends, unless there is nothing. */
  lemma LastOfRest(out: string, n: nat)
    requires out != "" && n == LineLength(out)
    ensures Closed(out) <==> if out[n..] == "" then EndsLine(out) else Closed(out[n..])
  {
  }

  lemma LevelIsDigit(level: int, s: string)
    ensures Opening(level, s).1 >= 0
  {
  }

  /** The text is empty or ends with a line feed. */
  predicate Closed(s: string) {
    s == "" || s[|s| - 1] == '\n'
  }

  lemma {:induction false} PrefixedConcat(a: string, b: string)
    requires Prefixed(a) && if Closed(a) then Prefixed(b) else Continues(b)
    ensures Prefixed(a + b)
    decreases |a|
  {
    hide LineLength;
    if a == "" {
      assert a + b == b;
    } else {
      var k, rest := LineLength(a), a[LineLength(a)..];
      LineOfConcat(a, b);
      assert HasPrefix(a + b) by { assert forall i :: 0 <= i < 3 ==> (a + b)[i] == a[i]; }
      if EndsLine(a) {
        assert rest != "" ==> rest[|rest| - 1] == a[|a| - 1];
        PrefixedConcat(rest, b);
        assert (a + b)[k..] == rest + b;
      } else {
        assert (a + b)[LineLength(a + b)..] == b[LineLength(b)..];
      }
    }
  }

  lemma {:induction false} RunAppend(level: int, calls: seq<string>, s: string)
    ensures var (text, l) := Run(level, calls);
      Run(level, calls + [s]) == (text + Logged(l, s).0, Logged(l, s).1)
    decreases |calls|
  {
    if calls == [] {
      assert [s][1..] == [];
      var (text, next) := Logged(level, s);
      assert Run(level, [s]) == (text + "", next) && "" + text == text == text + "";
    } else {
      var (text, next) := Logged(level, calls[0]);
      assert (calls + [s])[0] == calls[0] && (calls + [s])[1..] == calls[1..] + [s];
      RunAppend(next, calls[1..], s);
      var (rest, l) := Run(next, calls[1..]);
      assert text + (rest + Logged(l, s).0) == (text + rest) + Logged(l, s).0;
    }
  }

  lemma EmptyCall(level: int)
    ensures Logged(level, "") == ("", level)
  {
  }

  lemma ClosedConcat(a: string, b: string)
    ensures Closed(a + b) <==> if b == "" then Closed(a) else Closed(b)
  {
    WithEmpty(a);
  }

  /** Over every sequence of calls, every line of the log carries a level prefix, however many calls
      the line spans. */
  lemma {:induction false} EveryLineIsPrefixed(calls: seq<string>)
    ensures Prefixed(Run(-1, calls).0)
    ensures Run(-1, calls).1 < 0 <==> Closed(Run(-1, calls).0)
    decreases |calls|
  {
    if calls != [] {
      var n := |calls| - 1;
      assert calls == calls[..n] + [calls[n]];
      hide Prefixed, Continues, Logged, Run, Closed;
      var (text, level) := Run(-1, calls[..n]);
      EveryLineIsPrefixed(calls[..n]);
      RunAppend(-1, calls[..n], calls[n]);
      EmptyCall(level);
      ClosedConcat(text, Logged(level, calls[n]).0);
      CallIsPrefixed(level, calls[n]);
      PrefixedConcat(text, Logged(level, calls[n]).0);
    }
  }

  /** A text whose lines all carry a prefix is logged unchanged: no line gets a second one. */
  lemma {:induction false} NoSecondPrefix(s: string)
    requires Prefixed(s)
    ensures Logged(-1, s).0 == s
    decreases |s|
  {
    if s != "" {
      var k := LineLength(s);
      LoggedUnfold(-1, s);
      WithEmpty(s[..k] + s[k..]);
      WithEmpty(s[..k]);
      assert s == s[..k] + s[k..];
      if k < |s| {
        assert EndsLine(s);
        NoSecondPrefix(s[k..]);
      } else {
        assert s[k..] == "";
      }
    }
  }

  // ---- splitting a text over two calls ----

  /** The break between `a` and `b` falls inside the prefix of a line: the line begun last in `a` has
      fewer than three characters and only the whole line shows a prefix. */
  predicate BreaksPrefix(level: int, a: string, b: string)
    decreases |a|
  {
    a != "" &&
    if EndsLine(a) then BreaksPrefix(-1, a[LineLength(a)..], b)
    else level < 0 && |a| < 3 && HasPrefix(a + b)
  }

  /** Logging a text in two calls adds three characters exactly when the break falls inside a prefix,
      and changes nothing otherwise. */
  lemma {:induction false} SplitCall(level: int, a: string, b: string)
    requires b != ""
    ensures var (first, next) := Logged(level, a);
      var two := first + Logged(next, b).0;
      if BreaksPrefix(level, a, b) then |two| == |Logged(level, a + b).0| + 3
      else two == Logged(level, a + b).0
    decreases |a|
  {
    if a == "" {
      assert a + b == b;
      WithEmpty(Logged(level, b).0);
    } else if EndsLine(a) {
      var k := LineLength(a);
      LineOfConcat(a, b);
      assert (a + b)[k..] == a[k..] + b && (a + b)[..k] == a[..k];
      OpeningOfConcat(level, a, b);
      SplitCall(-1, a[k..], b);
      LoggedUnfold(level, a);
      LoggedUnfold(level, a + b);
      var (rest, last) := Logged(-1, a[k..]);
      Associate4(Opening(level, a).0, a[..k], rest, Logged(last, b).0);
      WithEmpty(rest);
    } else {
      SplitLine(level, a, b);
    }
  }

  /** A complete line is opened in the same way whatever follows it. */
  lemma OpeningOfConcat(level: int, a: string, b: string)
    requires EndsLine(a) || |a| >= 3
    ensures Opening(level, a + b) == Opening(level, a)
  {
    if |a| >= 3 {
      assert forall i :: 0 <= i < 3 ==> (a + b)[i] == a[i];
    } else {
      assert (a + b)[LineLength(a) - 1] == '\n';
    }
  }

  lemma {:induction false} SplitLine(level: int, a: string, b: string)
    requires a != "" && b != "" && !EndsLine(a)
    ensures var (first, next) := Logged(level, a);
      var two := first + Logged(next, b).0;
      if BreaksPrefix(level, a, b) then |two| == |Logged(level, a + b).0| + 3
      else two == Logged(level, a + b).0
  {
    hide LineLength, Logged;
    var k := LineLength(b);
    var lineLevel := Opening(level, a).1;
    LevelIsDigit(level, a);
    UnfinishedLine(level, a);
    LoggedUnfold(lineLevel, b);
    LineOfConcat(a, b);
    assert (a + b)[..|a| + k] == a + b[..k] && (a + b)[|a| + k..] == b[k..];
    LoggedUnfold(level, a + b);
    LevelIsDigit(level, a + b);
    LevelOnlyMattersOpen(if EndsLine(b) then -1 else lineLevel, if EndsLine(b) then -1 else Opening(level, a + b).1, b[k..]);
    Associate4(Opening(level, a).0, a, b[..k], AfterLine(lineLevel, b).0);
    WithEmpty(b[..k]);
    if |a| >= 3 { OpeningOfConcat(level, a, b); }
  }

  lemma {:induction false} UnfinishedLine(level: int, a: string)
    requires a != "" && !EndsLine(a)
    ensures Logged(level, a) == (Opening(level, a).0 + a, Opening(level, a).1)
  {
    LoggedUnfold(level, a);
    assert LineLength(a) == |a| && a[..|a|] == a && a[|a|..] == "";
    WithEmpty(Opening(level, a).0 + a);
  }

  lemma {:induction false} LevelOnlyMattersOpen(x: int, y: int, s: string)
    requires x < 0 <==> y < 0
    ensures Logged(x, s).0 == Logged(y, s).0
    decreases |s|
  {
    if s != "" {
      var k := LineLength(s);
      LevelIsDigit(x, s);
      LevelIsDigit(y, s);
      LevelOnlyMattersOpen(if EndsLine(s) then -1 else Opening(x, s).1, if EndsLine(s) then -1 else Opening(y, s).1, s[k..]);
    }
  }
}
