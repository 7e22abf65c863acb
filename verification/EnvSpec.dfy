/**
 The environment store of cmd_nvedit.c as a list of `name=value` strings: what one setenv call does
 to the list, what the list means as a map, and how it is packed into the environment buffer.
 Strings are C strings: they hold no NUL character.
 */
module EnvSpec {
  import opened Common

  const NUL: char := '\0'

  ghost predicate CString(s: string) {
    NUL !in s
  }

  /** The part of `s` before its first '=' (all of `s` if it has none). */
  function KeyOf(s: string): (k: string)
    ensures k <= s && '=' !in k
    ensures |k| < |s| ==> s[|k|] == '='
    ensures '=' !in s ==> k == s
  {
    if s == "" || s[0] == '=' then "" else [s[0]] + KeyOf(s[1..])
  }

  /** The part of `s` after its first '='. */
  function ValueOf(s: string): string {
    var k := |KeyOf(s)|;
    if k < |s| then s[k + 1..] else ""
  }

  lemma {:induction false} KeyIsUnique(s: string, k: nat)
    requires k < |s| && s[k] == '=' && '=' !in s[..k]
    ensures KeyOf(s) == s[..k]
  {
    var key := KeyOf(s);
    assert forall i :: 0 <= i < k ==> s[i] == s[..k][i];
    assert forall i :: 0 <= i < |key| ==> key[i] == s[i];
  }

  ghost predicate Entry(e: string) {
    CString(e) && '=' in e
  }

  ghost predicate ValidEntries(es: seq<string>) {
    && (forall i :: 0 <= i < |es| ==> Entry(es[i]))
    && (forall i, j :: 0 <= i < j < |es| ==> KeyOf(es[i]) != KeyOf(es[j]))
  }

  /** The position of the definition of `key`, or -1. */
  function Find(es: seq<string>, key: string): (k: int)
    ensures -1 <= k < |es|
    ensures k >= 0 ==> KeyOf(es[k]) == key && forall i :: 0 <= i < k ==> KeyOf(es[i]) != key
    ensures k < 0 ==> forall i :: 0 <= i < |es| ==> KeyOf(es[i]) != key
  {
    if es == [] then -1
    else if KeyOf(es[0]) == key then 0
    else
      var k := Find(es[1..], key);
      if k < 0 then -1 else k + 1
  }

  function Lookup(es: seq<string>, key: string): Option<string> {
    var k := Find(es, key);
    if k < 0 then None else Some(ValueOf(es[k]))
  }

  function Without(es: seq<string>, k: nat): (r: seq<string>)
    requires k < |es|
    ensures |r| == |es| - 1
  {
    es[..k] + es[k + 1..]
  }

  /** The arguments separated by single spaces, the first one preceded by '='. */
  function Assigned(args: seq<string>): string {
    if args == [] then ""
    else if |args| == 1 then "=" + args[0]
    else Assigned(args[..|args| - 1]) + " " + args[|args| - 1]
  }

  /** The bytes the list occupies: every string with its NUL, and the closing NUL (two for an empty
      list). */
  function Pack(es: seq<string>): string {
    if es == [] then "" else es[0] + [NUL] + Pack(es[1..])
  }

  function Image(es: seq<string>): string {
    Pack(es) + if es == [] then [NUL, NUL] else [NUL]
  }

  datatype Status = Stored | Deleted | Refused | Overflow

  /** Variables that setenv never overwrites or deletes. */
  predicate Protected(name: string) {
    name == "serial#" || name == "ethaddr"
  }

  predicate ConsoleName(name: string) {
    name == "stdin" || name == "stdout" || name == "stderr"
  }

  /** Setting an existing variable is refused before anything is changed; `accepted` tells whether
      the console or baud rate switch that goes with some names succeeded. */
  predicate Refuses(name: string, args: seq<string>, accepted: bool) {
    || Protected(name)
    || (ConsoleName(name) && (args == [] || !accepted))
    || (name == "baudrate" && !accepted)
  }

  /** One setenv call on the list. */
  function SetEnv(es: seq<string>, size: nat, name: string, args: seq<string>, accepted: bool): (r: (seq<string>, Status))
  {
    var k := Find(es, KeyOf(name));
    if k >= 0 && Refuses(name, args, accepted) then (es, Refused)
    else
      var rest := if k >= 0 then Without(es, k) else es;
      if args == [] then (rest, Deleted)
      else if |Image(rest + [name + Assigned(args)])| > size then (rest, Overflow)
      else (rest + [name + Assigned(args)], Stored)
  }

  // ---- the packed form ----

  lemma {:induction false} PackConcat(a: seq<string>, b: seq<string>)
    ensures Pack(a + b) == Pack(a) + Pack(b)
  {
    if a == [] {
      assert a + b == b;
    } else {
      var head := a[0] + [NUL];
      assert Pack(a + b) == head + Pack(a[1..] + b) by {
        assert (a + b)[0] == a[0] && (a + b)[1..] == a[1..] + b;
      }
      PackConcat(a[1..], b);
      Associate(head, Pack(a[1..]), Pack(b));
    }
  }

  lemma {:induction false} PackAt(es: seq<string>, k: nat)
    requires k < |es|
    ensures Pack(es) == Pack(es[..k]) + es[k] + [NUL] + Pack(es[k + 1..])
    ensures Pack(es[..k + 1]) == Pack(es[..k]) + es[k] + [NUL]
  {
    assert es == es[..k] + es[k..] && es[k..] == [es[k]] + es[k + 1..];
    PackConcat(es[..k], es[k..]);
    assert es[..k + 1] == es[..k] + [es[k]];
    PackConcat(es[..k], [es[k]]);
    assert Pack([es[k]]) == es[k] + [NUL];
  }

  ghost predicate Strings(a: seq<string>) {
    forall i :: 0 <= i < |a| ==> CString(a[i]) && a[i] != ""
  }

  lemma {:induction false} PackedHead(a: seq<string>)
    requires a != [] && Strings(a)
    ensures |Image(a)| > |a[0]| + 1 && Image(a)[..|a[0]|] == a[0] && Image(a)[|a[0]|] == NUL
    ensures Image(a)[0] != NUL
    ensures |a| == 1 ==> |Image(a)| == |a[0]| + 2
    ensures if |a| == 1 then Image(a)[|a[0]| + 1] == NUL else Image(a)[|a[0]| + 1..] == Image(a[1..])
  {
    assert a[0][0] != NUL;
    if |a| == 1 {
      assert a[1..] == [] && Pack(a[1..]) == "";
    }
  }

  /** Two lists of non-empty C strings packed at the start of the same buffer are the same list. */
  lemma {:induction false} ImageDeterminesList(a: seq<string>, b: seq<string>, buffer: string)
    requires Strings(a) && Strings(b)
    requires Image(a) <= buffer && Image(b) <= buffer
    ensures a == b
  {
    if a != [] { PackedHead(a); }
    if b != [] { PackedHead(b); }
    if a != [] && b != [] {
      SameHead(a[0], b[0], buffer);
      if |a| > 1 { PackedHead(a[1..]); }
      if |b| > 1 { PackedHead(b[1..]); }
      if |a| > 1 && |b| > 1 {
        ImageDeterminesList(a[1..], b[1..], buffer[|a[0]| + 1..]);
      }
      assert a == [a[0]] + a[1..] && b == [b[0]] + b[1..];
    }
  }

  lemma SameHead(x: string, y: string, buffer: string)
    requires CString(x) && CString(y) && x + [NUL] <= buffer && y + [NUL] <= buffer
    ensures x == y
  {
    assert buffer[|x|] == NUL && buffer[|y|] == NUL;
    assert forall i :: 0 <= i < |y| ==> y[i] == (y + [NUL])[i] == buffer[i];
    assert forall i :: 0 <= i < |x| ==> x[i] == (x + [NUL])[i] == buffer[i];
    assert x == buffer[..|x|] && y == buffer[..|y|];
  }

  /** Inside the image two NULs never follow each other before its end. */
  lemma {:induction false} NoEarlyDoubleNul(es: seq<string>, p: nat)
    requires Strings(es) && es != [] && p + 2 < |Image(es)|
    ensures Image(es)[p] != NUL || Image(es)[p + 1] != NUL
  {
    PackedHead(es);
    var n := |es[0]|;
    if p < n {
      assert Image(es)[p] == es[0][p] && es[0][p] in es[0];
    } else if |es| > 1 {
      PackedHead(es[1..]);
      assert Image(es)[n + 1..][0] == Image(es)[n + 1];
      if p > n {
        NoEarlyDoubleNul(es[1..], p - n - 1);
      }
    }
  }
}
