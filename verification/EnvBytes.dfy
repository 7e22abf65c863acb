/**
 The environment as a list of definitions together with the bytes that hold it.  Deleting a
 definition moves the ones behind it, and with them their values, to lower addresses, so an address
 kept from before such a move no longer points at the value it was taken from.
 */
module EnvBytes {
  import opened Common
  import opened EnvSpec
  import opened EnvMap

  /** The definitions and the whole buffer, ENV_SIZE bytes. */
  datatype Env = Env(entries: seq<string>, data: string)

  ghost predicate EnvOk(e: Env) {
    ValidEntries(e.entries) && Image(e.entries) <= e.data
  }

  /** A string as C sees it, up to its first NUL. */
  function CText(s: string): (r: string)
    ensures CString(r) && r <= s
    ensures CString(s) ==> r == s
  {
    if s == "" || s[0] == NUL then "" else [s[0]] + CText(s[1..])
  }

  function CTexts(args: seq<string>): (r: seq<string>)
    ensures |r| == |args| && forall i :: 0 <= i < |args| ==> r[i] == CText(args[i])
  {
    seq(|args|, i requires 0 <= i < |args| => CText(args[i]))
  }

  /** The string at an address of the buffer. */
  function StringAt(data: string, p: nat): (r: string)
    ensures CString(r)
  {
    if p <= |data| then CText(data[p..]) else ""
  }

  /** The buffer after a string was written at an address. */
  function Patch(data: string, p: nat, s: string): (r: string)
    requires p + |s| <= |data|
    ensures |r| == |data|
  {
    data[..p] + s + data[p + |s|..]
  }

  lemma PatchNothing(data: string, p: nat)
    requires p <= |data|
    ensures Patch(data, p, "") == data
  {
  }

  lemma PatchNext(data: string, p: nat, s: string, c: char)
    requires p + |s| < |data|
    ensures Patch(data, p, s)[p + |s| := c] == Patch(data, p, s + [c])
    ensures forall j :: p + |s| <= j < |data| ==> Patch(data, p, s)[j] == data[j]
  {
  }

  /** Writing from the last character of what was written on. */
  lemma PatchOn(data: string, p: nat, s: string, c: char, more: string)
    requires more != "" && p + |s| + |more| <= |data|
    ensures Patch(Patch(data, p, s + [c]), p + |s|, more) == Patch(data, p, s + more)
  {
    var q := Patch(data, p, s + [c]);
    assert q[..p + |s|] == data[..p] + s;
    assert q[p + |s| + |more|..] == data[p + |s| + |more|..];
  }

  /** The buffer after a list was written at its start; what lies behind the list stays. */
  function Over(data: string, es: seq<string>): (r: string)
    ensures |r| == |data|
  {
    if |Image(es)| <= |data| then Image(es) + data[|Image(es)|..] else data
  }

  /** One setenv call. */
  function Put(e: Env, name: string, args: seq<string>, accepted: bool): Env {
    var (es, status) := SetEnv(e.entries, |e.data|, CText(name), CTexts(args), accepted);
    if status == Refused then e else Env(es, Over(e.data, es))
  }

  function Set(e: Env, name: string, v: string): Env {
    Put(e, name, [v], true)
  }

  function Unset(e: Env, name: string): Env {
    Put(e, name, [], true)
  }

  function Get(e: Env, name: string): Option<string> {
    Lookup(e.entries, name)
  }

  lemma OverHolds(data: string, es: seq<string>)
    requires |Image(es)| <= |data|
    ensures Image(es) <= Over(data, es)
  {
  }

  lemma OverSame(data: string, es: seq<string>)
    requires Image(es) <= data
    ensures Over(data, es) == data
  {
    assert data == data[..|Image(es)|] + data[|Image(es)|..];
  }

  /** Writing a list and then one that is no shorter is writing the second one. */
  lemma OverTwice(data: string, a: seq<string>, b: seq<string>)
    requires |Image(a)| <= |Image(b)| <= |data|
    ensures Over(Over(data, a), b) == Over(data, b)
  {
    var x, y := Image(a), Image(b);
    assert (x + data[|x|..])[|y|..] == data[|y|..];
  }

  lemma {:induction false} PackWithout(es: seq<string>, k: nat)
    requires k < |es|
    ensures |Pack(Without(es, k))| + |es[k]| + 1 == |Pack(es)|
  {
    PackAt(es, k);
    PackConcat(es[..k], es[k + 1..]);
  }

  /** A list without one of its definitions is no longer. */
  lemma {:induction false} WithoutFits(es: seq<string>, k: nat)
    requires k < |es| && es[k] != ""
    ensures |Image(Without(es, k))| <= |Image(es)|
  {
    PackWithout(es, k);
    hide Pack;
    if |es| > 1 { assert Without(es, k) != []; }
  }

  /** The definitions without that of a variable. */
  function Rest(es: seq<string>, key: string): seq<string> {
    var k := Find(es, key);
    if k < 0 then es else Without(es, k)
  }

  /** What a call writes: the list without the old definition, and then the list with the new one. */
  lemma {:induction false} PutWrites(e: Env, name: string, args: seq<string>, accepted: bool)
    requires EnvOk(e) && CString(name) && CStrings(args)
    ensures var (es, status) := SetEnv(e.entries, |e.data|, name, args, accepted);
      var rest := Rest(e.entries, KeyOf(name));
      var deleted := if rest == e.entries then e.data else Over(e.data, rest);
      Put(e, name, args, accepted) ==
        if status == Refused then e
        else Env(es, if status == Stored then Over(deleted, es) else deleted)
  {
    hide Pack, Image, Assigned, Refuses, KeyOf, Over, CText, Without;
    assert CTexts(args) == args;
    var es, n := e.entries, KeyOf(name);
    var rest, entry := Rest(es, n), name + Assigned(args);
    OverSame(e.data, es);
    if Find(es, n) >= 0 {
      assert Entry(es[Find(es, n)]);
      WithoutFits(es, Find(es, n));
    }
    if |Image(rest + [entry])| <= |e.data| {
      LongerImage(rest, entry);
      OverTwice(e.data, rest, rest + [entry]);
    }
  }

  lemma LongerImage(es: seq<string>, entry: string)
    ensures |Image(es + [entry])| >= |Image(es)|
  {
    PackConcat(es, [entry]);
    assert Pack([entry]) == entry + [NUL];
  }

  /** Every call keeps the buffer in order and its size, and all other variables. */
  lemma {:induction false} PutOk(e: Env, name: string, args: seq<string>, accepted: bool)
    requires EnvOk(e)
    ensures EnvOk(Put(e, name, args, accepted)) && |Put(e, name, args, accepted).data| == |e.data|
    ensures forall key :: key != KeyOf(CText(name)) ==> Get(Put(e, name, args, accepted), key) == Get(e, key)
  {
    hide Pack, Image, Lookup, Assigned, Refuses, KeyOf;
    var es, n, a := e.entries, CText(name), CTexts(args);
    SetEnvIsMapUpdate(es, |e.data|, n, a, accepted);
    var (r, status) := SetEnv(es, |e.data|, n, a, accepted);
    if status != Refused {
      ResultFits(es, |e.data|, n, a, accepted);
      OverHolds(e.data, r);
    }
  }

  lemma {:induction false} ResultFits(es: seq<string>, size: nat, name: string, args: seq<string>, accepted: bool)
    requires ValidEntries(es) && |Image(es)| <= size
    ensures |Image(SetEnv(es, size, name, args, accepted).0)| <= size
  {
    hide Pack, Image, Assigned, Refuses, KeyOf;
    var k := Find(es, KeyOf(name));
    if k >= 0 {
      assert Entry(es[k]);
      WithoutFits(es, k);
    }
  }

  // ---- where values lie ----

  lemma {:induction false} EntriesAreStrings(es: seq<string>)
    requires ValidEntries(es)
    ensures Strings(es)
  {
  }

  /** Where definition `k` lies in a buffer that starts with the image of the list. */
  lemma {:induction false} EntryAt(es: seq<string>, k: nat, buffer: string)
    requires Strings(es) && Image(es) <= buffer && k < |es|
    ensures var p := |Pack(es[..k])|;
      && p + |es[k]| + 1 < |Image(es)|
      && buffer[p..p + |es[k]|] == es[k] && buffer[p + |es[k]|] == NUL && buffer[p] != NUL
      && |Pack(es[..k + 1])| == p + |es[k]| + 1
  {
    var p := |Pack(es[..k])|;
    PackAt(es, k);
    assert buffer[p..p + |es[k]|] == Image(es)[p..p + |es[k]|] == es[k];
    assert buffer[p + |es[k]|] == Image(es)[p + |es[k]|];
    assert buffer[p] == es[k][0] && es[k][0] in es[k];
  }

  /** The definition and the value that a found entry delimits. */
  lemma {:induction false} FoundEntry(es: seq<string>, k: nat, buffer: string, env: nat, nxt: nat)
    requires ValidEntries(es) && Image(es) <= buffer && k < |es| && env == |Pack(es[..k])| && nxt == env + |es[k]|
    ensures nxt < |buffer| && buffer[nxt] == NUL && buffer[env..nxt] == es[k] && env + |KeyOf(es[k])| + 1 <= nxt
    ensures buffer[env + |KeyOf(es[k])| + 1..nxt] == ValueOf(es[k])
    ensures Lookup(es, KeyOf(es[k])) == Some(ValueOf(es[k]))
  {
    EntriesAreStrings(es);
    EntryAt(es, k, buffer);
    FindIsUnique(es, k, KeyOf(es[k]));
    hide Image, Pack, Lookup, Strings;
    assert buffer[env..nxt][|KeyOf(es[k])| + 1..] == buffer[env + |KeyOf(es[k])| + 1..nxt];
  }

  /** The address of a variable's value, 0 if it is not defined. */
  function ValueIndex(es: seq<string>, key: string): nat {
    var k := Find(es, key);
    if k < 0 then 0 else |Pack(es[..k])| + |key| + 1
  }

  lemma {:induction false} CTextStops(t: string, more: string)
    requires CString(t)
    ensures CText(t + [NUL] + more) == t
  {
    var s := t + [NUL] + more;
    if t != "" {
      CTextStops(t[1..], more);
      assert s[1..] == t[1..] + [NUL] + more;
      assert t[0] in t;
    }
  }

  /** A variable's value lies at its address, NUL-terminated. */
  lemma {:induction false} ValueBounds(e: Env, key: string)
    requires EnvOk(e) && Get(e, key).Some?
    ensures var t, v := Get(e, key).value, ValueIndex(e.entries, key);
      CString(t) && v + |t| < |e.data| && e.data[v..v + |t|] == t && e.data[v + |t|] == NUL
  {
    hide Pack, Image, KeyOf, Strings;
    var k := Find(e.entries, key);
    var env := |Pack(e.entries[..k])|;
    FoundEntry(e.entries, k, e.data, env, env + |e.entries[k]|);
    assert Entry(e.entries[k]);
  }

  /** At an address inside a value, or at its end, lies the rest of the value. */
  lemma {:induction false} ValueAt(e: Env, key: string, s: nat)
    requires EnvOk(e) && Get(e, key).Some? && s <= |Get(e, key).value|
    ensures StringAt(e.data, ValueIndex(e.entries, key) + s) == Get(e, key).value[s..]
  {
    hide EnvOk, Get, ValueIndex, StringAt, CText, CString;
    ValueBounds(e, key);
    SuffixAt(e.data, ValueIndex(e.entries, key), Get(e, key).value, s);
  }

  lemma {:induction false} SuffixAt(data: string, v: nat, t: string, s: nat)
    requires CString(t) && v + |t| < |data| && data[v..v + |t|] == t && data[v + |t|] == NUL && s <= |t|
    ensures StringAt(data, v + s) == t[s..]
  {
    hide CText;
    var u, more := t[s..], data[v + |t| + 1..];
    SuffixBytes(data, v, t, s);
    CTextStops(u, more);
  }

  lemma SuffixBytes(data: string, v: nat, t: string, s: nat)
    requires v + |t| < |data| && data[v..v + |t|] == t && data[v + |t|] == NUL && s <= |t|
    ensures data[v + s..] == t[s..] + [NUL] + data[v + |t| + 1..]
  {
    assert t[s..] == data[v + s..v + |t|];
  }

  // ---- deleting variables ----

  /** The bytes that the definition of a variable occupies in front of another one. */
  function Room(es: seq<string>, name: string, key: string): nat {
    var j, k := Find(es, name), Find(es, key);
    if 0 <= j < k then |es[j]| + 1 else 0
  }

  predicate Before(es: seq<string>, name: string, key: string) {
    0 <= Find(es, name) < Find(es, key)
  }

  /** A variable that can be deleted by its name. */
  ghost predicate Plain(name: string) {
    CString(name) && '=' !in name && !Refuses(name, [], true)
  }

  lemma PlainKey(name: string)
    requires Plain(name)
    ensures KeyOf(CText(name)) == name
  {
  }

  lemma UnsetIs(e: Env, name: string)
    requires EnvOk(e) && Plain(name)
    ensures var k := Find(e.entries, name);
      Unset(e, name) == if k < 0 then e else Env(Without(e.entries, k), Over(e.data, Without(e.entries, k)))
  {
    hide Refuses, Find;
    OverSame(e.data, e.entries);
  }

  lemma {:induction false} FindWithout(es: seq<string>, j: nat, key: string)
    requires ValidEntries(es) && j < |es| && KeyOf(es[j]) != key && Find(es, key) >= 0
    ensures var k := Find(es, key); k != j && Find(Without(es, j), key) == if j < k then k - 1 else k
  {
    hide KeyOf, Without, Find, Lookup;
    var k := Find(es, key);
    var i := if j < k then k - 1 else k;
    WithoutElements(es, j);
    WithoutValid(es, j);
    FindIsUnique(Without(es, j), i, key);
  }

  /** The definitions before definition k, once definition j is gone. */
  lemma FrontWithout(es: seq<string>, j: nat, k: nat)
    requires j < |es| && k < |es| && j != k
    ensures Without(es, j)[..if j < k then k - 1 else k] == if j < k then Without(es[..k], j) else es[..k]
  {
  }

  lemma {:induction false} WithoutMoves(es: seq<string>, j: nat, key: string)
    requires ValidEntries(es) && j < |es| && KeyOf(es[j]) != key && Find(es, key) >= 0
    ensures var k, w := Find(es, key), Without(es, j);
      && Find(w, key) == (if j < k then k - 1 else k)
      && ValueIndex(w, key) + (if j < k then |es[j]| + 1 else 0) == ValueIndex(es, key)
  {
    hide KeyOf, Pack, Find, Without, ValidEntries;
    var k := Find(es, key);
    FindWithout(es, j, key);
    FrontWithout(es, j, k);
    if j < k {
      PackWithout(es[..k], j);
      assert es[..k][j] == es[j];
    }
  }

  /** Deleting a variable moves the value of another one by the room it took in front of it, and
      leaves the room of a third one alone. */
  lemma {:induction false} UnsetMoves(e: Env, name: string, key: string, other: string)
    requires EnvOk(e) && Plain(name) && Get(e, key).Some? && name != key && other != name && other != key
    ensures EnvOk(Unset(e, name)) && Get(Unset(e, name), key) == Get(e, key)
    ensures ValueIndex(Unset(e, name).entries, key) + Room(e.entries, name, key) == ValueIndex(e.entries, key)
    ensures Room(Unset(e, name).entries, other, key) == Room(e.entries, other, key)
  {
    hide Pack, Image, KeyOf, ValueIndex, Put;
    PutOk(e, name, [], true);
    UnsetIs(e, name);
    var es, j := e.entries, Find(e.entries, name);
    assert CText(name) == name && KeyOf(name) == name;
    if j >= 0 {
      WithoutMoves(es, j, key);
      OtherRoom(es, j, key, other);
    }
  }

  lemma {:induction false} OtherRoom(es: seq<string>, j: nat, key: string, other: string)
    requires ValidEntries(es) && j < |es| && KeyOf(es[j]) != key && KeyOf(es[j]) != other && Find(es, key) >= 0
    ensures Room(Without(es, j), other, key) == Room(es, other, key)
  {
    hide KeyOf, ValueIndex, Without, Find;
    WithoutMoves(es, j, key);
    WithoutElements(es, j);
    if Find(es, other) >= 0 {
      WithoutMoves(es, j, other);
    }
  }

  /** Deleting a variable undefines it and no other. */
  lemma {:induction false} Undefines(e: Env, name: string, other: string)
    requires EnvOk(e) && Plain(name) && name != other
    ensures EnvOk(Unset(e, name)) && Get(Unset(e, name), name) == None && Get(Unset(e, name), other) == Get(e, other)
  {
    PutOk(e, name, [], true);
    PlainKey(name);
    UnsetIs(e, name);
    RestHasNone(e.entries, name);
    hide KeyOf, Put, Plain;
  }

  lemma {:induction false} CTextOfFront(a: string, b: string)
    requires NUL in a
    ensures CText(a + b) == CText(a)
  {
    if a[0] != NUL {
      assert (a + b)[1..] == a[1..] + b;
      CTextOfFront(a[1..], b);
    }
  }

  /** What is seen at an address once a list was written over the buffer: a string of the list, or
      behind the list what was seen before. */
  function Seen(es: seq<string>, p: nat, before: string): string {
    if p < |Image(es)| then StringAt(Image(es), p) else before
  }

  lemma {:induction false} OverShows(data: string, es: seq<string>, p: nat)
    requires |Image(es)| <= |data|
    ensures StringAt(Over(data, es), p) == Seen(es, p, StringAt(data, p))
  {
    var img := Image(es);
    assert img[|img| - 1] == NUL;
    hide Image, CText;
    if p < |img| {
      assert img[p..][|img| - 1 - p] == NUL;
      assert Over(data, es)[p..] == img[p..] + data[|img|..];
      CTextOfFront(img[p..], data[|img|..]);
    } else if p <= |data| {
      assert Over(data, es)[p..] == data[p..];
    }
  }

  /** What is seen at an address in or behind the last definition of a list. */
  lemma {:induction false} SeenAtEnd(es: seq<string>, key: string, o: nat, before: string)
    requires ValidEntries(es) && Find(es, key) >= 0 && Find(es, key) == |es| - 1
    ensures var t := Lookup(es, key).value;
      Seen(es, ValueIndex(es, key) + o, before) ==
        if o <= |t| then t[o..] else if o == |t| + 1 then "" else before
  {
    hide *;
    LastEntry(es, key);
    SeenIs(es, ValueIndex(es, key) + o, before);
    if o <= |Lookup(es, key).value| {
      InsideList(es, key, o);
    } else if o == |Lookup(es, key).value| + 1 {
      ClosingNul(es);
    }
  }

  lemma SeenIs(es: seq<string>, p: nat, before: string)
    ensures Seen(es, p, before) == if p < |Image(es)| then StringAt(Image(es), p) else before
  {
  }

  lemma InsideList(es: seq<string>, key: string, o: nat)
    requires ValidEntries(es) && Lookup(es, key).Some? && o <= |Lookup(es, key).value|
    ensures StringAt(Image(es), ValueIndex(es, key) + o) == Lookup(es, key).value[o..]
  {
    hide ValidEntries, Image, Lookup, ValueIndex, StringAt;
    ValueAt(Env(es, Image(es)), key, o);
  }

  lemma ClosingNul(es: seq<string>)
    ensures |Image(es)| > 0 && StringAt(Image(es), |Image(es)| - 1) == ""
  {
    var img := Image(es);
    assert img[|img| - 1] == NUL;
    hide Image;
    NothingAt(img[|img| - 1..]);
  }

  lemma NothingAt(s: string)
    requires s != "" && s[0] == NUL
    ensures CText(s) == ""
  {
  }

  lemma {:induction false} LastEntry(es: seq<string>, key: string)
    requires ValidEntries(es) && Find(es, key) >= 0 && Find(es, key) == |es| - 1
    ensures Lookup(es, key).Some? && |Image(es)| == ValueIndex(es, key) + |Lookup(es, key).value| + 2
  {
    var k := |es| - 1;
    PackAt(es, k);
    assert es[k + 1..] == [] && Pack(es[k + 1..]) == "";
    assert Entry(es[k]);
  }

  /** What is seen at an address once a variable was deleted. */
  lemma {:induction false} UnsetShows(e: Env, name: string, p: nat)
    requires EnvOk(e) && Plain(name)
    ensures EnvOk(Unset(e, name))
    ensures StringAt(Unset(e, name).data, p) == Seen(Unset(e, name).entries, p, StringAt(e.data, p))
  {
    PutOk(e, name, [], true);
    UnsetIs(e, name);
    OverSame(e.data, e.entries);
    hide Put, Plain, Seen, StringAt, Over, Image, KeyOf, ValidEntries;
    OverShows(e.data, Unset(e, name).entries, p);
  }

  // ---- setting variables ----

  lemma SetIs(e: Env, name: string, v: string)
    requires EnvOk(e) && Plain(name)
    ensures var rest, entry := Rest(e.entries, name), name + "=" + CText(v);
      Set(e, name, v).entries == if |Image(rest + [entry])| > |e.data| then rest else rest + [entry]
    ensures KeyOf(name + "=" + CText(v)) == name && ValueOf(name + "=" + CText(v)) == CText(v)
  {
    hide Find, Image, CText;
    KeyOfAssignment(name, CText(v));
    assert CTexts([v]) == [CText(v)];
    assert name + Assigned([CText(v)]) == name + "=" + CText(v);
  }

  lemma SetOther(e: Env, name: string, v: string, other: string)
    requires EnvOk(e) && Plain(name) && other != name
    ensures Get(Set(e, name, v), other) == Get(e, other)
  {
    PutOk(e, name, [v], true);
    PlainKey(name);
    hide Put, EnvOk, Plain, KeyOf, CText, Get;
  }

  lemma {:induction false} FindAppended(rest: seq<string>, entry: string, key: string)
    ensures KeyOf(entry) != key ==> Find(rest + [entry], key) == Find(rest, key)
    ensures KeyOf(entry) == key && Find(rest, key) < 0 ==> Find(rest + [entry], key) == |rest|
  {
    var es := rest + [entry];
    var f, g := Find(es, key), Find(rest, key);
    assert forall i :: 0 <= i < |rest| ==> es[i] == rest[i];
    assert es[|rest|] == entry;
    assert g >= 0 ==> KeyOf(es[g]) == key;
    if f < 0 { assert KeyOf(es[|rest|]) != key; }
    hide KeyOf, Find;
  }

  lemma {:induction false} RestHasNone(es: seq<string>, name: string)
    requires ValidEntries(es)
    ensures ValidEntries(Rest(es, name)) && Find(Rest(es, name), name) < 0
  {
    hide KeyOf, Without;
    if Find(es, name) >= 0 { WithoutValid(es, Find(es, name)); }
  }

  /** A variable that was set is the last definition, unless the buffer was too full for it. */
  lemma {:induction false} SetIsLast(e: Env, name: string, v: string)
    requires EnvOk(e) && Plain(name)
    ensures var r := Set(e, name, v);
      Find(r.entries, name) >= 0 ==> Find(r.entries, name) == |r.entries| - 1 && Get(r, name) == Some(CText(v))
  {
    hide KeyOf, Image, CText, Set, Rest, Find, Plain, ValidEntries;
    SetIs(e, name, v);
    RestHasNone(e.entries, name);
    FindAppended(Rest(e.entries, name), name + "=" + CText(v), name);
  }

  /** Setting a variable puts it behind another one and no third one before that. */
  lemma {:induction false} SetStandsBehind(e: Env, name: string, v: string, key: string, other: string)
    requires EnvOk(e) && Plain(name) && Get(e, key).Some? && name != key && other != name && other != key
    ensures !Before(Set(e, name, v).entries, name, key)
    ensures !Before(e.entries, other, key) ==> !Before(Set(e, name, v).entries, other, key)
  {
    hide KeyOf, Image, CText, Set, Find, Plain, ValidEntries, Without;
    SetIs(e, name, v);
    RestHasNone(e.entries, name);
    var rest, entry := Rest(e.entries, name), name + "=" + CText(v);
    FindAppended(rest, entry, name);
    FindAppended(rest, entry, key);
    FindAppended(rest, entry, other);
    RestKeepsOrder(e.entries, name, key, other);
  }

  lemma {:induction false} RestKeepsOrder(es: seq<string>, name: string, key: string, other: string)
    requires ValidEntries(es) && Find(es, key) >= 0 && name != key && other != name
    ensures Find(Rest(es, name), key) >= 0
    ensures !Before(es, other, key) ==> !Before(Rest(es, name), other, key)
  {
    hide KeyOf, Find, Without;
    var j := Find(es, name);
    if j >= 0 {
      FindWithout(es, j, key);
      if Find(es, other) >= 0 {
        FindWithout(es, j, other);
      } else {
        WithoutElements(es, j);
      }
    }
  }

  /** Once a variable was set, another one stands before it exactly when that is defined. */
  lemma {:induction false} SetIsBehindAll(e: Env, name: string, v: string, other: string)
    requires EnvOk(e) && Plain(name) && Get(Set(e, name, v), name).Some? && other != name
    ensures Before(Set(e, name, v).entries, other, name) <==> Get(e, other).Some?
  {
    var r := Set(e, name, v);
    SetIsLast(e, name, v);
    PutOk(e, name, [v], true);
    hide Set, Put, EnvOk, CText;
    assert KeyOf(name) == name;
    assert Get(r, other) == Get(e, other);
  }

  /** There is always room for a value that is no longer than the old one. */
  lemma {:induction false} RoomForShorter(e: Env, name: string, v: string)
    requires EnvOk(e) && Plain(name) && Get(e, name).Some? && CString(v) && |v| <= |Get(e, name).value|
    ensures Get(Set(e, name, v), name) == Some(v)
  {
    var es, k := e.entries, Find(e.entries, name);
    var rest, entry := Rest(es, name), name + "=" + v;
    SetIs(e, name, v);
    PackWithout(es, k);
    PackConcat(rest, [entry]);
    assert Pack([entry]) == entry + [NUL];
    assert |es[k]| == |name| + 1 + |ValueOf(es[k])| by { assert Entry(es[k]); }
    assert |Image(rest + [entry])| <= |e.data|;
    hide Set, Image, Pack, Plain, KeyOf, ValidEntries;
    RestHasNone(es, name);
    FindAppended(rest, entry, name);
    SetIsLast(e, name, v);
  }
}
