/**
 The environment buffer of cmd_nvedit.c: searching, deleting in place and appending inside one
 byte array, proved against the list of definitions it holds.
 */
module Environment {
  import opened Common
  import opened EnvSpec
  import opened EnvMap
  import opened EnvBytes

  /** The whole list and the closing NUL. */
  lemma ImageEnd(es: seq<string>, buffer: string)
    requires Strings(es) && Image(es) <= buffer
    ensures |Pack(es)| < |buffer| && buffer[|Pack(es)|] == NUL && buffer[..|Pack(es)|] == Pack(es)
    ensures es[..|es|] == es && es[..0] == [] && |Pack(es[..0])| == 0
    ensures es != [] ==> |Pack(es)| >= 2 && buffer[|Pack(es)| - 1] == NUL
    ensures es == [] ==> |buffer| >= 2 && buffer[0] == NUL && buffer[1] == NUL
  {
    assert buffer[|Pack(es)|] == Image(es)[|Pack(es)|];
    if es != [] {
      var n := |es| - 1;
      PackAt(es, n);
      assert es[n + 1..] == [] && Pack(es[n + 1..]) == "";
      assert buffer[|Pack(es)| - 1] == Pack(es)[|Pack(es)| - 1];
    }
  }

  /** What lies behind the first k definitions: the next one, or the closing NUL. */
  lemma {:induction false} EntryOrEnd(es: seq<string>, k: nat, buffer: string)
    requires ValidEntries(es) && Image(es) <= buffer && k <= |es|
    ensures var p := |Pack(es[..k])|;
      && p < |buffer| && (buffer[p] == NUL <==> k == |es|) && (k == 0 ==> p == 0)
      && (k < |es| ==>
            && Entry(es[k]) && p + |es[k]| < |buffer| && buffer[p..p + |es[k]|] == es[k] && buffer[p + |es[k]|] == NUL
            && |Pack(es[..k + 1])| == p + |es[k]| + 1)
  {
    EntriesAreStrings(es);
    hide Pack, Image, Strings;
    ImageEnd(es, buffer);
    if k < |es| { EntryAt(es, k, buffer); }
  }

  /** The indices of definition k, its end and its value; k is -1 when there is none. */
  ghost predicate Found(es: seq<string>, k: int, oldval: int, env: nat, nxt: nat)
    requires k < |es|
  {
    && (k < 0 ==> oldval == -1)
    && (k >= 0 ==> env == |Pack(es[..k])| && nxt == env + |es[k]| && oldval == env + |KeyOf(es[k])| + 1)
  }

  /** The address of definition k, or of the closing NUL. */
  function Start(es: seq<string>, k: nat): nat
    requires k <= |es|
  {
    |Pack(es[..k])|
  }

  lemma StartOr(es: seq<string>, k: nat, buffer: string)
    requires ValidEntries(es) && Image(es) <= buffer && k <= |es|
    ensures Start(es, k) < |buffer| && (buffer[Start(es, k)] == NUL <==> k == |es|) && Start(es, 0) == 0
  {
    EntryOrEnd(es, k, buffer);
  }

  /** None of the first k definitions is that of the variable. */
  ghost predicate NoneUpTo(es: seq<string>, k: nat, key: string) {
    forall i :: 0 <= i < k <= |es| ==> KeyOf(es[i]) != key
  }

  lemma NoneYet(es: seq<string>, key: string)
    ensures NoneUpTo(es, 0, key)
  {
  }

  lemma NoneStep(es: seq<string>, k: nat, key: string)
    requires k < |es| && NoneUpTo(es, k, key) && KeyOf(es[k]) != key
    ensures NoneUpTo(es, k + 1, key)
  {
  }

  lemma FoundAt(es: seq<string>, k: nat, key: string, env: nat, nxt: nat)
    requires ValidEntries(es) && k < |es| && KeyOf(es[k]) == key && env == Start(es, k) && nxt == env + |es[k]|
    ensures Found(es, Find(es, key), env + |KeyOf(es[k])| + 1, env, nxt)
  {
    FindIsUnique(es, k, key);
  }

  lemma FoundNothing(es: seq<string>, key: string, env: nat, nxt: nat)
    requires NoneUpTo(es, |es|, key)
    ensures Found(es, Find(es, key), -1, env, nxt)
  {
    hide KeyOf, Find;
    assert Find(es, key) < 0;
  }

  /** What closes a list at index `to`: its rest, or a NUL, or two NULs when nothing is left. */
  function Closing(to: nat, rest: seq<string>): string {
    if rest == [] && to > 0 then [NUL] else Image(rest)
  }

  class Environment {
    /** The environment data, ENV_SIZE bytes. */
    const data: array<char>
    /** The definitions the data holds, in order. */
    ghost var entries: seq<string>
    /** The data over which the checksum was last computed. */
    var checked: string

    ghost function State(): Env
      reads this, data
    {
      Env(entries, data[..])
    }

    ghost predicate Valid()
      reads this, data
    {
      EnvOk(State())
    }

    /** An empty environment of the given size. */
    constructor (size: nat)
      requires size >= 2
      ensures Valid() && fresh(data) && data.Length == size && entries == [] && checked == data[..]
    {
      var d := new char[size](_ => NUL);
      data := d;
      entries := [];
      checked := d[..];
    }

    /** Matches `name` (or the name in `name=value`) against the definition `e` stored at index
        `i2`; the result is the index of its value, or -1. */
    method EnvMatch(name: string, i2: nat, ghost e: string) returns (r: int)
      requires CString(name) && Entry(e)
      requires i2 + |e| < data.Length && data[i2..i2 + |e|] == e && data[i2 + |e|] == NUL
      ensures r == if KeyOf(name) == KeyOf(e) then i2 + |KeyOf(e)| + 1 else -1
    {
      var j, p := 0, i2;
      while (if j < |name| then name[j] else NUL) == data[p]
        invariant 0 <= j <= |name| && j <= |e| && p == i2 + j
        invariant name[..j] == e[..j] && '=' !in e[..j]
        decreases |e| - j
      {
        assert e[..|e|] == e;
        assert data[p] == data[i2..i2 + |e|][j] == e[j] && e[j] in e;
        p := p + 1;
        if name[j] == '=' {
          KeyIsUnique(name, j);
          KeyIsUnique(e, j);
          return p;
        }
        j := j + 1;
      }
      assert e[..|e|] == e && name[..|name|] == name;
      assert data[p] == data[i2..i2 + |e|][j] == e[j];
      MatchStops(name, e, j);
      if j == |name| && data[p] == '=' {
        return p + 1;
      }
      return -1;
    }

    /** Finds the end of the definition `e` that starts at index `p`. */
    method EndOfEntry(p: nat, ghost e: string) returns (nxt: nat)
      requires CString(e) && p + |e| < data.Length && data[p..p + |e|] == e && data[p + |e|] == NUL
      ensures nxt == p + |e|
    {
      nxt := p;
      assert forall i :: 0 <= i < |e| ==> data[p + i] == data[p..p + |e|][i] == e[i] && e[i] in e;
      while data[nxt] != NUL
        invariant p <= nxt <= p + |e|
        decreases p + |e| - nxt
      {
        nxt := nxt + 1;
      }
    }

    /** Searches for a variable with this name: `env` and `nxt` delimit its definition, `oldval` is
        the index of its value or -1. */
    method Search(name: string) returns (oldval: int, env: nat, nxt: nat)
      requires Valid() && CString(name)
      ensures oldval < 0 <==> Lookup(entries, KeyOf(name)) == None
      ensures oldval >= 0 ==>
        && env < oldval <= nxt < data.Length && data[nxt] == NUL
        && KeyOf(data[env..nxt]) == KeyOf(name) && Lookup(entries, KeyOf(name)) == Some(data[oldval..nxt])
      ensures Found(entries, Find(entries, KeyOf(name)), oldval, env, nxt)
    {
      hide Pack, Image, Strings, ValidEntries, KeyOf;
      oldval, env, nxt := Scan(name);
      ghost var k := Find(entries, KeyOf(name));
      assert k >= 0 ==> KeyOf(entries[k]) == KeyOf(name);
      if k >= 0 {
        FoundEntry(entries, k, data[..], env, nxt);
      }
    }

    /** Finds the end of the definition at index `env` and matches the name against it. */
    method TryEntry(name: string, env: nat, ghost k: nat) returns (oldval: int, nxt: nat)
      requires Valid() && CString(name) && k < |entries| && env == Start(entries, k)
      ensures nxt == env + |entries[k]| && Start(entries, k + 1) == nxt + 1
      ensures oldval == if KeyOf(name) == KeyOf(entries[k]) then env + |KeyOf(entries[k])| + 1 else -1
    {
      hide Pack, Image, Strings, KeyOf, ValidEntries;
      EntryOrEnd(entries, k, data[..]);
      nxt := EndOfEntry(env, entries[k]);
      oldval := EnvMatch(name, env, entries[k]);
    }

    /** The scan from definition to definition. */
    method Scan(name: string) returns (oldval: int, env: nat, nxt: nat)
      requires Valid() && CString(name)
      ensures Found(entries, Find(entries, KeyOf(name)), oldval, env, nxt)
    {
      ghost var es, buffer, key := entries, data[..], KeyOf(name);
      assert ValidEntries(es) && Image(es) <= buffer;
      hide *;
      env, nxt, oldval := 0, 0, -1;
      ghost var k := 0;
      StartOr(es, 0, buffer);
      NoneYet(es, key);
      while data[env] != NUL
        invariant 0 <= k <= |es| && env == Start(es, k) < |buffer|
        invariant buffer[env] == NUL <==> k == |es|
        invariant NoneUpTo(es, k, key)
        decreases |es| - k
      {
        oldval, nxt := TryEntry(name, env, k);
        if oldval >= 0 {
          FoundAt(es, k, key, env, nxt);
          return;
        }
        NoneStep(es, k, key);
        env := nxt + 1;
        k := k + 1;
        StartOr(es, k, buffer);
      }
      oldval := -1;
      FoundNothing(es, key, env, nxt);
    }

    /** Moves the text `img`, which starts at index `from` and ends in its only pair of NULs, down to
        index `to`, leaving out the last NUL; the result is the index of the last character moved. */
    method ShiftDown(to: nat, from: nat, ghost img: string) returns (env: nat)
      requires to < from && from + |img| <= data.Length && data[from..from + |img|] == img
      requires |img| >= 2 && img[|img| - 2] == NUL && img[|img| - 1] == NUL
      requires forall j :: 0 <= j && j + 2 < |img| ==> img[j] != NUL || img[j + 1] != NUL
      modifies data
      ensures env + 2 == to + |img| && data[..] == Patch(old(data[..]), to, img[..|img| - 1])
    {
      hide Patch;
      var nxt := from;
      env := to;
      ghost var i, before := 0, data[..];
      assert forall j :: 0 <= j < |img| ==> before[from + j] == before[from..from + |img|][j] == img[j];
      PatchNothing(before, to);
      while true
        invariant 0 <= i && i + 2 <= |img| && env == to + i && nxt == from + i
        invariant data[..] == Patch(before, to, img[..i])
        decreases |img| - i
      {
        PatchNext(before, to, img[..i], img[i]);
        assert data[nxt] == data[..][nxt] == img[i] && data[nxt + 1] == data[..][nxt + 1] == img[i + 1];
        ghost var was := data[..];
        data[env] := data[nxt];
        assert data[..] == was[env := img[i]] && img[..i] + [img[i]] == img[..i + 1];
        nxt := nxt + 1;
        if data[env] == NUL && data[nxt] == NUL {
          break;
        }
        i := i + 1;
        env := env + 1;
      }
    }

    /** Moves the rest of the list, which starts at index `from`, down to index `to`; with a NUL
        behind `env` the list is closed there. */
    method MoveRest(to: nat, from: nat, ghost rest: seq<string>) returns (env: nat)
      requires to < from < data.Length && Strings(rest)
      requires if rest == [] then data[from] == NUL else data[from] != NUL && Image(rest) <= data[from..]
      modifies data
      ensures env + 1 < data.Length && to + |Closing(to, rest)| <= data.Length
      ensures data[..][env + 1 := NUL] == Patch(old(data[..]), to, Closing(to, rest))
    {
      hide Strings, Patch;
      env := to;
      ghost var before := data[..];
      PatchNothing(before, to);
      if data[from] == NUL {
        PatchNext(before, to, "", NUL);
        if env > 0 {
          env := env - 1;
        } else {
          data[env] := NUL;
          assert data[..] == before[0 := NUL];
          PatchNext(before, to, [NUL], NUL);
        }
        assert "" + [NUL] == [NUL] && [NUL] + [NUL] == [NUL, NUL];
        assert Pack(rest) == "" && "" + [NUL, NUL] == [NUL, NUL];
      } else {
        ImageNuls(rest);
        var img := Image(rest);
        assert data[from..from + |img|] == img;
        env := ShiftDown(env, from, img);
        PatchNext(before, to, img[..|img| - 1], NUL);
        assert img[..|img| - 1] + [NUL] == img;
      }
    }

    /** Deletes the definition at `env`..`nxt` by moving the rest of the list down over it. */
    method Delete(env: nat, nxt: nat, ghost k: nat)
      requires Valid() && k < |entries|
      requires env == |Pack(entries[..k])| && nxt == env + |entries[k]|
      modifies data
      ensures Image(Without(entries, k)) <= data[..] == Over(old(data[..]), Without(entries, k))
    {
      hide Without, Strings, ValidEntries, KeyOf, Image, Pack, Over;
      ghost var before := data[..];
      EntriesAreStrings(entries);
      EntryAt(entries, k, before);
      DeletionShape(entries, k, before);
      var last := MoveRest(env, nxt + 1, entries[k + 1..]);
      DeletionResult(entries, k, before);
      last := last + 1;
      ghost var moved := data[..];
      data[last] := NUL;
      assert data[..] == moved[last := NUL];
    }

    /** Finds where the next definition goes: at the closing NUL of a non-empty list, at index 0 of
        an empty one. */
    method FindEnd(ghost es: seq<string>) returns (env: nat)
      requires Strings(es) && Image(es) <= data[..]
      ensures env == |Pack(es)|
    {
      ImageEnd(es, data[..]);
      if es != [] { ImageNuls(es); }
      ghost var img := Image(es);
      assert forall j :: 0 <= j < |img| ==> data[j] == data[..][j] == img[j];
      env := 0;
      while data[env] != NUL || data[env + 1] != NUL
        invariant 0 <= env && env + 2 <= |img|
        decreases |img| - env
      {
        env := env + 1;
      }
      if env > 0 {
        env := env + 1;
      }
    }

    /** Copies a string and its NUL to index `p`; the result is the index of the NUL. */
    method StoreString(p: nat, s: string) returns (env: nat)
      requires p + |s| < data.Length
      modifies data
      ensures env == p + |s| && data[..] == Patch(old(data[..]), p, s + [NUL])
    {
      hide Patch;
      env := p;
      var i := 0;
      ghost var before := data[..];
      PatchNothing(before, p);
      while i < |s|
        invariant 0 <= i <= |s| && env == p + i
        invariant data[..] == Patch(before, p, s[..i])
      {
        PatchNext(before, p, s[..i], s[i]);
        ghost var was := data[..];
        data[env] := s[i];
        assert data[..] == was[env := s[i]] && s[..i] + [s[i]] == s[..i + 1];
        env := env + 1;
        i := i + 1;
      }
      assert s[..i] == s;
      PatchNext(before, p, s, NUL);
      ghost var was := data[..];
      data[env] := NUL;
      assert data[..] == was[env := NUL];
    }

    /** Writes a separator and an argument, with its NUL. */
    method StoreArgument(p: nat, sep: char, arg: string) returns (env: nat)
      requires p + |arg| + 1 < data.Length
      modifies data
      ensures env == p + |arg| + 1 && data[..] == Patch(old(data[..]), p, [sep] + arg + [NUL])
    {
      ghost var before := data[..];
      data[p] := sep;
      assert data[..] == before[p := sep];
      env := StoreString(p + 1, arg);
    }

    /** Appends the definition of `name` at index `p`. */
    method Append(p: nat, name: string, args: seq<string>)
      requires args != [] && p + |name + Assigned(args)| + 2 <= data.Length
      modifies data
      ensures data[..] == Patch(old(data[..]), p, name + Assigned(args) + [NUL, NUL])
    {
      hide Assigned, Patch;
      AssignedOfNone();
      ghost var before := data[..];
      var env := StoreString(p, name);
      assert name + Assigned(args[..0]) == name;
      var i := 0;
      while i < |args|
        invariant 0 <= i <= |args| && env == p + |name| + |Assigned(args[..i])| < data.Length
        invariant data[..] == Patch(before, p, name + Assigned(args[..i]) + [NUL])
      {
        AssignedStep(args, i);
        var sep := if i == 0 then '=' else ' ';
        ghost var text := name + Assigned(args[..i]);
        PatchOn(before, p, text, NUL, [sep] + args[i] + [NUL]);
        env := StoreArgument(env, sep, args[i]);
        Associate4(name, Assigned(args[..i]), [sep] + args[i], [NUL]);
        i := i + 1;
      }
      assert args[..|args|] == args;
      ghost var text := name + Assigned(args);
      PatchNext(before, p, text + [NUL], NUL);
      assert text + [NUL] + [NUL] == text + [NUL, NUL];
      env := env + 1;
      ghost var was := data[..];
      data[env] := NUL;
      assert data[..] == was[env := NUL];
    }

    /** The room that the new definition and the closing NUL need. */
    method DefinitionSize(name: string, args: seq<string>) returns (len: nat)
      ensures len == |name + Assigned(args)| + 2
    {
      len := |name| + 2;
      for i := 0 to |args|
        invariant len == |name| + 2 + |Assigned(args[..i])|
      {
        AssignedStep(args, i);
        len := len + |args[i]| + 1;
      }
      assert args[..|args|] == args;
    }

    /** Deletes definition `k`. */
    method Remove(env: nat, nxt: nat, ghost k: nat)
      requires Valid() && k < |entries|
      requires env == |Pack(entries[..k])| && nxt == env + |entries[k]|
      modifies `entries, data
      ensures Valid() && entries == Without(old(entries), k) && data[..] == Over(old(data[..]), entries)
    {
      Delete(env, nxt, k);
      WithoutValid(entries, k);
      entries := Without(entries, k);
    }

    /** Appends the definition of a variable that is not defined, if there is room for it. */
    method Define(name: string, args: seq<string>) returns (ok: bool)
      requires Valid() && CString(name) && CStrings(args) && args != [] && Find(entries, KeyOf(name)) == -1
      modifies `entries, data
      ensures Valid()
      ensures ok <==> |Image(old(entries) + [name + Assigned(args)])| <= data.Length
      ensures entries == if ok then old(entries) + [name + Assigned(args)] else old(entries)
      ensures data[..] == if ok then Over(old(data[..]), entries) else old(data[..])
    {
      hide Image, Pack, Assigned, Over, KeyOf, Find;
      ghost var e := name + Assigned(args);
      EntriesAreStrings(entries);
      var env := FindEnd(entries);
      var len := DefinitionSize(name, args);
      AppendedImage(entries, e, data[..]);
      if len > data.Length - env {
        return false;
      }
      NewEntry(name, args);
      AppendValid(entries, e);
      Append(env, name, args);
      WrittenOver(entries, e, old(data[..]));
      entries := entries + [e];
      return true;
    }

    /** One setenv call: the list the data holds becomes what SetEnv says, and the checksum is
        recomputed before every successful return and left alone otherwise. */
    method SetEnv(name: string, args: seq<string>, accepted: bool) returns (rcode: int, ghost status: Status)
      requires Valid() && CString(name) && CStrings(args)
      modifies this, data
      ensures Valid()
      ensures (entries, status) == EnvSpec.SetEnv(old(entries), data.Length, name, args, accepted)
      ensures State() == Put(old(State()), name, args, accepted)
      ensures rcode == if status == Stored || status == Deleted then 0 else 1
      ensures checked == if status == Stored || status == Deleted then data[..] else old(checked)
      ensures status == Refused ==> data[..] == old(data[..])
      ensures (name == "serial#" || name == "ethaddr") && Lookup(old(entries), KeyOf(name)).Some? ==>
        rcode == 1 && status == Refused && entries == old(entries)
      ensures status == Overflow ==> (data[..] == old(data[..]) <==> Find(old(entries), KeyOf(name)) < 0)
    {
      hide Put, Over, Image, Pack, Find, Lookup, Refuses, KeyOf, Assigned, ValidEntries;
      var oldval, env, nxt;
      ghost var e := State();
      RefusedExactly(entries, data.Length, name, args, accepted);
      PutWrites(e, name, args, accepted);
      oldval, env, nxt := Search(name);
      ghost var k := Find(entries, KeyOf(name));
      if oldval >= 0 {
        if Refuses(name, args, accepted) {
          return 1, Refused;
        }
        Remove(env, nxt, k);
        WithoutValid(e.entries, k);
        DataChanges(e.entries, k, e.data, data[..]);
      }
      if args == [] {
        checked := data[..];
        return 0, Deleted;
      }
      var ok := Define(name, args);
      if !ok {
        return 1, Overflow;
      }
      checked := data[..];
      return 0, Stored;
    }

    /** The index of the value of the variable, or -1. */
    method GetEnv(name: string) returns (val: int)
      requires Valid() && CString(name)
      ensures val < 0 <==> Lookup(entries, KeyOf(name)) == None
      ensures val >= 0 ==>
        var v := Lookup(entries, KeyOf(name)).value;
        val + |v| < data.Length && data[val..val + |v|] == v && data[val + |v|] == NUL
    {
      hide Image, Pack, KeyOf;
      var env, nxt;
      val, env, nxt := Search(name);
    }
  }

  /** The image of a non-empty list ends in its only pair of NULs. */
  lemma {:induction false} ImageNuls(es: seq<string>)
    requires Strings(es) && es != []
    ensures var img := Image(es);
      && |img| == |Pack(es)| + 1 >= 3 && img[|img| - 2] == NUL && img[|img| - 1] == NUL
      && forall j :: 0 <= j && j + 2 < |img| ==> img[j] != NUL || img[j + 1] != NUL
  {
    ImageEnd(es, Image(es));
    forall j | 0 <= j && j + 2 < |Image(es)| ensures Image(es)[j] != NUL || Image(es)[j + 1] != NUL {
      NoEarlyDoubleNul(es, j);
    }
  }

  /** The buffer without a definition differs from the buffer with it. */
  lemma DataChanges(es: seq<string>, k: nat, before: string, after: string)
    requires ValidEntries(es) && k < |es| && Image(es) <= before
    requires ValidEntries(Without(es, k)) && Image(Without(es, k)) <= after
    ensures before != after
  {
    EntriesAreStrings(es);
    EntriesAreStrings(Without(es, k));
    if before == after {
      ImageDeterminesList(es, Without(es, k), before);
      assert false;
    }
  }

  lemma AssignedOfNone()
    ensures Assigned([]) == ""
  {
  }

  lemma AssignedStep(args: seq<string>, i: nat)
    requires i < |args|
    ensures Assigned(args[..i + 1]) == Assigned(args[..i]) + ([if i == 0 then '=' else ' '] + args[i])
    ensures |Assigned(args[..i + 1])| <= |Assigned(args)|
  {
    assert args[..i + 1][..i] == args[..i];
    AssignedGrows(args, i + 1);
  }

  lemma {:induction false} AssignedGrows(args: seq<string>, i: nat)
    requires i <= |args|
    ensures |Assigned(args[..i])| <= |Assigned(args)|
    decreases |args|
  {
    if i < |args| {
      var front := args[..|args| - 1];
      AssignedGrows(front, i);
      assert front[..i] == args[..i];
    } else {
      assert args[..i] == args;
    }
  }

  /** Appending a definition to the packed list: what it occupies, and where it goes. */
  lemma {:induction false} AppendedImage(es: seq<string>, e: string, buffer: string)
    requires Strings(es) && Image(es) <= buffer
    ensures Image(es + [e]) == Pack(es) + e + [NUL, NUL]
    ensures buffer[..|Pack(es)|] == Pack(es)
  {
    PackConcat(es, [e]);
    assert Pack([e]) == e + [NUL];
    ImageEnd(es, buffer);
  }

  /** A new definition is a C string with a '=' after its name. */
  lemma NewEntry(name: string, args: seq<string>)
    requires CString(name) && CStrings(args) && args != []
    ensures Entry(name + Assigned(args)) && KeyOf(name + Assigned(args)) == KeyOf(name)
  {
    AssignedShape(args);
    assert name + Assigned(args) == name + "=" + Assigned(args)[1..];
    assert (name + Assigned(args))[|name|] == '=';
    KeyOfAssignment(name, Assigned(args)[1..]);
  }

  /** What follows a definition in the buffer, and what the list without it occupies. */
  lemma {:induction false} DeletionShape(es: seq<string>, k: nat, buffer: string)
    requires Strings(es) && Image(es) <= buffer && k < |es|
    ensures var from, rest, p := |Pack(es[..k + 1])|, es[k + 1..], |Pack(es[..k])|;
      && from == p + |es[k]| + 1 && from < |buffer|
      && (k + 1 == |es| ==> buffer[from] == NUL)
      && (k + 1 < |es| ==> buffer[from] != NUL && Image(rest) <= buffer[from..])
      && Strings(rest)
      && buffer[..p] == Pack(es[..k])
      && (p == 0 <==> k == 0) && (k > 0 ==> p >= 2 && buffer[p - 1] == NUL)
      && Pack(Without(es, k)) == Pack(es[..k]) + Pack(rest)
  {
    PackAt(es, k);
    PackConcat(es[..k], es[k + 1..]);
    EntryAt(es, k, buffer);
    var p, from, rest := |Pack(es[..k])|, |Pack(es[..k + 1])|, es[k + 1..];
    assert buffer[..p] == Image(es)[..p] == Pack(es[..k]);
    if k + 1 < |es| {
      EntryAt(es, k + 1, buffer);
      assert Image(es)[from..] == Image(rest);
      assert buffer[from..][..|Image(rest)|] == Image(rest);
    } else {
      assert buffer[from] == Image(es)[from];
    }
    if k > 0 {
      NulBefore(es, k);
      assert buffer[p - 1] == Pack(es[..k])[p - 1];
    }
  }

  lemma {:induction false} NulBefore(es: seq<string>, k: nat)
    requires Strings(es) && 0 < k <= |es|
    ensures var p := |Pack(es[..k])|; p >= 2 && Pack(es[..k])[p - 1] == NUL
  {
    PackAt(es, k - 1);
    assert Pack(es[..k]) == Pack(es[..k - 1]) + es[k - 1] + [NUL];
  }

  /** Writing a definition and a NUL behind the list is writing the longer list over the buffer. */
  lemma WrittenOver(es: seq<string>, e: string, before: string)
    requires Image(es + [e]) == Pack(es) + e + [NUL, NUL] && |Image(es + [e])| <= |before|
    requires before[..|Pack(es)|] == Pack(es)
    ensures Patch(before, |Pack(es)|, e + [NUL, NUL]) == Over(before, es + [e])
  {
    hide Image, Pack;
  }

  /** Closing the list where a definition was is writing the list without it over the buffer. */
  lemma {:induction false} DeletionResult(es: seq<string>, k: nat, before: string)
    requires Strings(es) && Image(es) <= before && k < |es|
    ensures var p, closing := |Pack(es[..k])|, Closing(|Pack(es[..k])|, es[k + 1..]);
      && p + |closing| <= |before|
      && Image(Without(es, k)) <= Patch(before, p, closing) == Over(before, Without(es, k))
  {
    hide Over;
    DeletionShape(es, k, before);
    WithoutFits(es, k);
    hide Strings;
    var p, rest, front := |Pack(es[..k])|, es[k + 1..], Pack(es[..k]);
    var closing := Closing(p, rest);
    assert Image(Without(es, k)) == front + closing by {
      if rest == [] && p == 0 { assert Without(es, k) == []; }
    }
    OverIs(before, Without(es, k), front, closing);
  }

  lemma OverIs(before: string, es: seq<string>, front: string, closing: string)
    requires Image(es) == front + closing && |Image(es)| <= |before| && front <= before
    ensures Image(es) <= Patch(before, |front|, closing) == Over(before, es)
  {
    hide Image;
  }

  /** Two strings that agree on `j` characters other than '=' and then differ. */
  lemma {:induction false} MatchStops(name: string, e: string, j: nat)
    requires j <= |name| && j < |e| && name[..j] == e[..j] && '=' !in e[..j] && '=' in e
    requires j < |name| ==> name[j] != e[j]
    ensures KeyOf(name) == KeyOf(e) <==> j == |name| && e[j] == '='
    ensures j == |name| && e[j] == '=' ==> |KeyOf(e)| == j
  {
    if j < |name| && name[j] == '=' { KeyIsUnique(name, j); }
    if e[j] == '=' { KeyIsUnique(e, j); }
    var kn, ke := KeyOf(name), KeyOf(e);
    assert |ke| < |e|;
    assert forall i :: 0 <= i < j ==> name[i] == name[..j][i] == e[..j][i] == e[i] != '=';
    assert forall i :: 0 <= i < |kn| ==> kn[i] == name[i];
    assert forall i :: 0 <= i < |ke| ==> ke[i] == e[i];
  }
}
