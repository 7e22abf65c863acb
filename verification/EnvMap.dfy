/**
 What setenv promises about the environment seen as a map from names to values: one call is a map
 update, names stay distinct, the other definitions keep their order, and `serial#` and `ethaddr`
 are written once.
 */
module EnvMap {
  import opened Common
  import opened EnvSpec

  lemma {:induction false} FindIsUnique(es: seq<string>, k: nat, key: string)
    requires ValidEntries(es) && k < |es| && KeyOf(es[k]) == key
    ensures Find(es, key) == k && Lookup(es, key) == Some(ValueOf(es[k]))
  {
    var f := Find(es, key);
    assert f >= 0 && KeyOf(es[f]) == key;
  }

  lemma {:induction false} KeyOfAssignment(name: string, tail: string)
    ensures KeyOf(name + "=" + tail) == KeyOf(name)
    ensures '=' !in name ==> ValueOf(name + "=" + tail) == tail
  {
    var s, k := name + "=" + tail, |KeyOf(name)|;
    assert s[k] == '=' && s[..k] == KeyOf(name);
    KeyIsUnique(s, k);
  }

  lemma {:induction false} AssignedShape(args: seq<string>)
    requires args != []
    ensures Assigned(args) != "" && Assigned(args)[0] == '='
    ensures (forall i :: 0 <= i < |args| ==> CString(args[i])) ==> CString(Assigned(args))
    ensures Assigned(args) == "=" + Assigned(args)[1..]
    ensures |args| == 1 ==> Assigned(args)[1..] == args[0]
    decreases |args|
  {
    if |args| > 1 { AssignedShape(args[..|args| - 1]); }
  }

  /** The arguments of a call separated by single spaces. */
  function Joined(args: seq<string>): string
    requires args != []
  {
    AssignedShape(args);
    Assigned(args)[1..]
  }

  lemma {:induction false} JoinedIsSpaceSeparated(args: seq<string>, last: string)
    requires args != []
    ensures Joined([last]) == last
    ensures Joined(args + [last]) == Joined(args) + " " + last
  {
    AssignedShape(args);
    AssignedShape(args + [last]);
    assert (args + [last])[..|args|] == args;
    assert Assigned(args + [last]) == Assigned(args) + " " + last;
  }

  lemma {:induction false} WithoutElements(es: seq<string>, k: nat)
    requires k < |es|
    ensures forall i :: 0 <= i < |es| - 1 ==> Without(es, k)[i] == es[if i < k then i else i + 1]
  {
    forall i | 0 <= i < |es| - 1 ensures Without(es, k)[i] == es[if i < k then i else i + 1] {
      if i >= k { assert Without(es, k)[i] == es[k + 1..][i - k]; }
    }
  }

  lemma {:induction false} WithoutValid(es: seq<string>, k: nat)
    requires ValidEntries(es) && k < |es|
    ensures ValidEntries(Without(es, k))
    ensures Find(Without(es, k), KeyOf(es[k])) == -1
  {
    WithoutElements(es, k);
  }

  lemma {:induction false} LookupWithout(es: seq<string>, k: nat, key: string)
    requires ValidEntries(es) && k < |es| && key != KeyOf(es[k])
    ensures Lookup(Without(es, k), key) == Lookup(es, key)
  {
    var r, j := Without(es, k), Find(es, key);
    WithoutElements(es, k);
    WithoutValid(es, k);
    if j >= 0 {
      var i := if j < k then j else j - 1;
      assert r[i] == es[j];
      FindIsUnique(r, i, key);
    } else {
      assert forall i :: 0 <= i < |r| ==> KeyOf(r[i]) != key;
    }
  }

  lemma {:induction false} AppendValid(es: seq<string>, e: string)
    requires ValidEntries(es) && Entry(e) && Find(es, KeyOf(e)) == -1
    ensures ValidEntries(es + [e])
    ensures Lookup(es + [e], KeyOf(e)) == Some(ValueOf(e))
  {
    FindIsUnique(es + [e], |es|, KeyOf(e));
  }

  lemma {:induction false} LookupAppend(es: seq<string>, e: string, key: string)
    requires ValidEntries(es) && ValidEntries(es + [e]) && key != KeyOf(e)
    ensures Lookup(es + [e], key) == Lookup(es, key)
  {
    var r, j := es + [e], Find(es, key);
    if j >= 0 {
      assert r[j] == es[j];
      FindIsUnique(r, j, key);
    } else {
      assert forall i :: 0 <= i < |r| ==> KeyOf(r[i]) != key;
    }
  }

  ghost predicate CStrings(args: seq<string>) {
    forall i :: 0 <= i < |args| ==> CString(args[i])
  }

  /** One setenv call is a map update: the value of the named variable becomes what was assigned, or
      nothing when only a deletion was asked for or the new definition does not fit; every other
      variable keeps its value, and names stay distinct. */
  lemma {:induction false} SetEnvIsMapUpdate(es: seq<string>, size: nat, name: string, args: seq<string>, accepted: bool)
    requires ValidEntries(es) && CString(name) && CStrings(args)
    ensures var (r, status) := SetEnv(es, size, name, args, accepted);
      && ValidEntries(r)
      && (status == Refused ==> r == es)
      && (status == Stored ==> args != [] && Lookup(r, KeyOf(name)) == Some(ValueOf(name + Assigned(args))))
      && (status == Deleted || status == Overflow ==> Lookup(r, KeyOf(name)) == None)
      && (forall key :: key != KeyOf(name) ==> Lookup(r, key) == Lookup(es, key))
  {
    hide Refuses, Assigned, KeyOf, Image, Lookup, CString, ValidEntries;
    var k := Find(es, KeyOf(name));
    if !(k >= 0 && Refuses(name, args, accepted)) {
      var rest := if k >= 0 then Without(es, k) else es;
      Undefined(es, name);
      if args != [] && |Image(rest + [name + Assigned(args)])| <= size {
        Redefined(rest, name, args);
      }
    }
  }

  /** Without its old definition a name has no value and the other names keep theirs. */
  lemma {:induction false} Undefined(es: seq<string>, name: string)
    requires ValidEntries(es)
    ensures var k := Find(es, KeyOf(name));
      var rest := if k >= 0 then Without(es, k) else es;
      && ValidEntries(rest) && Lookup(rest, KeyOf(name)) == None
      && forall key :: key != KeyOf(name) ==> Lookup(rest, key) == Lookup(es, key)
  {
    hide KeyOf;
    var k := Find(es, KeyOf(name));
    if k >= 0 {
      WithoutValid(es, k);
      forall key | key != KeyOf(name) ensures Lookup(Without(es, k), key) == Lookup(es, key) { LookupWithout(es, k, key); }
      WithoutElements(es, k);
    }
  }

  /** A new definition at the end gives the name its value and leaves the others alone. */
  lemma {:induction false} Redefined(rest: seq<string>, name: string, args: seq<string>)
    requires ValidEntries(rest) && CString(name) && CStrings(args) && args != [] && Lookup(rest, KeyOf(name)) == None
    ensures var e := name + Assigned(args);
      && ValidEntries(rest + [e]) && Lookup(rest + [e], KeyOf(name)) == Some(ValueOf(e))
      && forall key :: key != KeyOf(name) ==> Lookup(rest + [e], key) == Lookup(rest, key)
  {
    AssignedShape(args);
    var e, tail := name + Assigned(args), Assigned(args)[1..];
    assert e == name + "=" + tail && e[|name|] == '=';
    KeyOfAssignment(name, tail);
    hide Assigned, KeyOf;
    assert CString(e);
    AppendValid(rest, e);
    forall key | key != KeyOf(name) ensures Lookup(rest + [e], key) == Lookup(rest, key) { LookupAppend(rest, e, key); }
  }

  /** A name without '=' gets the arguments joined by single spaces as its value. */
  lemma StoredValue(name: string, args: seq<string>)
    requires args != [] && '=' !in name
    ensures '=' in name + Assigned(args)
    ensures KeyOf(name) == name && ValueOf(name + Assigned(args)) == Joined(args)
  {
    AssignedShape(args);
    assert name + Assigned(args) == name + "=" + Assigned(args)[1..];
    assert (name + Assigned(args))[|name|] == '=';
    KeyOfAssignment(name, Assigned(args)[1..]);
  }

  /** The list after the call is the old list without the named variable, in order, with the new
      definition appended exactly when it was stored. */
  lemma SetEnvKeepsOrder(es: seq<string>, size: nat, name: string, args: seq<string>, accepted: bool)
    requires ValidEntries(es)
    ensures var (r, status) := SetEnv(es, size, name, args, accepted);
      status != Refused ==>
        r == Others(es, KeyOf(name)) + (if status == Stored then [name + Assigned(args)] else [])
        && (status == Stored <==> args != [] && |Image(Others(es, KeyOf(name)) + [name + Assigned(args)])| <= size)
  {
    hide KeyOf, Image, Assigned, Others, Without;
    OthersIsWithout(es, KeyOf(name));
  }

  /** The definitions of all variables but `key`. */
  function Others(es: seq<string>, key: string): seq<string> {
    if es == [] then []
    else (if KeyOf(es[0]) == key then [] else [es[0]]) + Others(es[1..], key)
  }

  lemma {:induction false} OthersOfUndefined(es: seq<string>, key: string)
    requires forall i :: 0 <= i < |es| ==> KeyOf(es[i]) != key
    ensures Others(es, key) == es
  {
    if es != [] {
      OthersOfUndefined(es[1..], key);
    }
  }

  lemma WithoutFirst(es: seq<string>)
    requires es != []
    ensures Without(es, 0) == es[1..]
  {
  }

  lemma WithoutBehindFirst(es: seq<string>, k: nat)
    requires 0 < k < |es|
    ensures Without(es, k) == [es[0]] + Without(es[1..], k - 1)
  {
  }

  lemma {:induction false} FindBehindFirst(es: seq<string>, key: string)
    requires ValidEntries(es) && Find(es, key) > 0
    ensures ValidEntries(es[1..]) && Find(es[1..], key) == Find(es, key) - 1 && KeyOf(es[0]) != key
  {
    var rest := es[1..];
    assert forall i :: 0 <= i < |rest| ==> rest[i] == es[i + 1];
    hide KeyOf;
    FindIsUnique(rest, Find(es, key) - 1, key);
  }

  lemma {:induction false} OthersIsWithout(es: seq<string>, key: string)
    requires ValidEntries(es)
    ensures var k := Find(es, key); Others(es, key) == if k >= 0 then Without(es, k) else es
  {
    hide KeyOf, Without;
    var k := Find(es, key);
    if k < 0 {
      OthersOfUndefined(es, key);
    } else if k == 0 {
      OthersOfUndefined(es[1..], key);
      WithoutFirst(es);
    } else {
      FindBehindFirst(es, key);
      OthersIsWithout(es[1..], key);
      WithoutBehindFirst(es, k);
    }
  }

  // ---- write-once variables ----

  datatype Command = Command(name: string, args: seq<string>, accepted: bool)

  function Run(es: seq<string>, size: nat, cmds: seq<Command>): seq<string>
    decreases |cmds|
  {
    if cmds == [] then es
    else
      var c := cmds[0];
      Run(SetEnv(es, size, c.name, c.args, c.accepted).0, size, cmds[1..])
  }

  /** A call is refused exactly when the variable is defined and may not be changed in this way: the
      write-once ones in no way, the consoles by a deletion or a device that is not accepted, the baud
      rate by one that is not. */
  lemma {:induction false} RefusedExactly(es: seq<string>, size: nat, name: string, args: seq<string>, accepted: bool)
    ensures SetEnv(es, size, name, args, accepted).1 == Refused <==>
      && Lookup(es, KeyOf(name)).Some?
      && (|| name == "serial#" || name == "ethaddr"
          || (name in {"stdin", "stdout", "stderr"} && (args == [] || !accepted))
          || (name == "baudrate" && !accepted))
    ensures SetEnv(es, size, name, args, accepted).1 == Refused ==> SetEnv(es, size, name, args, accepted).0 == es
  {
    hide KeyOf, Image, Assigned, Without;
    assert name in {"stdin", "stdout", "stderr"} <==> name == "stdin" || name == "stdout" || name == "stderr";
  }

  /** A name that denotes the variable `key` without being spelled like it: `key` followed by '='
      and more text.  The search looks at the text before '=', the write protection at all of it. */
  predicate Disguises(name: string, key: string) {
    KeyOf(name) == key && name != key
  }

  /** A protected variable keeps its value through every call with a given name exactly when the
      name does not disguise it. */
  lemma {:induction false} ProtectionHoldsExactlyWithoutDisguise(es: seq<string>, size: nat, name: string, key: string)
    requires ValidEntries(es) && CString(name) && (key == "serial#" || key == "ethaddr") && Lookup(es, key).Some?
    ensures !Disguises(name, key) <==>
      forall args: seq<string>, accepted | CStrings(args) ::
        ValidEntries(SetEnv(es, size, name, args, accepted).0) && Lookup(SetEnv(es, size, name, args, accepted).0, key) == Lookup(es, key)
  {
    if Disguises(name, key) {
      SetEnvIsMapUpdate(es, size, name, [], true);
      NotSpecial(name);
      assert SetEnv(es, size, name, [], true).1 == Deleted;
    } else {
      forall args: seq<string>, accepted | CStrings(args)
        ensures ValidEntries(SetEnv(es, size, name, args, accepted).0)
        ensures Lookup(SetEnv(es, size, name, args, accepted).0, key) == Lookup(es, key)
      {
        SetEnvIsMapUpdate(es, size, name, args, accepted);
      }
    }
  }

  /** Once defined, `serial#` and `ethaddr` keep their value through every sequence of setenv calls
      that use plain names, including overflowing and deleting ones. */
  lemma {:induction false} ProtectedForever(es: seq<string>, size: nat, cmds: seq<Command>, key: string)
    requires ValidEntries(es) && (key == "serial#" || key == "ethaddr") && Lookup(es, key).Some?
    requires forall i :: 0 <= i < |cmds| ==>
      CString(cmds[i].name) && CStrings(cmds[i].args) && !Disguises(cmds[i].name, key)
    ensures ValidEntries(Run(es, size, cmds)) && Lookup(Run(es, size, cmds), key) == Lookup(es, key)
    decreases |cmds|
  {
    if cmds != [] {
      var c := cmds[0];
      ProtectionHoldsExactlyWithoutDisguise(es, size, c.name, key);
      var next := SetEnv(es, size, c.name, c.args, c.accepted).0;
      ProtectedForever(next, size, cmds[1..], key);
    }
  }

  lemma ProtectedNamesArePlain(key: string)
    requires key == "serial#" || key == "ethaddr"
    ensures '=' !in key && CString(key) && KeyOf(key) == key
  {
    var a, b := "serial#", "ethaddr";
    assert forall i :: 0 <= i < |a| ==> a[i] != '=' && a[i] != NUL;
    assert forall i :: 0 <= i < |b| ==> b[i] != '=' && b[i] != NUL;
  }

  /** `setenv serial#=x` without arguments deletes a defined `serial#`, and likewise for `ethaddr`. */
  lemma {:induction false} DisguisedDeletion(key: string, v: string, x: string)
    requires (key == "serial#" || key == "ethaddr") && CString(v)
    ensures var es := [key + "=" + v];
      && ValidEntries(es) && Lookup(es, key) == Some(v)
      && SetEnv(es, 64, key + "=" + x, [], true) == ([], Deleted)
  {
    var es, name := [key + "=" + v], key + "=" + x;
    ProtectedNamesArePlain(key);
    KeyOfAssignment(key, v);
    KeyOfAssignment(key, x);
    assert es[0][|key|] == '=' && name[|key|] == '=';
    FindIsUnique(es, 0, key);
    NotSpecial(name);
    assert Without(es, 0) == [];
  }

  lemma NotSpecial(name: string)
    requires '=' in name
    ensures !Refuses(name, [], true)
  {
  }
}
