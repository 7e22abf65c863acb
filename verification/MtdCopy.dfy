/**
 The copy of the text in `mtdparts` that is made when the table is read anew (mtdparts_init).  It is
 taken from the address that the variable had before the devices were forgotten, and forgetting them
 deletes three other variables, which moves the text if they stood before it.
 */
module MtdCopy {
  import opened Common
  import opened EnvBytes
  import opened MtdEnv
  import EnvMap
  import EnvSpec

  /** What strncpy leaves of a string in a buffer of n characters. */
  function Cut(s: string, n: nat): string {
    if |s| <= n then s else s[..n]
  }

  /** The environment once the devices were forgotten. */
  function Forgotten(env: Env): Env {
    Unset(Unset(Unset(env, PARTITION), DEVNUM), DEVNAME)
  }

  /** The copy: what then lies where the text was before. */
  function CopyOf(env: Env): string {
    Cut(StringAt(Forgotten(env).data, ValueIndex(env.entries, PARTS)), MTDPARTS_MAXLEN)
  }

  /** None of the three variables stands before the text. */
  predicate InPlace(es: seq<string>) {
    !Before(es, PARTITION, PARTS) && !Before(es, DEVNUM, PARTS) && !Before(es, DEVNAME, PARTS)
  }

  /** The bytes of those that do. */
  function Shift(es: seq<string>): nat {
    Room(es, PARTITION, PARTS) + Room(es, DEVNUM, PARTS) + Room(es, DEVNAME, PARTS)
  }

  /** Forgetting the devices moves the text, unchanged, down by that many bytes. */
  lemma {:induction false} ForgettingMoves(env: Env)
    requires EnvOk(env) && Get(env, PARTS).Some?
    ensures EnvOk(Forgotten(env)) && Get(Forgotten(env), PARTS) == Get(env, PARTS)
    ensures ValueIndex(Forgotten(env).entries, PARTS) + Shift(env.entries) == ValueIndex(env.entries, PARTS)
  {
    NamesArePlain();
    hide *;
    var e1 := Unset(env, PARTITION);
    var e2 := Unset(e1, DEVNUM);
    UnsetMoves(env, PARTITION, PARTS, DEVNUM);
    UnsetMoves(env, PARTITION, PARTS, DEVNAME);
    UnsetMoves(e1, DEVNUM, PARTS, DEVNAME);
    UnsetMoves(e2, DEVNAME, PARTS, PARTITION);
    ForgottenIs(env);
  }

  lemma ForgottenIs(env: Env)
    ensures Forgotten(env) == Unset(Unset(Unset(env, PARTITION), DEVNUM), DEVNAME)
    ensures Shift(env.entries) ==
      Room(env.entries, PARTITION, PARTS) + Room(env.entries, DEVNUM, PARTS) + Room(env.entries, DEVNAME, PARTS)
  {
  }

  /** The string that the copy is made of, from the definitions alone: what the last deletion that
      reaches the address puts there. */
  function CopySource(env: Env, text: string): string {
    var p := ValueIndex(env.entries, PARTS);
    var e1 := Unset(env, PARTITION);
    var e2 := Unset(e1, DEVNUM);
    Seen(Forgotten(env).entries, p, Seen(e2.entries, p, Seen(e1.entries, p, text)))
  }

  /** What the copy holds, for texts of any length. */
  lemma {:induction false} CopyExactly(env: Env, text: string)
    requires EnvOk(env) && Get(env, PARTS) == Some(text)
    ensures CopyOf(env) == Cut(CopySource(env, text), MTDPARTS_MAXLEN)
  {
    NamesArePlain();
    hide EnvOk, Get, ValueIndex, StringAt, Seen, Unset, Plain;
    var p, e1 := ValueIndex(env.entries, PARTS), Unset(env, PARTITION);
    var e2 := Unset(e1, DEVNUM);
    ValueAt(env, PARTS, 0);
    assert text[0..] == text;
    UnsetShows(env, PARTITION, p);
    UnsetShows(e1, DEVNUM, p);
    UnsetShows(e2, DEVNAME, p);
  }

  /** The copy is the text exactly when the string at the text's old address is.  For a text no shorter
      than the move that is the end of the text behind as many characters as it was moved by; so the
      copy is right exactly when none of the three variables stood before it. */
  lemma {:induction false} StaleCopyExactly(env: Env, text: string)
    requires EnvOk(env) && Get(env, PARTS) == Some(text) && |text| < MTDPARTS_MAXLEN
    ensures Get(Forgotten(env), PARTS) == Some(text)
    ensures CopyOf(env) == text <==> CopySource(env, text) == text
    ensures var s := Shift(env.entries);
      && (s == 0 <==> InPlace(env.entries))
      && (s <= |text| ==> CopyOf(env) == text[s..] && (CopyOf(env) == text <==> InPlace(env.entries)))
  {
    hide *;
    ForgettingMoves(env);
    NothingMoved(env.entries);
    CopyExactly(env, text);
    CutIs(CopySource(env, text), text);
    var s := Shift(env.entries);
    if s <= |text| {
      ValueAt(Forgotten(env), PARTS, s);
      CutWhole(env, text, s);
    }
  }

  lemma NothingMoved(es: seq<string>)
    ensures Shift(es) == 0 <==> InPlace(es)
  {
  }

  lemma CutWhole(env: Env, text: string, s: nat)
    requires s <= |text| < MTDPARTS_MAXLEN
    requires StringAt(Forgotten(env).data, ValueIndex(env.entries, PARTS)) == text[s..]
    ensures CopyOf(env) == text[s..] && (text[s..] == text <==> s == 0)
  {
    hide StringAt, Forgotten, ValueIndex;
  }

  lemma CutIs(c: string, text: string)
    requires |text| < MTDPARTS_MAXLEN
    ensures Cut(c, MTDPARTS_MAXLEN) == text <==> c == text
  {
  }

  /** The room of the first of the three variables that is deleted in front of the text. */
  function FirstRoom(es: seq<string>): nat {
    if Room(es, PARTITION, PARTS) > 0 then Room(es, PARTITION, PARTS)
    else if Room(es, DEVNUM, PARTS) > 0 then Room(es, DEVNUM, PARTS)
    else Room(es, DEVNAME, PARTS)
  }

  predicate TextIsLast(es: seq<string>) {
    EnvSpec.Find(es, PARTS) >= 0 && EnvSpec.Find(es, PARTS) == |es| - 1
  }

  lemma {:induction false} UnsetKeepsLast(e: Env, name: string)
    requires EnvOk(e) && Plain(name) && name != PARTS && TextIsLast(e.entries)
    ensures EnvOk(Unset(e, name)) && TextIsLast(Unset(e, name).entries)
  {
    UnsetIs(e, name);
    PutOk(e, name, [], true);
    var j := EnvSpec.Find(e.entries, name);
    if j >= 0 { WithoutMoves(e.entries, j, PARTS); }
    hide Put, Plain, EnvSpec.KeyOf, EnvSpec.Find;
  }

  /** A text behind all other definitions, as it is after it was set, is copied right exactly when none
      of the three variables is defined, or the one deleted first takes more room than the text. */
  lemma {:induction false} LastTextExactly(env: Env, text: string)
    requires EnvOk(env) && Get(env, PARTS) == Some(text) && 0 < |text| < MTDPARTS_MAXLEN && TextIsLast(env.entries)
    ensures CopyOf(env) == text <==> InPlace(env.entries) || FirstRoom(env.entries) >= |text| + 2
  {
    NamesArePlain();
    hide *;
    CopyExactly(env, text);
    NothingMoved(env.entries);
    var p, e1 := ValueIndex(env.entries, PARTS), Unset(env, PARTITION);
    var e2 := Unset(e1, DEVNUM);
    var e3 := Unset(e2, DEVNAME);
    UnsetMoves(env, PARTITION, PARTS, DEVNUM);
    UnsetMoves(env, PARTITION, PARTS, DEVNAME);
    UnsetMoves(e1, DEVNUM, PARTS, DEVNAME);
    UnsetMoves(e2, DEVNAME, PARTS, PARTITION);
    UnsetKeepsLast(env, PARTITION);
    UnsetKeepsLast(e1, DEVNUM);
    UnsetKeepsLast(e2, DEVNAME);
    Rooms(env.entries);
    var r1, r2, r3 := Room(env.entries, PARTITION, PARTS), Room(env.entries, DEVNUM, PARTS), Room(env.entries, DEVNAME, PARTS);
    var c1 := SeenLast(e1, text, p, r1, text);
    var c2 := SeenLast(e2, text, p, r1 + r2, c1);
    var c3 := SeenLast(e3, text, p, r1 + r2 + r3, c2);
    SourceIs(env, text);
    CutIs(c3, text);
  }

  lemma Rooms(es: seq<string>)
    ensures var r1, r2, r3 := Room(es, PARTITION, PARTS), Room(es, DEVNUM, PARTS), Room(es, DEVNAME, PARTS);
      Shift(es) == r1 + r2 + r3 && FirstRoom(es) == if r1 > 0 then r1 else if r2 > 0 then r2 else r3
  {
  }

  lemma SourceIs(env: Env, text: string)
    ensures var p, e1 := ValueIndex(env.entries, PARTS), Unset(env, PARTITION);
      var e2 := Unset(e1, DEVNUM);
      CopySource(env, text) ==
        Seen(Unset(e2, DEVNAME).entries, p, Seen(e2.entries, p, Seen(e1.entries, p, text)))
  {
  }

  lemma {:induction false} SeenLast(e: Env, text: string, p: nat, o: nat, before: string) returns (c: string)
    requires EnvOk(e) && Get(e, PARTS) == Some(text) && TextIsLast(e.entries) && text != ""
    requires p == ValueIndex(e.entries, PARTS) + o
    ensures c == Seen(e.entries, p, before)
    ensures if o <= |text| + 1 then c == text <==> o == 0 else c == before
  {
    c := Seen(e.entries, p, before);
    hide Seen, ValueIndex;
    SeenAtEnd(e.entries, PARTS, o, before);
  }

  /** Two definitions, the first of which is deleted: the bytes behind the second one stay. */
  lemma {:induction false} FirstDeleted(first: string, second: string, data: string)
    requires EnvOk(Env([first, second], data)) && EnvSpec.KeyOf(first) == PARTITION && EnvSpec.KeyOf(second) == PARTS
    ensures var es := [first, second];
      EnvSpec.Find(es, PARTITION) == 0 && EnvSpec.Find(es, PARTS) == 1 && ValueIndex(es, PARTS) == |first| + 10
    ensures Get(Env([first, second], data), PARTS) == Some(EnvSpec.ValueOf(second))
    ensures Forgotten(Env([first, second], data)) == Env([second], Over(data, [second]))
    ensures Before([first, second], PARTITION, PARTS) && |EnvSpec.Image([second])| == |second| + 2
  {
    var es := [first, second];
    NamesArePlain();
    hide EnvSpec.KeyOf, Over, Plain;
    EnvMap.FindIsUnique(es, 0, PARTITION);
    EnvMap.FindIsUnique(es, 1, PARTS);
    assert EnvSpec.Without(es, 0) == [second] && es[..1] == [first];
    assert EnvSpec.Pack([first]) == first + [EnvSpec.NUL] && EnvSpec.Pack([second]) == second + [EnvSpec.NUL];
    UnsetIs(Env(es, data), PARTITION);
    PutOk(Env(es, data), PARTITION, [], true);
    var e1 := Env([second], Over(data, [second]));
    assert EnvSpec.Find([second], DEVNUM) < 0 && EnvSpec.Find([second], DEVNAME) < 0;
    UnsetIs(e1, DEVNUM);
    UnsetIs(e1, DEVNAME);
  }

  /** A short text behind a longer `partition` escapes: at its old address, behind all that was moved,
      its bytes are still there. */
  lemma {:induction false} ShortTextSurvives(v: string, text: string, data: string)
    requires EnvOk(Env([PARTITION + "=" + v, PARTS + "=" + text], data))
    requires |text| <= |v| + 9 && |text| < MTDPARTS_MAXLEN
    ensures var env := Env([PARTITION + "=" + v, PARTS + "=" + text], data);
      !InPlace(env.entries) && Get(env, PARTS) == Some(text) && CopyOf(env) == text
  {
    var first, second := PARTITION + "=" + v, PARTS + "=" + text;
    var env := Env([first, second], data);
    hide *;
    Definitions(v, text);
    FirstDeleted(first, second, data);
    ValueAt(env, PARTS, 0);
    SomeBefore(env.entries);
    assert text[0..] == text;
    Survives(env, second, text, ValueIndex(env.entries, PARTS));
  }

  lemma Definitions(v: string, text: string)
    ensures var first, second := PARTITION + "=" + v, PARTS + "=" + text;
      && |first| == |v| + 10 && |second| == |text| + 9
      && EnvSpec.KeyOf(first) == PARTITION && EnvSpec.KeyOf(second) == PARTS && EnvSpec.ValueOf(second) == text
  {
    NamesArePlain();
    EnvMap.KeyOfAssignment(PARTITION, v);
    EnvMap.KeyOfAssignment(PARTS, text);
  }

  lemma SomeBefore(es: seq<string>)
    requires Before(es, PARTITION, PARTS)
    ensures !InPlace(es)
  {
  }

  lemma Survives(env: Env, second: string, text: string, p: nat)
    requires Forgotten(env) == Env([second], Over(env.data, [second])) && p == ValueIndex(env.entries, PARTS)
    requires |EnvSpec.Image([second])| <= p && StringAt(env.data, p) == text && |text| < MTDPARTS_MAXLEN
    ensures CopyOf(env) == text
  {
    hide ValueIndex, Forgotten, EnvSpec.Image;
    if p <= |env.data| { assert Over(env.data, [second])[p..] == env.data[p..]; }
  }
}
