/**
 The notations in which sizes and offsets may be written: decimal, octal behind `0`, hexadecimal behind
 `0x`, each with a size letter behind it (simple_strtoul, memsize_parse and part_parse).
 */
module MtdNotation {
  import opened Common
  import opened MtdText
  import opened PartCheck
  import opened MtdParse
  import opened MtdRoundTrip

  /** A digit and whether it is written in upper case. */
  datatype Digit = Digit(value: nat, upper: bool)

  datatype Base = Octal | Decimally | Hexadecimal

  function Radix(base: Base): (r: nat)
    ensures 8 <= r <= 16
  {
    match base
    case Octal => 8
    case Decimally => 10
    case Hexadecimal => 16
  }

  predicate Below(r: nat, ds: seq<Digit>) {
    forall i :: 0 <= i < |ds| ==> ds[i].value < r
  }

  const LOWER: string := "0123456789abcdef"
  const UPPER: string := "0123456789ABCDEF"

  /** Digits of a base; a decimal number does not begin with 0, and only octal needs none behind its
      prefix. */
  ghost predicate ValidDigits(base: Base, ds: seq<Digit>) {
    && Below(Radix(base), ds)
    && (base.Decimally? ==> ds != [] && ds[0].value != 0)
    && (base.Hexadecimal? ==> ds != [])
  }

  function Letter(d: Digit): char
    requires d.value < 16
  {
    if d.upper then UPPER[d.value] else LOWER[d.value]
  }

  function Spelled(ds: seq<Digit>): (s: string)
    requires Below(16, ds)
    ensures |s| == |ds|
  {
    if ds == [] then "" else [Letter(ds[0])] + Spelled(ds[1..])
  }

  function Prefix(base: Base): string {
    match base
    case Octal => "0"
    case Decimally => ""
    case Hexadecimal => "0x"
  }

  /** The number that digits stand for. */
  function Number(r: nat, ds: seq<Digit>): nat {
    if ds == [] then 0 else Number(r, ds[..|ds| - 1]) * r + ds[|ds| - 1].value
  }

  /** What may not follow: a digit of the base, or what would make a lone 0 a hexadecimal prefix. */
  predicate NumberEnds(base: Base, ds: seq<Digit>, tail: string) {
    && (tail != "" && IsXDigit(tail[0]) ==> DigitValue(tail[0]) >= Radix(base))
    && (base.Octal? && ds == [] ==> tail == "" || tail[0] != 'x')
  }

  lemma SpelledDigit(d: Digit)
    requires d.value < 16
    ensures var c := Letter(d); IsXDigit(c) && DigitValue(c) == d.value && (c == '0' <==> d.value == 0)
  {
  }

  /** A number with more digits behind it. */
  function Continued(r: nat, acc: nat, ds: seq<Digit>): nat {
    if ds == [] then acc else Continued(r, acc, ds[..|ds| - 1]) * r + ds[|ds| - 1].value
  }

  lemma {:induction false} ContinuedFront(r: nat, acc: nat, ds: seq<Digit>)
    requires ds != []
    ensures Continued(r, acc, ds) == Continued(r, acc * r + ds[0].value, ds[1..])
    decreases |ds|
  {
    if |ds| == 1 {
      assert ds[..0] == [] && ds[1..] == [];
    } else {
      var front := ds[..|ds| - 1];
      ContinuedFront(r, acc, front);
      assert front[1..] == ds[1..][..|ds| - 2] && front[0] == ds[0];
    }
  }

  lemma {:induction false} ContinuedWraps(r: nat, acc: nat, ds: seq<Digit>)
    requires r == 8 || r == 10 || r == 16
    ensures Continued(r, acc % U32, ds) % U32 == Continued(r, acc, ds) % U32
    decreases |ds|
  {
    if ds != [] {
      var x, y := Continued(r, acc % U32, ds[..|ds| - 1]), Continued(r, acc, ds[..|ds| - 1]);
      ContinuedWraps(r, acc, ds[..|ds| - 1]);
      StepWraps(x, y, r, ds[|ds| - 1].value);
    }
  }

  lemma ContinuedNext(r: nat, acc: nat, ds: seq<Digit>)
    requires (r == 8 || r == 10 || r == 16) && ds != []
    ensures Continued(r, Accumulate(acc, r, ds[0].value), ds[1..]) % U32 == Continued(r, acc, ds) % U32
  {
    hide Continued;
    ContinuedFront(r, acc, ds);
    ContinuedWraps(r, acc * r + ds[0].value, ds[1..]);
  }

  lemma StepWraps(x: nat, y: nat, r: nat, d: nat)
    requires x % U32 == y % U32 && (r == 8 || r == 10 || r == 16)
    ensures (x * r + d) % U32 == (y * r + d) % U32
  {
    var k := x / U32 - y / U32;
    assert x == y + k * U32;
    assert x * r + d == y * r + d + (k * r) * U32;
    AddMultiple(y * r + d, k * r);
  }

  lemma AddMultiple(a: int, k: int)
    requires a + k * U32 >= 0 && a >= 0
    ensures (a + k * U32) % U32 == a % U32
  {
  }

  lemma OneRead(s: string, r: nat, acc: nat)
    requires acc < U32 && s != "" && IsXDigit(s[0]) && DigitValue(s[0]) < r
    ensures ReadDigits(s, r, acc) == ReadDigits(s[1..], r, Accumulate(acc, r, DigitValue(s[0])))
  {
    hide DigitValue, IsXDigit, Accumulate;
  }

  lemma NoneRead(s: string, r: nat, acc: nat)
    requires acc < U32 && (s != "" && IsXDigit(s[0]) ==> DigitValue(s[0]) >= r)
    ensures ReadDigits(s, r, acc) == (acc, s)
  {
    hide DigitValue, IsXDigit;
  }

  lemma {:induction false} DigitsRead(r: nat, ds: seq<Digit>, acc: nat, tail: string)
    requires (r == 8 || r == 10 || r == 16) && acc < U32 && Below(r, ds)
    requires tail != "" && IsXDigit(tail[0]) ==> DigitValue(tail[0]) >= r
    ensures ReadDigits(Spelled(ds) + tail, r, acc) == (Continued(r, acc, ds) % U32, tail)
    decreases |ds|
  {
    if ds == [] {
      assert Spelled(ds) + tail == tail;
      NoneRead(tail, r, acc);
    } else {
      var s := Spelled(ds) + tail;
      SpelledDigit(ds[0]);
      SpelledRest(ds, tail);
      hide Continued, Spelled, Letter, ReadDigits, IsXDigit, DigitValue, Accumulate;
      OneRead(s, r, acc);
      DigitsRead(r, ds[1..], Accumulate(acc, r, ds[0].value), tail);
      ContinuedNext(r, acc, ds);
    }
  }

  lemma SpelledRest(ds: seq<Digit>, tail: string)
    requires ds != [] && Below(16, ds)
    ensures var s := Spelled(ds) + tail;
      s[0] == Letter(ds[0]) && s[1..] == Spelled(ds[1..]) + tail
  {
    hide Letter;
    assert Spelled(ds) == [Letter(ds[0])] + Spelled(ds[1..]);
    Associate([Letter(ds[0])], Spelled(ds[1..]), tail);
  }

  lemma {:induction false} NumberIs(r: nat, ds: seq<Digit>)
    ensures Continued(r, 0, ds) == Number(r, ds)
    decreases |ds|
  {
    if ds != [] { NumberIs(r, ds[..|ds| - 1]); }
  }

  /** A number is read in its base, in 32 bits, up to the first character that does not belong to it. */
  lemma {:induction false} NumberRead(base: Base, ds: seq<Digit>, tail: string)
    requires ValidDigits(base, ds) && NumberEnds(base, ds, tail)
    ensures Strtoul(Prefix(base) + Spelled(ds) + tail) == (Number(Radix(base), ds) % U32, tail)
  {
    var r, more := Radix(base), Spelled(ds) + tail;
    assert r == 8 || r == 10 || r == 16;
    DigitsRead(r, ds, 0, tail);
    NumberIs(r, ds);
    FirstCharacter(base, ds, tail);
    PrefixedText(base, more);
    Associate(Prefix(base), Spelled(ds), tail);
    hide ReadDigits, Spelled, Number, Continued, Letter, NumberEnds, ValidDigits;
  }

  lemma PrefixedText(base: Base, more: string)
    ensures var s := Prefix(base) + more;
      && (base.Octal? ==> s[0] == '0' && s[1..] == more)
      && (base.Decimally? ==> s == more)
      && (base.Hexadecimal? ==> |s| == |more| + 2 && s[0] == '0' && s[1] == 'x' && s[2..] == more)
  {
  }

  lemma FirstCharacter(base: Base, ds: seq<Digit>, tail: string)
    requires ValidDigits(base, ds) && NumberEnds(base, ds, tail) && Radix(base) <= 16
    ensures var more := Spelled(ds) + tail;
      && (base.Octal? ==> !StartsWith(more, 'x'))
      && (base.Decimally? ==> more != "" && more[0] != '0')
      && (base.Hexadecimal? ==> more != "" && IsXDigit(more[0]))
  {
    if ds != [] {
      SpelledDigit(ds[0]);
      SpelledRest(ds, tail);
      assert !IsXDigit('x');
    } else {
      assert Spelled(ds) + tail == tail;
    }
    hide Spelled, Letter, DigitValue;
  }

  // ---- sizes ----

  /** A number and the letter for its unit. */
  datatype Size = Size(base: Base, digits: seq<Digit>, unit: Option<char>)

  const UNITS: string := "gGmMkK"

  ghost predicate ValidSize(z: Size) {
    Below(16, z.digits) && ValidDigits(z.base, z.digits) && (z.unit.Some? ==> z.unit.value in UNITS)
  }

  /** What a unit stands for: kilobytes, megabytes, gigabytes. */
  function Unit(z: Size): nat {
    match z.unit
    case None => 1
    case Some(c) =>
      if c == 'k' || c == 'K' then 1024 else if c == 'm' || c == 'M' then 1024 * 1024 else 1024 * 1024 * 1024
  }

  function UnitText(z: Size): string {
    if z.unit.Some? then [z.unit.value] else ""
  }

  function SizeText(z: Size): string
    requires Below(16, z.digits)
  {
    Prefix(z.base) + Spelled(z.digits) + UnitText(z)
  }

  function SizeValue(z: Size): nat {
    Number(Radix(z.base), z.digits) % U32 * Unit(z) % U32
  }

  predicate SizeEnds(z: Size, tail: string) {
    z.unit.Some? || (NumberEnds(z.base, z.digits, tail) && (tail == "" || tail[0] !in UNITS))
  }

  lemma UnitIsSuffix(c: char)
    ensures c in UNITS <==> Suffix(c) > 1
    ensures c in UNITS ==> !IsXDigit(c) && c != 'x'
    ensures c in UNITS ==> forall base, ds :: Suffix(c) == Unit(Size(base, ds, Some(c)))
  {
  }

  lemma UnitRead(s: string, v: nat, z: Size, tail: string)
    requires ValidSize(z) && SizeEnds(z, tail) && Strtoul(s) == (v, UnitText(z) + tail)
    ensures MemsizeParse(s) == (v * Unit(z) % U32, tail)
  {
    hide Strtoul, ValidDigits, UNITS, Suffix, IsXDigit, NumberEnds;
    if z.unit.Some? {
      UnitIsSuffix(z.unit.value);
      assert (UnitText(z) + tail)[1..] == tail;
    } else {
      assert UnitText(z) + tail == tail;
      if tail != "" { UnitIsSuffix(tail[0]); }
    }
  }

  /** A size in any notation is read back, whatever follows that does not belong to it. */
  lemma {:induction false} SizeRead(z: Size, tail: string)
    requires ValidSize(z) && SizeEnds(z, tail)
    ensures MemsizeParse(SizeText(z) + tail) == (SizeValue(z), tail)
  {
    var number := Prefix(z.base) + Spelled(z.digits);
    Associate(number, UnitText(z), tail);
    hide Spelled, Strtoul, Number, UNITS, ValidDigits, MemsizeParse, SizeEnds, NumberEnds, Unit, UnitText, Radix;
    NumberEndsAtUnit(z, tail);
    NumberRead(z.base, z.digits, UnitText(z) + tail);
    UnitRead(number + (UnitText(z) + tail), Number(Radix(z.base), z.digits) % U32, z, tail);
  }

  lemma NumberEndsAtUnit(z: Size, tail: string)
    requires ValidSize(z) && SizeEnds(z, tail)
    ensures NumberEnds(z.base, z.digits, UnitText(z) + tail)
  {
    if z.unit.Some? {
      UnitIsSuffix(z.unit.value);
    } else {
      assert UnitText(z) + tail == tail;
    }
  }

  // ---- partition definitions ----

  /** A definition as it is written: a size or `-`, an offset, a name, and `ro`. */
  datatype Definition = Definition(size: Option<Size>, offset: Option<Size>, name: Option<string>, ro: bool)

  ghost predicate ValidDefinition(d: Definition) {
    && (d.size.Some? ==> ValidSize(d.size.value)) && (d.offset.Some? ==> ValidSize(d.offset.value))
    && (d.name.Some? ==> d.name.value != "" && ')' !in d.name.value)
  }

  /** What the definition says; a `-` stands for what is left, and a missing offset for the place behind
      the partition before. */
  function Meaning(d: Definition): Part {
    Part(if d.size.Some? then SizeValue(d.size.value) else 0xFFFF_FFFF,
         if d.offset.Some? then SizeValue(d.offset.value) else 0xFFFF_FFFF, d.name, d.ro)
  }

  /** The texts of the size and the offset, and what follows them. */
  function SizePart(d: Definition): string
    requires ValidDefinition(d)
  {
    if d.size.Some? then SizeText(d.size.value) else "-"
  }

  function OffsetPart(d: Definition): string
    requires ValidDefinition(d)
  {
    if d.offset.Some? then "@" + SizeText(d.offset.value) else ""
  }

  function DefinitionText(d: Definition): string
    requires ValidDefinition(d)
  {
    SizePart(d) + OffsetPart(d) + (if d.name.Some? then "(" + d.name.value + ")" else "") + (if d.ro then "ro" else "")
  }

  /** No number or unit goes on with this. */
  predicate Stops(tail: string) {
    tail == "" || (!IsXDigit(tail[0]) && tail[0] != 'x' && tail[0] !in UNITS)
  }

  lemma StopsSize(z: Size, tail: string)
    requires Stops(tail)
    ensures SizeEnds(z, tail)
  {
    hide IsXDigit, UNITS;
  }

  lemma {:induction false} SizePartRead(d: Definition, rest: string)
    requires ValidDefinition(d) && Stops(rest)
    ensures var s := SizePart(d) + rest;
      (if StartsWith(s, '-') then (SIZE_REMAINING, s[1..]) else MemsizeParse(s)) == (Meaning(d).size, rest)
  {
    var s := SizePart(d) + rest;
    if d.size.Some? {
      var z := d.size.value;
      StopsSize(z, rest);
      SizeRead(z, rest);
      hide MemsizeParse, SizeValue, ValidDigits, Spelled, Stops;
      SizeStart(z, rest);
    } else {
      assert s[1..] == rest;
    }
  }

  lemma SizeStart(z: Size, rest: string)
    requires ValidSize(z)
    ensures SizeText(z) + rest != "" && !StartsWith(SizeText(z) + rest, '-')
  {
    if z.base.Decimally? {
      SpelledDigit(z.digits[0]);
      SpelledRest(z.digits, UnitText(z) + rest);
      assert !IsXDigit('-');
    }
  }

  lemma {:induction false} OffsetPartRead(d: Definition, rest: string)
    requires ValidDefinition(d) && Stops(rest) && !StartsWith(rest, '@')
    ensures var s := OffsetPart(d) + rest;
      && Stops(s)
      && (if StartsWith(s, '@') then MemsizeParse(s[1..]) else (OFFSET_NOT_SPECIFIED, s)) == (Meaning(d).offset, rest)
  {
    OffsetTextIs(d, rest);
    if d.offset.Some? {
      var z := d.offset.value;
      hide *;
      StopsSize(z, rest);
      SizeRead(z, rest);
    }
  }

  lemma OffsetTextIs(d: Definition, rest: string)
    requires ValidDefinition(d) && Stops(rest)
    ensures var s := OffsetPart(d) + rest;
      && Stops(s)
      && (if d.offset.Some? then
            ValidSize(d.offset.value) && StartsWith(s, '@') && s[1..] == SizeText(d.offset.value) + rest &&
            Meaning(d).offset == SizeValue(d.offset.value)
          else s == rest && Meaning(d).offset == OFFSET_NOT_SPECIFIED)
  {
    hide SizeText, SizeValue, ValidSize, IsXDigit;
    AtIsNoDigit();
  }

  lemma AtIsNoDigit()
    ensures !IsXDigit('@')
  {
  }

  lemma NameStops(p: Part, rest: string)
    requires Stops(rest) && !StartsWith(rest, '@')
    ensures Stops(NameText(p) + rest) && !StartsWith(NameText(p) + rest, '@')
  {
    assert p.name.None? ==> NameText(p) + rest == rest;
  }

  lemma RoPartRead(p: Part, tail: string)
    requires Stops(tail) && (tail == "" || tail[0] !in "@(r")
    ensures var s := RoText(p) + tail;
      && Stops(s) && (StartsRo(s) <==> p.ro) && (if p.ro then s[2..] else s) == tail
      && !StartsWith(s, '(') && !StartsWith(s, '@')
  {
    if p.ro {
      assert (RoText(p) + tail)[2..] == tail;
    } else {
      assert RoText(p) + tail == tail;
    }
  }

  lemma TextIs(d: Definition, tail: string)
    requires ValidDefinition(d)
    ensures DefinitionText(d) + tail ==
      SizePart(d) + (OffsetPart(d) + (NameText(Meaning(d)) + (RoText(Meaning(d)) + tail)))
  {
    hide SizePart, OffsetPart;
    Associate5(SizePart(d), OffsetPart(d), NameText(Meaning(d)), RoText(Meaning(d)), tail);
    Associate(NameText(Meaning(d)), RoText(Meaning(d)), tail);
    Associate(OffsetPart(d), NameText(Meaning(d)), RoText(Meaning(d)) + tail);
    Associate(SizePart(d), OffsetPart(d), NameText(Meaning(d)) + (RoText(Meaning(d)) + tail));
  }

  /** A definition in any notation is read as it is meant, unless the size is below the minimum, more
      partitions follow one that takes all that is left, or anything else follows than the next
      partition, the next device or the end. */
  lemma {:induction false} DefinitionRead(d: Definition, tail: string)
    requires ValidDefinition(d) && Stops(tail) && (tail == "" || tail[0] !in "@(r")
    ensures var p := Meaning(d);
      ParsePart(DefinitionText(d) + tail) ==
        if p.size < 4096 then None
        else if StartsWith(tail, ',') then (if p.size == 0xFFFF_FFFF then None else Some((p, tail[1..])))
        else if tail == "" || tail[0] == ';' then Some((p, tail))
        else None
  {
    var p := Meaning(d);
    var s4 := RoText(p) + tail;
    var s3 := NameText(p) + s4;
    var s2 := OffsetPart(d) + s3;
    TextIs(d, tail);
    RoPartRead(p, tail);
    NameRead(p, s4);
    NameStops(p, s4);
    OffsetPartRead(d, s3);
    SizePartRead(d, s2);
    hide MemsizeParse, ParseName, SizePart, OffsetPart, Meaning, DefinitionText, ValidDefinition, RoText, NameText, Stops;
  }

  /** An empty name, or one without its closing parenthesis, is refused. */
  lemma {:induction false} BadNameRefused(d: Definition, name: string)
    requires ValidDefinition(d) && (')' !in name || name[0] == ')')
    ensures ParsePart(SizePart(d) + (OffsetPart(d) + ("(" + name))) == None
  {
    var s3 := "(" + name;
    assert s3[1..] == name;
    BadName(s3);
    OffsetPartRead(d, s3);
    SizePartRead(d, OffsetPart(d) + s3);
    hide MemsizeParse, ParseName, SizePart, OffsetPart, Meaning, ValidDefinition, Stops;
  }

  lemma BadName(s: string)
    requires StartsWith(s, '(') && (')' !in s[1..] || s[1] == ')')
    ensures ParseName(s) == NameError
  {
    var u := s[1..];
    var k := IndexOf(u, ')');
    assert k < |u| ==> u[k] in u;
    if |u| > 0 && u[0] == ')' { assert k == 0; }
  }
}
