/**
 Numbers in partition descriptions (simple_strtoul, memsize_parse and memsize_format).  Texts are
 C strings without their NUL: the end of the text is where the NUL is.  Numbers are unsigned and
 32 bits wide.
 */
module MtdText {
  import opened Common

  predicate IsDigit(c: char) { '0' <= c <= '9' }

  predicate IsXDigit(c: char) { IsDigit(c) || 'a' <= c <= 'f' || 'A' <= c <= 'F' }

  function DigitValue(c: char): (v: nat)
    requires IsXDigit(c)
    ensures v < 16 && (v < 10 <==> IsDigit(c))
  {
    if IsDigit(c) then (c - '0') as nat
    else if 'a' <= c <= 'f' then (c - 'a') as nat + 10
    else (c - 'A') as nat + 10
  }

  predicate StartsWith(s: string, c: char) {
    s != "" && s[0] == c
  }

  /** A number with one more digit, in 32 bits. */
  function Accumulate(acc: nat, base: nat, d: nat): (r: nat)
    ensures r < U32
  {
    (acc * base + d) % U32
  }

  lemma AccumulateFirst(base: nat, d: nat)
    requires d < U32
    ensures Accumulate(0, base, d) == d
  {
  }

  /** The digits at the start of the text, and the text behind them. */
  function ReadDigits(s: string, base: nat, acc: nat): (r: (nat, string))
    requires acc < U32
    ensures r.0 < U32 && |r.1| <= |s|
    ensures |r.1| == |s| ==> r == (acc, s)
    decreases |s|
  {
    if s != "" && IsXDigit(s[0]) && DigitValue(s[0]) < base
    then ReadDigits(s[1..], base, Accumulate(acc, base, DigitValue(s[0])))
    else (acc, s)
  }

  /** A number in the C notation: hexadecimal behind "0x", octal behind "0", else decimal. */
  function Strtoul(s: string): (r: (nat, string))
    ensures r.0 < U32 && |r.1| <= |s|
    ensures r.1 == s ==> r.0 == 0
  {
    if StartsWith(s, '0') then
      if |s| >= 3 && s[1] == 'x' && IsXDigit(s[2]) then ReadDigits(s[2..], 16, 0)
      else ReadDigits(s[1..], 8, 0)
    else ReadDigits(s, 10, 0)
  }

  /** The factor a suffix letter stands for, 1 for any other character. */
  function Suffix(c: char): nat {
    match c
    case 'G' => 0x4000_0000
    case 'g' => 0x4000_0000
    case 'M' => 0x10_0000
    case 'm' => 0x10_0000
    case 'K' => 0x400
    case 'k' => 0x400
    case _ => 1
  }

  function MemsizeParse(s: string): (r: (nat, string))
    ensures r.0 < U32 && |r.1| <= |s|
    ensures r.0 != 0 ==> |r.1| < |s|
  {
    var (v, rest) := Strtoul(s);
    if rest != "" && Suffix(rest[0]) > 1 then (v * Suffix(rest[0]) % U32, rest[1..]) else (v, rest)
  }

  function DigitChar(d: nat): (c: char)
    requires d < 10
    ensures IsDigit(c) && DigitValue(c) == d
  {
    '0' + d as char
  }

  /** The decimal notation of a number. */
  function Decimal(n: nat): (s: string)
    ensures |s| > 0 && forall i :: 0 <= i < |s| ==> IsDigit(s[i])
  {
    if n < 10 then [DigitChar(n)] else Decimal(n / 10) + [DigitChar(n % 10)]
  }

  function MemsizeFormat(size: nat): string {
    if size % 0x4000_0000 == 0 then Decimal(size / 0x4000_0000) + "g"
    else if size % 0x10_0000 == 0 then Decimal(size / 0x10_0000) + "m"
    else if size % 0x400 == 0 then Decimal(size / 0x400) + "k"
    else Decimal(size)
  }

  /** The text does not go on with a digit or a size suffix. */
  predicate Delimited(s: string) {
    s == "" || (!IsDigit(s[0]) && Suffix(s[0]) == 1)
  }

  predicate NoDigit(s: string) {
    s == "" || !IsDigit(s[0])
  }

  lemma {:induction false} DigitsThenMore(a: string, c: char, tail: string, acc: nat)
    requires acc < U32 && IsDigit(c) && forall i :: 0 <= i < |a| ==> IsDigit(a[i])
    requires ReadDigits(a, 10, acc) == (ReadDigits(a, 10, acc).0, "")
    ensures ReadDigits(a + [c] + tail, 10, acc) ==
      ReadDigits(tail, 10, (ReadDigits(a, 10, acc).0 * 10 + DigitValue(c)) % U32)
    decreases |a|
  {
    var s := a + [c] + tail;
    if a == "" {
      assert s[0] == c && s[1..] == tail;
    } else {
      DigitsThenMore(a[1..], c, tail, (acc * 10 + DigitValue(a[0])) % U32);
      assert s[0] == a[0] && s[1..] == a[1..] + [c] + tail;
    }
  }

  lemma {:induction false} OneMoreDigit(a: string, m: nat, d: nat, tail: string)
    requires d < 10 && m * 10 + d < U32 && ReadDigits(a, 10, 0) == (m, "")
    requires forall i :: 0 <= i < |a| ==> IsDigit(a[i])
    ensures ReadDigits(a + [DigitChar(d)] + tail, 10, 0) == ReadDigits(tail, 10, m * 10 + d)
  {
    hide ReadDigits;
    DigitsThenMore(a, DigitChar(d), tail, 0);
  }

  lemma {:induction false} OneDigit(d: nat, tail: string)
    requires d < 10
    ensures ReadDigits([DigitChar(d)] + tail, 10, 0) == ReadDigits(tail, 10, d)
  {
    assert ([DigitChar(d)] + tail)[1..] == tail;
  }

  /** Reading a decimal number yields the number. */
  lemma {:induction false} DecimalRead(n: nat, tail: string)
    requires n < U32
    ensures ReadDigits(Decimal(n) + tail, 10, 0) == ReadDigits(tail, 10, n)
    decreases n
  {
    if n < 10 {
      OneDigit(n, tail);
    } else {
      var a, m, d := Decimal(n / 10), n / 10, n % 10;
      assert ReadDigits(a, 10, 0) == (m, "") by {
        DecimalRead(m, "");
        assert a + "" == a;
      }
      DecimalStep(n, m, d);
      OneMoreDigit(a, m, d, tail);
    }
  }

  lemma DecimalStep(n: nat, m: nat, d: nat)
    requires n >= 10 && m == n / 10 && d == n % 10
    ensures n == m * 10 + d && Decimal(n) == Decimal(m) + [DigitChar(d)]
  {
  }

  lemma {:induction false} DecimalStart(n: nat)
    ensures Decimal(n)[0] == '0' ==> n == 0
  {
    if n >= 10 { DecimalStart(n / 10); }
  }

  lemma {:induction false} StrtoulDecimal(n: nat, tail: string)
    requires n < U32 && NoDigit(tail) && (n == 0 ==> tail == "" || tail[0] != 'x')
    ensures Strtoul(Decimal(n) + tail) == (n, tail)
  {
    var s := Decimal(n) + tail;
    DecimalRead(n, tail);
    DecimalStart(n);
    assert s[0] == Decimal(n)[0];
    if n == 0 {
      assert s[1..] == tail;
      assert DigitChar(0) == '0';
    } else {
      assert s[0] != '0';
    }
  }

  /** memsize_parse undoes memsize_format, whatever follows the number. */
  lemma {:induction false} MemsizeRoundTrip(size: nat, tail: string)
    requires size < U32 && Delimited(tail)
    ensures MemsizeParse(MemsizeFormat(size) + tail) == (size, tail)
  {
    if size % 0x4000_0000 == 0 {
      SuffixRoundTrip(size / 0x4000_0000, 'g', tail);
    } else if size % 0x10_0000 == 0 {
      SuffixRoundTrip(size / 0x10_0000, 'm', tail);
    } else if size % 0x400 == 0 {
      SuffixRoundTrip(size / 0x400, 'k', tail);
    } else {
      StrtoulDecimal(size, tail);
    }
  }

  lemma {:induction false} SuffixRoundTrip(n: nat, c: char, tail: string)
    requires Suffix(c) > 1 && n * Suffix(c) < U32
    ensures MemsizeParse(Decimal(n) + [c] + tail) == (n * Suffix(c), tail)
  {
    assert n < U32;
    var t := [c] + tail;
    assert Decimal(n) + [c] + tail == Decimal(n) + t;
    assert !IsDigit(c);
    StrtoulDecimal(n, t);
    assert t[1..] == tail;
  }
}
