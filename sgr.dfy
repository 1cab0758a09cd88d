/**
 * The control sequences the program writes: Select Graphic Rendition (SGR,
 * ECMA-48 section 8.3.117) introduced by the Control Sequence Introducer
 * ESC '[', with the 24-bit direct-colour parameters `38;2;r;g;b`
 * (foreground) or `48;2;r;g;b` (background), and the plain white foreground
 * `37`. Numbers are written as `printf("%d")` writes a non-negative int.
 *
 * ParseSetColor reads a colour sequence back; the round-trip lemma shows the
 * emitted bytes carry exactly the mode and channels they were built from.
 */
module Sgr {
  import opened Wrappers

  /** The escape character, 0x1B. */
  const Esc: char := 27 as char

  /** Control Sequence Introducer: ESC '['. */
  const Csi: string := [Esc, '[']

  /** Final character of Select Graphic Rendition. */
  const SgrFinal: string := "m"

  /** SGR parameter selecting the standard white foreground. */
  const SetWhiteForegroundParam: string := "37"

  /** SGR parameters introducing a 24-bit foreground or background colour. */
  const Set24BitForeground: nat := 38
  const Set24BitBackground: nat := 48

  predicate IsDigit(c: char) {
    '0' <= c <= '9'
  }

  predicate AllDigits(s: string) {
    forall i :: 0 <= i < |s| ==> IsDigit(s[i])
  }

  function DigitChar(d: nat): (c: char)
    requires d < 10
    ensures IsDigit(c) && c as int - '0' as int == d
  {
    ('0' as int + d) as char
  }

  /** `%d` of a non-negative int: decimal digits, no sign, no padding, no leading zero. */
  function Decimal(n: nat): (s: string)
    ensures |s| >= 1 && AllDigits(s)
    ensures s[0] == '0' ==> n == 0
    ensures |s| == 1 <==> n < 10
    decreases n
  {
    if n < 10 then [DigitChar(n)] else Decimal(n / 10) + [DigitChar(n % 10)]
  }

  /** The number a string of decimal digits denotes, most significant first. */
  function DigitsValue(s: string): (v: nat)
    requires AllDigits(s)
    decreases |s|
  {
    if s == [] then 0 else 10 * DigitsValue(s[..|s| - 1]) + (s[|s| - 1] as int - '0' as int)
  }

  /** Reading the decimal rendering of n gives n back. */
  lemma {:induction false} DecimalRoundTrip(n: nat)
    ensures DigitsValue(Decimal(n)) == n
    decreases n
  {
    if n >= 10 {
      DecimalRoundTrip(n / 10);
      var s := Decimal(n);
      assert s[..|s| - 1] == Decimal(n / 10);
    }
  }

  /** Length of the run of digits at the start of s. */
  function DigitRun(s: string): (k: nat)
    ensures k <= |s| && AllDigits(s[..k])
    ensures k < |s| ==> !IsDigit(s[k])
  {
    if s != [] && IsDigit(s[0]) then 1 + DigitRun(s[1..]) else 0
  }

  /** A run of digits followed by a non-digit (or nothing) is read to its end. */
  lemma {:induction false} DigitRunOfDigits(a: string, rest: string)
    requires AllDigits(a)
    requires rest == [] || !IsDigit(rest[0])
    ensures DigitRun(a + rest) == |a|
    decreases |a|
  {
    if a == [] {
      assert a + rest == rest;
    } else {
      assert (a + rest)[1..] == a[1..] + rest;
      DigitRunOfDigits(a[1..], rest);
    }
  }

  /** Reads a maximal, non-empty run of digits as a decimal number. */
  function ReadNumber(s: string): (r: Option<(nat, string)>)
    ensures r.Some? <==> s != [] && IsDigit(s[0])
    ensures r.Some? ==> |r.value.1| < |s|
  {
    var k := DigitRun(s);
    if k == 0 then None else Some((DigitsValue(s[..k]), s[k..]))
  }

  /** The decimal rendering of n, then a non-digit, reads back as n. */
  lemma ReadDecimal(n: nat, rest: string)
    requires rest == [] || !IsDigit(rest[0])
    ensures ReadNumber(Decimal(n) + rest) == Some((n, rest))
  {
    var d := Decimal(n);
    var s := d + rest;
    DigitRunOfDigits(d, rest);
    assert s[..|d|] == d;
    assert s[|d|..] == rest;
    DecimalRoundTrip(n);
  }

  /** Strips a literal prefix. */
  function Expect(prefix: string, s: string): (r: Option<string>)
    ensures r.Some? <==> prefix <= s
    ensures r.Some? ==> s == prefix + r.value
  {
    if prefix <= s then Some(s[|prefix|..]) else None
  }

  lemma ExpectPrefix(prefix: string, rest: string)
    ensures Expect(prefix, prefix + rest) == Some(rest)
  {
  }

  /**
   * The shape of one SGR control sequence: the CSI, a parameter string of
   * digits and semicolons, and the final character 'm'.
   */
  predicate IsSgrSequence(s: string) {
    && |s| >= 3
    && s[..2] == Csi
    && s[|s| - 1] == 'm'
    && forall i :: 2 <= i < |s| - 1 ==> IsDigit(s[i]) || s[i] == ';'
  }

  /** The 24-bit colour sequence `ESC [ mode ;2; r ; g ; b m`. */
  function SetColor(mode: nat, r: nat, g: nat, b: nat): (s: string)
    ensures IsSgrSequence(s)
  {
    Csi + Decimal(mode) + ";2;" + Decimal(r) + ";" + Decimal(g) + ";" + Decimal(b) + SgrFinal
  }

  /** `ESC [ 37 m`: white foreground. */
  function SetWhiteForeground(): (s: string)
    ensures IsSgrSequence(s)
  {
    Csi + SetWhiteForegroundParam + SgrFinal
  }

  /** The parameters of one 24-bit colour sequence. */
  datatype ColorSetting = ColorSetting(mode: nat, r: nat, g: nat, b: nat)

  /** Reads one 24-bit colour sequence from the front of s, returning what follows it. */
  function ParseSetColor(s: string): (p: Option<(ColorSetting, string)>)
  {
    var s1 :- Expect(Csi, s);
    var mode :- ReadNumber(s1);
    var s2 :- Expect(";2;", mode.1);
    var r :- ReadNumber(s2);
    var s3 :- Expect(";", r.1);
    var g :- ReadNumber(s3);
    var s4 :- Expect(";", g.1);
    var b :- ReadNumber(s4);
    var s5 :- Expect(SgrFinal, b.1);
    Some((ColorSetting(mode.0, r.0, g.0, b.0), s5))
  }

  /** A colour sequence, whatever follows it, reads back as its own mode and channels. */
  lemma SetColorRoundTrip(mode: nat, r: nat, g: nat, b: nat, rest: string)
    ensures ParseSetColor(SetColor(mode, r, g, b) + rest) == Some((ColorSetting(mode, r, g, b), rest))
  {
    var t5 := SgrFinal + rest;
    var t4 := Decimal(b) + t5;
    var t3 := ";" + t4;
    var t2 := Decimal(g) + t3;
    var t1 := ";" + t2;
    var t0 := Decimal(r) + t1;
    var u := ";2;" + t0;
    var v := Decimal(mode) + u;
    SetColorShape(mode, r, g, b, rest);
    ExpectPrefix(Csi, v);
    ReadDecimal(mode, u);
    ExpectPrefix(";2;", t0);
    ReadDecimal(r, t1);
    ExpectPrefix(";", t2);
    ReadDecimal(g, t3);
    ExpectPrefix(";", t4);
    ReadDecimal(b, t5);
    ExpectPrefix(SgrFinal, rest);
  }

  lemma SetColorShape(mode: nat, r: nat, g: nat, b: nat, rest: string)
    ensures SetColor(mode, r, g, b) + rest
         == Csi + (Decimal(mode) + (";2;" + (Decimal(r) + (";" + (Decimal(g) + (";" + (Decimal(b) + (SgrFinal + rest))))))))
  {
    Reassociate(Csi, Decimal(mode), ";2;", Decimal(r), ";", Decimal(g), ";", Decimal(b), SgrFinal, rest);
  }

  lemma Reassociate(a: string, b: string, c: string, d: string, e: string, f: string, g: string, h: string, i: string, rest: string)
    ensures a + b + c + d + e + f + g + h + i + rest == a + (b + (c + (d + (e + (f + (g + (h + (i + rest))))))))
  {
  }

  /** Distinct parameters give distinct colour sequences. */
  lemma SetColorInjective(m: nat, r: nat, g: nat, b: nat, m': nat, r': nat, g': nat, b': nat)
    requires SetColor(m, r, g, b) == SetColor(m', r', g', b')
    ensures m == m' && r == r' && g == g' && b == b'
  {
    SetColorRoundTrip(m, r, g, b, []);
    SetColorRoundTrip(m', r', g', b', []);
    assert SetColor(m, r, g, b) + [] == SetColor(m', r', g', b') + [];
  }
}
