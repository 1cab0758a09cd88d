/**
 * What `main` does once the hash line is in its buffer: the length check,
 * decoding of the three channels followed by one check of the aggregate error
 * flag, the choice of 24-bit foreground or background mode, the control
 * sequences written, and the exit status.
 *
 * The buffer is a sequence of characters, each standing for one byte of the
 * C buffer; running `git rev-parse HEAD` and reading its line are not modelled.
 */
module StatusColor {
  import opened Wrappers
  import opened HexDecoder
  import opened Brightness
  import opened Sgr

  /** Length of a SHA-1 hash written in hex. */
  const Sha1HexLength: nat := 40

  /** Size of the line buffer: 40 hex digits plus `sizeof("\n")`, the newline and the NUL. */
  const ExpectedOutputLength: nat := Sha1HexLength + 2

  /** The process exit codes, with their usual C library values. */
  const ExitSuccess: int := 0
  const ExitFailure: int := 1

  /** The C string terminator. */
  const Nul: char := 0 as char

  /**
   * `strnlen`: the number of characters before the first NUL, but at most
   * maxlen; the end of the sequence reads as a NUL.
   */
  function StrNLen(s: seq<char>, maxlen: nat): (n: nat)
    ensures n <= maxlen && n <= |s|
    ensures forall i :: 0 <= i < n ==> s[i] != Nul
    ensures n < maxlen && n < |s| ==> s[n] == Nul
  {
    if maxlen == 0 || s == [] || s[0] == Nul then 0 else 1 + StrNLen(s[1..], maxlen - 1)
  }

  /** A colour of three 8-bit channels. */
  datatype Color = Color(r: Byte, g: Byte, b: Byte)

  /** The six characters that carry the colour are all lowercase hex digits. */
  predicate HexColorPrefix(buffer: seq<char>)
    requires |buffer| >= 6
  {
    forall i :: 0 <= i < 6 ==> IsLowerHex(buffer[i])
  }

  /**
   * The colour a hash line denotes: red, green and blue are the hex pairs at
   * offsets 0, 2 and 4. No colour when fewer than 40 characters come before
   * a NUL, or when any of the first six characters is not a lowercase hex digit.
   */
  function DecodeColor(buffer: seq<char>): (r: Option<Color>)
    ensures r.Some? ==> |buffer| >= 6
    ensures r.Some? ==> HexOctet(r.value.r) + HexOctet(r.value.g) + HexOctet(r.value.b) == buffer[..6]
  {
    if StrNLen(buffer, ExpectedOutputLength) < Sha1HexLength then None
    else if !HexColorPrefix(buffer) then None
    else
      OctetValueCanonical(buffer[0], buffer[1]);
      OctetValueCanonical(buffer[2], buffer[3]);
      OctetValueCanonical(buffer[4], buffer[5]);
      Some(Color(OctetValue(buffer[0], buffer[1]),
                 OctetValue(buffer[2], buffer[3]),
                 OctetValue(buffer[4], buffer[5])))
  }

  /**
   * The SGR colour mode chosen by `main`: 38 (foreground) when the weighted
   * channel sum reaches 128000, 48 (background) otherwise.
   */
  function Mode(c: Color): (m: nat)
    ensures m == Set24BitForeground <==> 299 * c.r + 587 * c.g + 114 * c.b >= 128000
    ensures m == Set24BitBackground <==> 299 * c.r + 587 * c.g + 114 * c.b < 128000
  {
    if LightOrDark(c.r, c.g, c.b) == Light then Set24BitForeground else Set24BitBackground
  }

  /**
   * Everything written for a colour: its 24-bit colour sequence, then, in
   * background mode only, the white foreground so that text stays readable.
   */
  function Directive(c: Color): (d: string)
    ensures SetColor(Mode(c), c.r, c.g, c.b) <= d
    ensures |d| >= 3 && d[..2] == Csi && d[|d| - 1] == 'm'
  {
    SetColor(Mode(c), c.r, c.g, c.b) + (if Mode(c) == Set24BitBackground then SetWhiteForeground() else [])
  }

  /**
   * `main` after the read: nothing is written and the status stays failure
   * unless the line is long enough and all six digits are valid; otherwise the
   * colour's directive is written and the status is success.
   */
  method Run(buffer: seq<char>) returns (output: string, status: int)
    ensures DecodeColor(buffer).None? ==> output == [] && status == ExitFailure
    ensures DecodeColor(buffer).Some? ==> output == Directive(DecodeColor(buffer).value) && status == ExitSuccess
  {
    status := ExitFailure;
    output := [];

    if StrNLen(buffer, ExpectedOutputLength) < Sha1HexLength {
      return;
    }

    var errno := false;
    var r := ParseHexOctet(buffer, errno);
    errno := r.einval;
    var g := ParseHexOctet(buffer[2..], errno);
    errno := g.einval;
    var b := ParseHexOctet(buffer[4..], errno);
    errno := b.einval;

    DecodeChannels(buffer, r, g, b);

    if errno {
      return;
    }

    ghost var color := Color(r.value, g.value, b.value);
    assert DecodeColor(buffer) == Some(color);

    var mode := if LightOrDark(r.value, g.value, b.value) == Light then Set24BitForeground else Set24BitBackground;
    assert mode == Mode(color);

    output := output + SetColor(mode, r.value, g.value, b.value);
    assert output == SetColor(Mode(color), color.r, color.g, color.b);

    if mode == Set24BitBackground {
      output := output + SetWhiteForeground();
    }
    status := ExitSuccess;
  }

  /**
   * Decoding the pairs at offsets 0, 2 and 4 in turn, from a clear flag, leaves
   * the flag set exactly when one of the six characters is not a lowercase hex
   * digit, and otherwise yields the pairs' values.
   */
  lemma DecodeChannels(buffer: seq<char>, r: Parsed, g: Parsed, b: Parsed)
    requires |buffer| >= 6
    requires r == ParseHexOctet(buffer, false)
    requires g == ParseHexOctet(buffer[2..], r.einval)
    requires b == ParseHexOctet(buffer[4..], g.einval)
    ensures b.einval == !HexColorPrefix(buffer)
    ensures !b.einval ==> r.value == OctetValue(buffer[0], buffer[1])
    ensures !b.einval ==> g.value == OctetValue(buffer[2], buffer[3])
    ensures !b.einval ==> b.value == OctetValue(buffer[4], buffer[5])
  {
  }

  /** The buffer is rejected exactly when the line is short or a colour digit is invalid. */
  lemma DecodeFailsExactly(buffer: seq<char>)
    ensures DecodeColor(buffer).None? <==>
      StrNLen(buffer, ExpectedOutputLength) < Sha1HexLength ||
      exists i :: 0 <= i < 6 && i < |buffer| && !IsLowerHex(buffer[i])
  {
  }

  /** The first 40 characters being free of NUL is enough for the length check. */
  lemma LongLinePassesLengthCheck(buffer: seq<char>)
    requires |buffer| >= Sha1HexLength
    requires forall i :: 0 <= i < Sha1HexLength ==> buffer[i] != Nul
    ensures StrNLen(buffer, ExpectedOutputLength) >= Sha1HexLength
  {
  }

  /** The hex rendering of a colour's channels, then any 34 non-NUL characters, decodes to that colour. */
  lemma HashRoundTrip(c: Color, tail: seq<char>)
    requires |tail| >= Sha1HexLength - 6
    requires forall i :: 0 <= i < Sha1HexLength - 6 ==> tail[i] != Nul
    ensures DecodeColor(HexOctet(c.r) + HexOctet(c.g) + HexOctet(c.b) + tail) == Some(c)
  {
  }

  /** Once the length check passes, the outcome depends only on the first six characters. */
  lemma PrefixDetermines(buffer: seq<char>, buffer': seq<char>)
    requires StrNLen(buffer, ExpectedOutputLength) >= Sha1HexLength
    requires StrNLen(buffer', ExpectedOutputLength) >= Sha1HexLength
    requires buffer[..6] == buffer'[..6]
    ensures DecodeColor(buffer) == DecodeColor(buffer')
  {
  }

  /**
   * The output starts with a colour sequence that reads back as the colour in
   * its mode; the white foreground follows it exactly when the colour is dark.
   */
  lemma DirectiveReadsBack(c: Color)
    ensures ParseSetColor(Directive(c)) ==
      Some((ColorSetting(Mode(c), c.r, c.g, c.b),
            if LightOrDark(c.r, c.g, c.b) == Dark then SetWhiteForeground() else []))
  {
    var rest := if Mode(c) == Set24BitBackground then SetWhiteForeground() else [];
    SetColorRoundTrip(Mode(c), c.r, c.g, c.b, rest);
  }
}
