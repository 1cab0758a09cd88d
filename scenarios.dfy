/**
 * Worked examples for whole hash lines, each ending in the newline that
 * the line read keeps.
 */
module StatusColorScenarios {
  import opened Wrappers
  import opened HexDecoder
  import opened Brightness
  import opened Sgr
  import opened StatusColor

  /** The 34 characters that complete a 40-character hash after the colour digits, then the newline. */
  const HashTail: string := "0123456789abcdef0123456789abcdef01\n"

  /** "ffffff...": white. */
  lemma WhiteHash()
    ensures DecodeColor("ffffff" + HashTail) == Some(Color(255, 255, 255))
  {
  }

  /** Any line of at least 40 characters that starts "ffffff" decodes to white. */
  lemma WhiteHashPrefix(tail: string)
    requires StrNLen("ffffff" + tail, ExpectedOutputLength) >= Sha1HexLength
    ensures DecodeColor("ffffff" + tail) == Some(Color(255, 255, 255))
  {
  }

  /** White is light, so only the foreground sequence is written. */
  lemma WhiteDirective()
    ensures Directive(Color(255, 255, 255)) == [Esc] + "[38;2;255;255;255m"
  {
  }

  /** "000000...": black. */
  lemma BlackHash()
    ensures DecodeColor("000000" + HashTail) == Some(Color(0, 0, 0))
  {
    LongLinePassesLengthCheck("000000" + HashTail);
  }

  /** Black is dark, so the background sequence and then the white foreground. */
  lemma BlackDirective()
    ensures Directive(Color(0, 0, 0)) == [Esc] + "[48;2;0;0;0m" + [Esc] + "[37m"
  {
  }

  /** "804020...": channels 128, 64, 32. */
  lemma DarkRedHash()
    ensures DecodeColor("804020" + HashTail) == Some(Color(128, 64, 32))
  {
    LongLinePassesLengthCheck("804020" + HashTail);
  }

  /** 128, 64, 32 has luminance 79 and is dark. */
  lemma DarkRedIsDark()
    ensures Luminance(128, 64, 32) == 79 && LightOrDark(128, 64, 32) == Dark
  {
  }

  /** Being dark, 128, 64, 32 gets the background form and then the white foreground. */
  lemma DarkRedDirective()
    ensures Directive(Color(128, 64, 32)) == [Esc] + "[48;2;128;64;32m" + [Esc] + "[37m"
  {
    assert LightOrDark(128, 64, 32) == Dark;
    assert Decimal(128) == "128";
    assert Decimal(64) == "64";
    assert Decimal(32) == "32";
    assert Decimal(48) == "48";
    assert SetColor(48, 128, 64, 32) == [Esc] + "[48;2;128;64;32m";
    assert SetWhiteForeground() == [Esc] + "[37m";
  }

  /** "1a2b3c...": each pair is read big-endian, giving 26, 43 and 60. */
  lemma MixedDigitsHash()
    ensures DecodeColor("1a2b3c" + HashTail) == Some(Color(26, 43, 60))
  {
  }

  /** Uppercase hex digits are not accepted. */
  lemma UppercaseHashRejected()
    ensures DecodeColor("FFFFFF" + HashTail) == None
  {
  }

  /** A line of 39 characters is too short. */
  lemma ShortLineRejected()
    ensures DecodeColor("ffffff0123456789abcdef0123456789abcdef0") == None
  {
  }

  /** The newline is counted by the length check: 39 characters and a newline pass it. */
  lemma NewlineCountsTowardsLength()
    ensures DecodeColor("ffffff0123456789abcdef0123456789abcdef0\n") == Some(Color(255, 255, 255))
  {
    var line := "ffffff0123456789abcdef0123456789abcdef0\n";
    assert forall i :: 0 <= i < Sha1HexLength ==> line[i] != Nul;
    LongLinePassesLengthCheck(line);
    assert line == "ffffff" + line[6..];
    WhiteHashPrefix(line[6..]);
  }

  /** A NUL inside the first 40 characters ends the string early, so the line is too short. */
  lemma EmbeddedNulRejected()
    ensures DecodeColor("ffffff" + [Nul] + "123456789abcdef0123456789abcdef01\n") == None
  {
    var line := "ffffff" + [Nul] + "123456789abcdef0123456789abcdef01\n";
    assert line[6] == Nul;
  }
}
