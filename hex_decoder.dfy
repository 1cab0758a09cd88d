/**
 * Decoding of the commit hash's leading hex characters into 8-bit colour
 * channels: `parse_hex_ascii_byte` and `parse_hex_octet`.
 *
 * The process-global `errno` is replaced by an explicit flag that each call
 * takes in and hands back: `true` means EINVAL has been stored.
 */
module HexDecoder {

  /** An unsigned 8-bit value, the source's `uint8_t`. */
  type Byte = x: int | 0 <= x < 0x100

  /** The characters the decoder accepts: lowercase hexadecimal digits only. */
  predicate IsLowerHex(c: char) {
    '0' <= c <= '9' || 'a' <= c <= 'f'
  }

  /** Reference value of a lowercase hex digit, by its distance from '0' or 'a'. */
  function DigitValue(c: char): (d: nat)
    requires IsLowerHex(c)
  {
    if c <= '9' then c as int - '0' as int else c as int - 'a' as int + 10
  }

  /** Reference value of two lowercase hex digits, most significant first. */
  function OctetValue(hi: char, lo: char): (v: Byte)
    requires IsLowerHex(hi) && IsLowerHex(lo)
  {
    16 * DigitValue(hi) + DigitValue(lo)
  }

  /** The digit character for a value below 16, lowercase. */
  function HexDigitChar(d: nat): (c: char)
    requires d < 16
    ensures IsLowerHex(c) && DigitValue(c) == d
  {
    if d < 10 then ('0' as int + d) as char else ('a' as int + d - 10) as char
  }

  /** A byte written as exactly two lowercase hex digits, as `git` prints a hash. */
  function HexOctet(b: Byte): (s: string)
  {
    [HexDigitChar(b / 16), HexDigitChar(b % 16)]
  }

  /** The source's `c & 0x0F` on a byte-sized character: its low four bits, the remainder mod 16. */
  function LowNibble(c: char): (n: nat)
    requires c as int < 0x100
    ensures n < 0x10
    ensures (c as int - n) % 0x10 == 0
  {
    (c as int) % 0x10
  }

  /** Masking the low nibble yields the digit's own value for '0'..'9' and value - 9 for 'a'..'f'. */
  lemma LowNibbleOfDigit(c: char)
    requires IsLowerHex(c)
    ensures c <= '9' ==> LowNibble(c) == DigitValue(c)
    ensures 'a' <= c ==> 9 + LowNibble(c) == DigitValue(c)
  {
  }

  /** What `parse_hex_ascii_byte` returns, with the state of the EINVAL flag afterwards. */
  datatype Parsed = Parsed(value: Byte, einval: bool)

  /**
   * `parse_hex_ascii_byte`: a lowercase hex digit gives its value and leaves the
   * flag alone; anything else (uppercase, 'g', NUL, ...) gives 0xFF and sets it.
   */
  function ParseHexAsciiByte(c: char, einval: bool): (p: Parsed)
    ensures p.einval == (einval || !IsLowerHex(c))
    ensures IsLowerHex(c) ==> p.value == DigitValue(c)
    ensures !IsLowerHex(c) ==> p.value == 0xFF
  {
    if '0' <= c <= '9' then
      LowNibbleOfDigit(c);
      Parsed(LowNibble(c), einval)
    else if 'a' <= c <= 'f' then
      LowNibbleOfDigit(c);
      Parsed(9 + LowNibble(c), einval)
    else
      Parsed(0xFF, true)
  }

  function Pow2(k: nat): (p: nat)
    ensures p >= 1
  {
    if k == 0 then 1 else 2 * Pow2(k - 1)
  }

  /** Bitwise or of two naturals, one bit at a time from the least significant. */
  function BitOr(x: nat, y: nat): (r: nat)
    ensures x <= r && y <= r && r <= x + y
    ensures r % 2 == 1 <==> x % 2 == 1 || y % 2 == 1
    decreases x + y
  {
    if x == 0 then y
    else if y == 0 then x
    else
      var high := BitOr(x / 2, y / 2);
      var low := if x % 2 == 1 || y % 2 == 1 then 1 else 0;
      BitOrStep(x, y, high, low);
      2 * high + low
  }

  /** One step of BitOr keeps the bounds of a bitwise or. */
  lemma BitOrStep(x: nat, y: nat, high: nat, low: nat)
    requires x / 2 <= high && y / 2 <= high && high <= x / 2 + y / 2
    requires low == if x % 2 == 1 || y % 2 == 1 then 1 else 0
    ensures x <= 2 * high + low && y <= 2 * high + low && 2 * high + low <= x + y
    ensures (2 * high + low) % 2 == low
  {
  }

  /** Or-ing a value below 2^k into a multiple of 2^k is addition: the bits do not overlap. */
  lemma {:induction false} BitOrDisjoint(x: nat, y: nat, k: nat)
    requires y < Pow2(k)
    ensures BitOr(x * Pow2(k), y) == x * Pow2(k) + y
    decreases k
  {
    var shifted := x * Pow2(k);
    if k == 0 {
      assert y == 0;
    } else if shifted != 0 && y != 0 {
      var half := x * Pow2(k - 1);
      assert shifted == 2 * half;
      assert shifted / 2 == half && shifted % 2 == 0;
      BitOrDisjoint(x, y / 2, k - 1);
      assert BitOr(shifted, y) == 2 * (half + y / 2) + y % 2;
    }
  }

  /** `(hi << 4) | lo`, truncated to a byte, is 16 * hi + lo for two nibbles. */
  lemma ShiftOrNibbles(hi: nat, lo: nat)
    requires hi < 0x10 && lo < 0x10
    ensures BitOr(hi * Pow2(4), lo) % 0x100 == 16 * hi + lo
  {
    assert Pow2(4) == 16;
    BitOrDisjoint(hi, lo, 4);
  }

  /**
   * `parse_hex_octet`: two characters, most significant first; the flag is set
   * exactly when one of them is not a lowercase hex digit. The result is
   * `(upper << 4) | lower` truncated to uint8_t, so the value on the error
   * path is the same meaningless byte the source computes.
   */
  function ParseHexOctet(s: seq<char>, einval: bool): (p: Parsed)
    requires |s| >= 2
    ensures p.einval == (einval || !IsLowerHex(s[0]) || !IsLowerHex(s[1]))
    ensures IsLowerHex(s[0]) && IsLowerHex(s[1]) ==> p.value == OctetValue(s[0], s[1])
  {
    var upper := ParseHexAsciiByte(s[0], einval);
    var lower := ParseHexAsciiByte(s[1], upper.einval);
    var combined := BitOr(upper.value * Pow2(4), lower.value) % 0x100;
    assert IsLowerHex(s[0]) && IsLowerHex(s[1]) ==> combined == OctetValue(s[0], s[1]) by {
      if IsLowerHex(s[0]) && IsLowerHex(s[1]) {
        ShiftOrNibbles(upper.value, lower.value);
      }
    }
    Parsed(combined, lower.einval)
  }

  /** Rendering a byte as two hex digits and parsing them gives the byte back, flag untouched. */
  lemma HexOctetRoundTrip(b: Byte, einval: bool)
    ensures ParseHexOctet(HexOctet(b), einval) == Parsed(b, einval)
  {
  }

  /** The two digits of a byte's rendering have that byte as their reference value. */
  lemma HexOctetValue(b: Byte)
    ensures IsLowerHex(HexOctet(b)[0]) && IsLowerHex(HexOctet(b)[1])
    ensures OctetValue(HexOctet(b)[0], HexOctet(b)[1]) == b
  {
  }

  /** Two lowercase hex digits are the rendering of their reference value. */
  lemma OctetValueCanonical(hi: char, lo: char)
    requires IsLowerHex(hi) && IsLowerHex(lo)
    ensures HexOctet(OctetValue(hi, lo)) == [hi, lo]
  {
  }

  /** Two lowercase hex digits are the canonical rendering of the byte they parse to. */
  lemma HexOctetCanonical(s: seq<char>)
    requires |s| == 2 && IsLowerHex(s[0]) && IsLowerHex(s[1])
    ensures HexOctet(ParseHexOctet(s, false).value) == s
  {
  }

  /**
   * On the error path the byte is still computed: "G5" gives
   * `(0xFF << 4) | 5` truncated to a byte, 0xF5, with the flag set.
   */
  lemma InvalidOctetValue()
    ensures ParseHexOctet("G5", false) == Parsed(0xF5, true)
  {
    BitOrDisjoint(0xFF, 5, 4);
    assert Pow2(4) == 16;
  }
}
