# git-status-color in Dafny

A model of `git-status-color`, a small C program that turns the current Git
commit hash into a 24-bit terminal colour for a shell prompt. It reads the
line printed by `git rev-parse HEAD` and takes the first six hex digits as
red, green and blue. It classifies the colour as light or dark by integer
luminance, `(299 r + 587 g + 114 b) / 1000`, with the weights of the W3C AERT
colour-contrast technique. It then writes one Select Graphic Rendition
control sequence (ECMA-48, section 8.3.117):

- a light colour is used as the foreground, `ESC [ 38;2;r;g;b m`;
- a dark colour is used as the background, `ESC [ 48;2;r;g;b m`, followed by
  `ESC [ 37 m` so that the text is white.

Any failure (a short line, or an invalid digit among the first six) writes
nothing, and the exit status stays failure.

Modules, one per component of `git-status-color.c`:

- `HexDecoder` (`hex_decoder.dfy`) covers `parse_hex_ascii_byte` and
  `parse_hex_octet`. They are pure functions. The global `errno` becomes a
  flag that each call takes in and returns. `c & 0x0F` is written as the
  remainder mod 16. `(upper << 4) | lower` is computed exactly: a
  multiplication by 2^4, a bitwise or (`BitOr`), and truncation to a byte.
  Reference definitions (`DigitValue`, `OctetValue`, `HexOctet`) are the
  partners of the bit-level code.
- `Brightness` (`brightness.dfy`) covers `light_or_dark` and its luminance.
- `Sgr` (`sgr.dfy`) covers the control sequences and `%d` rendering.
  `ParseSetColor`, which reads a colour sequence back, is their inverse.
- `StatusColor` (`status_color.dfy`) covers `main` after the line has been
  read. It is the method `Run`, which follows `main` step by step: the
  `strnlen` check, the three octet parses, one check of the aggregate flag,
  the mode choice, the two writes and the status. Early `return` stands for
  `goto cleanup`. Its contract ties it to the reference decoding
  `DecodeColor` and to the output `Directive`.
- `StatusColorScenarios` (`scenarios.dfy`) holds worked examples on whole
  hash lines.
- `Wrappers` (`wrappers.dfy`) is the Option type.

The line buffer is a `seq<char>`, and each character stands for one byte of
the C buffer. `strnlen` is `StrNLen`: it counts characters up to the first
NUL, and the end of the sequence reads as a NUL. The exit codes are
`EXIT_SUCCESS = 0` and `EXIT_FAILURE = 1`.

Three consequences of the code are worth stating:

- The length check counts every character before the first NUL, including
  the newline that the line read keeps. So 39 hex digits followed by a
  newline pass it (`NewlineCountsTowardsLength`).
- The buffer holds 42 bytes: 40 + `sizeof("\n")`, which counts the newline
  and the terminating NUL. So the line read has at most 41 characters.
- Only lowercase hex digits are accepted (`UppercaseHashRejected`).

## Model

| member | source | states |
|---|---|---|
| `HexDecoder.LowNibble` | git-status-color.c:89 | The definition of `c & 0x0F`: a value below 16 that differs from the character's code by a multiple of 16. |
| `HexDecoder.ParseHexAsciiByte` | git-status-color.c:87-96 | A lowercase hex digit yields its value ('0'..'9' give 0..9, 'a'..'f' give 10..15) and leaves the flag unchanged. Any other character yields 0xFF and sets the flag. |
| `HexDecoder.LowNibbleOfDigit` | git-status-color.c:87-92 | The low nibble of '0'..'9' is the digit's value. The low nibble of 'a'..'f' plus 9 is the digit's value. |
| `HexDecoder.BitOr` | git-status-color.c:104 | The definition of bitwise or on naturals, bit by bit. The result is at least each operand and at most their sum, and its lowest bit is set exactly when one operand's lowest bit is set. |
| `HexDecoder.BitOrDisjoint` | git-status-color.c:104 | Or-ing a value below 2^k into a multiple of 2^k equals adding them. |
| `HexDecoder.ShiftOrNibbles` | git-status-color.c:104 | For two nibbles, shifting hi left by 4, or-ing in lo and truncating to a byte gives 16 * hi + lo. |
| `HexDecoder.ParseHexOctet` | git-status-color.c:98-105 | The flag comes back set exactly when the incoming flag was set or either character is not a lowercase hex digit. When both characters are valid, the result is 16 * value(first) + value(second). |
| `HexDecoder.HexOctetValue` | git-status-color.c:98-105 | The two-digit lowercase rendering of any byte consists of valid digits whose reference value is that byte. |
| `HexDecoder.HexOctetRoundTrip` | git-status-color.c:98-105 | Parsing the two-digit rendering of any byte gives that byte back and leaves the flag unchanged. |
| `HexDecoder.OctetValueCanonical` | git-status-color.c:98-105 | Two valid lowercase digits are exactly the two-digit rendering of their reference value. |
| `HexDecoder.InvalidOctetValue` | git-status-color.c:94-105 | On the error path the byte is still computed as C computes it: "G5" gives 0xF5, the truncation of (0xFF shifted left by 4) or 5, with the flag set. |
| `HexDecoder.HexOctetCanonical` | git-status-color.c:98-105 | Any two valid lowercase digits are exactly the rendering of the byte they parse to, so parsing is one-to-one. |
| `Brightness.Luminance` | git-status-color.c:110-111 | For 8-bit channels, the luminance lies in [0, 255], so the range assertion cannot fail. It is 0 exactly when the weighted sum is below 1000. |
| `Brightness.LightOrDark` | git-status-color.c:107-117 | The result is LIGHT exactly when 299 r + 587 g + 114 b >= 128000, that is, when the truncated luminance exceeds 0xFF / 2 = 127. Otherwise it is DARK. |
| `Brightness.GreyLuminance` | git-status-color.c:110 | The weights sum to 1000, so a grey v,v,v has luminance exactly v. |
| `Brightness.DarkAtThreshold` | git-status-color.c:113-116 | The grey 127,127,127 has luminance 127 and is DARK: the boundary is inclusive to DARK. |
| `Brightness.LightAboveThreshold` | git-status-color.c:113-114 | The grey 128,128,128 has luminance 128 and is LIGHT. |
| `Brightness.WhiteIsLight` | git-status-color.c:110-114 | White has luminance 255 and is LIGHT. |
| `Brightness.BlackIsDark` | git-status-color.c:110-116 | Black has luminance 0 and is DARK. |
| `Brightness.LuminanceMonotone` | git-status-color.c:110 | Raising any channel never lowers the luminance. |
| `Brightness.LightStaysLight` | git-status-color.c:107-117 | Raising any channel never turns LIGHT into DARK. |
| `Sgr.Decimal` | git-status-color.c:71 | The `%d` rendering is a non-empty string of decimal digits with no leading zero, except for the number 0 itself, and it is one digit long exactly when n < 10. |
| `Sgr.DecimalRoundTrip` | git-status-color.c:71 | Reading the decimal rendering of n as digits gives back n. |
| `Sgr.ReadDecimal` | git-status-color.c:71 | A number's rendering followed by a non-digit reads back as that number, and the rest is left as it was. |
| `Sgr.SetColor` | git-status-color.c:71 | The definition of `printf(CSI "%d;2;%d;%d;%d" SGR, ...)`. Its contract says the result is one SGR control sequence: CSI, then only digits and semicolons, then 'm'. |
| `Sgr.SetWhiteForeground` | git-status-color.c:75 | The definition of `printf(CSI SET_WHITE_FOREGROUND SGR)`. Its contract says the result is one SGR control sequence. |
| `Sgr.SetColorRoundTrip` | git-status-color.c:71 | The sequence `ESC [ mode ;2; r ; g ; b m`, whatever follows it, parses back to exactly its mode and channels, and what follows is left as it was. |
| `Sgr.SetColorInjective` | git-status-color.c:71 | Different modes or channels always give different colour sequences. |
| `StatusColor.StrNLen` | git-status-color.c:50 | The result is at most maxlen and at most the length. No character before it is NUL. When it stops before both limits, it stops at a NUL. |
| `StatusColor.DecodeColor` | git-status-color.c:50-58 | The reference decoding, by digit values rather than bit operations. Its contract says any colour it returns renders back, as three two-digit pairs, to exactly the first six characters of the line. |
| `StatusColor.Mode` | git-status-color.c:66-68 | The mode is 38 (foreground) exactly when 299 r + 587 g + 114 b >= 128000, and 48 (background) exactly otherwise. |
| `StatusColor.Directive` | git-status-color.c:66-76 | The definition of everything written for a colour. Its contract says the colour sequence always comes first, and the whole output begins with CSI and ends with 'm'. |
| `StatusColor.DecodeChannels` | git-status-color.c:53-58 | Parsing the pairs at 0, 2 and 4 in turn from a clear flag leaves the flag set exactly when one of the first six characters is invalid. Otherwise the three results are the pairs' values. |
| `StatusColor.Run` | git-status-color.c:37-85 | If the line is short or has an invalid digit, nothing is written and the status is EXIT_FAILURE. Otherwise the output is the colour's directive and the status is EXIT_SUCCESS. |
| `StatusColor.DecodeFailsExactly` | git-status-color.c:50-58 | Decoding fails exactly when strnlen is below 40 or one of the first six characters is not a lowercase hex digit. |
| `StatusColor.LongLinePassesLengthCheck` | git-status-color.c:50-51 | A line whose first 40 characters contain no NUL passes the length check. |
| `StatusColor.HashRoundTrip` | git-status-color.c:50-58 | The hex rendering of any colour, followed by any 34 non-NUL characters, decodes to that colour. |
| `StatusColor.PrefixDetermines` | git-status-color.c:50-58 | Once the length check passes, two lines with the same first six characters decode to the same colour. So the output is a deterministic function of those six characters. |
| `StatusColor.DirectiveReadsBack` | git-status-color.c:66-76 | The output begins with a colour sequence that parses back to that mode and the colour's channels. What follows is `ESC [ 37 m` when the colour is DARK and nothing when it is LIGHT. |
| `StatusColorScenarios.WhiteHash` | git-status-color.c:50-58 | A hash beginning "ffffff" decodes to 255, 255, 255. |
| `StatusColorScenarios.WhiteDirective` | git-status-color.c:66-76 | White produces exactly `ESC[38;2;255;255;255m`. |
| `StatusColorScenarios.BlackHash` | git-status-color.c:50-58 | A hash beginning "000000" decodes to 0, 0, 0. |
| `StatusColorScenarios.BlackDirective` | git-status-color.c:66-76 | Black produces exactly `ESC[48;2;0;0;0m` followed by `ESC[37m`. |
| `StatusColorScenarios.DarkRedHash` | git-status-color.c:53-55 | "804020" decodes to 128, 64, 32. |
| `StatusColorScenarios.DarkRedIsDark` | git-status-color.c:110-116 | 128, 64, 32 has luminance 79 and is DARK. |
| `StatusColorScenarios.DarkRedDirective` | git-status-color.c:66-76 | 128, 64, 32 produces `ESC[48;2;128;64;32m` followed by `ESC[37m`. |
| `StatusColorScenarios.MixedDigitsHash` | git-status-color.c:53-55 | "1a2b3c" decodes big-endian per pair to 26, 43, 60. |
| `StatusColorScenarios.UppercaseHashRejected` | git-status-color.c:87-95 | A hash beginning "FFFFFF" is rejected. |
| `StatusColorScenarios.ShortLineRejected` | git-status-color.c:50-51 | A 39-character line with no newline is rejected. |
| `StatusColorScenarios.NewlineCountsTowardsLength` | git-status-color.c:50-51 | 39 characters followed by a newline pass the length check and decode. |
| `StatusColorScenarios.EmbeddedNulRejected` | git-status-color.c:50-51 | A NUL among the first 40 characters makes the line too short. |

## Left out

- Starting `git rev-parse HEAD` with `popen`, reading its line with `fgets`, and closing it with `pclose`. This is process creation and stream I/O. The line that was read is the parameter of `Run`. The failure paths for "command could not start" and "no line read" end in the same way as the modelled failures: nothing written, status failure.
- The global `errno`, and the chance that a stale nonzero value left by `popen` or `fgets` aborts a valid run. The flag starts clear in the model, because that stale value depends on the environment.
- The global buffer of 42 bytes. Reading beyond the model's sequence counts as reading a NUL, as the real buffer's terminator does.
- Signed `char`: bytes 0x80..0xFF are negative in C. Neither range test accepts them, and none of those bytes is a lowercase hex digit, so the model's characters give the same outcome.
- No property is stated about the byte `parse_hex_octet` returns on the invalid-digit path. It is computed as the source computes it, but the flag always discards it.
- `printf` buffering and the writes to standard output. The output is a returned string.
- The `assert` abort mechanism. `Brightness.Luminance` proves that the asserted range always holds.
- Shell-prompt integration and passing the exit status on to the operating system.
