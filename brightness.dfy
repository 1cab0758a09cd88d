/**
 * `light_or_dark`: perceived brightness of a colour, by the weighted
 * luminance formula of the W3C AERT colour-contrast technique
 * (0.299 R + 0.587 G + 0.114 B), in integer arithmetic.
 */
module Brightness {
  import opened HexDecoder

  datatype PerceivedBrightness = Light | Dark

  /** The brightest luminance not counted as light: `0xFF / 2`. */
  const Threshold: int := 0xFF / 2

  /**
   * Integer-truncated luminance. For 8-bit channels it stays within one byte,
   * so the range assertion in the source never fires.
   */
  function Luminance(r: Byte, g: Byte, b: Byte): (l: int)
    ensures 0 <= l <= 0xFF
    ensures l == 0 <==> 299 * r + 587 * g + 114 * b < 1000
  {
    (299 * r + 587 * g + 114 * b) / 1000
  }

  /** A colour is light exactly when its weighted channel sum reaches 128000. */
  function LightOrDark(r: Byte, g: Byte, b: Byte): (p: PerceivedBrightness)
    ensures p == Light <==> 299 * r + 587 * g + 114 * b >= 128000
  {
    if Luminance(r, g, b) > Threshold then Light else Dark
  }

  /** The threshold is inclusive to DARK: the grey of luminance 127 is dark. */
  lemma DarkAtThreshold()
    ensures Luminance(127, 127, 127) == 127 && LightOrDark(127, 127, 127) == Dark
  {
  }

  /** One step above the threshold, the grey of luminance 128 is light. */
  lemma LightAboveThreshold()
    ensures Luminance(128, 128, 128) == 128 && LightOrDark(128, 128, 128) == Light
  {
  }

  /** White has the largest luminance, 255, and is light. */
  lemma WhiteIsLight()
    ensures Luminance(0xFF, 0xFF, 0xFF) == 0xFF && LightOrDark(0xFF, 0xFF, 0xFF) == Light
  {
  }

  /** Black has luminance 0 and is dark. */
  lemma BlackIsDark()
    ensures Luminance(0, 0, 0) == 0 && LightOrDark(0, 0, 0) == Dark
  {
  }

  /** The weights sum to 1000, so a grey's luminance is its channel value. */
  lemma GreyLuminance(v: Byte)
    ensures Luminance(v, v, v) == v
  {
  }

  /** Luminance never decreases when any channel is raised. */
  lemma LuminanceMonotone(r: Byte, g: Byte, b: Byte, r': Byte, g': Byte, b': Byte)
    requires r <= r' && g <= g' && b <= b'
    ensures Luminance(r, g, b) <= Luminance(r', g', b')
  {
  }

  /** Raising channels never turns a light colour dark. */
  lemma LightStaysLight(r: Byte, g: Byte, b: Byte, r': Byte, g': Byte, b': Byte)
    requires r <= r' && g <= g' && b <= b'
    requires LightOrDark(r, g, b) == Light
    ensures LightOrDark(r', g', b') == Light
  {
  }
}
