/** The character ramp and the quantisation of one grayscale sample
    (MatrixCam's constructor and the first two lines of map_pixels_to_ascii). */
module AsciiRamp {

  /** The glyph ramp, sparsest first, fixed when the camera object is built. */
  const RAMP: string := " .:-=+*#%@"

  /** The number of quantisation levels, the length of the ramp. */
  const N_CHARS: nat := |RAMP|

  /** One sample of an 8-bit grayscale frame. */
  type Sample = v: int | 0 <= v <= 255

  /** The ramp index of a sample: the integer part of (v / 255) * (N_CHARS - 1),
      computed exactly rather than in floating point. */
  function Index(v: Sample): (i: nat)
    ensures i < N_CHARS
    ensures i as real <= (v as real / 255.0) * ((N_CHARS - 1) as real) < i as real + 1.0
  {
    var i := v * (N_CHARS - 1) / 255;
    assert i * 255 <= v * 9 < i * 255 + 255;
    i
  }

  /** Brighter samples never select a sparser glyph. */
  lemma IndexMonotone(v1: Sample, v2: Sample)
    requires v1 <= v2
    ensures Index(v1) <= Index(v2)
  {
  }

  /** Each glyph of the ramp is selected by some sample, the least one being
      the ceiling of 255 * k / (N_CHARS - 1). */
  lemma EveryGlyphReachable(k: nat)
    requires k < N_CHARS
    ensures (255 * k + 8) / 9 <= 255
    ensures Index((255 * k + 8) / 9) == k
    ensures forall v: Sample :: Index(v) >= k <==> v >= (255 * k + 8) / 9
  {
  }

  /** The ramp's length, and the glyphs of the darkest, brightest and middle samples. */
  lemma RampScenario()
    ensures N_CHARS == 10
    ensures Index(0) == 0 && RAMP[Index(0)] == ' '
    ensures Index(255) == 9 && RAMP[Index(255)] == '@'
    ensures Index(128) == 4 && RAMP[Index(128)] == '='
  {
  }
}
