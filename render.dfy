/** Turning an intensity matrix into one text line per row
    (MatrixCam.map_pixels_to_ascii). */
module AsciiRenderer {
  import opened AsciiRamp

  /** A grayscale frame, row by row from the top. */
  type Image = seq<seq<Sample>>

  /** Every entry of a row of indices selects a glyph of the ramp. */
  predicate InRamp(row: seq<nat>)
  {
    forall k :: 0 <= k < |row| ==> row[k] < N_CHARS
  }

  /** The `indices` matrix: the frame with each sample replaced by its ramp index. */
  function Quantise(image: Image): (indices: seq<seq<nat>>)
    ensures |indices| == |image|
    ensures forall r :: 0 <= r < |image| ==> |indices[r]| == |image[r]| && InRamp(indices[r])
    ensures forall r, c :: 0 <= r < |image| && 0 <= c < |image[r]| ==> indices[r][c] == Index(image[r][c])
  {
    seq(|image|, r requires 0 <= r < |image| =>
      seq(|image[r]|, c requires 0 <= c < |image[r]| => Index(image[r][c])))
  }

  /** One line of output: the ramp glyphs of a row of indices, joined in order. */
  function LineOf(row: seq<nat>): (line: string)
    requires InRamp(row)
    ensures |line| == |row|
    ensures forall k :: 0 <= k < |row| ==> line[k] == RAMP[row[k]]
  {
    if row == [] then ""
    else
      assert InRamp(row[1..]) by {
        forall k | 0 <= k < |row| - 1 ensures row[1..][k] < N_CHARS {
          assert row[1..][k] == row[k + 1];
        }
      }
      [RAMP[row[0]]] + LineOf(row[1..])
  }

  /** The text of a frame: one line per image row, top to bottom, each as wide
      as its row, character c of line r being the glyph of sample (r, c). */
  function AsciiLines(image: Image): (lines: seq<string>)
    ensures |lines| == |image|
    ensures forall r :: 0 <= r < |image| ==> |lines[r]| == |image[r]|
    ensures forall r, c :: 0 <= r < |image| && 0 <= c < |image[r]| ==>
      lines[r][c] == RAMP[Index(image[r][c])]
  {
    var indices := Quantise(image);
    seq(|image|, r requires 0 <= r < |image| => LineOf(indices[r]))
  }

  /** map_pixels_to_ascii: quantise the frame, then append one joined line per
      row of indices to `lines`. */
  method MapPixelsToAscii(image: Image) returns (lines: seq<string>)
    ensures lines == AsciiLines(image)
  {
    var indices := Quantise(image);
    lines := [];
    for r := 0 to |indices|
      invariant |lines| == r
      invariant forall k :: 0 <= k < r ==> lines[k] == LineOf(indices[k])
    {
      var line := LineOf(indices[r]);
      lines := lines + [line];
    }
  }
}
