/** The frame sampler (MatrixCam.get_frame) as an abstract operation: the
    camera read, the grayscale conversion and the resize are the camera
    library's; only the shape of what they hand back is modelled. */
module FrameSampler {
  import opened AsciiRamp
  import opened AsciiRenderer

  /** What one read of the camera yields on a tick: no frame, an exception
      from the library, or a grayscale frame already resampled to the grid
      that was asked for, given cell by cell (row, column). */
  datatype Read = NoFrame | Fails | Gray(cell: (nat, nat) -> Sample)

  /** The result of get_frame: None, a raised exception, or a matrix. */
  datatype Capture = Missing | Raised | Got(image: Image)

  /** An image of exactly `height` rows of `width` samples each. */
  predicate IsMatrix(image: Image, height: nat, width: nat)
  {
    |image| == height && forall r :: 0 <= r < height ==> |image[r]| == width
  }

  /** The frame resampled to `height` rows by `width` columns. */
  function Resample(cell: (nat, nat) -> Sample, height: nat, width: nat): (image: Image)
    ensures IsMatrix(image, height, width)
  {
    seq(height, r requires 0 <= r < height =>
      seq(width, c requires 0 <= c < width => cell(r, c)))
  }

  /** get_frame(height, width): None when the camera has no frame; an
      exception when the library raises, which the resize does for a target
      with no rows or no columns; otherwise a grayscale matrix of exactly the
      requested shape. */
  function GetFrame(read: Read, height: int, width: int): (c: Capture)
    ensures c.Missing? <==> read.NoFrame?
    ensures c.Raised? <==> read.Fails? || (read.Gray? && (height <= 0 || width <= 0))
    ensures c.Got? ==> height > 0 && width > 0 && IsMatrix(c.image, height, width)
  {
    match read
    case NoFrame => Missing
    case Fails => Raised
    case Gray(cell) =>
      if height <= 0 || width <= 0 then Raised
      else Got(Resample(cell, height, width))
  }
}
