/** A single-channel 8-bit raster (an OpenCV `Mat` of type CV_8UC1) and the
    two drawing primitives the generator uses on it: allocation with a
    uniform fill value and a filled axis-aligned rectangle. */
module Raster {

  /** One grayscale sample of a CV_8UC1 raster. */
  type Sample = v: int | 0 <= v <= 255

  const White: Sample := 255
  const Black: Sample := 0

  /** An OpenCV `Rect`: top-left corner (x, y), then width and height. */
  datatype Rect = Rect(x: int, y: int, width: int, height: int) {
    /** The pixel in row `row`, column `col` lies in the half-open
        rectangle [x, x + width) × [y, y + height). */
    predicate Contains(row: int, col: int) {
      x <= col < x + width && y <= row < y + height
    }
  }

  /** The sample a filled rectangle leaves at (row, col), given the sample
      `before` that was there. */
  function Painted(rect: Rect, v: Sample, before: Sample, row: int, col: int): Sample {
    if rect.Contains(row, col) then v else before
  }

  /** Filling the same rectangle with the same value twice is the same as
      filling it once. */
  lemma PaintIdempotent(rect: Rect, v: Sample, before: Sample, row: int, col: int)
    ensures Painted(rect, v, Painted(rect, v, before, row, col), row, col)
         == Painted(rect, v, before, row, col)
  {
  }

  /** `new Mat(size, CV_8UC1, Scalar.All(fill))`: a `height × width` raster
      (rows first) whose every sample is `fill`. */
  method NewImage(width: nat, height: nat, fill: Sample) returns (m: array2<Sample>)
    ensures fresh(m)
    ensures m.Length0 == height && m.Length1 == width
    ensures forall r, c :: 0 <= r < height && 0 <= c < width ==> m[r, c] == fill
  {
    m := new Sample[height, width]((_, _) => fill);
  }

  /** `Cv2.Rectangle(m, rect, Scalar.All(v), -1)`: a negative thickness
      fills the rectangle. The part of `rect` outside the raster is clipped;
      every sample inside `rect` becomes `v` and every other sample keeps
      its value. */
  method FillRect(m: array2<Sample>, rect: Rect, v: Sample)
    modifies m
    ensures forall r, c :: 0 <= r < m.Length0 && 0 <= c < m.Length1 ==>
              m[r, c] == Painted(rect, v, old(m[r, c]), r, c)
  {
    var r0 := if rect.y < 0 then 0 else rect.y;
    var r1 := if rect.y + rect.height < m.Length0 then rect.y + rect.height else m.Length0;
    var c0 := if rect.x < 0 then 0 else rect.x;
    var c1 := if rect.x + rect.width < m.Length1 then rect.x + rect.width else m.Length1;
    var r := r0;
    while r < r1
      invariant r0 <= r
      invariant r1 < r0 ==> r == r0
      invariant r0 <= r1 ==> r <= r1
      invariant forall i, j :: 0 <= i < m.Length0 && 0 <= j < m.Length1 ==>
                  m[i, j] == (if rect.Contains(i, j) && i < r then v else old(m[i, j]))
    {
      var c := c0;
      while c < c1
        invariant c0 <= c
        invariant c1 < c0 ==> c == c0
        invariant c0 <= c1 ==> c <= c1
        invariant forall i, j :: 0 <= i < m.Length0 && 0 <= j < m.Length1 ==>
                    m[i, j] == (if rect.Contains(i, j) && (i < r || (i == r && j < c)) then v else old(m[i, j]))
      {
        m[r, c] := v;
        c := c + 1;
      }
      r := r + 1;
    }
  }
}
