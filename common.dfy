/** Small value types shared by the modules of this model. */
module Common {

  /** An optional value; `None` stands for JavaScript's `null`/`undefined` and Python's `None`. */
  datatype Option<T> = None | Some(value: T)

  /** The outcome of a request handler: a value, or the HTTP error it raises. */
  datatype Result<T> = Ok(value: T) | Err(error: HttpError)

  /** FastAPI's `HTTPException(status, detail=...)`. */
  datatype HttpError = HttpError(status: nat, detail: string)

  /** A segmentation mask: a height-by-width grid of integer pixels (numpy's 2-D mask array). */
  datatype Mask = Mask(height: nat, width: nat, pixels: seq<seq<int>>)
  {
    /** The grid really has `height` rows of `width` pixels each. */
    predicate WellShaped()
    {
      |pixels| == height && forall y :: 0 <= y < height ==> |pixels[y]| == width
    }
  }

  /** Sorted in increasing order with no repeats. */
  predicate StrictlyIncreasing(s: seq<int>)
  {
    forall i, j :: 0 <= i < j < |s| ==> s[i] < s[j]
  }

  /** The all-zero mask of the given shape (`np.zeros((h, w), dtype=np.uint8)`). */
  function Zeros(h: nat, w: nat): (m: Mask)
    ensures m.WellShaped() && m.height == h && m.width == w
    ensures forall y, x :: 0 <= y < h && 0 <= x < w ==> m.pixels[y][x] == 0
  {
    Mask(h, w, seq(h, _ => seq(w, _ => 0)))
  }
}
