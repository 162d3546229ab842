/**
 * Mask painting of `backend/app/utils/overlay.py`: `make_overlay` copies the
 * frame and paints every object's mask onto the copy in the object's
 * colour, later objects over earlier ones; `draw_label_on_mask` finds where
 * an object's label goes, or gives up on an empty mask. The 0.7/0.3 blend
 * with `cv2.addWeighted` and the text drawing are not modelled, so
 * `MakeOverlay` yields the painted copy before blending.
 */
module Overlay {
  import opened Common
  import opened Text
  import opened OrderedMaps
  import opened MaskStore

  /** One image pixel: its three channel values, in the order OpenCV keeps them. */
  datatype Color = Color(c0: int, c1: int, c2: int)

  /** `MASK_COLORS` */
  const MaskColors: seq<Color> := [
    Color(255, 0, 0),
    Color(0, 255, 0),
    Color(0, 0, 255),
    Color(255, 255, 0),
    Color(255, 0, 255),
    Color(0, 255, 255)
  ]

  /**
   * `MASK_COLORS[obj_id % len(MASK_COLORS)]`. Python's `%` by a positive
   * number is never negative, so every id, negative ones included, picks a
   * colour of the table.
   */
  function ColorOf(objId: int): (c: Color)
    ensures c in MaskColors
  {
    MaskColors[objId % |MaskColors|]
  }

  /** Ids six apart share a colour. */
  lemma ColorsRepeat(objId: int)
    ensures ColorOf(objId + 6) == ColorOf(objId)
  {
    assert (objId + 6) % 6 == objId % 6;
  }

  /** Any six consecutive ids get six different colours. */
  lemma NearbyIdsDiffer(o1: int, o2: int)
    requires o1 < o2 < o1 + 6
    ensures ColorOf(o1) != ColorOf(o2)
  {
    var q1, q2 := o1 / 6, o2 / 6;
    assert o1 == 6 * q1 + o1 % 6 && o2 == 6 * q2 + o2 % 6;
    if o1 % 6 == o2 % 6 {
      assert false;
    }
  }

  /** `mask > 0` at pixel (y, x) of a present mask. */
  predicate Covers(m: Option<Mask>, y: int, x: int)
  {
    m.Some? && 0 <= y < |m.value.pixels| && 0 <= x < |m.value.pixels[y]| && m.value.pixels[y][x] > 0
  }

  /**
   * The colour of pixel (y, x) once the masks of the objects `objs`, in
   * order, have been painted over the pixel colour `base`.
   */
  function Painted(base: Color, masks: FrameMasks, objs: seq<int>, y: int, x: int): Color
    decreases |objs|
  {
    if objs == [] then base
    else
      var o := objs[|objs| - 1];
      if Covers(MaskAt(masks, o), y, x) then ColorOf(o) else Painted(base, masks, objs[..|objs| - 1], y, x)
  }

  /** Where masks overlap, the object painted last decides the colour. */
  lemma {:induction false} LastCoveringObjectWins(base: Color, masks: FrameMasks, objs: seq<int>, k: nat, y: int, x: int)
    requires k < |objs| && Covers(MaskAt(masks, objs[k]), y, x)
    requires forall j :: k < j < |objs| ==> !Covers(MaskAt(masks, objs[j]), y, x)
    ensures Painted(base, masks, objs, y, x) == ColorOf(objs[k])
    decreases |objs|
  {
    if k < |objs| - 1 {
      var init := objs[..|objs| - 1];
      LastCoveringObjectWins(base, masks, init, k, y, x);
    }
  }

  /** A pixel that no mask covers keeps the frame's colour; `None` masks cover nothing. */
  lemma {:induction false} UncoveredPixelKept(base: Color, masks: FrameMasks, objs: seq<int>, y: int, x: int)
    requires forall j :: 0 <= j < |objs| ==> !Covers(MaskAt(masks, objs[j]), y, x)
    ensures Painted(base, masks, objs, y, x) == base
    decreases |objs|
  {
    if objs != [] {
      UncoveredPixelKept(base, masks, objs[..|objs| - 1], y, x);
    }
  }

  /** A mask fits an image of `h` rows and `w` columns, or is `None`; any other shape makes numpy raise. */
  predicate Fits(m: Option<Mask>, h: int, w: int)
  {
    m.None? || (m.value.height == h && m.value.width == w)
  }

  /** `overlay[mask > 0] = color` on an overlay of the mask's shape. */
  method PaintMask(overlay: array2<Color>, m: Mask, color: Color)
    requires m.WellShaped() && m.height == overlay.Length0 && m.width == overlay.Length1
    modifies overlay
    ensures forall y, x :: 0 <= y < overlay.Length0 && 0 <= x < overlay.Length1 ==>
              overlay[y, x] == if m.pixels[y][x] > 0 then color else old(overlay[y, x])
  {
    var y := 0;
    while y < overlay.Length0
      invariant 0 <= y <= overlay.Length0
      invariant forall y', x :: 0 <= y' < y && 0 <= x < overlay.Length1 ==>
                  overlay[y', x] == if m.pixels[y'][x] > 0 then color else old(overlay[y', x])
      invariant forall y', x :: y <= y' < overlay.Length0 && 0 <= x < overlay.Length1 ==>
                  overlay[y', x] == old(overlay[y', x])
    {
      var x := 0;
      while x < overlay.Length1
        invariant 0 <= x <= overlay.Length1
        invariant forall y', x' :: 0 <= y' < y && 0 <= x' < overlay.Length1 ==>
                    overlay[y', x'] == if m.pixels[y'][x'] > 0 then color else old(overlay[y', x'])
        invariant forall x' :: 0 <= x' < x ==>
                    overlay[y, x'] == if m.pixels[y][x'] > 0 then color else old(overlay[y, x'])
        invariant forall y', x' :: y <= y' < overlay.Length0 && 0 <= x' < overlay.Length1 && (y' > y || x' >= x) ==>
                    overlay[y', x'] == old(overlay[y', x'])
      {
        if m.pixels[y][x] > 0 {
          overlay[y, x] := color;
        }
        x := x + 1;
      }
      y := y + 1;
    }
  }

  /**
   * `make_overlay(image, masks)` up to the final blend: a copy of `image`
   * with the masks painted in dictionary order, `None` masks skipped. `ok`
   * is false when a mask's shape differs from the image's, where numpy
   * raises. The image itself is never written.
   */
  method MakeOverlay(image: array2<Color>, masks: FrameMasks) returns (overlay: array2<Color>, ok: bool)
    requires masks.Valid()
    requires forall o :: o in masks.vals && masks.vals[o].Some? ==> masks.vals[o].value.WellShaped()
    ensures fresh(overlay)
    ensures ok <==> forall j :: 0 <= j < |masks.keys| ==> Fits(MaskAt(masks, masks.keys[j]), image.Length0, image.Length1)
    ensures ok ==> overlay.Length0 == image.Length0 && overlay.Length1 == image.Length1
    ensures ok ==> forall y, x :: 0 <= y < image.Length0 && 0 <= x < image.Length1 ==>
              overlay[y, x] == Painted(image[y, x], masks, masks.keys, y, x)
  {
    overlay := new Color[image.Length0, image.Length1]((y, x) reads image =>
      if 0 <= y < image.Length0 && 0 <= x < image.Length1 then image[y, x] else Color(0, 0, 0));
    var k := 0;
    while k < |masks.keys|
      invariant 0 <= k <= |masks.keys|
      invariant overlay.Length0 == image.Length0 && overlay.Length1 == image.Length1
      invariant forall j :: 0 <= j < k ==> Fits(MaskAt(masks, masks.keys[j]), image.Length0, image.Length1)
      invariant forall y, x :: 0 <= y < image.Length0 && 0 <= x < image.Length1 ==>
                  overlay[y, x] == Painted(image[y, x], masks, masks.keys[..k], y, x)
    {
      var fits := PaintNext(overlay, image, masks, k);
      if !fits {
        return overlay, false;
      }
      k := k + 1;
    }
    assert masks.keys[..k] == masks.keys;
    ok := true;
  }

  /** One turn of `make_overlay`'s loop: the `k`-th mask of the frame is painted when present and of the image's shape. */
  method PaintNext(overlay: array2<Color>, image: array2<Color>, masks: FrameMasks, k: nat) returns (fits: bool)
    requires masks.Valid() && k < |masks.keys| && overlay != image
    requires forall o :: o in masks.vals && masks.vals[o].Some? ==> masks.vals[o].value.WellShaped()
    requires overlay.Length0 == image.Length0 && overlay.Length1 == image.Length1
    requires forall y, x :: 0 <= y < image.Length0 && 0 <= x < image.Length1 ==>
               overlay[y, x] == Painted(image[y, x], masks, masks.keys[..k], y, x)
    modifies overlay
    ensures fits == Fits(MaskAt(masks, masks.keys[k]), image.Length0, image.Length1)
    ensures fits ==> forall y, x :: 0 <= y < image.Length0 && 0 <= x < image.Length1 ==>
              overlay[y, x] == Painted(image[y, x], masks, masks.keys[..k + 1], y, x)
  {
    var o := masks.keys[k];
    assert masks.keys[..k + 1][..k] == masks.keys[..k];
    var m := MaskAt(masks, o);
    fits := Fits(m, image.Length0, image.Length1);
    if m.Some? && fits {
      PaintMask(overlay, m.value, ColorOf(o));
    }
  }

  /** The positions (y, x), left to right, at which `row` (row `y` of a mask) is positive. */
  function RowPositives(row: seq<int>, y: int): (r: seq<(int, int)>)
    ensures forall k :: 0 <= k < |r| ==> r[k].0 == y && 0 <= r[k].1 < |row| && row[r[k].1] > 0
    ensures forall x :: 0 <= x < |row| && row[x] > 0 ==> (y, x) in r
    decreases |row|
  {
    if row == [] then []
    else
      var init := RowPositives(row[..|row| - 1], y);
      init + if row[|row| - 1] > 0 then [(y, |row| - 1)] else []
  }

  /** `np.where(mask > 0)`, as (y, x) pairs in row-major order. */
  function Positives(pixels: seq<seq<int>>): (r: seq<(int, int)>)
    ensures forall k :: 0 <= k < |r| ==>
              0 <= r[k].0 < |pixels| && 0 <= r[k].1 < |pixels[r[k].0]| && pixels[r[k].0][r[k].1] > 0
    decreases |pixels|
  {
    if pixels == [] then []
    else
      var n := |pixels| - 1;
      Positives(pixels[..n]) + RowPositives(pixels[n], n)
  }

  /** Every positive pixel is listed by `Positives`. */
  lemma {:induction false} PositivesComplete(pixels: seq<seq<int>>, y: int, x: int)
    requires 0 <= y < |pixels| && 0 <= x < |pixels[y]| && pixels[y][x] > 0
    ensures (y, x) in Positives(pixels)
    decreases |pixels|
  {
    var n := |pixels| - 1;
    if y < n {
      assert pixels[..n][y] == pixels[y];
      PositivesComplete(pixels[..n], y, x);
    }
  }

  function SumX(ps: seq<(int, int)>): int
    decreases |ps|
  {
    if ps == [] then 0 else SumX(ps[..|ps| - 1]) + ps[|ps| - 1].1
  }

  function SumY(ps: seq<(int, int)>): int
    decreases |ps|
  {
    if ps == [] then 0 else SumY(ps[..|ps| - 1]) + ps[|ps| - 1].0
  }

  /** A sum of `|ps|` coordinates in `[0, hi]` lies in `[0, |ps| * hi]`. */
  lemma {:induction false} SumBounds(ps: seq<(int, int)>, hiY: int, hiX: int)
    requires forall k :: 0 <= k < |ps| ==> 0 <= ps[k].0 <= hiY && 0 <= ps[k].1 <= hiX
    ensures 0 <= SumY(ps) <= |ps| * hiY
    ensures 0 <= SumX(ps) <= |ps| * hiX
    decreases |ps|
  {
    if ps != [] {
      SumBounds(ps[..|ps| - 1], hiY, hiX);
      assert |ps| * hiY == (|ps| - 1) * hiY + hiY;
      assert |ps| * hiX == (|ps| - 1) * hiX + hiX;
    }
  }

  /** The floor of a mean of values in `[0, hi]` lies in `[0, hi]`. */
  lemma MeanBound(sum: int, n: int, hi: int)
    requires n > 0 && 0 <= sum <= n * hi
    ensures 0 <= sum / n <= hi
  {
  }

  /**
   * The class shown in a label: `obj_meta.get(obj_id, {}).get("class_id", obj_id)`,
   * so an unregistered object is shown with its own id as its class.
   */
  function LabelClass(meta: map<int, ObjMeta>, objId: int): int
  {
    if objId in meta then meta[objId].classId else objId
  }

  /** `f"ID:{obj_id} {COCO_LABELS.get(class_id, class_id)}"` */
  function LabelText(objId: int, meta: map<int, ObjMeta>, labels: map<int, string>): string
  {
    var c := LabelClass(meta, objId);
    "ID:" + IntToString(objId) + " " + (if c in labels then labels[c] else IntToString(c))
  }

  /** An unregistered object without a label for its id is labelled with its id twice. */
  lemma UnregisteredLabel(objId: int, meta: map<int, ObjMeta>, labels: map<int, string>)
    requires objId !in meta && objId !in labels
    ensures LabelText(objId, meta, labels) == "ID:" + IntToString(objId) + " " + IntToString(objId)
  {
  }

  /** A registered object whose class has a label is labelled with that name. */
  lemma RegisteredLabel(objId: int, meta: map<int, ObjMeta>, labels: map<int, string>)
    requires objId in meta && meta[objId].classId in labels
    ensures LabelText(objId, meta, labels) == "ID:" + IntToString(objId) + " " + labels[meta[objId].classId]
  {
  }

  /** Whether some pixel of the mask is positive. */
  predicate HasPositive(m: Mask)
  {
    exists y, x :: 0 <= y < |m.pixels| && 0 <= x < |m.pixels[y]| && m.pixels[y][x] > 0
  }

  /**
   * `draw_label_on_mask`'s anchor: nothing when the mask has no positive
   * pixel (the overlay is returned unchanged), otherwise
   * `(int(xs.mean()), int(ys.mean()))`, which lies inside the mask.
   */
  function LabelAnchor(m: Mask): (r: Option<(int, int)>)
    requires m.WellShaped()
    ensures r.None? <==> !HasPositive(m)
    ensures r.Some? ==> 0 <= r.value.0 < m.width && 0 <= r.value.1 < m.height
  {
    var ps := Positives(m.pixels);
    PositivesIffHasPositive(m);
    if |ps| == 0 then None
    else
      MeanInside(m);
      Some((SumX(ps) / |ps|, SumY(ps) / |ps|))
  }

  /** The listing of positive pixels is empty exactly when the mask has none. */
  lemma PositivesIffHasPositive(m: Mask)
    ensures |Positives(m.pixels)| == 0 <==> !HasPositive(m)
  {
    var ps := Positives(m.pixels);
    if HasPositive(m) {
      var y, x :| 0 <= y < |m.pixels| && 0 <= x < |m.pixels[y]| && m.pixels[y][x] > 0;
      PositivesComplete(m.pixels, y, x);
    }
    if |ps| > 0 {
      var y, x := ps[0].0, ps[0].1;
      assert 0 <= y < |m.pixels| && 0 <= x < |m.pixels[y]| && m.pixels[y][x] > 0;
    }
  }

  /** The mean of the positive pixels' coordinates, rounded down, is a pixel of the mask. */
  lemma MeanInside(m: Mask)
    requires m.WellShaped() && |Positives(m.pixels)| > 0
    ensures 0 <= SumX(Positives(m.pixels)) / |Positives(m.pixels)| < m.width
    ensures 0 <= SumY(Positives(m.pixels)) / |Positives(m.pixels)| < m.height
  {
    var ps := Positives(m.pixels);
    assert forall k :: 0 <= k < |ps| ==> 0 <= ps[k].0 <= m.height - 1 && 0 <= ps[k].1 <= m.width - 1;
    SumBounds(ps, m.height - 1, m.width - 1);
    MeanBound(SumX(ps), |ps|, m.width - 1);
    MeanBound(SumY(ps), |ps|, m.height - 1);
  }
}
