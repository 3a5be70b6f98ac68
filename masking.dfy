/** The integer crop-region arithmetic of the inpainting mask helpers.

    A mask enters only through what the functions read of it: the bounding
    box of its non-zero pixels as PIL's `getbbox()` reports it (None for an
    all-zero mask) and its size. Regions are `(x1, y1, x2, y2)` with the
    right and lower edges exclusive. Python integers are unbounded, as
    Dafny's are, and `//` is applied only to a positive number, where floor
    division and Dafny's `/` agree. */
module Masking {

  datatype Option<T> = None | Some(value: T)

  /** A crop region: left, upper, right, lower. */
  datatype Region = Region(x1: int, y1: int, x2: int, y2: int)

  /** What the crop functions read of a mask. */
  datatype Mask = Mask(bbox: Option<Region>, width: int, height: int)

  function Min(a: int, b: int): int {
    if a <= b then a else b
  }

  function Max(a: int, b: int): int {
    if a >= b then a else b
  }

  predicate Inside(r: Region, width: int, height: int) {
    0 <= r.x1 <= r.x2 <= width && 0 <= r.y1 <= r.y2 <= height
  }

  predicate Contains(outer: Region, inner: Region) {
    outer.x1 <= inner.x1 && outer.y1 <= inner.y1 && inner.x2 <= outer.x2 && inner.y2 <= outer.y2
  }

  /** What `getbbox()` promises: no box, or a non-empty box inside the mask. */
  predicate WellFormed(mask: Mask) {
    0 <= mask.width && 0 <= mask.height &&
    (mask.bbox.Some? ==>
      Inside(mask.bbox.value, mask.width, mask.height) &&
      mask.bbox.value.x1 < mask.bbox.value.x2 && mask.bbox.value.y1 < mask.bbox.value.y2)
  }

  // ---------------------------------------------------------------------
  // get_crop_region_v2 and get_crop_region

  /** The bounding box of the masked area, moved outward by `pad` on every
      side and clamped to the mask when `pad` is nonzero; None for an
      all-zero mask. A tuple is always truthy in Python, so only a missing
      box gives None. */
  function GetCropRegionV2(mask: Mask, pad: int): (r: Option<Region>)
    ensures r.None? <==> mask.bbox.None?
    ensures pad == 0 ==> r == mask.bbox
    ensures r.Some? && pad != 0 ==>
      var b, c := mask.bbox.value, r.value;
      0 <= c.x1 && 0 <= c.y1 && c.x2 <= mask.width && c.y2 <= mask.height &&
      b.x1 - pad <= c.x1 && b.y1 - pad <= c.y1 && c.x2 <= b.x2 + pad && c.y2 <= b.y2 + pad &&
      (c.x1 == b.x1 - pad || c.x1 == 0) && (c.y1 == b.y1 - pad || c.y1 == 0) &&
      (c.x2 == b.x2 + pad || c.x2 == mask.width) && (c.y2 == b.y2 + pad || c.y2 == mask.height)
    ensures r.Some? && 0 < pad && WellFormed(mask) ==>
      Inside(r.value, mask.width, mask.height) && Contains(r.value, mask.bbox.value)
  {
    match mask.bbox
    case None => None
    case Some(box) =>
      if pad != 0 then
        Some(Region(Max(box.x1 - pad, 0), Max(box.y1 - pad, 0),
                    Min(box.x2 + pad, mask.width), Min(box.y2 + pad, mask.height)))
      else
        Some(box)
  }

  /** As GetCropRegionV2, but an all-zero mask yields the padded region of
      the "box" (width, height, 0, 0) instead of None. */
  function GetCropRegion(mask: Mask, pad: int): (r: Region)
    ensures GetCropRegionV2(mask, pad).Some? ==> GetCropRegionV2(mask, pad) == Some(r)
    ensures mask.bbox.None? ==>
      r == Region(Max(mask.width - pad, 0), Max(mask.height - pad, 0), Min(pad, mask.width), Min(pad, mask.height))
  {
    match GetCropRegionV2(mask, pad)
    case Some(box) => box
    case None =>
      var x1, y1 := mask.width, mask.height;
      var x2, y2 := 0, 0;
      Region(Max(x1 - pad, 0), Max(y1 - pad, 0), Min(x2 + pad, mask.width), Min(y2 + pad, mask.height))
  }

  /** The warning of the doc comment, with its exact threshold: for an
      all-zero mask the region comes back inverted iff twice the pad is
      less than the mask's size. */
  lemma AllZeroMaskInverted(mask: Mask, pad: int)
    requires mask.bbox.None? && 0 <= pad
    ensures 2 * pad < mask.width ==> GetCropRegion(mask, pad).x1 > GetCropRegion(mask, pad).x2
    ensures 2 * pad < mask.height ==> GetCropRegion(mask, pad).y1 > GetCropRegion(mask, pad).y2
    ensures 0 <= mask.width <= 2 * pad ==> GetCropRegion(mask, pad).x1 <= GetCropRegion(mask, pad).x2
    ensures 0 <= mask.height <= 2 * pad ==> GetCropRegion(mask, pad).y1 <= GetCropRegion(mask, pad).y2
  {
  }

  /** ... and with a large enough pad it is "valid again": the whole mask. */
  lemma AllZeroMaskLargePad(mask: Mask, pad: int)
    requires mask.bbox.None? && WellFormed(mask)
    requires mask.width <= pad && mask.height <= pad
    ensures GetCropRegion(mask, pad) == Region(0, 0, mask.width, mask.height)
  {
  }

  // ---------------------------------------------------------------------
  // expand_too_small_crop_region

  /** `_expand_segment`: widen `[c1, c2)` to `desirable` by extending both
      sides equally, shifting it back inside `[0, maximal]` when one side
      crosses a border. With `d` the missing length, the left side moves by
      `d / 2` and the right side by the rest; a segment pushed past 0 is
      moved to start at 0, one pushed to or past `maximal` to end there,
      and either is then cut to fit. */
  function ExpandSegment(c1: int, c2: int, desirable: int, maximal: int): (r: (int, int))
    ensures c2 - c1 >= desirable ==> r == (c1, c2)
    ensures c2 - c1 < desirable ==>
      var d := desirable + c1 - c2;
      (c1 - d / 2 < 0 ==> r == (0, Min(desirable, maximal))) &&
      (0 <= c1 - d / 2 && maximal <= c2 + (d - d / 2) ==> r == (Max(maximal - desirable, 0), maximal)) &&
      (0 <= c1 - d / 2 && c2 + (d - d / 2) < maximal ==>
        c1 - r.0 == d / 2 && r.1 - c2 == d - d / 2 && 0 <= (r.1 - c2) - (c1 - r.0) <= 1)
    ensures c2 - c1 < desirable && 0 <= c1 <= c2 <= maximal ==>
      0 <= r.0 <= r.1 <= maximal && r.1 - r.0 == Min(desirable, maximal) &&
      r.0 <= c1 && c2 <= r.1
  {
    var diff := desirable + c1 - c2;
    if diff > 0 then
      var diffL := diff / 2;
      var a1, a2 := c1 - diffL, c2 + (diff - diffL);
      if a1 < 0 then
        (0, Min(a2 - a1, maximal))
      else if a2 >= maximal then
        (Max(a1 - a2 + maximal, 0), maximal)
      else
        (a1, a2)
    else
      (c1, c2)
  }

  /** Expanding an already expanded segment changes nothing. */
  lemma ExpandSegmentIdempotent(c1: int, c2: int, desirable: int, maximal: int)
    requires 0 <= c1 <= c2 <= maximal
    ensures var r := ExpandSegment(c1, c2, desirable, maximal);
      ExpandSegment(r.0, r.1, desirable, maximal) == r
  {
  }

  /** The region after expansion and whether it differs from the input
      (`expand_too_small_crop_region` prints a notice in that case). */
  datatype Expansion = Expansion(region: Region, corrected: bool)

  function ExpandTooSmallCropRegion(crop: Region, processingWidth: int, processingHeight: int,
                                    imageWidth: int, imageHeight: int): (r: Expansion)
    ensures r.corrected <==> r.region != crop
    ensures crop.x2 - crop.x1 >= processingWidth && crop.y2 - crop.y1 >= processingHeight ==>
      r == Expansion(crop, false)
    ensures Inside(crop, imageWidth, imageHeight) ==>
      Inside(r.region, imageWidth, imageHeight) && Contains(r.region, crop) &&
      r.region.x2 - r.region.x1 ==
        (if crop.x2 - crop.x1 >= processingWidth then crop.x2 - crop.x1 else Min(processingWidth, imageWidth)) &&
      r.region.y2 - r.region.y1 ==
        (if crop.y2 - crop.y1 >= processingHeight then crop.y2 - crop.y1 else Min(processingHeight, imageHeight))
  {
    var (x1, x2) := ExpandSegment(crop.x1, crop.x2, processingWidth, imageWidth);
    var (y1, y2) := ExpandSegment(crop.y1, crop.y2, processingHeight, imageHeight);
    var region := Region(x1, y1, x2, y2);
    Expansion(region, region != crop)
  }

  /** The two axes are expanded independently: the new horizontal extent
      depends only on the old one, the processing width and the image width;
      the vertical one only on the old one and the two heights. */
  lemma ExpandAxesIndependent(a: Region, b: Region, pw: int, ph: int, iw: int, ih: int,
                              pw': int, ph': int, iw': int, ih': int)
    ensures a.x1 == b.x1 && a.x2 == b.x2 ==>
      ExpandTooSmallCropRegion(a, pw, ph, iw, ih).region.x1 == ExpandTooSmallCropRegion(b, pw, ph', iw, ih').region.x1 &&
      ExpandTooSmallCropRegion(a, pw, ph, iw, ih).region.x2 == ExpandTooSmallCropRegion(b, pw, ph', iw, ih').region.x2
    ensures a.y1 == b.y1 && a.y2 == b.y2 ==>
      ExpandTooSmallCropRegion(a, pw, ph, iw, ih).region.y1 == ExpandTooSmallCropRegion(b, pw', ph, iw', ih).region.y1 &&
      ExpandTooSmallCropRegion(a, pw, ph, iw, ih).region.y2 == ExpandTooSmallCropRegion(b, pw', ph, iw', ih).region.y2
  {
  }

  /** A region inside the image that has been expanded once is not
      corrected a second time. */
  lemma ExpandTooSmallIdempotent(crop: Region, pw: int, ph: int, iw: int, ih: int)
    requires Inside(crop, iw, ih)
    ensures var once := ExpandTooSmallCropRegion(crop, pw, ph, iw, ih).region;
      ExpandTooSmallCropRegion(once, pw, ph, iw, ih) == Expansion(once, false)
  {
  }
}
