/**
 * The pure helpers of Drive_HTML.py: the largest crop box of a given aspect
 * ratio that fits an image, with the range its centre may take, and the
 * file id of a Google Drive link tried against three patterns in order.
 */
module DriveHtml {
  import opened Wrappers
  import opened Text

  /** `crop_width, crop_height, (min_cx, max_cx, min_cy, max_cy)` */
  datatype Crop = Crop(width: int, height: int, minCx: int, maxCx: int, minCy: int, maxCy: int)

  /**
   * `get_largest_crop_fit(w, h, (a, b))`, with `int(x * a / b)` read as
   * floor division (the operands are non-negative). The width is tried at
   * full height first; if it does not fit, the full width is used. The box
   * lies inside the image, spans it in at least one dimension, and leaves
   * its centre a non-empty range half a box away from each edge.
   */
  function LargestCropFit(w: nat, h: nat, a: nat, b: nat): (c: Crop)
    requires b > 0
    ensures c.width <= w && c.height <= h
    ensures c.width == w || c.height == h
    ensures c.minCx == c.width / 2 && c.maxCx == w - c.width / 2
    ensures c.minCy == c.height / 2 && c.maxCy == h - c.height / 2
    ensures c.minCx <= c.maxCx && c.minCy <= c.maxCy
  {
    var byHeight := h * a / b;
    if byHeight <= w then
      Crop(byHeight, h, byHeight / 2, w - byHeight / 2, h / 2, h - h / 2)
    else
      OverWidthNeedsRatio(w, h, a, b);
      WidthCaseFits(w, h, a, b);
      var byWidth := w * b / a;
      Crop(w, byWidth, w / 2, w - w / 2, byWidth / 2, h - byWidth / 2)
  }

  /** The full-height box can only be too wide when `a` is positive, so `/ a` is safe. */
  lemma OverWidthNeedsRatio(w: nat, h: nat, a: nat, b: nat)
    requires b > 0 && h * a / b > w
    ensures a > 0
  {
  }

  /** When the full-height box is too wide, the full-width box is lower than the image. */
  lemma WidthCaseFits(w: nat, h: nat, a: nat, b: nat)
    requires a > 0 && b > 0 && h * a / b > w
    ensures w * b / a < h
  {
    // w * b < (h * a / b) * b <= h * a
    DivBounds(h * a, b);
    MulLess(w, h * a / b, b);
    DivBelow(w * b, a, h);
  }

  lemma MulLess(p: nat, q: nat, d: nat)
    requires p < q && d > 0
    ensures p * d < q * d
  {
  }

  /** `x / d < y` whenever `x < y * d`. */
  lemma DivBelow(x: nat, d: nat, y: nat)
    requires d > 0 && x < y * d
    ensures x / d < y
  {
  }

  /** Which branch is taken, stated on the inputs. */
  lemma CropBranch(w: nat, h: nat, a: nat, b: nat)
    requires b > 0
    ensures h * a / b <= w ==> LargestCropFit(w, h, a, b).width == h * a / b && LargestCropFit(w, h, a, b).height == h
    ensures h * a / b > w ==> a > 0 && LargestCropFit(w, h, a, b).width == w && LargestCropFit(w, h, a, b).height == w * b / a
  {
    if h * a / b > w {
      OverWidthNeedsRatio(w, h, a, b);
    }
  }

  /**
   * The box keeps the ratio `a : b` up to truncation: at full height the
   * width is the largest whole number with `width * b <= h * a`, at full
   * width the height is the largest with `height * a <= w * b`.
   */
  lemma CropRatio(w: nat, h: nat, a: nat, b: nat)
    requires b > 0
    ensures var c := LargestCropFit(w, h, a, b);
      h * a / b <= w ==> c.width * b <= h * a < (c.width + 1) * b
    ensures var c := LargestCropFit(w, h, a, b);
      h * a / b > w ==> c.height * a <= w * b < (c.height + 1) * a
  {
    if h * a / b <= w {
      DivBounds(h * a, b);
    } else {
      OverWidthNeedsRatio(w, h, a, b);
      DivBounds(w * b, a);
    }
  }

  lemma DivBounds(x: nat, d: nat)
    requires d > 0
    ensures (x / d) * d <= x < (x / d + 1) * d
  {
  }

  /** The three link shapes of `extract_file_id`, tried in this order. */
  const Patterns: seq<string> := ["drive.google.com/file/d/", "id=", "drive.google.com/open?id="]

  /** The index of the first pattern, from the `k`-th on, that matches anywhere in `link`; `|patterns|` if none does. */
  function FirstMatching(link: string, patterns: seq<string>, k: nat): (j: nat)
    requires k <= |patterns|
    decreases |patterns| - k
    ensures k <= j <= |patterns|
    ensures forall i :: k <= i < j ==> SearchId(link, patterns[i]).None?
    ensures j < |patterns| ==> SearchId(link, patterns[j]).Some?
  {
    if k == |patterns| || SearchId(link, patterns[k]).Some? then k
    else FirstMatching(link, patterns, k + 1)
  }

  /**
   * `extract_file_id(link)`: the loop over the patterns returns the capture
   * of the first one that matches, or `None` when none does.
   */
  method ExtractFileId(link: string) returns (r: Option<string>)
    ensures var j := FirstMatching(link, Patterns, 0);
      r == if j < |Patterns| then SearchId(link, Patterns[j]) else None
    ensures r.Some? ==> |r.value| > 0 && AllIdChars(r.value)
  {
    var patterns := Patterns;
    var k := 0;
    while k < |patterns|
      invariant 0 <= k <= |patterns|
      invariant forall i :: 0 <= i < k ==> SearchId(link, patterns[i]).None?
    {
      var m := SearchId(link, patterns[k]);
      if m.Some? {
        IdIsIdChars(link, patterns[k]);
        return m;
      }
      k := k + 1;
    }
    return None;
  }

  /** A capture consists of id characters only. */
  lemma IdIsIdChars(link: string, lit: string)
    ensures SearchId(link, lit).Some? ==> AllIdChars(SearchId(link, lit).value)
  {
  }

  /**
   * `open?id=` ends in `id=`: wherever the third pattern matches, the second
   * matches too, so the third pattern never decides the result.
   */
  lemma ThirdPatternRedundant(link: string)
    ensures SearchId(link, Patterns[2]).Some? ==> SearchId(link, Patterns[1]).Some?
    ensures FirstMatching(link, Patterns, 0) != 2
  {
    var open, id := Patterns[2], Patterns[1];
    if SearchId(link, open).Some? {
      var i: nat :| CaptureAt(link, open, i);
      assert open[22..] == id;
      assert link[i + 22..i + 25] == link[i..i + 25][22..];
      assert CaptureAt(link, id, i + 22);
    }
  }
}
