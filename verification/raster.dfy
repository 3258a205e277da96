/**
 * Grayscale images as rectangular grids of 8-bit intensities, numpy-style
 * slicing, and the integer image helpers of `ImageProcessor`
 * (backend/services/image_processing.py).
 */
module Raster {
  import opened Wrappers
  import opened Arith

  type Pixel = x: int | 0 <= x <= 255

  /** All rows have the width of the first one. */
  predicate IsGrid(g: seq<seq<Pixel>>) {
    forall i :: 0 <= i < |g| ==> |g[i]| == |g[0]|
  }

  /** A single-channel image, row-major. A zero-row image carries no width. */
  type Image = g: seq<seq<Pixel>> | IsGrid(g) witness []

  function Height(img: Image): nat { |img| }

  function Width(img: Image): nat { if |img| == 0 then 0 else |img[0]| }

  function PixelCount(img: Image): nat { Height(img) * Width(img) }

  predicate SameShape(a: Image, b: Image) {
    Height(a) == Height(b) && Width(a) == Width(b)
  }

  /** Applies `f` to every pixel. */
  function MapPixels(img: Image, f: Pixel -> Pixel): (r: Image)
    ensures SameShape(r, img)
    ensures forall i, j :: 0 <= i < Height(img) && 0 <= j < Width(img) ==> r[i][j] == f(img[i][j])
  {
    var r := seq(|img|, i requires 0 <= i < |img| => seq(|img[i]|, j requires 0 <= j < |img[i]| => f(img[i][j])));
    assert IsGrid(r);
    r
  }

  // ---------------------------------------------------------------------------
  // Slicing

  function Clamp(a: nat, n: nat): nat { if a <= n then a else n }

  /** The numpy crop `img[top:bottom, left:right]`: both bounds of each axis clamp to its extent. */
  function Crop(img: Image, top: nat, bottom: nat, left: nat, right: nat): (r: Image)
    ensures Height(r) <= Height(img) && Width(r) <= Width(img)
    ensures top <= bottom <= Height(img) && left <= right <= Width(img) && top < bottom ==>
      Height(r) == bottom - top && Width(r) == right - left &&
      forall i, j :: 0 <= i < bottom - top && 0 <= j < right - left ==> r[i][j] == img[top + i][left + j]
  {
    var lo, hi := Clamp(top, Height(img)), Clamp(bottom, Height(img));
    var l, rt := Clamp(left, Width(img)), Clamp(right, Width(img));
    if lo < hi then Block(img, lo, hi, l, if l <= rt then rt else l) else []
  }

  /** The pixels `row[lo..hi]`. */
  function Cells(row: seq<Pixel>, lo: nat, hi: nat): (r: seq<Pixel>)
    requires lo <= hi <= |row|
    ensures |r| == hi - lo
    ensures forall j :: 0 <= j < hi - lo ==> r[j] == row[lo + j]
    decreases hi - lo
  {
    if lo == hi then [] else [row[lo]] + Cells(row, lo + 1, hi)
  }

  /** Rows `lo..hi` of `img`, each cut to the columns `[left, right)`. */
  function Block(img: Image, lo: nat, hi: nat, left: nat, right: nat): (r: seq<seq<Pixel>>)
    requires lo <= hi <= Height(img) && left <= right <= Width(img)
    ensures |r| == hi - lo
    ensures forall i :: 0 <= i < hi - lo ==> |r[i]| == right - left
    ensures forall i, j :: 0 <= i < hi - lo && 0 <= j < right - left ==> r[i][j] == img[lo + i][left + j]
    decreases hi - lo
  {
    if lo == hi then [] else [Cells(img[lo], left, right)] + Block(img, lo + 1, hi, left, right)
  }

  // ---------------------------------------------------------------------------
  // Thresholds

  /** Ink under `THRESH_BINARY_INV` at 127: anything not brighter than 127. */
  predicate IsInk(p: Pixel) { p <= 127 }

  /**
   * `cv2.threshold(img, 127, 255, THRESH_BINARY_INV)`: ink becomes 255, paper 0.
   */
  function BinarizeInv(img: Image): (r: Image)
    ensures SameShape(r, img)
    ensures forall i, j :: 0 <= i < Height(img) && 0 <= j < Width(img) ==>
      (r[i][j] == 255 <==> IsInk(img[i][j])) && (r[i][j] == 0 <==> !IsInk(img[i][j]))
  {
    MapPixels(img, p => if p > 127 then 0 else 255)
  }

  /** `cv2.threshold(img, t, 255, THRESH_BINARY)`: above `t` becomes 255, the rest 0. */
  function Threshold(img: Image, t: int): (r: Image)
    ensures SameShape(r, img)
    ensures forall i, j :: 0 <= i < Height(img) && 0 <= j < Width(img) ==>
      (r[i][j] == 255 <==> img[i][j] > t) && (r[i][j] == 0 <==> img[i][j] <= t)
  {
    MapPixels(img, p => if p > t then 255 else 0)
  }

  /** Thresholding a thresholded image again at the same level changes nothing, whatever the level. */
  lemma ThresholdIdempotent(img: Image, t: int)
    ensures Threshold(Threshold(img, t), t) == Threshold(img, t)
  {
    var a := Threshold(img, t);
    var b := Threshold(a, t);
    assert |b| == |a|;
    forall i | 0 <= i < |a| ensures b[i] == a[i] {
      assert |b[i]| == Width(b) == Width(a) == |a[i]|;
    }
  }

  /** The inverse binarization is the plain threshold at 127, complemented. */
  lemma BinarizeInvIsComplement(img: Image)
    ensures SameShape(BinarizeInv(img), Threshold(img, 127))
    ensures forall i, j :: 0 <= i < Height(img) && 0 <= j < Width(img) ==>
      BinarizeInv(img)[i][j] == 255 - Threshold(img, 127)[i][j]
  {
  }

  // ---------------------------------------------------------------------------
  // Gaussian blur kernel size (the `blur` step of `enhance_image`)

  /** `None` when no blur is applied; otherwise the least odd size not below `blur`. */
  function BlurKernelSize(blur: int): (r: Option<int>)
    ensures r.None? <==> blur <= 0
    ensures r.Some? ==> r.value % 2 == 1 && blur <= r.value <= blur + 1
    ensures r.Some? ==> forall k :: blur <= k < r.value ==> k % 2 == 0
  {
    if blur <= 0 then None
    else if blur % 2 == 1 then Some(blur)
    else Some(blur + 1)
  }

  // ---------------------------------------------------------------------------
  // Inversion of dark-background images

  function RowSum(row: seq<Pixel>): nat {
    if |row| == 0 then 0 else RowSum(row[..|row| - 1]) + row[|row| - 1]
  }

  function Sum(img: seq<seq<Pixel>>): nat {
    if |img| == 0 then 0 else Sum(img[..|img| - 1]) + RowSum(img[|img| - 1])
  }

  /** `cv2.bitwise_not` on 8-bit pixels. */
  function Invert(img: Image): (r: Image)
    ensures SameShape(r, img)
    ensures forall i, j :: 0 <= i < Height(img) && 0 <= j < Width(img) ==> r[i][j] == 255 - img[i][j]
  {
    MapPixels(img, p => 255 - p)
  }

  /** The mean intensity is below 127, as an integer comparison: sum < 127 * count. */
  predicate IsDark(img: Image) {
    Sum(img) < 127 * PixelCount(img)
  }

  /**
   * `invert_if_needed`: dark images are inverted, others returned unchanged. An
   * image without pixels has an undefined (NaN) mean, which is not below 127.
   */
  function InvertIfNeeded(img: Image): (r: Image)
    ensures SameShape(r, img)
    ensures IsDark(img) ==> forall i, j :: 0 <= i < Height(img) && 0 <= j < Width(img) ==> r[i][j] == 255 - img[i][j]
    ensures !IsDark(img) ==> r == img
    ensures !IsDark(r)
  {
    if IsDark(img) then
      InvertSum(img);
      Invert(img)
    else img
  }

  lemma {:induction false} InvertRowSum(row: seq<Pixel>, inv: seq<Pixel>)
    requires |inv| == |row|
    requires forall j :: 0 <= j < |row| ==> inv[j] == 255 - row[j]
    ensures RowSum(inv) == 255 * |row| - RowSum(row)
  {
    if |row| > 0 {
      InvertRowSum(row[..|row| - 1], inv[..|row| - 1]);
    }
  }

  lemma {:induction false} InvertRowsSum(img: seq<seq<Pixel>>, inv: seq<seq<Pixel>>, w: nat)
    requires |inv| == |img|
    requires forall i :: 0 <= i < |img| ==> |img[i]| == w && |inv[i]| == w
    requires forall i, j :: 0 <= i < |img| && 0 <= j < w ==> inv[i][j] == 255 - img[i][j]
    ensures Sum(inv) == 255 * (|img| * w) - Sum(img)
  {
    if |img| > 0 {
      var n := |img| - 1;
      assert forall i :: 0 <= i < n ==> img[..n][i] == img[i] && inv[..n][i] == inv[i];
      InvertRowsSum(img[..n], inv[..n], w);
      InvertRowSum(img[n], inv[n]);
      MulSplit(n, w);
    }
  }

  lemma MulSplit(n: nat, w: nat)
    ensures 255 * ((n + 1) * w) == 255 * (n * w) + 255 * w
  {
  }

  /** Inverting flips the sum around 255 per pixel. */
  lemma InvertSum(img: Image)
    ensures Sum(Invert(img)) == 255 * PixelCount(img) - Sum(img)
  {
    InvertRowsSum(img, Invert(img), Width(img));
  }

  /** Running the inversion rule twice is the same as once. */
  lemma InvertIfNeededIdempotent(img: Image)
    ensures InvertIfNeeded(InvertIfNeeded(img)) == InvertIfNeeded(img)
  {
  }

  // ---------------------------------------------------------------------------
  // Border removal

  /** A pixel darker than the border threshold, i.e. part of the content. */
  predicate IsContent(img: Image, t: int, i: int, j: int) {
    0 <= i < Height(img) && 0 <= j < Width(img) && img[i][j] < t
  }

  predicate RowHasContent(img: Image, t: int, i: int) {
    exists j :: 0 <= j < Width(img) && IsContent(img, t, i, j)
  }

  predicate ColHasContent(img: Image, t: int, j: int) {
    exists i :: 0 <= i < Height(img) && IsContent(img, t, i, j)
  }

  /** Rows or columns of an image. */
  datatype Axis = Rows | Cols

  /** Row or column `k` holds a content pixel. */
  predicate LaneHasContent(img: Image, t: int, axis: Axis, k: int) {
    if axis == Rows then RowHasContent(img, t, k) else ColHasContent(img, t, k)
  }

  /** The least `k` in [lo, hi) whose lane holds content, or `hi` when there is none. */
  function FirstLane(img: Image, t: int, axis: Axis, lo: nat, hi: nat): (k: nat)
    requires lo <= hi
    ensures lo <= k <= hi
    ensures k < hi ==> LaneHasContent(img, t, axis, k)
    ensures forall m :: lo <= m < k ==> !LaneHasContent(img, t, axis, m)
    decreases hi - lo
  {
    if lo == hi then hi
    else if LaneHasContent(img, t, axis, lo) then lo
    else FirstLane(img, t, axis, lo + 1, hi)
  }

  /** The greatest `k` in [lo, hi) whose lane holds content, or `lo` when there is none. */
  function LastLane(img: Image, t: int, axis: Axis, lo: nat, hi: nat): (k: nat)
    requires lo < hi
    ensures lo <= k < hi
    ensures LaneHasContent(img, t, axis, k) || k == lo
    ensures forall m :: k < m < hi ==> !LaneHasContent(img, t, axis, m)
    decreases hi - lo
  {
    if LaneHasContent(img, t, axis, hi - 1) || lo == hi - 1 then hi - 1
    else LastLane(img, t, axis, lo, hi - 1)
  }

  predicate HasContent(img: Image, t: int) {
    exists i, j :: 0 <= i < Height(img) && 0 <= j < Width(img) && IsContent(img, t, i, j)
  }

  /** The tight bounding window of the content pixels, as inclusive row and column bounds. */
  datatype Window = Window(yMin: nat, yMax: nat, xMin: nat, xMax: nat)

  /**
   * `b` holds every content pixel, and each of its four edges touches one: no
   * smaller window holds them all.
   */
  ghost predicate TightWindow(img: Image, t: int, b: Window) {
    && b.yMin <= b.yMax < Height(img) && b.xMin <= b.xMax < Width(img)
    && (forall i, j :: IsContent(img, t, i, j) ==> b.yMin <= i <= b.yMax && b.xMin <= j <= b.xMax)
    && RowHasContent(img, t, b.yMin) && RowHasContent(img, t, b.yMax)
    && ColHasContent(img, t, b.xMin) && ColHasContent(img, t, b.xMax)
  }

  function ContentWindow(img: Image, t: int): (b: Window)
    requires HasContent(img, t)
    ensures TightWindow(img, t, b)
  {
    ContentWindowTight(img, t);
    Window(
      FirstLane(img, t, Rows, 0, Height(img)), LastLane(img, t, Rows, 0, Height(img)),
      FirstLane(img, t, Cols, 0, Width(img)), LastLane(img, t, Cols, 0, Width(img)))
  }

  lemma ContentWindowTight(img: Image, t: int)
    requires HasContent(img, t)
    ensures Height(img) > 0 && Width(img) > 0
    ensures TightWindow(img, t, Window(
      FirstLane(img, t, Rows, 0, Height(img)), LastLane(img, t, Rows, 0, Height(img)),
      FirstLane(img, t, Cols, 0, Width(img)), LastLane(img, t, Cols, 0, Width(img))))
  {
    var i0, j0 :| 0 <= i0 < Height(img) && 0 <= j0 < Width(img) && IsContent(img, t, i0, j0);
    assert RowHasContent(img, t, i0) && ColHasContent(img, t, j0);
    assert LaneHasContent(img, t, Rows, i0) && LaneHasContent(img, t, Cols, j0);
    var yMin := FirstLane(img, t, Rows, 0, Height(img));
    var yMax := LastLane(img, t, Rows, 0, Height(img));
    var xMin := FirstLane(img, t, Cols, 0, Width(img));
    var xMax := LastLane(img, t, Cols, 0, Width(img));
    forall i, j | IsContent(img, t, i, j)
      ensures yMin <= i <= yMax && xMin <= j <= xMax
    {
      assert RowHasContent(img, t, i) && ColHasContent(img, t, j);
      assert LaneHasContent(img, t, Rows, i) && LaneHasContent(img, t, Cols, j);
    }
  }

  /**
   * `remove_borders`: with no pixel darker than `t` the image is returned as is;
   * otherwise it is cropped to the smallest window holding every such pixel.
   */
  function RemoveBorders(img: Image, t: int): (r: Image)
    ensures !HasContent(img, t) ==> r == img
    ensures Height(r) <= Height(img) && Width(r) <= Width(img)
  {
    if !HasContent(img, t) then img
    else
      var b := ContentWindow(img, t);
      Crop(img, b.yMin, b.yMax + 1, b.xMin, b.xMax + 1)
  }

  /** `r` is the window `b` of `img`: its size, with every pixel shifted by the window's corner. */
  ghost predicate ShowsWindow(img: Image, b: Window, r: Image) {
    && b.yMin <= b.yMax < Height(img) && b.xMin <= b.xMax < Width(img)
    && Height(r) == b.yMax - b.yMin + 1 && Width(r) == b.xMax - b.xMin + 1
    && (forall i, j :: 0 <= i < Height(r) && 0 <= j < Width(r) ==> r[i][j] == img[b.yMin + i][b.xMin + j])
  }

  /** The first and last rows and columns of a non-empty image each hold content. */
  predicate EdgesTouch(r: Image, t: int) {
    && Height(r) > 0
    && RowHasContent(r, t, 0) && RowHasContent(r, t, Height(r) - 1)
    && ColHasContent(r, t, 0) && ColHasContent(r, t, Width(r) - 1)
  }

  /** With content present, the result is the content window of the image, shifted to the origin. */
  lemma RemoveBordersShows(img: Image, t: int)
    requires HasContent(img, t)
    ensures ShowsWindow(img, ContentWindow(img, t), RemoveBorders(img, t))
  {
    RemoveBordersCrop(img, t);
    WindowShape(img, ContentWindow(img, t), RemoveBorders(img, t));
  }

  /** With content present, every edge of the result touches content: no border is left. */
  lemma RemoveBordersEdges(img: Image, t: int)
    requires HasContent(img, t)
    ensures EdgesTouch(RemoveBorders(img, t), t)
  {
    RemoveBordersShows(img, t);
    CropKeepsContent(img, t, ContentWindow(img, t), RemoveBorders(img, t));
  }

  /** The window crop has the window's size and shows the image shifted by its corner. */
  lemma WindowShape(img: Image, b: Window, r: Image)
    requires b.yMin <= b.yMax < Height(img) && b.xMin <= b.xMax < Width(img)
    requires r == Crop(img, b.yMin, b.yMax + 1, b.xMin, b.xMax + 1)
    ensures ShowsWindow(img, b, r)
  {
    CropShape(img, b.yMin, b.yMax + 1, b.xMin, b.xMax + 1);
    WindowPixels(img, b, r);
  }

  lemma WindowPixels(img: Image, b: Window, r: Image)
    requires b.yMin <= b.yMax < Height(img) && b.xMin <= b.xMax < Width(img)
    requires r == Crop(img, b.yMin, b.yMax + 1, b.xMin, b.xMax + 1)
    requires Height(r) == b.yMax - b.yMin + 1 && Width(r) == b.xMax - b.xMin + 1
    ensures forall i, j :: 0 <= i < Height(r) && 0 <= j < Width(r) ==> r[i][j] == img[b.yMin + i][b.xMin + j]
  {
    forall i, j | 0 <= i < Height(r) && 0 <= j < Width(r)
      ensures r[i][j] == img[b.yMin + i][b.xMin + j]
    {
      CropPixel(img, b.yMin, b.yMax + 1, b.xMin, b.xMax + 1, i, j);
    }
  }

  /** An in-bounds, non-empty crop has exactly the requested dimensions. */
  lemma CropShape(img: Image, top: nat, bottom: nat, left: nat, right: nat)
    requires top < bottom <= Height(img) && left <= right <= Width(img)
    ensures Height(Crop(img, top, bottom, left, right)) == bottom - top
    ensures Width(Crop(img, top, bottom, left, right)) == right - left
  {
  }

  /** Each pixel of an in-bounds crop is the source pixel shifted by the crop origin. */
  lemma CropPixel(img: Image, top: nat, bottom: nat, left: nat, right: nat, i: nat, j: nat)
    requires top < bottom <= Height(img) && left <= right <= Width(img)
    requires i < bottom - top && j < right - left
    ensures i < Height(Crop(img, top, bottom, left, right)) && j < Width(Crop(img, top, bottom, left, right))
    ensures Crop(img, top, bottom, left, right)[i][j] == img[top + i][left + j]
  {
  }

  lemma CropKeepsContent(img: Image, t: int, b: Window, r: Image)
    requires TightWindow(img, t, b)
    requires ShowsWindow(img, b, r)
    ensures EdgesTouch(r, t)
  {
    WindowRow(img, t, b, r, b.yMin);
    WindowRow(img, t, b, r, b.yMax);
    WindowCol(img, t, b, r, b.xMin);
    WindowCol(img, t, b, r, b.xMax);
  }

  lemma WindowRow(img: Image, t: int, b: Window, r: Image, i: int)
    requires TightWindow(img, t, b)
    requires ShowsWindow(img, b, r)
    requires i == b.yMin || i == b.yMax
    ensures RowHasContent(r, t, i - b.yMin)
  {
    var j :| 0 <= j < Width(img) && IsContent(img, t, i, j);
    WindowPixel(img, t, b, r, i, j);
  }

  lemma WindowCol(img: Image, t: int, b: Window, r: Image, j: int)
    requires TightWindow(img, t, b)
    requires ShowsWindow(img, b, r)
    requires j == b.xMin || j == b.xMax
    ensures ColHasContent(r, t, j - b.xMin)
  {
    var i :| 0 <= i < Height(img) && IsContent(img, t, i, j);
    WindowPixel(img, t, b, r, i, j);
  }

  /** A content pixel of the image sits at the shifted position in the window crop. */
  lemma WindowPixel(img: Image, t: int, b: Window, r: Image, i: int, j: int)
    requires b.yMin <= b.yMax < Height(img) && b.xMin <= b.xMax < Width(img)
    requires ShowsWindow(img, b, r)
    requires IsContent(img, t, i, j)
    requires b.yMin <= i <= b.yMax && b.xMin <= j <= b.xMax
    ensures IsContent(r, t, i - b.yMin, j - b.xMin)
  {
    assert r[i - b.yMin][j - b.xMin] == img[b.yMin + (i - b.yMin)][b.xMin + (j - b.xMin)];
  }

  /** Cropping an already cropped image at the same threshold changes nothing. */
  lemma RemoveBordersIdempotent(img: Image, t: int)
    ensures RemoveBorders(RemoveBorders(img, t), t) == RemoveBorders(img, t)
  {
    if HasContent(img, t) {
      RemoveBordersEdges(img, t);
      RemoveBordersFixed(RemoveBorders(img, t), t);
    }
  }

  /** An image whose four edges all touch content has no border to remove. */
  lemma RemoveBordersFixed(r: Image, t: int)
    requires EdgesTouch(r, t)
    ensures RemoveBorders(r, t) == r
  {
    FixedWindow(r, t);
    RemoveBordersCrop(r, t);
    CropWhole(r, ContentWindow(r, t));
  }

  /** When every edge of an image touches content, the content window is the whole image. */
  lemma FixedWindow(r: Image, t: int)
    requires EdgesTouch(r, t)
    ensures HasContent(r, t) && Width(r) > 0
    ensures ContentWindow(r, t) == Window(0, Height(r) - 1, 0, Width(r) - 1)
  {
    EdgesHaveContent(r, t);
    EdgesFixWindow(r, t, ContentWindow(r, t));
  }

  lemma EdgesHaveContent(r: Image, t: int)
    requires EdgesTouch(r, t)
    ensures HasContent(r, t)
  {
    var j :| 0 <= j < Width(r) && IsContent(r, t, 0, j);
  }

  /** With content present, `remove_borders` crops to the content window. */
  lemma RemoveBordersCrop(img: Image, t: int)
    requires HasContent(img, t)
    ensures var b := ContentWindow(img, t);
      RemoveBorders(img, t) == Crop(img, b.yMin, b.yMax + 1, b.xMin, b.xMax + 1)
  {
  }

  /** When every edge of an image touches content, the tight window is the whole image. */
  lemma EdgesFixWindow(r: Image, t: int, b: Window)
    requires TightWindow(r, t, b)
    requires EdgesTouch(r, t)
    ensures b == Window(0, Height(r) - 1, 0, Width(r) - 1)
  {
    var j1 :| 0 <= j1 < Width(r) && IsContent(r, t, 0, j1);
    var j2 :| 0 <= j2 < Width(r) && IsContent(r, t, Height(r) - 1, j2);
    var i1 :| 0 <= i1 < Height(r) && IsContent(r, t, i1, 0);
    var i2 :| 0 <= i2 < Height(r) && IsContent(r, t, i2, Width(r) - 1);
  }

  /** Cropping to the full extent returns the image itself. */
  lemma CropWhole(r: Image, b: Window)
    requires Height(r) > 0 && Width(r) > 0 && b == Window(0, Height(r) - 1, 0, Width(r) - 1)
    ensures Crop(r, b.yMin, b.yMax + 1, b.xMin, b.xMax + 1) == r
  {
    var c := Crop(r, 0, Height(r), 0, Width(r));
    assert |c| == |r|;
    forall i | 0 <= i < |r| ensures c[i] == r[i] {
      assert |c[i]| == Width(c) == Width(r) == |r[i]|;
    }
  }

  // ---------------------------------------------------------------------------
  // Resizing guard

  /** Both sides are within the limits: `resize_image` returns the input itself. */
  predicate FitsWithin(h: nat, w: nat, maxWidth: int, maxHeight: int) {
    w <= maxWidth && h <= maxHeight
  }

  /**
   * The target size `(new_w, new_h)` of `resize_image` for an image that does not
   * fit, computed in exact arithmetic: the scale is min(maxWidth / w, maxHeight / h)
   * and each side is truncated to an integer.
   */
  function ResizeTarget(h: nat, w: nat, maxWidth: nat, maxHeight: nat): (r: (nat, nat))
    requires h > 0 && w > 0
    ensures r.0 <= maxWidth && r.1 <= maxHeight
    ensures r.0 == maxWidth || r.1 == maxHeight
    ensures !FitsWithin(h, w, maxWidth, maxHeight) ==> r.0 <= w && r.1 <= h
  {
    if maxWidth * h <= maxHeight * w then
      // the scale is maxWidth / w
      var s := FittedSide(h, w, maxWidth, maxHeight);
      (maxWidth, s)
    else
      // the scale is maxHeight / h
      var s := FittedSide(w, h, maxHeight, maxWidth);
      (s, maxHeight)
  }

  /**
   * Side `a` scaled by `mb / b`, truncated, when that scale is the smaller one
   * (`mb / b <= ma / a`): it stays within `ma`, and within `a` when one side
   * overflows its limit.
   */
  function FittedSide(a: nat, b: nat, mb: nat, ma: nat): (s: nat)
    requires a > 0 && b > 0 && mb * a <= ma * b
    ensures s <= ma
    ensures (b > mb || a > ma) ==> mb <= b && s <= a
  {
    FittedSideBounds(a, b, mb, ma);
    (a * mb) / b
  }

  lemma FittedSideBounds(a: nat, b: nat, mb: nat, ma: nat)
    requires a > 0 && b > 0 && mb * a <= ma * b
    ensures (a * mb) / b <= ma
    ensures (b > mb || a > ma) ==> mb <= b && (a * mb) / b <= a
  {
    DivLe(a * mb, b, ma);
    if a > ma {
      MulStrict(b, ma, a);
      MulCancelLe(a, mb, b);
    }
    if b > mb || a > ma {
      MulMono(a, mb, b);
      DivLe(a * mb, b, a);
    }
  }

  /**
   * `resize_image`: the image itself when it already fits, otherwise what the
   * library resize returns for the target size. Zero-size sides that do not fit
   * divide by zero, and the library refuses a target with a zero side.
   */
  function ResizeImage(img: Image, maxWidth: nat, maxHeight: nat, resize: (nat, nat) -> Image): (r: Result<Image>)
    ensures FitsWithin(Height(img), Width(img), maxWidth, maxHeight) ==> r == Success(img)
    ensures r == Failure(DivisionByZero) <==> !FitsWithin(Height(img), Width(img), maxWidth, maxHeight) && PixelCount(img) == 0
    ensures r.Failure? ==> !FitsWithin(Height(img), Width(img), maxWidth, maxHeight)
    ensures !FitsWithin(Height(img), Width(img), maxWidth, maxHeight) && PixelCount(img) > 0 && (maxWidth == 0 || maxHeight == 0) ==>
      r == Failure(EmptyResize)
    ensures r.Success? && !FitsWithin(Height(img), Width(img), maxWidth, maxHeight) ==>
      exists nw, nh :: 0 < nw <= maxWidth && 0 < nh <= maxHeight && (nw == maxWidth || nh == maxHeight) && r.value == resize(nw, nh)
  {
    if FitsWithin(Height(img), Width(img), maxWidth, maxHeight) then Success(img)
    else if Height(img) == 0 || Width(img) == 0 then Failure(DivisionByZero)
    else
      var size := ResizeTarget(Height(img), Width(img), maxWidth, maxHeight);
      if size.0 == 0 || size.1 == 0 then Failure(EmptyResize)
      else Success(resize(size.0, size.1))
  }
}
