/** The state of the XRF map explorer (`XRFInteract`): a map of per-pixel
    spectra (`counts[row][column][bin]`), the ROI mask and its overlay, the
    image shown on the map axes with its colour limits, and the two text
    annotations. Mouse clicks on the map and spans selected on the spectrum
    are pure transitions. Counts are whole numbers here (the normalisation
    by a scaler is not modelled), and whatever needs floating point or
    foreign geometry (the nearest pixel to a click, the lasso's point in
    polygon test, spectrum means) arrives as a parameter or is recorded only
    by what it was computed from. */
module XrfExplorer {
  import opened Options
  import opened Format
  import opened XrfOverlay

  type Counts = seq<seq<seq<nat>>>
  type Image = seq<seq<nat>>

  predicate IsGrid<T>(g: seq<seq<T>>, h: nat, w: nat)
  {
    |g| == h && forall r :: 0 <= r < h ==> |g[r]| == w
  }

  predicate IsCube(c: Counts, h: nat, w: nat, n: nat)
  {
    IsGrid(c, h, w) && forall r, q :: 0 <= r < h && 0 <= q < w ==> |c[r][q]| == n
  }

  function Filled<T>(h: nat, w: nat, v: T): (g: seq<seq<T>>)
    ensures IsGrid(g, h, w)
    ensures forall r, q :: 0 <= r < h && 0 <= q < w ==> g[r][q] == v
  {
    seq(h, _ => seq(w, _ => v))
  }

  datatype Point = Point(x: real, y: real)

  /** The pixel annotation (`_pixel_txt`). The coordinates that follow the pixel indices
      in the source's text are floating point and are not modelled. */
  datatype Caption = MapAverage | PixelAt(row: nat, col: nat) | LassoMask

  /** What the spectrum line shows. */
  datatype Spectrum = MeanOfMap | PixelSpectrum(values: seq<nat>) | MeanOfMask

  /** The colour limits of the map image: left to autoscaling, or set explicitly. */
  datatype Clim = Autoscaled | Limits(lo: int, hi: int)

  /** Where a click happened: outside any axes, or in axes with the given gid. */
  datatype Target = NoAxes | InAxes(gid: Option<string>)

  datatype Click = Click(target: Target, button: int, key: Option<string>, at: Point)

  datatype Explorer = Explorer(
    counts: Counts,
    height: nat,
    width: nat,
    bins: nat,
    mask: Mask,
    maskImage: Rgba,
    marker: seq<Point>,
    caption: Caption,
    roiText: string,
    spectrum: Spectrum,
    image: Image,
    clim: Clim,
    lasso: Option<Point>)

  /** The object invariant: shapes agree and the overlay shows the current mask. */
  ghost predicate Valid(e: Explorer)
  {
    && e.height > 0 && e.width > 0
    && IsCube(e.counts, e.height, e.width, e.bins)
    && IsGrid(e.mask, e.height, e.width)
    && e.maskImage == OverlayImage(e.mask)
    && IsGrid(e.image, e.height, e.width)
  }

  /** The sum of a sequence of counts. */
  function Sum(s: seq<nat>): nat
    decreases |s|
  {
    if |s| == 0 then 0 else s[0] + Sum(s[1..])
  }

  lemma {:induction false} SumConcat(a: seq<nat>, b: seq<nat>)
    ensures Sum(a + b) == Sum(a) + Sum(b)
    decreases |a|
  {
    if |a| > 0 {
      SumConcat(a[1..], b);
      assert (a + b)[0] == a[0];
      assert (a + b)[1..] == a[1..] + b;
    } else {
      assert a + b == b;
    }
  }

  /** `counts[:, :, lo:hi].sum(axis=2)` for in-range bounds `lo <= hi <= bins`. */
  function BandImage(c: Counts, h: nat, w: nat, n: nat, lo: nat, hi: nat): (img: Image)
    requires IsCube(c, h, w, n)
    requires lo <= hi <= n
    ensures IsGrid(img, h, w)
    ensures forall r, q :: 0 <= r < h && 0 <= q < w ==> img[r][q] == Sum(c[r][q][lo..hi])
  {
    seq(h, r requires 0 <= r < h => seq(w, q requires 0 <= q < w => Sum(c[r][q][lo..hi])))
  }

  /** `int(x)`: truncation toward zero, not the floor. */
  function Trunc(x: real): (k: int)
    ensures 0.0 <= x ==> k as real <= x < k as real + 1.0
    ensures x < 0.0 ==> k as real - 1.0 < x <= k as real
  {
    if x >= 0.0 then x.Floor else -((-x).Floor)
  }

  /** Python's normalisation of one slice bound for a sequence of length `n`. */
  function SliceIndex(i: int, n: nat): (k: nat)
    ensures k <= n
    ensures 0 <= i <= n ==> k == i
    ensures i < 0 && 0 <= i + n ==> k == i + n
    ensures i > n ==> k == n
    ensures i + n < 0 ==> k == 0
  {
    if i < 0 then (if i + n < 0 then 0 else i + n) else if i > n then n else i
  }

  /** The bins `[start:stop]` selects, as a range `[lo, hi)` with `lo <= hi`; the range is
      empty when the normalised stop does not exceed the normalised start. */
  function SliceRange(start: int, stop: int, n: nat): (r: (nat, nat))
    ensures r.0 <= r.1 <= n
    ensures r.0 == SliceIndex(start, n)
    ensures SliceIndex(stop, n) >= SliceIndex(start, n) ==> r.1 == SliceIndex(stop, n)
    ensures SliceIndex(stop, n) < SliceIndex(start, n) ==> r.1 == r.0
  {
    var lo := SliceIndex(start, n);
    var hi := SliceIndex(stop, n);
    (lo, if hi < lo then lo else hi)
  }

  /** The largest value of a non-empty row. */
  function RowMax(row: seq<nat>): (m: nat)
    requires |row| > 0
    ensures forall q :: 0 <= q < |row| ==> row[q] <= m
    ensures exists q :: 0 <= q < |row| && row[q] == m
    decreases |row|
  {
    if |row| == 1 then row[0]
    else
      var rest := RowMax(row[1..]);
      assert forall q :: 1 <= q < |row| ==> row[q] == row[1..][q - 1];
      if row[0] >= rest then row[0] else rest
  }

  /** `image.max()` of a non-empty image. */
  function GridMax(img: Image, h: nat, w: nat): (m: nat)
    requires IsGrid(img, h, w) && h > 0 && w > 0
    ensures forall r, q :: 0 <= r < h && 0 <= q < w ==> img[r][q] <= m
    ensures exists r, q :: 0 <= r < h && 0 <= q < w && img[r][q] == m
    decreases h
  {
    if h == 1 then RowMax(img[0])
    else
      var rest := GridMax(img[1..], h - 1, w);
      var first := RowMax(img[0]);
      assert forall r :: 1 <= r < h ==> img[r] == img[1..][r - 1];
      if first >= rest then first else rest
  }

  /** The ROI annotation: `"ROI: {}:{}".format(vmin, vmax)` of the truncated bounds. */
  function RoiText(lo: int, hi: int): string
  {
    "ROI: " + IntText(lo) + ":" + IntText(hi)
  }

  /** Reads the two bounds back from an ROI annotation. */
  function ParseRoiText(s: string): Option<(int, int)>
  {
    if !("ROI: " <= s) then None
    else
      var rest := s[5..];
      match Find(rest, ':', 0)
      case None => None
      case Some(k) =>
        match (ParseInt(rest[..k]), ParseInt(rest[k + 1..]))
        case (Some(lo), Some(hi)) => Some((lo, hi))
        case _ => None
  }

  lemma RoiTextRest(a: string, b: string)
    ensures "ROI: " <= "ROI: " + a + ":" + b
    ensures ("ROI: " + a + ":" + b)[5..] == a + ":" + b
  {
    assert "ROI: " + a + ":" + b == "ROI: " + (a + ":" + b);
  }

  /** The ROI annotation determines the span it was made from. */
  lemma RoiTextRoundTrip(lo: int, hi: int)
    ensures ParseRoiText(RoiText(lo, hi)) == Some((lo, hi))
  {
    var a := IntText(lo);
    var b := IntText(hi);
    RoiTextRest(a, b);
    var rest := a + ":" + b;
    FormatIntShape(lo, 0);
    assert forall j :: 0 <= j < |a| ==> rest[j] == a[j];
    assert rest[|a|] == ':';
    FindFirst(rest, ':', 0, |a|);
    assert rest[..|a|] == a && rest[|a| + 1..] == b;
    ParseFormatInt(lo, 0);
    ParseFormatInt(hi, 0);
  }

  /** The constructor's view state: every pixel selected, the map of total counts,
      the whole-map average spectrum, no marker, no lasso. */
  function Init(counts: Counts, h: nat, w: nat, n: nat): (e: Explorer)
    requires IsCube(counts, h, w, n) && h > 0 && w > 0
    ensures Valid(e)
    ensures e.counts == counts && e.height == h && e.width == w && e.bins == n
    ensures AllTrue(e.mask) && IsBlank(e.maskImage)
    ensures forall r, q :: 0 <= r < h && 0 <= q < w ==> e.image[r][q] == Sum(counts[r][q])
    ensures e.caption == MapAverage && e.spectrum == MeanOfMap && e.roiText == "ROI: all"
    ensures e.marker == [] && e.lasso == None && e.clim == Autoscaled
  {
    var mask := Filled(h, w, true);
    BlankIffAllSelected(mask);
    var img := BandImage(counts, h, w, n, 0, n);
    assert forall r, q :: 0 <= r < h && 0 <= q < w ==> counts[r][q][0..n] == counts[r][q];
    Explorer(counts, h, w, n, mask, OverlayImage(mask), [], MapAverage, "ROI: all", MeanOfMap, img, Autoscaled, None)
  }

  /** The fields a mask change leaves alone. */
  predicate SameView(a: Explorer, b: Explorer)
  {
    && a.counts == b.counts && a.height == b.height && a.width == b.width && a.bins == b.bins
    && a.image == b.image && a.clim == b.clim && a.roiText == b.roiText
  }

  /** `_reset_spectrum`: select every pixel again and show the map average. */
  function ResetSpectrum(e: Explorer): (r: Explorer)
    requires Valid(e)
    ensures Valid(r) && SameView(r, e) && r.marker == e.marker && r.lasso == e.lasso
    ensures forall row, q :: 0 <= row < e.height && 0 <= q < e.width ==> r.mask[row][q]
    ensures IsBlank(r.maskImage)
    ensures r.caption == MapAverage && r.spectrum == MeanOfMap
  {
    var mask := Filled(e.height, e.width, true);
    BlankIffAllSelected(mask);
    e.(mask := mask, maskImage := OverlayImage(mask), spectrum := MeanOfMap, caption := MapAverage)
  }

  /** `_pixel_select` with the nearest pixel `(row, col)` supplied: mark the click, show that
      pixel's spectrum and clear the mask (the line that would select the pixel is
      commented out in the source). */
  function PixelSelect(e: Explorer, at: Point, row: nat, col: nat): (r: Explorer)
    requires Valid(e)
    requires row < e.height && col < e.width
    ensures Valid(r) && SameView(r, e) && r.lasso == e.lasso
    ensures r.marker == [at]
    ensures forall y, q :: 0 <= y < e.height && 0 <= q < e.width ==> !r.mask[y][q]
    ensures r.caption == PixelAt(row, col)
    ensures r.spectrum == PixelSpectrum(e.counts[row][col])
  {
    var mask := Filled(e.height, e.width, false);
    e.(marker := [at], mask := mask, maskImage := OverlayImage(mask),
       caption := PixelAt(row, col), spectrum := PixelSpectrum(e.counts[row][col]))
  }

  /** `_lasso_on_press`: start a lasso at the click. */
  function StartLasso(e: Explorer, at: Point): (r: Explorer)
    requires Valid(e)
    ensures Valid(r) && SameView(r, e)
    ensures r.lasso == Some(at)
    ensures r.mask == e.mask && r.caption == e.caption && r.spectrum == e.spectrum && r.marker == e.marker
  {
    e.(lasso := Some(at))
  }

  /** `_lasso_call_back` with the polygon's point-in-path mask supplied. */
  function LassoDone(e: Explorer, selected: Mask): (r: Explorer)
    requires Valid(e)
    requires IsGrid(selected, e.height, e.width)
    ensures Valid(r) && SameView(r, e) && r.marker == e.marker && r.lasso == e.lasso
    ensures r.mask == selected
    ensures !AllTrue(selected) ==> AlphaMask(r.maskImage) == selected
    ensures r.caption == LassoMask && r.spectrum == MeanOfMask
  {
    assert !AllTrue(selected) ==> AlphaMask(OverlayImage(selected)) == selected by {
      if !AllTrue(selected) {
        AlphaRecoversMask(selected);
      }
    }
    e.(mask := selected, maskImage := OverlayImage(selected), caption := LassoMask, spectrum := MeanOfMask)
  }

  predicate OnImageMap(ev: Click)
  {
    ev.target == InAxes(Some("imgmap"))
  }

  /** `_on_click` with the nearest pixel to the click supplied: ignore clicks off the map;
      otherwise clear the marker, then a right click resets, else alt starts a lasso,
      else shift selects the pixel, else nothing more happens. */
  function OnClick(e: Explorer, ev: Click, nearest: (nat, nat)): (r: Explorer)
    requires Valid(e)
    requires nearest.0 < e.height && nearest.1 < e.width
    ensures Valid(r) && SameView(r, e)
    ensures !OnImageMap(ev) ==> r == e
    ensures OnImageMap(ev) && ev.button == 3 ==> r == ResetSpectrum(e.(marker := []))
    ensures OnImageMap(ev) && ev.button != 3 && ev.key == Some("alt") ==> r == StartLasso(e.(marker := []), ev.at)
    ensures OnImageMap(ev) && ev.button != 3 && ev.key == Some("shift") ==>
      r == PixelSelect(e.(marker := []), ev.at, nearest.0, nearest.1)
    ensures OnImageMap(ev) && ev.button != 3 && ev.key != Some("alt") && ev.key != Some("shift") ==>
      r == e.(marker := [])
  {
    if ev.target.NoAxes? || ev.target.gid != Some("imgmap") then e
    else
      var cleared := e.(marker := []);
      if ev.button == 3 then ResetSpectrum(cleared)
      else if ev.key == Some("alt") then StartLasso(cleared, ev.at)
      else if ev.key == Some("shift") then PixelSelect(cleared, ev.at, nearest.0, nearest.1)
      else cleared
  }

  /** `_on_span`: truncate both bounds, show the counts summed over the selected bins,
      scale colours from 0 to the new maximum and label the ROI. */
  function OnSpan(e: Explorer, vmin: real, vmax: real): (r: Explorer)
    requires Valid(e)
    ensures Valid(r)
    ensures r.height == e.height && r.width == e.width && r.bins == e.bins
    ensures r.counts == e.counts && r.mask == e.mask && r.maskImage == e.maskImage
    ensures r.caption == e.caption && r.spectrum == e.spectrum && r.marker == e.marker && r.lasso == e.lasso
    ensures var (lo, hi) := SliceRange(Trunc(vmin), Trunc(vmax), e.bins);
      forall row, q :: 0 <= row < e.height && 0 <= q < e.width ==> r.image[row][q] == Sum(e.counts[row][q][lo..hi])
    ensures r.clim.Limits? && r.clim.lo == 0
    ensures forall row, q :: 0 <= row < e.height && 0 <= q < e.width ==> r.image[row][q] <= r.clim.hi
    ensures exists row, q :: 0 <= row < e.height && 0 <= q < e.width && r.image[row][q] == r.clim.hi
    ensures r.roiText == RoiText(Trunc(vmin), Trunc(vmax))
  {
    var lo := Trunc(vmin);
    var hi := Trunc(vmax);
    var bounds := SliceRange(lo, hi, e.bins);
    var img := BandImage(e.counts, e.height, e.width, e.bins, bounds.0, bounds.1);
    e.(image := img, clim := Limits(0, GridMax(img, e.height, e.width)), roiText := RoiText(lo, hi))
  }

  /** Selecting every bin reproduces the map of total counts shown at start-up. */
  lemma FullSpanIsTotal(e: Explorer)
    requires Valid(e)
    ensures forall row, q :: 0 <= row < e.height && 0 <= q < e.width ==>
      OnSpan(e, 0.0, e.bins as real).image[row][q] == Sum(e.counts[row][q])
  {
    assert Trunc(e.bins as real) == e.bins;
    assert forall row, q :: 0 <= row < e.height && 0 <= q < e.width ==>
      e.counts[row][q][0..e.bins] == e.counts[row][q];
  }

  /** Spans that meet add up: the image of `[a, c)` is the pixelwise sum of the images of
      `[a, b)` and `[b, c)`. */
  lemma AdjacentSpansAdd(e: Explorer, a: nat, b: nat, c: nat)
    requires Valid(e)
    requires a <= b <= c <= e.bins
    ensures var whole, left, right := OnSpan(e, a as real, c as real), OnSpan(e, a as real, b as real), OnSpan(e, b as real, c as real);
      forall row, q :: 0 <= row < e.height && 0 <= q < e.width ==>
        whole.image[row][q] == left.image[row][q] + right.image[row][q]
  {
    assert Trunc(a as real) == a && Trunc(b as real) == b && Trunc(c as real) == c;
    forall row, q | 0 <= row < e.height && 0 <= q < e.width
      ensures Sum(e.counts[row][q][a..c]) == Sum(e.counts[row][q][a..b]) + Sum(e.counts[row][q][b..c])
    {
      var s := e.counts[row][q];
      assert s[a..c] == s[a..b] + s[b..c];
      SumConcat(s[a..b], s[b..c]);
    }
  }

  /** A span dragged the wrong way round, or lying wholly beyond the last bin, selects no
      bins: the image is all zeros and the colour limits collapse to (0, 0). */
  lemma EmptySpanIsBlank(e: Explorer, vmin: real, vmax: real)
    requires Valid(e)
    requires SliceIndex(Trunc(vmax), e.bins) <= SliceIndex(Trunc(vmin), e.bins)
    ensures forall row, q :: 0 <= row < e.height && 0 <= q < e.width ==> OnSpan(e, vmin, vmax).image[row][q] == 0
    ensures OnSpan(e, vmin, vmax).clim == Limits(0, 0)
  {
    var r := OnSpan(e, vmin, vmax);
    var lo := SliceIndex(Trunc(vmin), e.bins);
    assert forall row, q :: 0 <= row < e.height && 0 <= q < e.width ==> e.counts[row][q][lo..lo] == [];
  }

  /** Right-clicking the map always ends with every pixel selected and a blank overlay,
      whatever the modifier key and whatever was selected before. */
  lemma RightClickResets(e: Explorer, ev: Click, nearest: (nat, nat))
    requires Valid(e)
    requires nearest.0 < e.height && nearest.1 < e.width
    requires OnImageMap(ev) && ev.button == 3
    ensures AllTrue(OnClick(e, ev, nearest).mask)
    ensures IsBlank(OnClick(e, ev, nearest).maskImage)
    ensures OnClick(e, ev, nearest).caption == MapAverage && OnClick(e, ev, nearest).marker == []
  {
  }

  /** After a shift-click the overlay shows nothing: the mask is cleared, not set at the
      selected pixel, so every alpha is zero. */
  lemma ShiftClickHighlightsNothing(e: Explorer, ev: Click, nearest: (nat, nat))
    requires Valid(e)
    requires nearest.0 < e.height && nearest.1 < e.width
    requires OnImageMap(ev) && ev.button != 3 && ev.key == Some("shift")
    ensures var r := OnClick(e, ev, nearest);
      forall row, q :: 0 <= row < e.height && 0 <= q < e.width ==> r.maskImage[row][q][3] == 0
  {
    var r := OnClick(e, ev, nearest);
    EmptySelectionInvisible(r.mask);
  }
}
