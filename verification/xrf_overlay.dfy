/** The red ROI overlay of the XRF map explorer (`XRFInteract._overlay_image`):
    a `uint8` RGBA image the size of the mask. When the mask selects every
    pixel the overlay is fully transparent; otherwise every pixel is red,
    half-visible (alpha 100) where the mask is set and invisible where it is
    not. */
module XrfOverlay {

  type Byte = x: int | 0 <= x < 256

  /** The ROI mask, indexed `[row][column]`. */
  type Mask = seq<seq<bool>>

  /** An RGBA image, indexed `[row][column][channel]`. */
  type Rgba = seq<seq<seq<Byte>>>

  /** `np.all(mask)`; true of an empty mask. */
  predicate AllTrue(m: Mask)
  {
    forall r, c :: 0 <= r < |m| && 0 <= c < |m[r]| ==> m[r][c]
  }

  /** The pixel of a partial selection: red, with alpha 100 if selected. */
  function Tint(selected: bool): seq<Byte>
  {
    [255, 0, 0, if selected then 100 else 0]
  }

  function OverlayImage(m: Mask): (img: Rgba)
    ensures |img| == |m|
    ensures forall r :: 0 <= r < |m| ==> |img[r]| == |m[r]|
    ensures forall r, c :: 0 <= r < |m| && 0 <= c < |m[r]| ==> |img[r][c]| == 4
    ensures AllTrue(m) ==>
      forall r, c, k :: 0 <= r < |m| && 0 <= c < |m[r]| && 0 <= k < 4 ==> img[r][c][k] == 0
    ensures !AllTrue(m) ==>
      forall r, c :: 0 <= r < |m| && 0 <= c < |m[r]| ==>
        && img[r][c][0] == 255 && img[r][c][1] == 0 && img[r][c][2] == 0
        && img[r][c][3] == (if m[r][c] then 100 else 0)
  {
    if AllTrue(m) then
      seq(|m|, r requires 0 <= r < |m| => seq(|m[r]|, c => [0, 0, 0, 0]))
    else
      seq(|m|, r requires 0 <= r < |m| => seq(|m[r]|, c requires 0 <= c < |m[r]| => Tint(m[r][c])))
  }

  /** Every channel of every pixel is zero. */
  predicate IsBlank(img: Rgba)
  {
    forall r, c, k :: 0 <= r < |img| && 0 <= c < |img[r]| && 0 <= k < |img[r][c]| ==> img[r][c][k] == 0
  }

  /** Reads a mask back from an overlay: a pixel is selected where its alpha is non-zero. */
  function AlphaMask(img: Rgba): Mask
  {
    seq(|img|, r requires 0 <= r < |img| =>
      seq(|img[r]|, c requires 0 <= c < |img[r]| => |img[r][c]| == 4 && img[r][c][3] != 0))
  }

  /** The overlay is blank exactly when the mask selects everything. */
  lemma BlankIffAllSelected(m: Mask)
    ensures IsBlank(OverlayImage(m)) <==> AllTrue(m)
  {
    if !AllTrue(m) {
      var r, c :| 0 <= r < |m| && 0 <= c < |m[r]| && !m[r][c];
      assert OverlayImage(m)[r][c][0] == 255;
    }
  }

  /** A partial selection can be read back from the overlay's alpha channel. */
  lemma AlphaRecoversMask(m: Mask)
    requires !AllTrue(m)
    ensures AlphaMask(OverlayImage(m)) == m
  {
    var a := AlphaMask(OverlayImage(m));
    assert |a| == |m|;
    forall r | 0 <= r < |m| ensures a[r] == m[r] {
      assert |a[r]| == |m[r]|;
    }
  }

  /** An empty selection draws nothing visible: every alpha is zero (unless the mask has
      no pixels at all, when the overlay is blank anyway). */
  lemma EmptySelectionInvisible(m: Mask)
    requires forall r, c :: 0 <= r < |m| && 0 <= c < |m[r]| ==> !m[r][c]
    ensures forall r, c :: 0 <= r < |m| && 0 <= c < |m[r]| ==> OverlayImage(m)[r][c][3] == 0
  {
  }
}
