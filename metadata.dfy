/**
 * The per-image metadata the compile stage collects (`analyzed_imgs`), reduced to the
 * fields the channel masks and the time table use, kept in the dictionary's insertion order.
 */
module Metadata {
  /** The closed and open end rows of one channel (`closed_end_px`, `open_end_px`). */
  datatype Ends = Ends(closed: int, open: int)

  /**
   * A channel location `[[y1, y2], [x1, x2]]`: the rows and columns of a channel mask,
   * also the padded rectangle drawn around one channel of one image.
   */
  datatype Rect = Rect(y1: int, y2: int, x1: int, x2: int)

  /**
   * One analysed image: its FOV, time index, shape `(rows, cols)` and the channels found
   * in it, keyed by the peak column.
   */
  datatype ImageMeta = ImageMeta(fov: int, t: int, rows: nat, cols: nat, channels: map<int, Ends>)

  /** The FOVs of the images in order of first appearance. */
  function FovsInOrder(imgs: seq<ImageMeta>): (fovs: seq<int>)
    ensures forall k :: 0 <= k < |imgs| ==> imgs[k].fov in fovs
    ensures forall f :: f in fovs ==> exists k :: 0 <= k < |imgs| && imgs[k].fov == f
    ensures forall i, j :: 0 <= i < j < |fovs| ==> fovs[i] != fovs[j]
  {
    if imgs == [] then []
    else
      var init := FovsInOrder(imgs[..|imgs| - 1]);
      var last := imgs[|imgs| - 1];
      assert forall k :: 0 <= k < |imgs| - 1 ==> imgs[k] == imgs[..|imgs| - 1][k];
      if last.fov in init then init else init + [last.fov]
  }
}
