/**
 * `make_masks` and the metadata window applied before it: every channel found in an
 * image is drawn as a padded rectangle, the rectangles of all images of a FOV are summed
 * into a consensus mask, the labelled regions of that mask become channel masks keyed by
 * their median column, and every mask is finally stretched to the largest length and
 * width found over all FOVs.
 */
module Masks {
  import opened Wrappers
  import opened PySlice
  import opened Metadata

  function Max(a: int, b: int): int { if a < b then b else a }
  function Min(a: int, b: int): int { if a < b then a else b }

  // ------------------------------------------------------ metadata window

  /** `if t_start:` — no bound and a bound of 0 both mean no filter. */
  predicate Truthy(bound: Option<int>)
  {
    bound.Some? && bound.value != 0
  }

  /** Whether an image survives `t_start` (kept when `t >= t_start`) and `t_end` (kept when `t <= t_end`). */
  predicate InWindow(img: ImageMeta, tStart: Option<int>, tEnd: Option<int>)
  {
    (!Truthy(tStart) || img.t >= tStart.value) && (!Truthy(tEnd) || img.t <= tEnd.value)
  }

  /** The images the masks are computed from, in their original order. */
  function WindowImages(imgs: seq<ImageMeta>, tStart: Option<int>, tEnd: Option<int>): (r: seq<ImageMeta>)
    ensures |r| <= |imgs|
  {
    if imgs == [] then []
    else
      var init := WindowImages(imgs[..|imgs| - 1], tStart, tEnd);
      if InWindow(imgs[|imgs| - 1], tStart, tEnd) then init + [imgs[|imgs| - 1]] else init
  }

  /** An image is used exactly when it is one of the analysed images and lies in the window; unlike the file-list trimming, `t_end` itself is included. */
  lemma {:induction false} WindowImagesMembers(imgs: seq<ImageMeta>, tStart: Option<int>, tEnd: Option<int>)
    ensures forall img :: img in WindowImages(imgs, tStart, tEnd) <==> img in imgs && InWindow(img, tStart, tEnd)
  {
    if imgs != [] {
      WindowImagesMembers(imgs[..|imgs| - 1], tStart, tEnd);
      assert imgs == imgs[..|imgs| - 1] + [imgs[|imgs| - 1]];
    }
  }

  /** Without truthy bounds nothing is filtered. */
  lemma {:induction false} WindowImagesNoBounds(imgs: seq<ImageMeta>, tStart: Option<int>, tEnd: Option<int>)
    requires !Truthy(tStart) && !Truthy(tEnd)
    ensures WindowImages(imgs, tStart, tEnd) == imgs
  {
    if imgs != [] {
      WindowImagesNoBounds(imgs[..|imgs| - 1], tStart, tEnd);
      assert imgs == imgs[..|imgs| - 1] + [imgs[|imgs| - 1]];
    }
  }

  // ------------------------------------------------ per-image rectangles

  /**
   * The rectangle drawn for the channel at column `peak`: `crop_wp` columns either side
   * and `chan_lp` rows beyond both ends, clamped to the image.
   */
  function ChannelRect(peak: int, ends: Ends, cropWp: int, chanLp: int, rows: nat, cols: nat): (r: Rect)
    ensures 0 <= r.x1 && r.x2 <= cols && 0 <= r.y1 && r.y2 <= rows
  {
    Rect(Max(ends.closed - chanLp, 0), Min(ends.open + chanLp, rows), Max(peak - cropWp, 0), Min(peak + cropWp, cols))
  }

  /** Whether pixel `(y, x)` is set by `mask[y1:y2, x1:x2] = 1` in a `rows` by `cols` array. */
  predicate Covers(r: Rect, rows: nat, cols: nat, y: int, x: int)
  {
    Bound(r.y1, rows) <= y < Bound(r.y2, rows) && Bound(r.x1, cols) <= x < Bound(r.x2, cols)
  }

  /** Inside the image, a channel rectangle covers exactly the padded channel. */
  lemma ChannelRectPixels(peak: int, ends: Ends, cropWp: int, chanLp: int, rows: nat, cols: nat, y: int, x: int)
    requires 0 <= y < rows && 0 <= x < cols
    requires ends.open + chanLp >= 0 && peak + cropWp >= 0
    ensures Covers(ChannelRect(peak, ends, cropWp, chanLp, rows, cols), rows, cols, y, x)
        <==> ends.closed - chanLp <= y < ends.open + chanLp && peak - cropWp <= x < peak + cropWp
  {
  }

  /** Whether one of the channels in `peaks` of an image covers a pixel. */
  predicate CoveredBy(img: ImageMeta, peaks: set<int>, cropWp: int, chanLp: int, rows: nat, cols: nat, y: int, x: int)
  {
    exists peak :: peak in peaks && peak in img.channels &&
      Covers(ChannelRect(peak, img.channels[peak], cropWp, chanLp, rows, cols), rows, cols, y, x)
  }

  /** How many images of the FOV cover a pixel: the consensus mask before normalisation. */
  function CoverCount(imgs: seq<ImageMeta>, fov: int, cropWp: int, chanLp: int, rows: nat, cols: nat, y: int, x: int): (n: nat)
    ensures n <= |imgs|
  {
    if imgs == [] then 0
    else
      var img := imgs[|imgs| - 1];
      CoverCount(imgs[..|imgs| - 1], fov, cropWp, chanLp, rows, cols, y, x)
        + if img.fov == fov && CoveredBy(img, img.channels.Keys, cropWp, chanLp, rows, cols, y, x) then 1 else 0
  }

  /** A consensus pixel is nonzero exactly when some image of the FOV has a channel covering it. */
  lemma {:induction false} CoverCountPositive(imgs: seq<ImageMeta>, fov: int, cropWp: int, chanLp: int, rows: nat, cols: nat, y: int, x: int)
    ensures CoverCount(imgs, fov, cropWp, chanLp, rows, cols, y, x) > 0
        <==> exists k :: 0 <= k < |imgs| && imgs[k].fov == fov && CoveredBy(imgs[k], imgs[k].channels.Keys, cropWp, chanLp, rows, cols, y, x)
  {
    if imgs != [] {
      var init := imgs[..|imgs| - 1];
      CoverCountPositive(init, fov, cropWp, chanLp, rows, cols, y, x);
      assert forall k :: 0 <= k < |init| ==> init[k] == imgs[k];
    }
  }

  /** The consensus mask as a grid, the array `ndi.label` is applied to: image-sized, each pixel counting at most one per image. */
  function ConsensusGrid(imgs: seq<ImageMeta>, fov: int, cropWp: int, chanLp: int, rows: nat, cols: nat): (g: seq<seq<int>>)
    ensures |g| == rows
    ensures forall y :: 0 <= y < rows ==> |g[y]| == cols
    ensures forall y, x :: 0 <= y < rows && 0 <= x < cols ==> 0 <= g[y][x] <= |imgs|
  {
    seq(rows, y requires 0 <= y < rows => seq(cols, x requires 0 <= x < cols => CoverCount(imgs, fov, cropWp, chanLp, rows, cols, y, x)))
  }

  /** A pixel of the consensus grid is nonzero exactly when a channel of some image of the FOV covers it. */
  lemma ConsensusGridCovered(imgs: seq<ImageMeta>, fov: int, cropWp: int, chanLp: int, rows: nat, cols: nat, y: int, x: int)
    requires 0 <= y < rows && 0 <= x < cols
    ensures ConsensusGrid(imgs, fov, cropWp, chanLp, rows, cols)[y][x] > 0
        <==> exists k :: 0 <= k < |imgs| && imgs[k].fov == fov && CoveredBy(imgs[k], imgs[k].channels.Keys, cropWp, chanLp, rows, cols, y, x)
  {
    CoverCountPositive(imgs, fov, cropWp, chanLp, rows, cols, y, x);
  }

  /** `mask[y1:y2, x1:x2] = 1`. */
  method FillRect(mask: array2<int>, r: Rect)
    modifies mask
    ensures forall y, x :: 0 <= y < mask.Length0 && 0 <= x < mask.Length1 ==>
      mask[y, x] == if Covers(r, mask.Length0, mask.Length1, y, x) then 1 else old(mask[y, x])
  {
    var top := Bound(r.y1, mask.Length0);
    var bottom := Max(top, Bound(r.y2, mask.Length0));
    var left := Bound(r.x1, mask.Length1);
    var right := Max(left, Bound(r.x2, mask.Length1));
    for y := top to bottom
      invariant forall i, j :: 0 <= i < mask.Length0 && 0 <= j < mask.Length1 ==>
        mask[i, j] == if top <= i < y && left <= j < right then 1 else old(mask[i, j])
    {
      for x := left to right
        invariant forall i, j :: 0 <= i < mask.Length0 && 0 <= j < mask.Length1 ==>
          mask[i, j] == if (top <= i < y && left <= j < right) || (i == y && left <= j < x) then 1 else old(mask[i, j])
      {
        mask[y, x] := 1;
      }
    }
  }

  /** Some key of a non-empty set of keys (the order `dict` iteration would visit them in does not matter here). */
  method PickKey(keys: set<int>) returns (k: int)
    requires keys != {}
    ensures k in keys
  {
    if forall x :: x !in keys {
      assert false;
    }
    k :| k in keys;
  }

  /** `img_chnl_mask`: the union of one image's channel rectangles. */
  method ImageMask(img: ImageMeta, cropWp: int, chanLp: int, rows: nat, cols: nat) returns (mask: array2<int>)
    ensures fresh(mask) && mask.Length0 == rows && mask.Length1 == cols
    ensures forall y, x :: 0 <= y < rows && 0 <= x < cols ==>
      mask[y, x] == if CoveredBy(img, img.channels.Keys, cropWp, chanLp, rows, cols, y, x) then 1 else 0
  {
    mask := new int[rows, cols]((_, _) => 0);
    var todo := img.channels.Keys;
    ghost var done: set<int> := {};
    while todo != {}
      invariant todo + done == img.channels.Keys
      invariant forall y, x :: 0 <= y < rows && 0 <= x < cols ==>
        mask[y, x] == if CoveredBy(img, done, cropWp, chanLp, rows, cols, y, x) then 1 else 0
      decreases |todo|
    {
      var peak := PickKey(todo);
      FillRect(mask, ChannelRect(peak, img.channels[peak], cropWp, chanLp, rows, cols));
      todo := todo - {peak};
      done := done + {peak};
    }
  }

  /** `consensus_mask += img_chnl_mask`. */
  method AddInto(total: array2<int>, mask: array2<int>)
    requires total != mask
    requires total.Length0 == mask.Length0 && total.Length1 == mask.Length1
    modifies total
    ensures forall y, x :: 0 <= y < total.Length0 && 0 <= x < total.Length1 ==>
      total[y, x] == old(total[y, x]) + mask[y, x]
  {
    for y := 0 to total.Length0
      invariant forall i, j :: 0 <= i < total.Length0 && 0 <= j < total.Length1 ==>
        total[i, j] == if i < y then old(total[i, j]) + mask[i, j] else old(total[i, j])
    {
      for x := 0 to total.Length1
        invariant forall i, j :: 0 <= i < total.Length0 && 0 <= j < total.Length1 ==>
          total[i, j] == if i < y || (i == y && j < x) then old(total[i, j]) + mask[i, j] else old(total[i, j])
      {
        total[y, x] := total[y, x] + mask[y, x];
      }
    }
  }

  /** The consensus mask of one FOV, summed over its images in order. */
  method ConsensusMask(imgs: seq<ImageMeta>, fov: int, cropWp: int, chanLp: int, rows: nat, cols: nat) returns (total: array2<int>)
    ensures fresh(total) && total.Length0 == rows && total.Length1 == cols
    ensures forall y, x :: 0 <= y < rows && 0 <= x < cols ==>
      total[y, x] == CoverCount(imgs, fov, cropWp, chanLp, rows, cols, y, x)
  {
    total := new int[rows, cols]((_, _) => 0);
    for k := 0 to |imgs|
      invariant fresh(total)
      invariant forall y, x :: 0 <= y < rows && 0 <= x < cols ==>
        total[y, x] == CoverCount(imgs[..k], fov, cropWp, chanLp, rows, cols, y, x)
    {
      assert imgs[..k + 1][..k] == imgs[..k];
      if imgs[k].fov == fov {
        var mask := ImageMask(imgs[k], cropWp, chanLp, rows, cols);
        AddInto(total, mask);
      }
    }
    assert imgs[..|imgs|] == imgs;
  }

  /** The consensus array read out as a grid. */
  method Snapshot(total: array2<int>) returns (g: seq<seq<int>>)
    ensures |g| == total.Length0
    ensures forall y :: 0 <= y < total.Length0 ==> |g[y]| == total.Length1
    ensures forall y, x :: 0 <= y < total.Length0 && 0 <= x < total.Length1 ==> g[y][x] == total[y, x]
  {
    g := [];
    for y := 0 to total.Length0
      invariant |g| == y
      invariant forall i :: 0 <= i < y ==> |g[i]| == total.Length1
      invariant forall i, x :: 0 <= i < y && 0 <= x < total.Length1 ==> g[i][x] == total[i, x]
    {
      var row := [];
      for x := 0 to total.Length1
        invariant |row| == x
        invariant forall j :: 0 <= j < x ==> row[j] == total[y, j]
      {
        row := row + [total[y, x]];
      }
      g := g + [row];
    }
  }

  // ------------------------------------------------ labelled components

  /** `np.where(posrows)[0]` and `np.where(poscols)[0]` of one labelled region: its occupied rows and columns, ascending. */
  datatype Component = Component(rows: seq<nat>, cols: seq<nat>)

  predicate Increasing(xs: seq<nat>)
  {
    forall i, j :: 0 <= i < j < |xs| ==> xs[i] < xs[j]
  }

  /** What `ndi.label` guarantees of every label it reports: it occurs somewhere, and `np.where` lists positions in order. */
  predicate WellFormed(c: Component)
  {
    |c.rows| > 0 && |c.cols| > 0 && Increasing(c.rows) && Increasing(c.cols)
  }

  /** `int(np.median(xs))` of ascending non-negative positions: the middle one, or the floor of the mean of the middle two. */
  function Median(xs: seq<nat>): (m: nat)
    requires |xs| > 0
  {
    var n := |xs|;
    if n % 2 == 1 then xs[n / 2] else (xs[n / 2 - 1] + xs[n / 2]) / 2
  }

  /** The median lies between the first and the last position. */
  lemma MedianBetween(xs: seq<nat>)
    requires |xs| > 0 && Increasing(xs)
    ensures xs[0] <= Median(xs) <= xs[|xs| - 1]
  {
  }

  /** For a contiguous run of columns (what a connected region gives) the median is its middle column, rounded down. */
  lemma MedianContiguous(xs: seq<nat>)
    requires |xs| > 0
    requires forall k :: 0 <= k < |xs| ==> xs[k] == xs[0] + k
    ensures Median(xs) == (xs[0] + xs[|xs| - 1]) / 2
  {
  }

  /** `channel_id`. */
  function ChannelId(c: Component): nat
    requires WellFormed(c)
  {
    Median(c.cols)
  }

  /** `[[min_row, max_row], [min_col, max_col]]` of a region. */
  function Bounds(c: Component): Rect
    requires WellFormed(c)
  {
    Rect(c.rows[0], c.rows[|c.rows| - 1], c.cols[0], c.cols[|c.cols| - 1])
  }

  /** A region is kept unless it touches the left edge (`min_col > 0 and max_col < image_cols`). */
  predicate Kept(c: Component, cols: nat)
    requires WellFormed(c)
  {
    c.cols[0] > 0 && c.cols[|c.cols| - 1] < cols
  }

  predicate AllWellFormed(comps: seq<Component>)
  {
    forall k :: 0 <= k < |comps| ==> WellFormed(comps[k])
  }

  /** `channel_masks_1fov`: the kept regions by channel id; a later region with the same id replaces an earlier one. */
  function FovMasks(comps: seq<Component>, cols: nat): map<int, Rect>
    requires AllWellFormed(comps)
  {
    if comps == [] then map[]
    else
      var c := comps[|comps| - 1];
      var init := FovMasks(comps[..|comps| - 1], cols);
      if Kept(c, cols) then init[ChannelId(c) := Bounds(c)] else init
  }

  /** The running maxima of `max_row - min_row` and `max_col - min_col` over the kept regions, from 0; regions later replaced still count. */
  function Longest(comps: seq<Component>, cols: nat): (n: nat)
    requires AllWellFormed(comps)
  {
    if comps == [] then 0
    else
      var c := comps[|comps| - 1];
      var init := Longest(comps[..|comps| - 1], cols);
      if Kept(c, cols) then Max(init, Bounds(c).y2 - Bounds(c).y1) else init
  }

  function Widest(comps: seq<Component>, cols: nat): (n: nat)
    requires AllWellFormed(comps)
  {
    if comps == [] then 0
    else
      var c := comps[|comps| - 1];
      var init := Widest(comps[..|comps| - 1], cols);
      if Kept(c, cols) then Max(init, Bounds(c).x2 - Bounds(c).x1) else init
  }

  /**
   * Every mask of a FOV comes from a kept region: its id is that region's median column,
   * it lies strictly right of column 0 and inside the image, its id lies within its
   * columns, and its spans are within the FOV's maxima.
   */
  lemma {:induction false} FovMasksShape(comps: seq<Component>, cols: nat)
    requires AllWellFormed(comps)
    ensures forall id :: id in FovMasks(comps, cols) ==>
      var m := FovMasks(comps, cols)[id];
      0 < m.x1 <= id <= m.x2 < cols && m.y1 <= m.y2 &&
      m.y2 - m.y1 <= Longest(comps, cols) && m.x2 - m.x1 <= Widest(comps, cols)
  {
    if comps != [] {
      var init := comps[..|comps| - 1];
      FovMasksShape(init, cols);
      var c := comps[|comps| - 1];
      MedianBetween(c.cols);
    }
  }

  /** Every kept region has a mask under its id (possibly from a later region with the same id), and regions touching the left edge never do unless another region shares their id. */
  lemma {:induction false} FovMasksKeys(comps: seq<Component>, cols: nat)
    requires AllWellFormed(comps)
    ensures forall id :: id in FovMasks(comps, cols) <==> exists k :: 0 <= k < |comps| && Kept(comps[k], cols) && ChannelId(comps[k]) == id
  {
    if comps != [] {
      var init := comps[..|comps| - 1];
      FovMasksKeys(init, cols);
      assert forall k :: 0 <= k < |init| ==> init[k] == comps[k];
    }
  }

  // ------------------------------------------------------- equalisation

  /**
   * Stretch one mask to the largest length and width: the open end moves to
   * `min_row + max_len` (not clamped); the columns grow by half the missing width on
   * each side, the odd pixel going right, clamped to `[0, image_cols - 1]`.
   */
  function EqualizeMask(m: Rect, maxLen: int, maxWid: int, cols: int): Rect
  {
    var y2 := if m.y2 - m.y1 != maxLen then m.y1 + maxLen else m.y2;
    if m.x2 - m.x1 == maxWid then Rect(m.y1, y2, m.x1, m.x2)
    else
      var diff := maxWid - (m.x2 - m.x1);
      if diff % 2 == 0 then Rect(m.y1, y2, Max(m.x1 - diff / 2, 0), Min(m.x2 + diff / 2, cols - 1))
      else Rect(m.y1, y2, Max(m.x1 - (diff - 1) / 2, 0), Min(m.x2 + (diff + 1) / 2, cols - 1))
  }

  /** The length becomes exactly `max_len`, from an unchanged closed end. */
  lemma EqualizeMaskRows(m: Rect, maxLen: int, maxWid: int, cols: int)
    ensures EqualizeMask(m, maxLen, maxWid, cols).y1 == m.y1
    ensures EqualizeMask(m, maxLen, maxWid, cols).y2 == m.y1 + maxLen
  {
  }

  /**
   * A mask no wider than `max_wid` inside `[0, image_cols - 1]` only grows and stays
   * inside; unless clamped it gets exactly `max_wid`, with the right side growing by
   * the same amount as the left, or by one more when the missing width is odd.
   */
  lemma EqualizeMaskColumns(m: Rect, maxLen: int, maxWid: int, cols: int)
    requires 0 <= m.x1 <= m.x2 <= cols - 1
    requires m.x2 - m.x1 <= maxWid
    ensures var e := EqualizeMask(m, maxLen, maxWid, cols);
      0 <= e.x1 <= m.x1 && m.x2 <= e.x2 <= cols - 1
    ensures var e := EqualizeMask(m, maxLen, maxWid, cols);
      var diff := maxWid - (m.x2 - m.x1);
      m.x1 - diff / 2 >= 0 && m.x2 + (diff + 1) / 2 <= cols - 1 ==>
        e.x2 - e.x1 == maxWid && (e.x2 - m.x2) - (m.x1 - e.x1) == diff % 2
  {
  }

  /** `cm_copy` after the edits, which alias `channel_masks`. */
  function Equalized(masks: map<int, map<int, Rect>>, maxLen: int, maxWid: int, cols: int): map<int, map<int, Rect>>
  {
    map fov | fov in masks :: EqualizedFov(masks[fov], maxLen, maxWid, cols)
  }

  function EqualizedFov(masks: map<int, Rect>, maxLen: int, maxWid: int, cols: int): map<int, Rect>
  {
    map id | id in masks :: EqualizeMask(masks[id], maxLen, maxWid, cols)
  }

  /** The inner equalisation loop: every mask of one FOV. */
  method EqualizeFov(peaks: map<int, Rect>, maxLen: int, maxWid: int, cols: int)
    returns (fovEdited: map<int, Rect>)
    ensures fovEdited == EqualizedFov(peaks, maxLen, maxWid, cols)
  {
    fovEdited := peaks;
    var idsLeft := peaks.Keys;
    while idsLeft != {}
      invariant idsLeft <= peaks.Keys && fovEdited.Keys == peaks.Keys
      invariant forall id :: id in peaks ==>
        fovEdited[id] == if id in idsLeft then peaks[id] else EqualizeMask(peaks[id], maxLen, maxWid, cols)
      decreases |idsLeft|
    {
      var id := PickKey(idsLeft);
      fovEdited := fovEdited[id := EqualizeMask(peaks[id], maxLen, maxWid, cols)];
      idsLeft := idsLeft - {id};
    }
    assert idsLeft == {};
    assert fovEdited.Keys == EqualizedFov(peaks, maxLen, maxWid, cols).Keys;
    assert forall id :: id in peaks ==> fovEdited[id] == EqualizedFov(peaks, maxLen, maxWid, cols)[id];
  }

  /** The equalisation loop: every mask of every FOV is edited in place through the shallow copy. */
  method EqualizeMasks(masks: map<int, map<int, Rect>>, maxLen: int, maxWid: int, cols: int)
    returns (edited: map<int, map<int, Rect>>)
    ensures edited == Equalized(masks, maxLen, maxWid, cols)
  {
    edited := masks;
    var fovsLeft := masks.Keys;
    while fovsLeft != {}
      invariant fovsLeft <= masks.Keys && edited.Keys == masks.Keys
      invariant forall fov :: fov in masks ==>
        edited[fov] == if fov in fovsLeft then masks[fov] else EqualizedFov(masks[fov], maxLen, maxWid, cols)
      decreases |fovsLeft|
    {
      var fov := PickKey(fovsLeft);
      var fovEdited := EqualizeFov(masks[fov], maxLen, maxWid, cols);
      edited := edited[fov := fovEdited];
      fovsLeft := fovsLeft - {fov};
    }
    assert fovsLeft == {};
    assert edited.Keys == Equalized(masks, maxLen, maxWid, cols).Keys;
    assert forall fov :: fov in masks ==> edited[fov] == Equalized(masks, maxLen, maxWid, cols)[fov];
  }

  // ---------------------------------------------------------- make_masks

  /** The regions `ndi.label` finds in a FOV's consensus mask. */
  function ComponentsOf(imgs: seq<ImageMeta>, labelRegions: seq<seq<int>> -> seq<Component>, fov: int,
                        cropWp: int, chanLp: int, rows: nat, cols: nat): seq<Component>
  {
    labelRegions(ConsensusGrid(imgs, fov, cropWp, chanLp, rows, cols))
  }

  ghost predicate LabelWellFormed(labelRegions: seq<seq<int>> -> seq<Component>)
  {
    forall g :: AllWellFormed(labelRegions(g))
  }

  /** `max_chnl_mask_len` and `max_chnl_mask_wid` after the FOVs in `fovs`. */
  function LongestAll(imgs: seq<ImageMeta>, labelRegions: seq<seq<int>> -> seq<Component>, fovs: seq<int>,
                      cropWp: int, chanLp: int, rows: nat, cols: nat): nat
    requires LabelWellFormed(labelRegions)
  {
    if fovs == [] then 0
    else Max(LongestAll(imgs, labelRegions, fovs[..|fovs| - 1], cropWp, chanLp, rows, cols),
             Longest(ComponentsOf(imgs, labelRegions, fovs[|fovs| - 1], cropWp, chanLp, rows, cols), cols))
  }

  function WidestAll(imgs: seq<ImageMeta>, labelRegions: seq<seq<int>> -> seq<Component>, fovs: seq<int>,
                     cropWp: int, chanLp: int, rows: nat, cols: nat): nat
    requires LabelWellFormed(labelRegions)
  {
    if fovs == [] then 0
    else Max(WidestAll(imgs, labelRegions, fovs[..|fovs| - 1], cropWp, chanLp, rows, cols),
             Widest(ComponentsOf(imgs, labelRegions, fovs[|fovs| - 1], cropWp, chanLp, rows, cols), cols))
  }

  /** The FOV maxima are bounded by the global ones. */
  lemma {:induction false} AllBoundsEach(imgs: seq<ImageMeta>, labelRegions: seq<seq<int>> -> seq<Component>, fovs: seq<int>,
                                         cropWp: int, chanLp: int, rows: nat, cols: nat, fov: int)
    requires LabelWellFormed(labelRegions)
    requires fov in fovs
    ensures Longest(ComponentsOf(imgs, labelRegions, fov, cropWp, chanLp, rows, cols), cols) <= LongestAll(imgs, labelRegions, fovs, cropWp, chanLp, rows, cols)
    ensures Widest(ComponentsOf(imgs, labelRegions, fov, cropWp, chanLp, rows, cols), cols) <= WidestAll(imgs, labelRegions, fovs, cropWp, chanLp, rows, cols)
  {
    if fovs[|fovs| - 1] != fov {
      assert fov in fovs[..|fovs| - 1];
      AllBoundsEach(imgs, labelRegions, fovs[..|fovs| - 1], cropWp, chanLp, rows, cols, fov);
    }
  }

  /** The masks before equalisation, by FOV. */
  function RawMasks(imgs: seq<ImageMeta>, labelRegions: seq<seq<int>> -> seq<Component>, fovs: seq<int>,
                    cropWp: int, chanLp: int, rows: nat, cols: nat): map<int, map<int, Rect>>
    requires LabelWellFormed(labelRegions)
  {
    map fov | fov in fovs :: FovMasks(ComponentsOf(imgs, labelRegions, fov, cropWp, chanLp, rows, cols), cols)
  }

  /** What `make_masks` returns; the image shape is taken from the first image. */
  function MasksOf(imgs: seq<ImageMeta>, labelRegions: seq<seq<int>> -> seq<Component>, cropWp: int, chanLp: int): map<int, map<int, Rect>>
    requires LabelWellFormed(labelRegions)
  {
    if imgs == [] then map[]
    else
      var rows := imgs[0].rows;
      var cols := imgs[0].cols;
      var fovs := FovsInOrder(imgs);
      Equalized(RawMasks(imgs, labelRegions, fovs, cropWp, chanLp, rows, cols),
                LongestAll(imgs, labelRegions, fovs, cropWp, chanLp, rows, cols),
                WidestAll(imgs, labelRegions, fovs, cropWp, chanLp, rows, cols), cols)
  }

  /** One more labelled region: its rectangle is added, under its channel id, when it is kept. */
  lemma LabelStep(comps: seq<Component>, k: nat, cols: nat)
    requires AllWellFormed(comps) && k < |comps|
    ensures var c, pre := comps[k], comps[..k];
      FovMasks(comps[..k + 1], cols)
        == (if Kept(c, cols) then FovMasks(pre, cols)[ChannelId(c) := Bounds(c)] else FovMasks(pre, cols))
      && Longest(comps[..k + 1], cols)
        == (if Kept(c, cols) then Max(Longest(pre, cols), Bounds(c).y2 - Bounds(c).y1) else Longest(pre, cols))
      && Widest(comps[..k + 1], cols)
        == (if Kept(c, cols) then Max(Widest(pre, cols), Bounds(c).x2 - Bounds(c).x1) else Widest(pre, cols))
  {
    assert comps[..k + 1][..k] == comps[..k];
  }

  /** The label loop of one FOV, updating the running maxima. */
  method LabelMasks(comps: seq<Component>, cols: nat, maxLen0: nat, maxWid0: nat)
    returns (fovMasks: map<int, Rect>, maxLen: nat, maxWid: nat)
    requires AllWellFormed(comps)
    ensures fovMasks == FovMasks(comps, cols)
    ensures maxLen == Max(maxLen0, Longest(comps, cols)) && maxWid == Max(maxWid0, Widest(comps, cols))
  {
    fovMasks, maxLen, maxWid := map[], maxLen0, maxWid0;
    for k := 0 to |comps|
      invariant fovMasks == FovMasks(comps[..k], cols)
      invariant maxLen == Max(maxLen0, Longest(comps[..k], cols)) && maxWid == Max(maxWid0, Widest(comps[..k], cols))
    {
      LabelStep(comps, k, cols);
      var c := comps[k];
      if c.cols[0] > 0 && c.cols[|c.cols| - 1] < cols {
        var minRow, maxRow := c.rows[0], c.rows[|c.rows| - 1];
        var minCol, maxCol := c.cols[0], c.cols[|c.cols| - 1];
        assert Kept(c, cols) && Bounds(c) == Rect(minRow, maxRow, minCol, maxCol);
        fovMasks := fovMasks[Median(c.cols) := Rect(minRow, maxRow, minCol, maxCol)];
        maxLen := Max(maxLen, maxRow - minRow);
        maxWid := Max(maxWid, maxCol - minCol);
      } else {
        assert !Kept(c, cols);
      }
    }
    assert comps[..|comps|] == comps;
  }

  /** `make_masks`: consensus per FOV, labelled regions, running maxima, then equalisation. */
  method MakeMasks(imgs: seq<ImageMeta>, labelRegions: seq<seq<int>> -> seq<Component>, cropWp: int, chanLp: int)
    returns (masks: map<int, map<int, Rect>>)
    requires LabelWellFormed(labelRegions)
    ensures masks == MasksOf(imgs, labelRegions, cropWp, chanLp)
  {
    if imgs == [] {
      return map[];
    }
    var rows, cols := imgs[0].rows, imgs[0].cols;
    var fovs := FovsInOrder(imgs);
    var raw: map<int, map<int, Rect>> := map[];
    var maxLen: nat, maxWid: nat := 0, 0;
    for i := 0 to |fovs|
      invariant raw == RawMasks(imgs, labelRegions, fovs[..i], cropWp, chanLp, rows, cols)
      invariant maxLen == LongestAll(imgs, labelRegions, fovs[..i], cropWp, chanLp, rows, cols)
      invariant maxWid == WidestAll(imgs, labelRegions, fovs[..i], cropWp, chanLp, rows, cols)
    {
      assert fovs[..i + 1][..i] == fovs[..i];
      var consensus := ConsensusMask(imgs, fovs[i], cropWp, chanLp, rows, cols);
      var grid := Snapshot(consensus);
      forall y | 0 <= y < rows
        ensures grid[y] == ConsensusGrid(imgs, fovs[i], cropWp, chanLp, rows, cols)[y]
      {
      }
      assert grid == ConsensusGrid(imgs, fovs[i], cropWp, chanLp, rows, cols);
      var fovMasks;
      fovMasks, maxLen, maxWid := LabelMasks(labelRegions(grid), cols, maxLen, maxWid);
      RawMasksExtend(imgs, labelRegions, fovs, i, cropWp, chanLp, rows, cols);
      raw := raw[fovs[i] := fovMasks];
    }
    assert fovs[..|fovs|] == fovs;
    masks := EqualizeMasks(raw, maxLen, maxWid, cols);
  }

  lemma RawMasksExtend(imgs: seq<ImageMeta>, labelRegions: seq<seq<int>> -> seq<Component>, fovs: seq<int>, i: nat,
                       cropWp: int, chanLp: int, rows: nat, cols: nat)
    requires LabelWellFormed(labelRegions) && i < |fovs|
    ensures RawMasks(imgs, labelRegions, fovs[..i + 1], cropWp, chanLp, rows, cols)
         == RawMasks(imgs, labelRegions, fovs[..i], cropWp, chanLp, rows, cols)[fovs[i] := FovMasks(ComponentsOf(imgs, labelRegions, fovs[i], cropWp, chanLp, rows, cols), cols)]
  {
    assert fovs[..i + 1] == fovs[..i] + [fovs[i]];
  }

  /**
   * Every returned mask has length exactly the longest kept region of any FOV, from its
   * region's top row; its columns lie in `[0, image_cols - 1]` and still contain its
   * channel id, so later look-ups by id find it.
   */
  lemma MasksOfShape(imgs: seq<ImageMeta>, labelRegions: seq<seq<int>> -> seq<Component>, cropWp: int, chanLp: int, fov: int, id: int)
    requires LabelWellFormed(labelRegions)
    requires fov in MasksOf(imgs, labelRegions, cropWp, chanLp) && id in MasksOf(imgs, labelRegions, cropWp, chanLp)[fov]
    ensures imgs != []
    ensures var m := MasksOf(imgs, labelRegions, cropWp, chanLp)[fov][id];
      var fovs := FovsInOrder(imgs);
      var rows, cols := imgs[0].rows, imgs[0].cols;
      m.y2 - m.y1 == LongestAll(imgs, labelRegions, fovs, cropWp, chanLp, rows, cols) &&
      0 <= m.x1 <= id <= m.x2 <= cols - 1
  {
    var rows, cols := imgs[0].rows, imgs[0].cols;
    var fovs := FovsInOrder(imgs);
    var comps := ComponentsOf(imgs, labelRegions, fov, cropWp, chanLp, rows, cols);
    var raw := FovMasks(comps, cols)[id];
    FovMasksShape(comps, cols);
    AllBoundsEach(imgs, labelRegions, fovs, cropWp, chanLp, rows, cols, fov);
    var maxLen := LongestAll(imgs, labelRegions, fovs, cropWp, chanLp, rows, cols);
    var maxWid := WidestAll(imgs, labelRegions, fovs, cropWp, chanLp, rows, cols);
    EqualizeMaskRows(raw, maxLen, maxWid, cols);
    EqualizeMaskColumns(raw, maxLen, maxWid, cols);
  }
}
