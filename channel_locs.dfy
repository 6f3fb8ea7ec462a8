/**
 * `find_channel_locs` after peak detection: drop peaks too close to either edge, find
 * the default closed and open ends from the row projection of the whole image, then
 * try each channel's own projection and keep its ends only when they are plausible.
 */
module ChannelLocs {
  import opened Wrappers
  import opened PySlice
  import opened NumPy
  import opened Metadata

  /** How far (in pixels) a channel's own ends may stray from the defaults and the image edges. */
  const Tolerance := 15

  /**
   * Drop the first peak when it lies within half a channel separation of the left edge
   * and the last when it lies within half a separation of the right edge; indexing an
   * empty peak list raises IndexError.
   */
  function TrimPeaks(peaks: seq<int>, cols: int, chanSep: int): Result<seq<int>>
  {
    if |peaks| == 0 then Err("IndexError")
    else
      var afterFirst := if 2 * peaks[0] < chanSep then peaks[1..] else peaks;
      if |afterFirst| == 0 then Err("IndexError")
      else if 2 * (cols - afterFirst[|afterFirst| - 1]) < chanSep then Ok(afterFirst[..|afterFirst| - 1])
      else Ok(afterFirst)
  }

  /** The trimmed list is the peak list with at most the first and the last peak removed, each only when too close to its edge. */
  lemma TrimPeaksShape(peaks: seq<int>, cols: int, chanSep: int)
    ensures TrimPeaks(peaks, cols, chanSep).Err? <==> |peaks| == 0 || (|peaks| == 1 && 2 * peaks[0] < chanSep)
    ensures TrimPeaks(peaks, cols, chanSep).Ok? ==>
      var first := if 2 * peaks[0] < chanSep then 1 else 0;
      var kept := TrimPeaks(peaks, cols, chanSep).value;
      var last := if 2 * (cols - peaks[|peaks| - 1]) < chanSep then |peaks| - 1 else |peaks|;
      first < |peaks| && kept == peaks[first..last]
  {
  }

  /** `int(rows / 3.0)` and `int(rows * 2.0 / 3.0)`: exact floor divisions for image sizes. */
  function OneThird(rows: nat): nat { rows / 3 }
  function TwoThirds(rows: nat): nat { 2 * rows / 3 }

  /**
   * The ends found from a row projection: the closed end at the first steepest rise in the
   * top third of the derivative, the open end at the first steepest fall in its bottom
   * third; `argmax`/`argmin` of an empty slice raise ValueError.
   */
  function EndsFromProjection(projection: seq<int>): (r: Result<Ends>)
    ensures r.Ok? <==> |projection| >= 4
    ensures r.Ok? ==> 0 <= r.value.closed < OneThird(|projection|)
    ensures r.Ok? ==> TwoThirds(|projection|) <= r.value.open < |projection| - 1
  {
    var rows := |projection|;
    var d := Diff(projection);
    if OneThird(rows) == 0 || TwoThirds(rows) >= |d| then Err("ValueError")
    else Ok(Ends(ArgMax(d[..OneThird(rows)]), TwoThirds(rows) + ArgMin(d[TwoThirds(rows)..])))
  }

  /** `image.sum(axis=1).astype(np.int32)`. */
  function Projection(image: seq<seq<int>>): (p: seq<int>)
    ensures |p| == |image|
  {
    ToInt32(RowSums(image))
  }

  /** `image[:, lo:hi]`: every row keeps as many pixels as the slice selects, from the normalised start on. */
  function Columns(image: seq<seq<int>>, lo: int, hi: int): (r: seq<seq<int>>)
    ensures |r| == |image|
    ensures forall y :: 0 <= y < |image| ==> |r[y]| == SliceLength(lo, hi, |image[y]|)
    ensures forall y, x :: 0 <= y < |image| && 0 <= x < SliceLength(lo, hi, |image[y]|) ==> r[y][x] == image[y][Bound(lo, |image[y]|) + x]
  {
    seq(|image|, y requires 0 <= y < |image| => Slice(image[y], lo, hi))
  }

  /** The per-channel ends replace the defaults only when their length is within 15 of the default length and both ends keep 15 pixels from the image edges. */
  predicate Plausible(defaults: Ends, own: Ends, rows: int)
  {
    var defaultLength := defaults.open - defaults.closed;
    var ownLength := own.open - own.closed;
    !(ownLength + Tolerance < defaultLength || ownLength - Tolerance > defaultLength)
    && !(own.closed < Tolerance || own.open > rows - Tolerance)
  }

  function ChooseEnds(defaults: Ends, own: Ends, rows: int): Ends
  {
    if Plausible(defaults, own, rows) then own else defaults
  }

  /** The channel's own ends, from the projection of columns `peak - crop_wp : peak + crop_wp`. */
  function OwnEnds(image: seq<seq<int>>, peak: int, cropWp: int): (r: Result<Ends>)
    ensures r.Ok? <==> |image| >= 4
  {
    EndsFromProjection(Projection(Columns(image, peak - cropWp, peak + cropWp)))
  }

  /** The entry one remaining peak gets, given the default ends. */
  function Entry(image: seq<seq<int>>, defaults: Ends, peak: int, cropWp: int): Ends
    requires |image| >= 4
  {
    ChooseEnds(defaults, OwnEnds(image, peak, cropWp).value, |image|)
  }

  /** The entries of one image, as a function of the peak. */
  function EntryOf(image: seq<seq<int>>, defaults: Ends, cropWp: int): int -> Ends
    requires |image| >= 4
  {
    peak => Entry(image, defaults, peak, cropWp)
  }

  /** Every row of the image is `cols` pixels wide: `cols` is `image_data.shape[1]`. */
  predicate HasWidth(image: seq<seq<int>>, cols: int)
  {
    forall y :: 0 <= y < |image| ==> |image[y]| == cols
  }

  /** The dictionary `find_channel_locs` returns, or the error it raises. */
  function ChannelLocs(image: seq<seq<int>>, cols: int, peaks: seq<int>, chanSep: int, cropWp: int): Result<map<int, Ends>>
    requires HasWidth(image, cols)
  {
    match TrimPeaks(peaks, cols, chanSep)
    case Err(e) => Err(e)
    case Ok(kept) =>
      match EndsFromProjection(Projection(image))
      case Err(e) => Err(e)
      case Ok(defaults) =>
        Ok(map peak | peak in kept :: EntryOf(image, defaults, cropWp)(peak))
  }

  /** `find_channel_locs`: trim the peaks, find the default ends, then fill the dictionary. */
  method FindChannelLocs(image: seq<seq<int>>, cols: int, peaks: seq<int>, chanSep: int, cropWp: int)
    returns (r: Result<map<int, Ends>>)
    requires HasWidth(image, cols)
    ensures r == ChannelLocs(image, cols, peaks, chanSep, cropWp)
  {
    var trimmed := TrimPeaks(peaks, cols, chanSep);
    if trimmed.Err? {
      return Err(trimmed.error);
    }
    var found := EndsFromProjection(Projection(image));
    if found.Err? {
      return Err(found.error);
    }
    var locs := FillChannelLocs(image, found.value, trimmed.value, cropWp);
    r := Ok(locs);
  }

  /** The loop of `find_channel_locs`: one entry per remaining peak, and no other. */
  method FillChannelLocs(image: seq<seq<int>>, defaults: Ends, kept: seq<int>, cropWp: int)
    returns (locs: map<int, Ends>)
    requires |image| >= 4
    ensures locs == map peak | peak in kept :: EntryOf(image, defaults, cropWp)(peak)
  {
    var entryOf := EntryOf(image, defaults, cropWp);
    locs := map[];
    assert kept[..0] == [];
    for i := 0 to |kept|
      invariant locs == map peak | peak in kept[..i] :: entryOf(peak)
    {
      var peak := kept[i];
      var entry := ChannelEntry(image, defaults, peak, cropWp);
      assert entry == entryOf(peak);
      ExtendTable(kept, i, entryOf);
      locs := locs[peak := entry];
    }
    assert kept[..|kept|] == kept;
  }

  /** One peak's entry: the default ends, replaced by the channel's own ends when those are plausible. */
  method ChannelEntry(image: seq<seq<int>>, defaults: Ends, peak: int, cropWp: int) returns (entry: Ends)
    requires |image| >= 4
    ensures entry == Entry(image, defaults, peak, cropWp)
  {
    var own := OwnEnds(image, peak, cropWp);
    // the default entry is written first and replaced by plausible per-channel ends
    entry := defaults;
    if Plausible(defaults, own.value, |image|) {
      entry := own.value;
    }
  }

  /** A table built over the first i + 1 keys is the one over the first i with the next key added. */
  lemma ExtendTable<V>(keys: seq<int>, i: nat, valueOf: int -> V)
    requires i < |keys|
    ensures (map k | k in keys[..i + 1] :: valueOf(k)) == (map k | k in keys[..i] :: valueOf(k))[keys[i] := valueOf(keys[i])]
  {
    assert keys[..i + 1] == keys[..i] + [keys[i]];
  }

  /** Every remaining peak gets an entry, and nothing else does. */
  lemma ChannelLocsKeys(image: seq<seq<int>>, cols: int, peaks: seq<int>, chanSep: int, cropWp: int)
    requires HasWidth(image, cols)
    requires ChannelLocs(image, cols, peaks, chanSep, cropWp).Ok?
    ensures TrimPeaks(peaks, cols, chanSep).Ok?
    ensures forall peak :: peak in ChannelLocs(image, cols, peaks, chanSep, cropWp).value
                        <==> peak in TrimPeaks(peaks, cols, chanSep).value
  {
  }

  /** The image is usable exactly when it has a peak left after trimming and at least four rows. */
  lemma ChannelLocsErrors(image: seq<seq<int>>, cols: int, peaks: seq<int>, chanSep: int, cropWp: int)
    requires HasWidth(image, cols)
    ensures ChannelLocs(image, cols, peaks, chanSep, cropWp).Ok? <==> TrimPeaks(peaks, cols, chanSep).Ok? && |image| >= 4
  {
  }

  /**
   * Every entry keeps its closed end in the top third and its open end in the bottom
   * third; an entry other than the defaults is within 15 pixels of the default length and
   * keeps 15 pixels from both image edges.
   */
  lemma ChannelLocsEntries(image: seq<seq<int>>, cols: int, peaks: seq<int>, chanSep: int, cropWp: int, peak: int)
    requires HasWidth(image, cols)
    requires ChannelLocs(image, cols, peaks, chanSep, cropWp).Ok?
    requires peak in ChannelLocs(image, cols, peaks, chanSep, cropWp).value
    ensures var e := ChannelLocs(image, cols, peaks, chanSep, cropWp).value[peak];
      var rows := |image|;
      var defaults := EndsFromProjection(Projection(image)).value;
      0 <= e.closed < OneThird(rows) && TwoThirds(rows) <= e.open < rows - 1 &&
      (e == defaults || (
        defaults.open - defaults.closed - Tolerance <= e.open - e.closed <= defaults.open - defaults.closed + Tolerance &&
        Tolerance <= e.closed && e.open <= rows - Tolerance))
  {
    var defaults := EndsFromProjection(Projection(image)).value;
    assert ChannelLocs(image, cols, peaks, chanSep, cropWp).value[peak] == Entry(image, defaults, peak, cropWp);
    EntryBounds(image, defaults, peak, cropWp);
  }

  /** An entry lies within the thirds, and differs from the defaults only when it is plausible. */
  lemma EntryBounds(image: seq<seq<int>>, defaults: Ends, peak: int, cropWp: int)
    requires |image| >= 4
    requires 0 <= defaults.closed < OneThird(|image|) && TwoThirds(|image|) <= defaults.open < |image| - 1
    ensures var e := Entry(image, defaults, peak, cropWp);
      var rows := |image|;
      0 <= e.closed < OneThird(rows) && TwoThirds(rows) <= e.open < rows - 1 &&
      (e == defaults || (
        defaults.open - defaults.closed - Tolerance <= e.open - e.closed <= defaults.open - defaults.closed + Tolerance &&
        Tolerance <= e.closed && e.open <= rows - Tolerance))
  {
    assert |Projection(Columns(image, peak - cropWp, peak + cropWp))| == |image|;
  }

  /** A peak at least `crop_wp` from both edges is measured on exactly the `2 * crop_wp` columns around it. */
  lemma InteriorPeakColumns(image: seq<seq<int>>, cols: nat, peak: int, cropWp: nat)
    requires HasWidth(image, cols)
    requires cropWp <= peak && peak + cropWp <= cols
    ensures forall y :: 0 <= y < |image| ==>
      Columns(image, peak - cropWp, peak + cropWp)[y] == image[y][peak - cropWp..peak + cropWp]
  {
  }

  /**
   * A peak closer to the left edge than `crop_wp` gives a negative slice start, which
   * Python counts from the right edge; when that lands past the stop, the slice is empty,
   * its projection is flat, its closed end is row 0, and the defaults are kept.
   */
  lemma EmptySliceKeepsDefaults(image: seq<seq<int>>, cols: nat, peak: int, cropWp: int, defaults: Ends)
    requires HasWidth(image, cols)
    requires |image| >= 4
    requires SliceLength(peak - cropWp, peak + cropWp, cols) == 0
    ensures OwnEnds(image, peak, cropWp).Ok?
    ensures OwnEnds(image, peak, cropWp).value.closed == 0
    ensures ChooseEnds(defaults, OwnEnds(image, peak, cropWp).value, |image|) == defaults
  {
    var columns := Columns(image, peak - cropWp, peak + cropWp);
    forall y | 0 <= y < |image| ensures columns[y] == [] {
      SliceShape(image[y], peak - cropWp, peak + cropWp);
    }
    FlatProjection(columns);
  }

  /** Columns with no pixels project to zero in every row, whose steepest rise is the first row. */
  lemma FlatProjection(columns: seq<seq<int>>)
    requires |columns| >= 4
    requires forall y :: 0 <= y < |columns| ==> columns[y] == []
    ensures EndsFromProjection(Projection(columns)).value.closed == 0
  {
    var p := Projection(columns);
    forall y | 0 <= y < |p| ensures p[y] == 0 {
      assert RowSums(columns)[y] == Sum([]);
    }
    ZeroProjectionEnds(p);
  }

  /** A projection that is zero everywhere has its steepest rise at the first row. */
  lemma ZeroProjectionEnds(p: seq<int>)
    requires |p| >= 4
    requires forall y :: 0 <= y < |p| ==> p[y] == 0
    ensures EndsFromProjection(p).value.closed == 0
  {
    var d := Diff(p);
    forall k | 0 <= k < |d| ensures d[k] == 0 {
      assert p[k + 1] - p[k] == 0;
      assert d[k] == Int32(0);
    }
    var top := d[..OneThird(|p|)];
    assert forall k :: 0 <= k < |top| ==> top[k] == 0;
    ArgMaxUnique(top, 0);
  }

  /**
   * A peak closer to the left edge than `crop_wp`, in an image at least two crop widths
   * wide, gives an empty slice: the negative start counts from the right edge and lands
   * at or past the stop (100 columns, peak 3, `crop_wp` 5 give `[-2:8]`, columns 98 to 8).
   */
  lemma LeftEdgeSliceIsEmpty(peak: int, cropWp: int, cols: nat)
    requires 0 <= peak < cropWp && 2 * cropWp <= cols
    ensures SliceLength(peak - cropWp, peak + cropWp, cols) == 0
  {
  }
}
