/**
 * Small decision tables of the compile stage: which metadata reader a TIFF source
 * gets, whether the time table uses Julian dates, the initial channel-picking
 * specs, and which frames of a channel stack the cross-correlation looks at.
 */
module Decisions {
  import opened Wrappers

  // ------------------------------------------------------- reader dispatch

  /** The metadata reader `get_tif_params` calls; NoReader leaves `image_metadata` unbound. */
  datatype MetadataReader = ElementsReader | Nd2ToTiffReader | FilenameReader | NoReader

  /** Python truthiness of a string. */
  predicate Truthy(s: string)
  {
    s != ""
  }

  /**
   * The dispatch as written: the second test is `source == "nd2" or "TIFF_from_nd2"`,
   * whose right operand is a non-empty literal and hence always true.
   */
  function ReaderAsWritten(source: string): MetadataReader
  {
    if source == "TIFF_from_elements" then ElementsReader
    else if source == "nd2" || Truthy("TIFF_from_nd2") then Nd2ToTiffReader
    else if source == "TIFF" then FilenameReader
    else NoReader
  }

  /** The dispatch as evidently intended: each source name selects its own reader. */
  function ReaderFor(source: string): MetadataReader
  {
    if source == "TIFF_from_elements" then ElementsReader
    else if source == "nd2" || source == "TIFF_from_nd2" then Nd2ToTiffReader
    else if source == "TIFF" then FilenameReader
    else NoReader
  }

  /** As written, the file-name reader is never chosen and every non-Elements source gets the nd2 reader. */
  lemma ReaderAsWrittenIgnoresFilename(source: string)
    ensures ReaderAsWritten(source) != FilenameReader
    ensures source != "TIFF_from_elements" ==> ReaderAsWritten(source) == Nd2ToTiffReader
  {
  }

  /** The input that shows the discrepancy: plain "TIFF" gets the nd2 reader instead of the file-name reader. */
  lemma ReaderAsWrittenOnPlainTiff()
    ensures ReaderAsWritten("TIFF") == Nd2ToTiffReader
    ensures ReaderFor("TIFF") == FilenameReader
  {
  }

  /** The intended dispatch gives each of the four source names its own reader and no reader otherwise. */
  lemma ReaderCases(source: string)
    ensures ReaderFor(source) == FilenameReader <==> source == "TIFF"
    ensures ReaderFor(source) == ElementsReader <==> source == "TIFF_from_elements"
    ensures ReaderFor(source) == Nd2ToTiffReader <==> source == "nd2" || source == "TIFF_from_nd2"
    ensures ReaderFor(source) == NoReader <==> source !in {"TIFF", "TIFF_from_elements", "nd2", "TIFF_from_nd2"}
  {
  }

  // ------------------------------------------------------------------ use_jd

  /** `use_jd`: the sources whose metadata carries an acquisition time. */
  predicate UseJd(source: string)
  {
    source in {"nd2", "TIFF_from_elements", "TIFF_from_nd2"}
  }

  /** Julian dates are used exactly for the sources read by a metadata reader rather than from the file name. */
  lemma UseJdMatchesReader(source: string)
    ensures UseJd(source) <==> ReaderFor(source) in {ElementsReader, Nd2ToTiffReader}
  {
  }

  // ------------------------------------------------------------------ specs

  /** A cross-correlation entry: `False` for a failed job, else the average correlation. */
  datatype CrossCorr = Failed | Done(ccAvg: real)

  /** Some entry of the cross-correlation table is a failed job. */
  predicate AnyFailed(crosscorrs: map<int, map<int, CrossCorr>>)
  {
    exists fov, peak :: fov in crosscorrs && peak in crosscorrs[fov] && crosscorrs[fov][peak].Failed?
  }

  /**
   * The initial specs: with cross-correlations, 1 (analyse) for a channel whose average
   * correlation is below the threshold and -1 otherwise; a failed entry makes the lookup
   * `xcorrs["cc_avg"]` raise TypeError. Without them, -1 for every channel of the masks.
   */
  function Specs<M>(crosscorrs: map<int, map<int, CrossCorr>>, channelMasks: map<int, map<int, M>>, threshold: real)
    : Result<map<int, map<int, int>>>
  {
    if |crosscorrs| > 0 then
      if AnyFailed(crosscorrs) then Err("TypeError")
      else Ok(map fov | fov in crosscorrs ::
                map peak | peak in crosscorrs[fov] ::
                  if crosscorrs[fov][peak].ccAvg < threshold then 1 else -1)
    else
      Ok(map fov | fov in channelMasks :: map peak | peak in channelMasks[fov] :: -1)
  }

  /**
   * With cross-correlations the specs cover exactly their channels, and a channel is
   * marked 1 exactly when its average is below the threshold, -1 otherwise.
   */
  lemma SpecsFromCrossCorrs<M>(crosscorrs: map<int, map<int, CrossCorr>>, channelMasks: map<int, map<int, M>>,
                               threshold: real)
    requires |crosscorrs| > 0
    ensures Specs(crosscorrs, channelMasks, threshold).Ok? <==> !AnyFailed(crosscorrs)
    ensures Specs(crosscorrs, channelMasks, threshold).Ok? ==>
      var specs := Specs(crosscorrs, channelMasks, threshold).value;
      specs.Keys == crosscorrs.Keys &&
      forall fov :: fov in specs ==>
        specs[fov].Keys == crosscorrs[fov].Keys &&
        forall peak :: peak in specs[fov] ==>
          (specs[fov][peak] == 1 <==> crosscorrs[fov][peak].ccAvg < threshold) &&
          (specs[fov][peak] == -1 <==> crosscorrs[fov][peak].ccAvg >= threshold)
  {
  }

  /** Without cross-correlations every channel of the masks is set to -1 and nothing is analysed. */
  lemma SpecsWithoutCrossCorrs<M>(channelMasks: map<int, map<int, M>>, threshold: real)
    ensures Specs(map[], channelMasks, threshold).Ok?
    ensures var specs := Specs(map[], channelMasks, threshold).value;
      specs.Keys == channelMasks.Keys &&
      forall fov :: fov in specs ==>
        specs[fov].Keys == channelMasks[fov].Keys && forall peak :: peak in specs[fov] ==> specs[fov][peak] == -1
  {
  }

  /** Raising the threshold never turns an analysed channel into an unanalysed one. */
  lemma SpecsMonotoneInThreshold<M>(crosscorrs: map<int, map<int, CrossCorr>>, channelMasks: map<int, map<int, M>>,
                                    lo: real, hi: real, fov: int, peak: int)
    requires lo <= hi
    requires Specs(crosscorrs, channelMasks, lo).Ok?
    requires fov in Specs(crosscorrs, channelMasks, lo).value
    requires peak in Specs(crosscorrs, channelMasks, lo).value[fov]
    requires Specs(crosscorrs, channelMasks, lo).value[fov][peak] == 1
    ensures Specs(crosscorrs, channelMasks, hi).Ok?
    ensures Specs(crosscorrs, channelMasks, hi).value[fov][peak] == 1
  {
  }

  // ----------------------------------------------------- frame subsampling

  /** The number of frames `channel_xcorr` compares. */
  const SampleFrames := 20

  /** `range(start, n, step)`: every `step`-th index from `start` below `n`. */
  function StridedRange(start: nat, n: nat, step: nat): (r: seq<nat>)
    requires step > 0
    ensures forall k :: 0 <= k < |r| ==> r[k] == start + k * step && r[k] < n
    decreases n - start
  {
    if n <= start then []
    else
      var rest := StridedRange(start + step, n, step);
      assert forall k :: 1 <= k <= |rest| ==> start + step + (k - 1) * step == start + k * step by {
        forall k | 1 <= k <= |rest| {
          MulPred(k, step);
        }
      }
      [start] + rest
  }

  lemma MulPred(k: int, step: int)
    ensures (k - 1) * step == k * step - step
  {
  }

  /** The range holds at least `m` indices when the `m`-th of them is still below `n`. */
  lemma {:induction false} StridedRangeLength(start: nat, n: nat, step: nat, m: nat)
    requires step > 0 && m > 0 && start + (m - 1) * step < n
    ensures |StridedRange(start, n, step)| >= m
    decreases m
  {
    if m > 1 {
      MulPred(m - 1, step);
      StridedRangeLength(start + step, n, step, m - 1);
    }
  }

  /**
   * The frame indices kept from a stack of `n` frames: all of them when `n` is at most
   * 20, otherwise `[::spacing][:20]` with `spacing = int(n / 20)`.
   */
  function SubsampleIndices(n: nat): seq<nat>
  {
    if n > SampleFrames then
      var spacing := n / SampleFrames;
      var picked := StridedRange(0, n, spacing);
      if |picked| > SampleFrames then picked[..SampleFrames] else picked
    else StridedRange(0, n, 1)
  }

  /** `range(n)` has exactly `n` elements. */
  lemma {:induction false} UnitRangeLength(start: nat, n: nat)
    ensures |StridedRange(start, n, 1)| == if start < n then n - start else 0
    decreases n - start
  {
    if start < n {
      UnitRangeLength(start + 1, n);
    }
  }

  /**
   * The subsample always has exactly `min(n, 20)` frames, starting at frame 0 with
   * stride `n / 20` (1 for short stacks), all of them frames of the stack.
   */
  lemma SubsampleShape(n: nat)
    ensures |SubsampleIndices(n)| == if n < SampleFrames then n else SampleFrames
    ensures var stride := if n > SampleFrames then n / SampleFrames else 1;
      forall k :: 0 <= k < |SubsampleIndices(n)| ==> SubsampleIndices(n)[k] == k * stride && SubsampleIndices(n)[k] < n
  {
    if n > SampleFrames {
      var spacing := n / SampleFrames;
      assert (SampleFrames - 1) * spacing < n;
      StridedRangeLength(0, n, spacing, SampleFrames);
    } else {
      UnitRangeLength(0, n);
    }
  }
}
