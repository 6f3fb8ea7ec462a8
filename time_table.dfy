/**
 * `make_time_table` on the time-index path (`use_jd` false): the elapsed seconds of
 * every image, FOV by FOV, measured from the earliest time index over all images.
 */
module TimeTable {
  import opened Wrappers
  import opened Metadata

  const Uint32Modulus := 0x1_0000_0000

  /** `astype("uint32")` of an integer: wrap-around modulo 2^32. */
  function Uint32(x: int): (r: nat)
    ensures r < Uint32Modulus
    ensures 0 <= x < Uint32Modulus ==> r == x
  {
    x % Uint32Modulus
  }

  /** The smallest time index over all images. */
  function MinT(imgs: seq<ImageMeta>): (m: int)
    requires |imgs| > 0
    ensures forall k :: 0 <= k < |imgs| ==> m <= imgs[k].t
  {
    if |imgs| == 1 then imgs[0].t
    else
      var init := MinT(imgs[..|imgs| - 1]);
      assert forall k :: 0 <= k < |imgs| - 1 ==> imgs[..|imgs| - 1][k] == imgs[k];
      if imgs[|imgs| - 1].t < init then imgs[|imgs| - 1].t else init
  }

  /** The minimum is the time index of some image. */
  lemma {:induction false} MinTAttained(imgs: seq<ImageMeta>)
    requires |imgs| > 0
    ensures exists k :: 0 <= k < |imgs| && imgs[k].t == MinT(imgs)
  {
    if |imgs| > 1 {
      var init := imgs[..|imgs| - 1];
      MinTAttained(init);
      var k :| 0 <= k < |init| && init[k].t == MinT(init);
      assert imgs[k] == init[k];
      var last := |imgs| - 1;
      assert imgs[k].t == MinT(imgs) || imgs[last].t == MinT(imgs);
    } else {
      assert imgs[0].t == MinT(imgs);
    }
  }

  /** The running minimum of the first loop. */
  lemma MinTExtend(imgs: seq<ImageMeta>, i: nat)
    requires 0 < i < |imgs|
    ensures MinT(imgs[..i + 1]) == if imgs[i].t < MinT(imgs[..i]) then imgs[i].t else MinT(imgs[..i])
  {
    assert imgs[..i + 1][..i] == imgs[..i];
  }

  /** The FOVs of the images. */
  function FovSet(imgs: seq<ImageMeta>): set<int>
  {
    set k | 0 <= k < |imgs| :: imgs[k].fov
  }

  /** The time indices of the images of one FOV. */
  function TimesOf(imgs: seq<ImageMeta>, fov: int): set<int>
  {
    set k | 0 <= k < |imgs| && imgs[k].fov == fov :: imgs[k].t
  }

  /** Elapsed seconds of time index `t`: `uint32((t - first) * seconds_per_time_index)`. */
  function Elapsed(t: int, first: int, secondsPerIndex: int): nat
  {
    Uint32((t - first) * secondsPerIndex)
  }

  /** The table the function returns: for each FOV, each of its time indices mapped to its elapsed time. */
  function TimeTableOf(imgs: seq<ImageMeta>, secondsPerIndex: int): map<int, map<int, int>>
  {
    if imgs == [] then map[] else TablesFrom(imgs, MinT(imgs), secondsPerIndex)
  }

  /** For each FOV, each of its time indices mapped to its elapsed time from `first`. */
  function TablesFrom(imgs: seq<ImageMeta>, first: int, secondsPerIndex: int): map<int, map<int, int>>
  {
    map fov | fov in FovSet(imgs) :: map t | t in TimesOf(imgs, fov) :: Elapsed(t, first, secondsPerIndex)
  }

  /**
   * The two loops of `make_time_table`: the first finds the earliest time index and gives
   * every FOV an empty table, the second fills in one entry per image.
   */
  method MakeTimeTable(imgs: seq<ImageMeta>, secondsPerIndex: int) returns (table: map<int, map<int, int>>)
    ensures table == TimeTableOf(imgs, secondsPerIndex)
  {
    var first: Option<int> := None;
    table := map[];
    for i := 0 to |imgs|
      invariant i == 0 <==> first.None?
      invariant first.Some? ==> first.value == MinT(imgs[..i])
      invariant table == EmptyTables(FovSet(imgs[..i]))
    {
      var img := imgs[i];
      if i > 0 {
        MinTExtend(imgs, i);
      }
      if first.None? || img.t < first.value {
        first := Some(img.t);
      }
      if img.fov !in table {
        table := table[img.fov := map[]];
      }
      FovSetExtend(imgs, i);
      EmptyTablesExtend(FovSet(imgs[..i]), img.fov);
    }
    assert imgs[..|imgs|] == imgs;
    if first.Some? {
      table := FillTimeTable(imgs, first.value, secondsPerIndex, table);
    } else {
      NoImagesNoTable(imgs, secondsPerIndex);
    }
  }

  /** The second loop of `make_time_table`: one entry per image, measured from `first`. */
  method FillTimeTable(imgs: seq<ImageMeta>, first: int, secondsPerIndex: int, empty: map<int, map<int, int>>)
    returns (table: map<int, map<int, int>>)
    requires |imgs| > 0 && first == MinT(imgs)
    requires empty == EmptyTables(FovSet(imgs))
    ensures table == TimeTableOf(imgs, secondsPerIndex)
  {
    table := empty;
    for i := 0 to |imgs|
      invariant table == TableAfter(imgs, i, first, secondsPerIndex)
    {
      var img := imgs[i];
      table := table[img.fov := table[img.fov][img.t := Elapsed(img.t, first, secondsPerIndex)]];
    }
    TableAfterAll(imgs, first, secondsPerIndex);
  }

  /** The table after the second loop has written the entries of the first `i` images. */
  function TableAfter(imgs: seq<ImageMeta>, i: nat, first: int, secondsPerIndex: int): (table: map<int, map<int, int>>)
    requires i <= |imgs|
    ensures table.Keys == FovSet(imgs)
  {
    if i == 0 then EmptyTables(FovSet(imgs))
    else
      var before := TableAfter(imgs, i - 1, first, secondsPerIndex);
      var img := imgs[i - 1];
      assert img.fov in FovSet(imgs);
      before[img.fov := before[img.fov][img.t := Elapsed(img.t, first, secondsPerIndex)]]
  }

  /** After `i` images, each FOV's table holds exactly the time indices of its first images, each mapped to its elapsed time. */
  lemma {:induction false} TableAfterLookup(imgs: seq<ImageMeta>, i: nat, first: int, secondsPerIndex: int)
    requires i <= |imgs|
    ensures forall fov :: fov in FovSet(imgs) ==>
      TableAfter(imgs, i, first, secondsPerIndex)[fov].Keys == TimesOf(imgs[..i], fov) &&
      forall t :: t in TableAfter(imgs, i, first, secondsPerIndex)[fov] ==>
        TableAfter(imgs, i, first, secondsPerIndex)[fov][t] == Elapsed(t, first, secondsPerIndex)
  {
    if i == 0 {
      forall fov ensures TimesOf(imgs[..0], fov) == {} {
      }
    } else {
      TableAfterLookup(imgs, i - 1, first, secondsPerIndex);
      TimesOfExtend(imgs, i - 1);
    }
  }

  /** After all images the loop has built the whole table. */
  lemma TableAfterAll(imgs: seq<ImageMeta>, first: int, secondsPerIndex: int)
    ensures TableAfter(imgs, |imgs|, first, secondsPerIndex) == TablesFrom(imgs, first, secondsPerIndex)
  {
    var built := TableAfter(imgs, |imgs|, first, secondsPerIndex);
    var spec := TablesFrom(imgs, first, secondsPerIndex);
    TableAfterLookup(imgs, |imgs|, first, secondsPerIndex);
    assert imgs[..|imgs|] == imgs;
    forall fov | fov in FovSet(imgs)
      ensures built[fov] == spec[fov]
    {
    }
  }

  /** With no images the table is empty. */
  lemma NoImagesNoTable(imgs: seq<ImageMeta>, secondsPerIndex: int)
    requires |imgs| == 0
    ensures EmptyTables(FovSet(imgs)) == TimeTableOf(imgs, secondsPerIndex) == map[]
  {
    assert FovSet(imgs) == {};
  }

  /** An empty table for each FOV of the set. */
  function EmptyTables(fovs: set<int>): map<int, map<int, int>>
  {
    map fov | fov in fovs :: map[]
  }

  lemma EmptyTablesExtend(fovs: set<int>, f: int)
    ensures EmptyTables(fovs + {f}) == if f in EmptyTables(fovs) then EmptyTables(fovs) else EmptyTables(fovs)[f := map[]]
  {
  }

  lemma FovSetExtend(imgs: seq<ImageMeta>, i: nat)
    requires i < |imgs|
    ensures FovSet(imgs[..i + 1]) == FovSet(imgs[..i]) + {imgs[i].fov}
  {
    assert forall k :: 0 <= k < i ==> imgs[..i + 1][k] == imgs[..i][k];
    assert imgs[..i + 1][i] == imgs[i];
  }

  /** Adding an image adds its time index to its own FOV and to no other. */
  lemma TimesOfExtend(imgs: seq<ImageMeta>, i: nat)
    requires i < |imgs|
    ensures TimesOf(imgs[..i + 1], imgs[i].fov) == TimesOf(imgs[..i], imgs[i].fov) + {imgs[i].t}
    ensures forall fov :: fov != imgs[i].fov ==> TimesOf(imgs[..i + 1], fov) == TimesOf(imgs[..i], fov)
  {
    assert forall k :: 0 <= k < i ==> imgs[..i + 1][k] == imgs[..i][k];
    assert imgs[..i + 1][i] == imgs[i];
  }

  /** Every FOV seen gets a table, holding exactly the time indices of its images. */
  lemma TimeTableKeys(imgs: seq<ImageMeta>, secondsPerIndex: int)
    requires |imgs| > 0
    ensures TimeTableOf(imgs, secondsPerIndex).Keys == FovSet(imgs)
    ensures forall k :: 0 <= k < |imgs| ==>
      imgs[k].fov in TimeTableOf(imgs, secondsPerIndex) && imgs[k].t in TimeTableOf(imgs, secondsPerIndex)[imgs[k].fov]
  {
    var table := TimeTableOf(imgs, secondsPerIndex);
    forall k | 0 <= k < |imgs|
      ensures imgs[k].fov in table && imgs[k].t in table[imgs[k].fov]
    {
      assert imgs[k].fov in FovSet(imgs);
      assert imgs[k].t in TimesOf(imgs, imgs[k].fov);
    }
  }

  /** The entry of image `k` is its elapsed time from the earliest time index over all images. */
  lemma TimeTableLookup(imgs: seq<ImageMeta>, secondsPerIndex: int, k: nat)
    requires k < |imgs|
    ensures imgs[k].fov in TimeTableOf(imgs, secondsPerIndex)
    ensures imgs[k].t in TimeTableOf(imgs, secondsPerIndex)[imgs[k].fov]
    ensures TimeTableOf(imgs, secondsPerIndex)[imgs[k].fov][imgs[k].t] == Elapsed(imgs[k].t, MinT(imgs), secondsPerIndex)
  {
    assert imgs[k].fov in FovSet(imgs);
    assert imgs[k].t in TimesOf(imgs, imgs[k].fov);
  }

  /** Without wrap-around the elapsed time is the exact product. */
  lemma ElapsedExact(t: int, first: int, secondsPerIndex: int)
    requires 0 <= (t - first) * secondsPerIndex < Uint32Modulus
    ensures Elapsed(t, first, secondsPerIndex) == (t - first) * secondsPerIndex
  {
  }

  /**
   * Each entry is `(t - min t) * seconds_per_time_index`, the minimum taken over the images
   * of all FOVs, as long as that product fits the uint32 range; the earliest image maps to 0.
   */
  lemma TimeTableEntries(imgs: seq<ImageMeta>, secondsPerIndex: int, k: nat)
    requires k < |imgs|
    requires 0 <= (imgs[k].t - MinT(imgs)) * secondsPerIndex < Uint32Modulus
    ensures TimeTableOf(imgs, secondsPerIndex)[imgs[k].fov][imgs[k].t] == (imgs[k].t - MinT(imgs)) * secondsPerIndex
    ensures imgs[k].t == MinT(imgs) ==> TimeTableOf(imgs, secondsPerIndex)[imgs[k].fov][imgs[k].t] == 0
  {
    TimeTableLookup(imgs, secondsPerIndex, k);
    ElapsedExact(imgs[k].t, MinT(imgs), secondsPerIndex);
  }

  /**
   * For a non-negative rate and no wrap-around, entries are non-decreasing in the time
   * index, also across FOVs.
   */
  lemma TimeTableMonotone(imgs: seq<ImageMeta>, secondsPerIndex: nat, i: nat, j: nat)
    requires i < |imgs| && j < |imgs| && imgs[i].t <= imgs[j].t
    requires (imgs[j].t - MinT(imgs)) * secondsPerIndex < Uint32Modulus
    ensures TimeTableOf(imgs, secondsPerIndex)[imgs[i].fov][imgs[i].t] <= TimeTableOf(imgs, secondsPerIndex)[imgs[j].fov][imgs[j].t]
  {
    var first := MinT(imgs);
    var a, b := imgs[i].t - first, imgs[j].t - first;
    MulMonotone(a, b, secondsPerIndex);
    assert 0 <= a * secondsPerIndex <= b * secondsPerIndex < Uint32Modulus;
    TimeTableEntries(imgs, secondsPerIndex, i);
    TimeTableEntries(imgs, secondsPerIndex, j);
  }

  lemma MulMonotone(a: nat, b: nat, c: nat)
    requires a <= b
    ensures 0 <= a * c <= b * c
  {
  }

  /**
   * Because the minimum is global, a FOV whose images all start later than another FOV's
   * does not start at 0: its first entry is the gap times the rate.
   */
  lemma TimeTableGlobalOrigin(imgs: seq<ImageMeta>, secondsPerIndex: nat, i: nat, j: nat)
    requires i < |imgs| && j < |imgs| && imgs[i].t < imgs[j].t && secondsPerIndex > 0
    requires (imgs[j].t - MinT(imgs)) * secondsPerIndex < Uint32Modulus
    ensures TimeTableOf(imgs, secondsPerIndex)[imgs[j].fov][imgs[j].t] > 0
  {
    var gap := imgs[j].t - MinT(imgs);
    assert gap >= 1;
    PositiveProduct(gap, secondsPerIndex);
    TimeTableEntries(imgs, secondsPerIndex, j);
  }

  lemma PositiveProduct(a: int, b: int)
    requires a > 0 && b > 0
    ensures a * b > 0
  {
  }
}
