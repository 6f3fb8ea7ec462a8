/**
 * `fix_orientation`, which turns the images of an FOV so that the channels open
 * downwards, and `cut_slice`, which cuts one channel out of a stack of frames.
 */
module Orientation {
  import opened Wrappers
  import opened PyText
  import opened PySlice
  import opened NumPy
  import opened Metadata

  /** One image plane: rows of pixel values. */
  type Plane = seq<seq<int>>

  /** A 2-D image (one plane) or a 3-D stack of planes `[c, y, x]`. */
  datatype Image = Flat(plane: Plane) | Stack(planes: seq<Plane>)

  /** `np.expand_dims(image, 0)` for a flat image; a stack is used as it is. */
  function Planes(image: Image): (ps: seq<Plane>)
    ensures image.Flat? ==> |ps| == 1
    ensures Restore(ps, image.Flat?) == image
  {
    match image
    case Flat(p) => [p]
    case Stack(ps) => ps
  }

  /** `image[:, ::-1, :]`: in every plane, row y of the result is row `rows - 1 - y` of the input. */
  function FlipRows(planes: seq<Plane>): (r: seq<Plane>)
    ensures |r| == |planes|
    ensures forall k :: 0 <= k < |planes| ==> |r[k]| == |planes[k]|
    ensures forall k, y :: 0 <= k < |planes| && 0 <= y < |planes[k]| ==> r[k][y] == planes[k][|planes[k]| - 1 - y]
  {
    seq(|planes|, k requires 0 <= k < |planes| => Reverse(planes[k]))
  }

  /** Flipping the rows twice gives every plane back. */
  lemma FlipRowsInvolution(planes: seq<Plane>)
    ensures FlipRows(FlipRows(planes)) == planes
  {
    var r := FlipRows(FlipRows(planes));
    forall k | 0 <= k < |planes| ensures r[k] == planes[k] {
      assert |r[k]| == |planes[k]|;
    }
  }

  /** The image with its rows reversed, in its own shape. */
  function Flipped(image: Image): Image
  {
    match image
    case Flat(p) => Flat(Reverse(p))
    case Stack(ps) => Stack(FlipRows(ps))
  }

  /** `image_data[0]` for an image that was flat on entry; a stack is returned as it is. */
  function Restore(planes: seq<Plane>, flat: bool): Image
    requires flat ==> |planes| > 0
  {
    if flat then Flat(planes[0]) else Stack(planes)
  }

  /** `re.search("[0-9]", s)`: the value of the first ASCII digit of `s`, if any. */
  function FirstDigit(s: string): (r: Option<nat>)
    ensures r.None? <==> forall i :: 0 <= i < |s| ==> !IsDigit(s[i])
    ensures r.Some? ==> exists i :: 0 <= i < |s| && IsDigit(s[i]) && r.value == DigitValue(s[i])
                                  && forall j :: 0 <= j < i ==> !IsDigit(s[j])
  {
    if s == [] then None
    else if IsDigit(s[0]) then Some(DigitValue(s[0]))
    else
      var r := FirstDigit(s[1..]);
      assert r.Some? ==> exists i :: 1 <= i < |s| && IsDigit(s[i]) && r.value == DigitValue(s[i])
                                    && forall j :: 0 <= j < i ==> !IsDigit(s[j]) by {
        if r.Some? {
          var i :| 0 <= i < |s[1..]| && IsDigit(s[1..][i]) && r.value == DigitValue(s[1..][i])
                   && forall j :: 0 <= j < i ==> !IsDigit(s[1..][j]);
          assert forall j :: 1 <= j < i + 1 ==> s[j] == s[1..][j - 1];
        }
      }
      r
  }

  /** The total brightness of each plane; planes of one array share a size, so this orders them as their means do. */
  function PlaneSums(planes: seq<Plane>): seq<int>
  {
    seq(|planes|, k requires 0 <= k < |planes| => Sum(RowSums(planes[k])))
  }

  /**
   * The phase plane for `auto`: the first digit of `phase_plane` minus one (so "c0" gives
   * -1, the last plane), or, when there is no digit, the plane with the largest mean.
   */
  function PhasePlane(phasePlane: string, planes: seq<Plane>): (r: Result<nat>)
    ensures r.Ok? ==> r.value < |planes|
  {
    match FirstDigit(phasePlane)
    case Some(d) =>
      if IndexOk(d - 1, |planes|) then Ok(PyIndex(d - 1, |planes|)) else Err("IndexError")
    case None =>
      if |planes| == 0 then Err("ValueError") else Ok(ArgMax(PlaneSums(planes)))
  }

  /** The `auto` test: the first brightest row of the phase plane lies above the middle. */
  predicate BrightRowOnTop(plane: Plane)
    requires |plane| > 0
  {
    2 * ArgMax(RowSums(plane)) < |plane|
  }

  /** The body of `fix_orientation` after the flat image has been expanded. */
  function OrientPlanes(orientation: string, phasePlane: string, planes: seq<Plane>): Result<seq<Plane>>
  {
    if orientation == "auto" then
      match PhasePlane(phasePlane, planes)
      case Err(e) => Err(e)
      case Ok(ph) =>
        if |planes[ph]| == 0 then Err("ValueError")
        else if BrightRowOnTop(planes[ph]) then Ok(FlipRows(planes))
        else Ok(planes)
    else if orientation == "up" then Ok(FlipRows(planes))
    else Ok(planes)
  }

  /**
   * `fix_orientation` as written: for `up` it returns the flipped array before the
   * flat image is flattened again, so a 2-D image comes back as a one-plane stack.
   */
  function FixOrientationAsWritten(orientation: string, phasePlane: string, image: Image): Result<Image>
  {
    var planes := Planes(image);
    if orientation == "up" then Ok(Stack(FlipRows(planes)))
    else
      match OrientPlanes(orientation, phasePlane, planes)
      case Err(e) => Err(e)
      case Ok(out) => Ok(Restore(out, image.Flat?))
  }

  /** `fix_orientation` as evidently intended: every orientation returns the image in its own shape. */
  function FixOrientation(orientation: string, phasePlane: string, image: Image): Result<Image>
  {
    match OrientPlanes(orientation, phasePlane, Planes(image))
    case Err(e) => Err(e)
    case Ok(out) => Ok(Restore(out, image.Flat?))
  }

  /** Flipping and restoring commute with expanding. */
  lemma RestoreFlipped(image: Image)
    ensures Restore(FlipRows(Planes(image)), image.Flat?) == Flipped(image)
    ensures Restore(Planes(image), image.Flat?) == image
  {
  }

  /** `down` (and any orientation other than `auto` and `up`) leaves the image as it is. */
  lemma FixOrientationKeeps(orientation: string, phasePlane: string, image: Image)
    requires orientation != "auto" && orientation != "up"
    ensures FixOrientation(orientation, phasePlane, image) == Ok(image)
    ensures FixOrientationAsWritten(orientation, phasePlane, image) == Ok(image)
  {
    RestoreFlipped(image);
  }

  /** `up` reverses the rows of every plane and keeps the shape. */
  lemma FixOrientationUp(phasePlane: string, image: Image)
    ensures FixOrientation("up", phasePlane, image) == Ok(Flipped(image))
  {
    RestoreFlipped(image);
  }

  /** As written, `up` on a 2-D image returns a 3-D stack of one plane. */
  lemma FixOrientationUpAsWrittenFlat(phasePlane: string, plane: Plane)
    ensures FixOrientationAsWritten("up", phasePlane, Flat(plane)) == Ok(Stack([Reverse(plane)]))
    ensures FixOrientation("up", phasePlane, Flat(plane)) == Ok(Flat(Reverse(plane)))
  {
    assert FlipRows([plane]) == [Reverse(plane)];
    FixOrientationUp(phasePlane, Flat(plane));
  }

  /** The two versions agree everywhere except on `up` applied to a 2-D image. */
  lemma FixOrientationAsWrittenAgrees(orientation: string, phasePlane: string, image: Image)
    requires orientation != "up" || image.Stack?
    ensures FixOrientationAsWritten(orientation, phasePlane, image) == FixOrientation(orientation, phasePlane, image)
  {
    RestoreFlipped(image);
  }

  /** Turning an image `up` twice gives it back. */
  lemma FixOrientationUpTwice(phasePlane: string, image: Image)
    ensures FixOrientation("up", phasePlane, image).Ok?
    ensures FixOrientation("up", phasePlane, FixOrientation("up", phasePlane, image).value) == Ok(image)
  {
    FixOrientationUp(phasePlane, image);
    FixOrientationUp(phasePlane, Flipped(image));
    match image
    case Flat(p) => ReverseInvolution(p);
    case Stack(ps) => FlipRowsInvolution(ps);
  }

  /**
   * `auto` with a usable phase plane flips the image exactly when the first row of
   * largest total in that plane lies in its upper half, and keeps it otherwise.
   */
  lemma FixOrientationAuto(phasePlane: string, image: Image, ph: nat, top: nat)
    requires PhasePlane(phasePlane, Planes(image)) == Ok(ph)
    requires top < |Planes(image)[ph]|
    requires forall r :: 0 <= r < |Planes(image)[ph]| ==> Sum(Planes(image)[ph][r]) <= Sum(Planes(image)[ph][top])
    requires forall r :: 0 <= r < top ==> Sum(Planes(image)[ph][r]) < Sum(Planes(image)[ph][top])
    ensures FixOrientation("auto", phasePlane, image)
         == Ok(if 2 * top < |Planes(image)[ph]| then Flipped(image) else image)
  {
    var plane := Planes(image)[ph];
    ArgMaxUnique(RowSums(plane), top);
    RestoreFlipped(image);
  }

  /** `auto` fails only when the phase plane cannot be chosen or has no rows. */
  lemma FixOrientationAutoErrors(phasePlane: string, image: Image)
    ensures FixOrientation("auto", phasePlane, image).Err? <==>
      PhasePlane(phasePlane, Planes(image)).Err? || |Planes(image)[PhasePlane(phasePlane, Planes(image)).value]| == 0
  {
    var planes := Planes(image);
    var r := OrientPlanes("auto", phasePlane, planes);
    assert FixOrientation("auto", phasePlane, image).Err? <==> r.Err?;
  }

  /** Without a digit in `phase_plane`, `auto` takes the first plane of largest total brightness. */
  lemma PhasePlaneBrightest(phasePlane: string, planes: seq<Plane>)
    requires FirstDigit(phasePlane).None? && |planes| > 0
    ensures PhasePlane(phasePlane, planes).Ok?
    ensures forall k :: 0 <= k < |planes| ==>
      Sum(RowSums(planes[k])) <= Sum(RowSums(planes[PhasePlane(phasePlane, planes).value]))
    ensures forall k :: 0 <= k < PhasePlane(phasePlane, planes).value ==>
      Sum(RowSums(planes[k])) < Sum(RowSums(planes[PhasePlane(phasePlane, planes).value]))
  {
    var sums := PlaneSums(planes);
    assert forall k :: 0 <= k < |planes| ==> sums[k] == Sum(RowSums(planes[k]));
  }

  /** A phase plane named with a digit picks the plane that digit numbers from one, or the last for 0. */
  lemma PhasePlaneByName(phasePlane: string, planes: seq<Plane>, i: nat)
    requires i < |phasePlane| && IsDigit(phasePlane[i])
    requires forall j :: 0 <= j < i ==> !IsDigit(phasePlane[j])
    requires 0 < |planes|
    ensures DigitValue(phasePlane[i]) == 0 ==> PhasePlane(phasePlane, planes) == Ok(|planes| - 1)
    ensures 0 < DigitValue(phasePlane[i]) <= |planes| ==> PhasePlane(phasePlane, planes) == Ok(DigitValue(phasePlane[i]) - 1)
    ensures DigitValue(phasePlane[i]) > |planes| ==> PhasePlane(phasePlane, planes).Err?
  {
    var r := FirstDigit(phasePlane);
    var k :| 0 <= k < |phasePlane| && IsDigit(phasePlane[k]) && r.value == DigitValue(phasePlane[k])
             && forall j :: 0 <= j < k ==> !IsDigit(phasePlane[j]);
    assert k == i;
  }

  // ---------------------------------------------------------------- cut_slice

  /** One frame of a 4-D stack: rows of pixels, each pixel a list of colour planes. */
  type Frame = seq<seq<seq<int>>>

  /** `frame[y1:y2, x1:x2, :]`. */
  function CutFrame(frame: Frame, loc: Rect): (r: Frame)
    ensures |r| == SliceLength(loc.y1, loc.y2, |frame|)
  {
    var rows := Slice(frame, loc.y1, loc.y2);
    SliceShape(frame, loc.y1, loc.y2);
    seq(|rows|, y requires 0 <= y < |rows| => Slice(rows[y], loc.x1, loc.x2))
  }

  /** `np.pad(..., [[0, 0], [0, extra], [0, 0], [0, 0]], mode="edge")` on one frame: repeat its last row. */
  function PadRows(frame: Frame, extra: nat): (r: Frame)
    requires |frame| > 0
    ensures |r| == |frame| + extra
    ensures forall y :: 0 <= y < |r| ==> r[y] == frame[if y < |frame| then y else |frame| - 1]
  {
    frame + seq(extra, _ => frame[|frame| - 1])
  }

  /**
   * `cut_slice` on a 4-D stack `[t, y, x, c]` of frames with `rows` rows each: cut the
   * channel out of every frame and, when the cut is shorter than `y2 - y1`, pad it at the
   * bottom with copies of its last row; `np.pad` cannot extend an empty cut.
   */
  function CutSlice(frames: seq<Frame>, rows: nat, loc: Rect): Result<seq<Frame>>
    requires forall t :: 0 <= t < |frames| ==> |frames[t]| == rows
  {
    var cut := SliceLength(loc.y1, loc.y2, rows);
    var yDifference := (loc.y2 - loc.y1) - cut;
    if yDifference > 0 && cut == 0 then Err("ValueError")
    else if yDifference > 0 then
      Ok(seq(|frames|, t requires 0 <= t < |frames| => PadRows(CutFrame(frames[t], loc), yDifference)))
    else
      Ok(seq(|frames|, t requires 0 <= t < |frames| => CutFrame(frames[t], loc)))
  }

  /**
   * For a location with `0 <= y1 <= y2` and `0 <= x1`, every cut frame has exactly
   * `y2 - y1` rows; row `y` is row `y1 + y` of the frame (the last row inside the image
   * once the location runs past the bottom), restricted to columns `x1:x2`.
   */
  lemma CutSliceShape(frames: seq<Frame>, rows: nat, loc: Rect)
    requires forall t :: 0 <= t < |frames| ==> |frames[t]| == rows
    requires 0 <= loc.y1 <= loc.y2 && 0 <= loc.x1
    requires loc.y1 < rows || loc.y1 == loc.y2
    ensures CutSlice(frames, rows, loc).Ok?
    ensures var r := CutSlice(frames, rows, loc).value;
      |r| == |frames| &&
      forall t :: 0 <= t < |r| ==>
        |r[t]| == loc.y2 - loc.y1 &&
        forall y :: 0 <= y < |r[t]| ==>
          r[t][y] == Slice(frames[t][if loc.y1 + y < rows then loc.y1 + y else rows - 1], loc.x1, loc.x2)
  {
    var r := CutSlice(frames, rows, loc).value;
    forall t | 0 <= t < |r|
      ensures |r[t]| == loc.y2 - loc.y1
      ensures forall y :: 0 <= y < |r[t]| ==>
          r[t][y] == Slice(frames[t][if loc.y1 + y < rows then loc.y1 + y else rows - 1], loc.x1, loc.x2)
    {
      SliceShape(frames[t], loc.y1, loc.y2);
    }
  }

  /** A location starting below the image gives an empty cut, which cannot be padded. */
  lemma CutSliceBelowImage(frames: seq<Frame>, rows: nat, loc: Rect)
    requires forall t :: 0 <= t < |frames| ==> |frames[t]| == rows
    requires rows <= loc.y1 < loc.y2
    ensures CutSlice(frames, rows, loc) == Err("ValueError")
  {
  }
}
