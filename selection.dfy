/**
 * Input selection in `compile`: the FOV option string, trimming the sorted list of
 * TIFF names to the `t_start`/`t_end` window, keeping only the files of the chosen
 * FOVs, and reading FOV and time index out of a Nikon Elements file name.
 */
module Selection {
  import opened Wrappers
  import opened PyText

  /** Python's `range(lo, hi)`. */
  function IntRange(lo: int, hi: int): (r: seq<int>)
    ensures |r| == if lo < hi then hi - lo else 0
    ensures forall k :: 0 <= k < |r| ==> r[k] == lo + k
    decreases hi - lo
  {
    if hi <= lo then [] else [lo] + IntRange(lo + 1, hi)
  }

  /** A string holding the separator splits into at least two pieces. */
  lemma SplitFindsSeparator(s: string, sep: string)
    requires |sep| > 0 && Contains(s, sep)
    ensures |Split(s, sep)| >= 2
  {
    JoinSplit(s, sep);
    SplitPiecesFree(s, sep);
  }

  /**
   * The FOV option: empty means no filter; with a '-' the two numbers around the first
   * '-' give an inclusive range (anything after a second '-' is ignored); otherwise a
   * comma-separated list. Err stands for the ValueError `int()` raises.
   */
  function ParseFovs(s: string): Result<seq<int>>
  {
    if s == "" then Ok([])
    else if Contains(s, "-") then
      SplitFindsSeparator(s, "-");
      var parts := Split(s, "-");
      match (ParseInt(parts[0]), ParseInt(parts[1]))
      case (Some(lo), Some(hi)) => Ok(IntRange(lo, hi + 1))
      case _ => Err("ValueError")
    else
      ParseAll(Split(s, ","))
  }

  /** `[int(val) for val in parts]`. */
  function ParseAll(parts: seq<string>): (r: Result<seq<int>>)
    ensures r.Ok? <==> forall k :: 0 <= k < |parts| ==> ParseInt(parts[k]).Some?
    ensures r.Ok? ==> |r.value| == |parts| && forall k :: 0 <= k < |parts| ==> ParseInt(parts[k]) == Some(r.value[k])
  {
    if parts == [] then Ok([])
    else
      match (ParseInt(parts[0]), ParseAll(parts[1..]))
      case (Some(v), Ok(vs)) => Ok([v] + vs)
      case _ => Err("ValueError")
  }

  /** Joining digit strings with a character they lack and splitting again gives them back. */
  lemma {:induction false} SplitJoinDigits(pieces: seq<string>, c: char)
    requires |pieces| > 0 && !IsDigit(c)
    requires forall k :: 0 <= k < |pieces| ==> AllDigits(pieces[k])
    ensures Split(Join(pieces, [c]), [c]) == pieces
  {
    MissingCharNotContained(pieces[0], [c], 0);
    SplitWithoutSeparator(pieces[0], [c]);
    if |pieces| > 1 {
      SplitJoinDigits(pieces[1..], c);
      SplitOneCharConcat(pieces[0], c, Join(pieces[1..], [c]));
      assert [pieces[0]] + pieces[1..] == pieces;
    }
  }

  /** Every character of a join of digit strings is a digit or the separator. */
  lemma {:induction false} JoinDigitsChars(pieces: seq<string>, c: char)
    requires |pieces| > 0
    requires forall k :: 0 <= k < |pieces| ==> AllDigits(pieces[k])
    ensures forall i :: 0 <= i < |Join(pieces, [c])| ==> IsDigit(Join(pieces, [c])[i]) || Join(pieces, [c])[i] == c
  {
    if |pieces| > 1 {
      JoinDigitsChars(pieces[1..], c);
    }
  }

  function DigitStrings(fovs: seq<nat>): (r: seq<string>)
    ensures |r| == |fovs|
    ensures forall k :: 0 <= k < |r| ==> r[k] == NatToDigits(fovs[k])
  {
    if fovs == [] then [] else [NatToDigits(fovs[0])] + DigitStrings(fovs[1..])
  }

  /** A comma-separated list of FOV numbers parses back to the same list, in order. */
  lemma FovListRoundTrip(fovs: seq<nat>)
    requires |fovs| > 0
    ensures ParseFovs(Join(DigitStrings(fovs), ",")) == Ok(fovs)
  {
    var pieces := DigitStrings(fovs);
    var s := Join(pieces, ",");
    JoinDigitsChars(pieces, ',');
    MissingCharNotContained(s, "-", 0);
    assert |s| > 0 by {
      assert |pieces[0]| > 0;
      JoinStartsWithFirst(pieces, ",");
    }
    ParseFovsList(s);
    SplitJoinDigits(pieces, ',');
    ParseDigitStrings(fovs);
  }

  /** Without a '-', a non-empty option is read as a comma-separated list. */
  lemma ParseFovsList(s: string)
    requires s != "" && !Contains(s, "-")
    ensures ParseFovs(s) == ParseAll(Split(s, ","))
  {
  }

  /** Parsing the decimal strings of a list of numbers gives the list back. */
  lemma ParseDigitStrings(fovs: seq<nat>)
    ensures ParseAll(DigitStrings(fovs)) == Ok(fovs)
  {
    var pieces := DigitStrings(fovs);
    forall k | 0 <= k < |pieces|
      ensures ParseInt(pieces[k]) == Some(fovs[k] as int)
    {
      ParseDigits(pieces[k]);
    }
    var r := ParseAll(pieces);
    assert r.Ok?;
    assert r.value == fovs;
  }

  lemma {:induction false} JoinStartsWithFirst(pieces: seq<string>, sep: string)
    requires |pieces| > 0
    ensures |Join(pieces, sep)| >= |pieces[0]|
  {
  }

  /** "a-b" gives the inclusive range a..b, empty when b < a. */
  lemma FovRangeRoundTrip(a: nat, b: nat)
    ensures ParseFovs(NatToDigits(a) + "-" + NatToDigits(b)) == Ok(IntRange(a, b + 1))
  {
    var da, db := NatToDigits(a), NatToDigits(b);
    var s := da + "-" + db;
    assert "-"[..0] == [];
    assert da + "-"[..0] == da;
    MissingCharNotContained(da, "-", 0);
    MissingCharNotContained(db, "-", 0);
    SplitAtFirst(da, "-", db);
    SplitWithoutSeparator(db, "-");
    assert Split(s, "-") == [da, db];
    ContainsInfix(da, "-", db);
    ParseDigits(da);
    ParseDigits(db);
    ParseFovsRange(s, a, b);
  }

  /** With a '-', the numbers before and after the first '-' bound the inclusive range. */
  lemma ParseFovsRange(s: string, lo: int, hi: int)
    requires s != "" && Contains(s, "-")
    requires |Split(s, "-")| >= 2
    requires ParseInt(Split(s, "-")[0]) == Some(lo) && ParseInt(Split(s, "-")[1]) == Some(hi)
    ensures ParseFovs(s) == Ok(IntRange(lo, hi + 1))
  {
  }

  lemma {:induction false} ContainsInfix(a: string, p: string, b: string)
    ensures Contains(a + p + b, p)
  {
    if a == [] {
      assert (a + p + b)[..|p|] == p;
    } else {
      assert (a + p + b)[1..] == a[1..] + p + b;
      ContainsInfix(a[1..], p, b);
    }
  }

  // ------------------------------------------------------ t_start / t_end

  /** The two spellings `t{:0=3}xy` and `t{:0=4}xy` the window's regular expression accepts for one time index. */
  datatype TimePattern = TimePattern(three: string, four: string)

  function PatternFor(t: int): TimePattern
  {
    TimePattern("t" + ZeroPad(t, 3) + "xy", "t" + ZeroPad(t, 4) + "xy")
  }

  /** `re.search(pattern, name)` for the pattern `t{:0=3}xy|t{:0=4}xy`. */
  predicate Marked(name: string, p: TimePattern)
  {
    Contains(name, p.three) || Contains(name, p.four)
  }

  /** Whether a file name is marked with time index `t`. */
  predicate TimeMatches(name: string, t: int)
  {
    Marked(name, PatternFor(t))
  }

  /** Which file names carry the pattern. */
  function Flags(files: seq<string>, p: TimePattern): seq<bool>
  {
    seq(|files|, j requires 0 <= j < |files| => Marked(files[j], p))
  }

  /** The index of the first true flag. */
  function FirstTrue(flags: seq<bool>): (r: Option<nat>)
    ensures r.Some? ==> r.value < |flags| && flags[r.value]
    ensures r.Some? ==> forall j :: 0 <= j < r.value ==> !flags[j]
    ensures r.None? <==> forall j :: 0 <= j < |flags| ==> !flags[j]
  {
    if flags == [] then None
    else if flags[0] then Some(0)
    else
      match FirstTrue(flags[1..])
      case Some(k) => Some(k + 1)
      case None => None
  }

  lemma {:induction false} FirstTrueIs(flags: seq<bool>, n: nat)
    requires n < |flags| && flags[n]
    requires forall j :: 0 <= j < n ==> !flags[j]
    ensures FirstTrue(flags) == Some(n)
  {
    if n > 0 {
      FirstTrueIs(flags[1..], n - 1);
    }
  }

  /** The index of the first file name carrying the pattern, if any. */
  function FirstMatch(files: seq<string>, p: TimePattern): Option<nat>
  {
    FirstTrue(Flags(files, p))
  }

  /** The first match is a match, every name before it is not, and there is none exactly when no name matches. */
  lemma FirstMatchMeaning(files: seq<string>, p: TimePattern)
    ensures FirstMatch(files, p).Some? <==> exists j :: 0 <= j < |files| && Marked(files[j], p)
    ensures FirstMatch(files, p).Some? ==> FirstMatch(files, p).value < |files| && Marked(files[FirstMatch(files, p).value], p)
    ensures forall j :: 0 <= j < |files| && (FirstMatch(files, p).None? || j < FirstMatch(files, p).value)
                      ==> !Marked(files[j], p)
  {
    var flags := Flags(files, p);
    assert forall j :: 0 <= j < |files| ==> flags[j] == Marked(files[j], p);
  }

  /** A marked name with no marked name before it is the first match. */
  lemma FirstMatchAt(files: seq<string>, p: TimePattern, n: nat)
    requires n < |files| && Marked(files[n], p)
    requires forall j :: 0 <= j < n ==> !Marked(files[j], p)
    ensures FirstMatch(files, p) == Some(n)
  {
    var flags := Flags(files, p);
    assert flags[n];
    assert forall j :: 0 <= j < n ==> !flags[j];
    FirstTrueIs(flags, n);
  }

  /** With no marked name there is no match. */
  lemma FirstMatchNone(files: seq<string>, p: TimePattern)
    requires forall j :: 0 <= j < |files| ==> !Marked(files[j], p)
    ensures FirstMatch(files, p) == None
  {
    var flags := Flags(files, p);
    assert forall j :: 0 <= j < |files| ==> !flags[j];
  }

  /** The files from the first one carrying the pattern on; all of them when none does. */
  function StartTrimmed(files: seq<string>, p: TimePattern): seq<string>
  {
    match FirstMatch(files, p)
    case Some(n) => files[n..]
    case None => files
  }

  /** The files before the first one carrying the pattern; all of them when none does. */
  function EndTrimmed(files: seq<string>, p: TimePattern): seq<string>
  {
    match FirstMatch(files, p)
    case Some(n) => files[..n]
    case None => files
  }

  /** `t_start`: keep the files from the first one carrying `p`, the pattern compiled for `t_start`, on. */
  method TrimStart(files: seq<string>, p: TimePattern) returns (kept: seq<string>)
    ensures kept == StartTrimmed(files, p)
  {
    var n := 0;
    while n < |files| && !Marked(files[n], p)
      invariant 0 <= n <= |files|
      invariant forall j :: 0 <= j < n ==> !Marked(files[j], p)
    {
      n := n + 1;
    }
    if n < |files| {
      FirstMatchAt(files, p, n);
      kept := files[n..];
    } else {
      FirstMatchNone(files, p);
      kept := files;
    }
  }

  /** `t_end`: keep only the files before the first one carrying `p`, the pattern compiled for `t_end`. */
  method TrimEnd(files: seq<string>, p: TimePattern) returns (kept: seq<string>)
    ensures kept == EndTrimmed(files, p)
  {
    var n := 0;
    while n < |files| && !Marked(files[n], p)
      invariant 0 <= n <= |files|
      invariant forall j :: 0 <= j < n ==> !Marked(files[j], p)
    {
      n := n + 1;
    }
    if n < |files| {
      FirstMatchAt(files, p, n);
      kept := files[..n];
    } else {
      FirstMatchNone(files, p);
      kept := files;
    }
  }

  /**
   * The `t_start` trim keeps a suffix, dropping only unmarked files; it starts with a
   * marked file whenever there is one.
   */
  lemma StartTrimmedSuffix(files: seq<string>, p: TimePattern) returns (n: nat)
    ensures n <= |files| && StartTrimmed(files, p) == files[n..]
    ensures forall j :: 0 <= j < n ==> !Marked(files[j], p)
    ensures (exists j :: 0 <= j < |files| && Marked(files[j], p))
            ==> |StartTrimmed(files, p)| > 0 && Marked(StartTrimmed(files, p)[0], p)
  {
    FirstMatchMeaning(files, p);
    match FirstMatch(files, p)
    case Some(k) =>
      n := k;
      assert StartTrimmed(files, p) == files[n..];
    case None =>
      n := 0;
      assert StartTrimmed(files, p) == files[0..];
  }

  /** The `t_end` trim keeps the longest prefix without a marked file; the marked file itself is excluded. */
  lemma EndTrimmedPrefix(files: seq<string>, p: TimePattern)
    ensures |EndTrimmed(files, p)| <= |files| && EndTrimmed(files, p) == files[..|EndTrimmed(files, p)|]
    ensures forall k :: 0 <= k < |EndTrimmed(files, p)| ==> !Marked(EndTrimmed(files, p)[k], p)
    ensures |EndTrimmed(files, p)| < |files| ==> Marked(files[|EndTrimmed(files, p)|], p)
  {
    FirstMatchMeaning(files, p);
  }

  /** Both trims, on patterns: the `t_start` trim first, then the `t_end` trim of what is left. */
  function Trimmed(files: seq<string>, ps: Option<TimePattern>, pe: Option<TimePattern>): seq<string>
  {
    var afterStart := if ps.Some? then StartTrimmed(files, ps.value) else files;
    if pe.Some? then EndTrimmed(afterStart, pe.value) else afterStart
  }

  /** The pattern searched for an optional bound. */
  function PatternOf(t: Option<int>): Option<TimePattern>
  {
    if t.Some? then Some(PatternFor(t.value)) else None
  }

  /** The files `compile` keeps. */
  function WindowFiles(files: seq<string>, tStart: Option<int>, tEnd: Option<int>): seq<string>
  {
    Trimmed(files, PatternOf(tStart), PatternOf(tEnd))
  }

  /** The window of `compile`. */
  method TrimToWindow(files: seq<string>, tStart: Option<int>, tEnd: Option<int>) returns (kept: seq<string>)
    ensures kept == WindowFiles(files, tStart, tEnd)
  {
    kept := files;
    if tStart.Some? {
      kept := TrimStart(kept, PatternFor(tStart.value));
    }
    if tEnd.Some? {
      kept := TrimEnd(kept, PatternFor(tEnd.value));
    }
  }

  /** Both trims keep a contiguous run of the list. */
  lemma TrimmedRun(files: seq<string>, ps: Option<TimePattern>, pe: Option<TimePattern>) returns (lo: nat, hi: nat)
    ensures lo <= hi <= |files| && Trimmed(files, ps, pe) == files[lo..hi]
  {
    lo := 0;
    if ps.Some? {
      lo := StartTrimmedSuffix(files, ps.value);
    }
    var afterStart := files[lo..];
    hi := |files|;
    if pe.Some? {
      EndTrimmedPrefix(afterStart, pe.value);
      var m := |EndTrimmed(afterStart, pe.value)|;
      assert afterStart[..m] == files[lo..lo + m];
      hi := lo + m;
    }
  }

  /** The window keeps a contiguous run of the sorted list. */
  lemma WindowFilesRun(files: seq<string>, tStart: Option<int>, tEnd: Option<int>)
    ensures exists lo, hi :: 0 <= lo <= hi <= |files| && WindowFiles(files, tStart, tEnd) == files[lo..hi]
  {
    var lo, hi := TrimmedRun(files, PatternOf(tStart), PatternOf(tEnd));
  }

  /** No kept file is marked with `t_end`: the `t_end` file itself is excluded. */
  lemma WindowFilesBeforeEnd(files: seq<string>, tStart: Option<int>, tEnd: Option<int>)
    requires tEnd.Some?
    ensures forall k :: 0 <= k < |WindowFiles(files, tStart, tEnd)| ==> !TimeMatches(WindowFiles(files, tStart, tEnd)[k], tEnd.value)
  {
    var afterStart := if tStart.Some? then StartTrimmed(files, PatternFor(tStart.value)) else files;
    EndTrimmedPrefix(afterStart, PatternFor(tEnd.value));
  }

  /** With no `t_end`, the window starts at the first file marked with `t_start`, when there is one. */
  lemma WindowFilesFromStart(files: seq<string>, tStart: Option<int>, tEnd: Option<int>)
    requires tStart.Some? && tEnd.None?
    requires exists j :: 0 <= j < |files| && TimeMatches(files[j], tStart.value)
    ensures |WindowFiles(files, tStart, tEnd)| > 0 && TimeMatches(WindowFiles(files, tStart, tEnd)[0], tStart.value)
  {
    var n := StartTrimmedSuffix(files, PatternFor(tStart.value));
  }

  /** A name of the form P + "t" + T (four digits) + "xy" + Q is found by the window for T. */
  lemma NameMatchesItsTime(p: string, t: nat, q: string)
    ensures TimeMatches(p + "t" + ZeroPad(t, 4) + "xy" + q, t)
  {
    var pat := "t" + ZeroPad(t, 4) + "xy";
    assert p + "t" + ZeroPad(t, 4) + "xy" + q == p + pat + q;
    ContainsInfix(p, pat, q);
  }

  // ------------------------------------------------------------ FOV filter

  /** `"xy%02d" % fov`. */
  function FovTag(fov: int): string
  {
    "xy" + ZeroPad(fov, 2)
  }

  /** `[f for f in files if tag in f]`. */
  function FilesWith(files: seq<string>, tag: string): (r: seq<string>)
    ensures |r| <= |files|
    ensures forall f :: f in r <==> f in files && Contains(f, tag)
  {
    if files == [] then []
    else (if Contains(files[0], tag) then [files[0]] else []) + FilesWith(files[1..], tag)
  }

  /** Filtering a concatenation filters each part, so the kept files stay in their order. */
  lemma {:induction false} FilesWithAppend(xs: seq<string>, ys: seq<string>, tag: string)
    ensures FilesWith(xs + ys, tag) == FilesWith(xs, tag) + FilesWith(ys, tag)
  {
    if xs != [] {
      assert (xs + ys)[1..] == xs[1..] + ys;
      FilesWithAppend(xs[1..], ys, tag);
    } else {
      assert xs + ys == ys;
    }
  }

  /** A single file is kept exactly when it contains the tag. */
  lemma FilesWithOne(f: string, tag: string)
    ensures FilesWith([f], tag) == if Contains(f, tag) then [f] else []
  {
    assert [f][1..] == [];
  }

  /** The tags of the requested FOVs, in the requested order. */
  function FovTags(fovs: seq<int>): seq<string>
  {
    seq(|fovs|, k requires 0 <= k < |fovs| => FovTag(fovs[k]))
  }

  /** The files carrying each tag, one block per tag, in the order of the tags. */
  function TagFiltered(files: seq<string>, tags: seq<string>): seq<string>
  {
    if tags == [] then []
    else TagFiltered(files, tags[..|tags| - 1]) + FilesWith(files, tags[|tags| - 1])
  }

  /**
   * The files kept for the FOV list: one block per requested FOV, in the requested order;
   * an empty list keeps every file.
   */
  function FovFiltered(files: seq<string>, fovs: seq<int>): seq<string>
  {
    if fovs == [] then files else TagFiltered(files, FovTags(fovs))
  }

  method FilterByFovs(files: seq<string>, fovs: seq<int>) returns (filtered: seq<string>)
    ensures filtered == FovFiltered(files, fovs)
  {
    if |fovs| == 0 {
      return files;
    }
    ghost var tags := FovTags(fovs);
    filtered := [];
    for i := 0 to |fovs|
      invariant filtered == TagFiltered(files, tags[..i])
    {
      assert tags[..i + 1][..i] == tags[..i];
      filtered := filtered + FilesWith(files, FovTag(fovs[i]));
    }
    assert tags[..|fovs|] == tags;
  }

  /** A file is kept exactly when it is one of the files and carries one of the tags. */
  lemma {:induction false} TagFilteredMembers(files: seq<string>, tags: seq<string>, f: string)
    ensures f in TagFiltered(files, tags)
        <==> f in files && exists k :: 0 <= k < |tags| && Contains(f, tags[k])
  {
    if tags != [] {
      var init := tags[..|tags| - 1];
      TagFilteredMembers(files, init, f);
      if f in files && exists k :: 0 <= k < |tags| && Contains(f, tags[k]) {
        var k :| 0 <= k < |tags| && Contains(f, tags[k]);
        if k < |tags| - 1 {
          assert init[k] == tags[k];
        }
      }
      if f in TagFiltered(files, init) {
        var k :| 0 <= k < |init| && Contains(f, init[k]);
        assert tags[k] == init[k];
      }
    }
  }

  /**
   * With FOVs requested, a file is kept exactly when it is one of the files and carries the
   * tag of a requested FOV; with none requested, nothing is filtered.
   */
  lemma FovFilteredMembers(files: seq<string>, fovs: seq<int>, f: string)
    ensures fovs != [] ==> (f in FovFiltered(files, fovs)
        <==> f in files && exists k :: 0 <= k < |fovs| && Contains(f, FovTag(fovs[k])))
    ensures fovs == [] ==> FovFiltered(files, fovs) == files
  {
    var tags := FovTags(fovs);
    TagFilteredMembers(files, tags, f);
    assert forall k :: 0 <= k < |fovs| ==> tags[k] == FovTag(fovs[k]);
  }

  /** A FOV requested twice keeps its files twice: the blocks are concatenated, not merged. */
  lemma RepeatedFovKeptTwice(f: string, fov: int)
    requires Contains(f, FovTag(fov))
    ensures FovFiltered([f], [fov, fov]) == [f, f]
  {
    var tags := FovTags([fov, fov]);
    assert FilesWith([f], FovTag(fov)) == [f] + FilesWith([], FovTag(fov));
    assert tags[..1][..0] == [];
    assert TagFiltered([f], tags[..1]) == [f];
    assert tags[..|tags| - 1] == tags[..1];
  }

  // ------------------------------------------------- Nikon Elements names

  datatype ElementsName = ElementsName(fov: int, t: int)

  /**
   * `int(fname.split("xy")[1].split(".tif")[0])` for the FOV and
   * `int(fname.split("xy")[0].split("t")[-1])` for the time index.
   */
  function ParseElementsName(name: string): Result<ElementsName>
  {
    var byXy := Split(name, "xy");
    if |byXy| < 2 then Err("IndexError")
    else
      var fovText := Split(byXy[1], ".tif")[0];
      var tPieces := Split(byXy[0], "t");
      var tText := tPieces[|tPieces| - 1];
      match (ParseInt(fovText), ParseInt(tText))
      case (Some(fov), Some(t)) => Ok(ElementsName(fov, t))
      case _ => Err("ValueError")
  }

  /**
   * For a name P + "t" + T + "xy" + F + ".tif" with digit strings T and F and a prefix
   * P free of "xy", the parse yields FOV F and time T, leading zeros ignored.
   */
  lemma ElementsNameRoundTrip(p: string, tDigits: string, fDigits: string)
    requires !Contains(p, "xy")
    requires |tDigits| > 0 && AllDigits(tDigits)
    requires |fDigits| > 0 && AllDigits(fDigits)
    ensures ParseElementsName(p + "t" + tDigits + "xy" + fDigits + ".tif")
         == Ok(ElementsName(DigitsValue(fDigits), DigitsValue(tDigits)))
  {
    var name := p + "t" + tDigits + "xy" + fDigits + ".tif";
    var head := p + "t" + tDigits;
    var tail := fDigits + ".tif";
    assert name == head + "xy" + tail;
    ElementsSplitXy(p, tDigits, tail);
    assert Split(name, "xy") == [head, tail];
    FovTextOf(fDigits);
    TimeTextOf(p, tDigits);
    var tPieces := Split(head, "t");
    assert tPieces[|tPieces| - 1] == tDigits;
    ParseDigits(fDigits);
    ParseDigits(tDigits);
  }

  /** The first "xy" of such a name is the one after the time digits. */
  lemma ElementsSplitXy(p: string, tDigits: string, tail: string)
    requires !Contains(p, "xy") && AllDigits(tDigits)
    requires forall j :: 0 <= j < |tail| ==> tail[j] != 'x'
    ensures Split(p + "t" + tDigits + "xy" + tail, "xy") == [p + "t" + tDigits, tail]
  {
    var head := p + "t" + tDigits;
    NoXyBeforeSeam(p, tDigits);
    SplitAtFirst(head, "xy", tail);
    MissingCharNotContained(tail, "xy", 0);
    SplitWithoutSeparator(tail, "xy");
  }

  lemma NoXyBeforeSeam(p: string, tDigits: string)
    requires !Contains(p, "xy") && AllDigits(tDigits)
    ensures !Contains(p + "t" + tDigits + "xy"[..1], "xy")
  {
    var v := "t" + tDigits + "x";
    assert forall j :: 0 <= j < |v| ==> v[j] != 'y' by {
      assert forall j :: 1 <= j < |v| - 1 ==> v[j] == tDigits[j - 1];
    }
    MissingCharNotContained(v, "xy", 1);
    NotContainsPair(p, v, "xy");
    assert p + "t" + tDigits + "xy"[..1] == p + v;
  }

  /** The FOV digits end where ".tif" begins. */
  lemma FovTextOf(fDigits: string)
    requires AllDigits(fDigits)
    ensures Split(fDigits + ".tif", ".tif")[0] == fDigits
  {
    MissingCharNotContained(fDigits + ".ti", ".tif", 3);
    assert ".tif"[..3] == ".ti";
    assert fDigits + ".tif" == fDigits + ".tif" + "";
    SplitAtFirst(fDigits, ".tif", "");
  }

  /** The time digits are the last piece after a 't'. */
  lemma TimeTextOf(p: string, tDigits: string)
    requires AllDigits(tDigits)
    ensures var pieces := Split(p + "t" + tDigits, "t"); pieces[|pieces| - 1] == tDigits
  {
    SplitOneCharConcat(p, 't', tDigits);
    assert p + "t" + tDigits == p + ['t'] + tDigits;
    MissingCharNotContained(tDigits, "t", 0);
    SplitWithoutSeparator(tDigits, "t");
  }

  /** The same round trip for names written with zero-padded numbers. */
  lemma PaddedElementsNameRoundTrip(p: string, t: nat, fov: nat)
    requires !Contains(p, "xy")
    ensures ParseElementsName(p + "t" + ZeroPad(t, 4) + "xy" + ZeroPad(fov, 2) + ".tif")
         == Ok(ElementsName(fov, t))
  {
    ElementsNameRoundTrip(p, PaddedDigits(t, 4), PaddedDigits(fov, 2));
  }
}
