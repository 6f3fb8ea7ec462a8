# mm3 compile stage — a Dafny model

This project models the deterministic core of the compile stage of the mm3
mother-machine pipeline, `src/napari_mm3/_compile.py`. That stage turns a time
series of TIFF images into a per-FOV (field of view) description of the
growth channels:

- which metadata reader a TIFF source gets, and how a Nikon Elements file
  name yields its FOV and time index;
- how the Nikon metadata tag 65331 is decoded into plane names and positions;
- how the user's FOV list (`"1-5"` or `"1,3,7"`) is parsed, and how the file
  list is trimmed to the `[t_start, t_end)` window and filtered by FOV;
- how channel ends are found from a row projection of the phase image;
- how images are flipped so channels open the same way
  (`fix_orientation`), and how a 4-D channel stack is cut and padded
  (`cut_slice`);
- how per-image channel rectangles are added into a consensus mask, labelled
  into one rectangle per channel and then equalised to a common length and
  width (`make_masks`);
- how the time table maps every FOV and time index to elapsed seconds, wrapped
  to an unsigned 32-bit integer;
- the initial channel specs from the cross-correlation table, and the frames
  the cross-correlation subsamples.

Python and NumPy semantics the source relies on are modelled explicitly:

- `PySlice` models slicing with negative and out-of-range bounds.
- `PyText` models `int()` on text, `%0Nd`, `str.split`, `str.join` and `in`.
- `NumPy` models `sum(axis=1)`, `np.diff` on `int32`, `argmax`/`argmin` (first
  maximum) and `[::-1]`.

Python exceptions become `Err(name)` results that carry the exception's class
name.

Modules:

| file | module | covers |
|---|---|---|
| wrappers.dfy | Wrappers | `Option`, `Result` |
| pyslice.dfy | PySlice | Python slice and index semantics |
| pytext.dfy | PyText | digits, `int()`, zero padding, split/join |
| numpy.dfy | NumPy | row sums, `int32` diff, argmax/argmin, reverse |
| metadata.dfy | Metadata | image metadata records, FOV order |
| decisions.dfy | Decisions | reader dispatch, Julian-date switch, specs, xcorr frames |
| tags.dfy | Tags | decoding of TIFF tag 65331 |
| selection.dfy | Selection | FOV parameter, time window, FOV filter, Elements names |
| channel_locs.dfy | ChannelLocs | `find_channel_locs` |
| orientation.dfy | Orientation | `fix_orientation`, `cut_slice` |
| masks.dfy | Masks | `make_masks` window, consensus, labelling, equalising |
| time_table.dfy | TimeTable | `make_time_table` |

Operations that change state step by step in the source are methods whose
loops carry invariants:

- `Masks.FillRect`, `AddInto`, `ConsensusMask` and `LabelMasks`;
- `Masks.EqualizeFov` and `EqualizeMasks`;
- `Selection.TrimStart`, `TrimEnd` and `FilterByFovs`;
- `ChannelLocs.FillChannelLocs`;
- `TimeTable.MakeTimeTable`;
- `Tags.TagText`, `AllChars` and `ExtractPlanes`.

Each of these is proved equal to a specification function. The lemmas beside
that function state what the source promises.

## Model

| member | source | states |
|---|---|---|
| PySlice.Bound | src/napari_mm3/_compile.py:960 | a slice bound is clamped into `[0, len]`, and a negative bound counts from the end |
| PySlice.SliceLength | src/napari_mm3/_compile.py:960 | a slice is never longer than the sequence it cuts |
| PySlice.SliceShape | src/napari_mm3/_compile.py:960 | a slice has `SliceLength` elements, and element k is the one at the clamped start plus k |
| PySlice.SliceInRange | src/napari_mm3/_compile.py:392 | with non-negative bounds a Python slice is the plain subsequence, truncated at the end, or empty past it |
| PySlice.PyIndex | src/napari_mm3/_compile.py:933 | an admissible index, `-1` included, denotes a valid position, counted from the end when negative |
| PyText.NatToDigits | src/napari_mm3/_compile.py:1136 | `str(n)` is a non-empty digit string whose value is n, one digit exactly when n < 10 |
| PyText.PaddedDigits | src/napari_mm3/_compile.py:1136 | `%0Nd` of n is a digit string worth n, of width N or longer when n needs more digits |
| PyText.LeadingZerosIgnored | src/napari_mm3/_compile.py:206-207 | leading zeros do not change the value `int()` reads from digits |
| PyText.ParseDigits | src/napari_mm3/_compile.py:1052 | `int()` of a non-empty digit string is its decimal value |
| PyText.ParseNegativeDigits | src/napari_mm3/_compile.py:1052 | `int()` of `-` followed by digits is the negated value |
| PyText.ParseIntToString | src/napari_mm3/_compile.py:1052 | `int(str(i)) == i` for every integer |
| PyText.ParseZeroPad | src/napari_mm3/_compile.py:1110-1111 | `int()` reads back every zero-padded integer, negative ones included |
| PyText.ParseInt | src/napari_mm3/_compile.py:1052 | definition; characterised by `ParseDigits`, `ParseNegativeDigits`, `ParseIntToString` |
| PyText.ZeroPad | src/napari_mm3/_compile.py:1110-1111 | definition; characterised by `PaddedDigits`, `ParseZeroPad` |
| PyText.Split | src/napari_mm3/_compile.py:1052 | `str.split` always yields at least one piece |
| PyText.JoinSplit | src/napari_mm3/_compile.py:1052 | joining the pieces of a split with the separator gives back the text |
| PyText.SplitPiecesFree | src/napari_mm3/_compile.py:1052 | no piece of a split contains the separator |
| PyText.SplitWithoutSeparator | src/napari_mm3/_compile.py:1052 | text without the separator splits into itself alone |
| PyText.SplitAtFirst | src/napari_mm3/_compile.py:206 | a split cuts at the first occurrence of the separator |
| PyText.MissingCharNotContained | src/napari_mm3/_compile.py:1047 | text lacking one character of a pattern does not contain the pattern |
| NumPy.RowSums | src/napari_mm3/_compile.py:937 | `sum(axis=1)`, built row by row, has one entry per row, each that row's sum |
| NumPy.Int32 | src/napari_mm3/_compile.py:939 | the `int32` conversion lies in the 32-bit range, agrees with its input modulo 2^32, and is the identity in range |
| NumPy.Diff | src/napari_mm3/_compile.py:939 | `np.diff` on `int32`, built step by step, has one entry fewer than its input, each the wrapped difference of neighbours |
| NumPy.DiffTelescopes | src/napari_mm3/_compile.py:939 | the wrapped differences add up to the last value minus the first, modulo 2^32 |
| NumPy.ToInt32 | src/napari_mm3/_compile.py:939 | `astype(int32)`, built element by element, wraps every element |
| NumPy.ToInt32Idempotent | src/napari_mm3/_compile.py:939 | casting to `int32` twice is casting once |
| NumPy.ArgMax | src/napari_mm3/_compile.py:942 | `argmax` is the first position of a maximum |
| NumPy.ArgMin | src/napari_mm3/_compile.py:945 | `argmin` is the first position of a minimum |
| NumPy.ArgMaxUnique | src/napari_mm3/_compile.py:942 | any first position of a maximum is the one `argmax` returns |
| NumPy.Reverse | src/napari_mm3/_compile.py:1021 | `[::-1]`, built by moving the first element last, puts element k at position len-1-k |
| NumPy.ReverseInvolution | src/napari_mm3/_compile.py:1021 | reversing twice gives back the rows |
| NumPy.ReverseSameElements | src/napari_mm3/_compile.py:1021 | reversing keeps the same rows with the same multiplicities |
| Metadata.FovsInOrder | src/napari_mm3/_compile.py:666-671 | the FOV list holds every image's FOV, only those, and each once |
| Decisions.ReaderAsWrittenIgnoresFilename | src/napari_mm3/_compile.py:59-64 | as written, the file-name reader is never chosen and every non-Elements source gets the nd2 reader |
| Decisions.ReaderAsWrittenOnPlainTiff | src/napari_mm3/_compile.py:61-64 | the source `TIFF` gets the nd2 reader as written but the file-name reader as intended |
| Decisions.ReaderCases | src/napari_mm3/_compile.py:59-64 | with the intended test each source name selects its own reader, in both directions, and any other name none |
| Decisions.ReaderAsWritten | src/napari_mm3/_compile.py:59-64 | definition; characterised by `ReaderAsWrittenIgnoresFilename`, `ReaderAsWrittenOnPlainTiff` |
| Decisions.ReaderFor | src/napari_mm3/_compile.py:59-64 | definition; characterised by `ReaderCases` |
| Decisions.UseJdMatchesReader | src/napari_mm3/_compile.py:1435-1438 | Julian dates are used exactly for the sources whose reader supplies them |
| Decisions.UseJd | src/napari_mm3/_compile.py:1435-1438 | definition; characterised by `UseJdMatchesReader` |
| Decisions.SpecsFromCrossCorrs | src/napari_mm3/_compile.py:1348-1361 | with cross-correlations the specs fail exactly when a job failed; otherwise they cover the same channels, with 1 exactly below the threshold and -1 otherwise |
| Decisions.SpecsWithoutCrossCorrs | src/napari_mm3/_compile.py:1364-1366 | without cross-correlations every channel of the masks is set to -1 |
| Decisions.SpecsMonotoneInThreshold | src/napari_mm3/_compile.py:1354-1358 | raising the threshold never turns an analysed channel off |
| Decisions.Specs | src/napari_mm3/_compile.py:1348-1366 | definition; characterised by `SpecsFromCrossCorrs`, `SpecsWithoutCrossCorrs`, `SpecsMonotoneInThreshold` |
| Decisions.StridedRange | src/napari_mm3/_compile.py:330 | `range(start, n, step)` holds start + k·step at position k, all below n |
| Decisions.StridedRangeLength | src/napari_mm3/_compile.py:330 | the range has at least m elements when its m-th candidate is below n |
| Decisions.SubsampleShape | src/napari_mm3/_compile.py:321-332 | the cross-correlation looks at min(n, 20) frames, at multiples of the stride, all inside the stack |
| Decisions.SubsampleIndices | src/napari_mm3/_compile.py:321-332 | definition; characterised by `SubsampleShape` |
| Tags.Words | src/napari_mm3/_compile.py:241-243 | the tag bytes read as little-endian 16-bit words, half as many as bytes |
| Tags.WordsOfEncode | src/napari_mm3/_compile.py:241-243 | reading back encoded words gives the words |
| Tags.EncodeOfWords | src/napari_mm3/_compile.py:241-243 | an even-length byte string is exactly the encoding of its words |
| Tags.ShiftedWords | src/napari_mm3/_compile.py:277-280 | the words read from the second byte on are no more than the aligned words |
| Tags.TextChar | src/napari_mm3/_compile.py:247-252 | a word becomes its own character when in 65..126 and a space otherwise |
| Tags.TagText | src/napari_mm3/_compile.py:245-253 | the character loop builds the word-by-word text |
| Tags.TextOf | src/napari_mm3/_compile.py:245-253 | one character per word, each the `TextChar` of its word; computed by `TagText` |
| Tags.Find | src/napari_mm3/_compile.py:261 | `str.index` finds a pattern exactly when it occurs, at its first occurrence |
| Tags.PairChar | src/napari_mm3/_compile.py:284-289 | a character pair yields the first printable of the two, or a space |
| Tags.AllChars | src/napari_mm3/_compile.py:282-289 | the pair loop builds one character per interleaved word pair |
| Tags.AllCharsOf | src/napari_mm3/_compile.py:277-289 | one character per interleaved word pair, as many as the shifted words; computed by `AllChars` |
| Tags.Collapse | src/napari_mm3/_compile.py:291 | collapsing runs of spaces keeps every non-space character in order, the first character, and leaves no double space |
| Tags.CollapseNoRuns | src/napari_mm3/_compile.py:291 | text without a double space is left unchanged |
| Tags.CollapseDoubled | src/napari_mm3/_compile.py:291 | a run of two spaces collapses as a single space does, so with `CollapseNoRuns` every run becomes one space |
| Tags.CollapseIdempotent | src/napari_mm3/_compile.py:291 | collapsing twice is collapsing once |
| Tags.ExtractPlanes | src/napari_mm3/_compile.py:295-299 | the plane loop computes the plane list, or IndexError |
| Tags.PlanesError | src/napari_mm3/_compile.py:296-299 | the plane loop raises IndexError exactly when the last word is the marker |
| Tags.PlanesMembers | src/napari_mm3/_compile.py:296-299 | a name is a plane exactly when it follows a `sOpticalConfigName` marker |
| Tags.PlanesCount | src/napari_mm3/_compile.py:296-299 | there is one plane per marker |
| Tags.PlanesFrom | src/napari_mm3/_compile.py:295-299 | definition; characterised by `PlanesError`, `PlanesMembers`, `PlanesCount`; computed by `ExtractPlanes` |
| Tags.PositionError | src/napari_mm3/_compile.py:261-274 | a tag passes the position reads only when its text holds `dXPos`, `dYPos` and `dTimeAbsolute` |
| Tags.TagAsWrittenFails | src/napari_mm3/_compile.py:261-264 | a tag the intended reader decodes makes the code as written raise TypeError |
| Tags.ReadTagPlanes | src/napari_mm3/_compile.py:277-301 | the intended reader's planes are exactly the words following a marker |
| Tags.ReadTag | src/napari_mm3/_compile.py:238-301 | definition; characterised by `ReadTagPlanes`, `PositionError` |
| Tags.ReadTagAsWritten | src/napari_mm3/_compile.py:261-264 | definition; characterised by `TagAsWrittenFails` |
| Selection.IntRange | src/napari_mm3/_compile.py:1048-1050 | `range(lo, hi)` holds lo + k at position k, hi - lo values or none |
| Selection.ParseAll | src/napari_mm3/_compile.py:1052 | the list parse succeeds exactly when every piece is an integer, and yields their values in order |
| Selection.DigitStrings | src/napari_mm3/_compile.py:1052 | FOV numbers written out keep their order and count |
| Selection.FovListRoundTrip | src/napari_mm3/_compile.py:1046-1054 | a comma-joined FOV list parses back to that list |
| Selection.ParseFovsList | src/napari_mm3/_compile.py:1051-1052 | text without `-` parses as its comma-separated integers |
| Selection.ParseDigitStrings | src/napari_mm3/_compile.py:1052 | written FOV numbers parse back to the numbers |
| Selection.FovRangeRoundTrip | src/napari_mm3/_compile.py:1047-1050 | `a-b` parses to every FOV from a to b inclusive |
| Selection.ParseFovsRange | src/napari_mm3/_compile.py:1047-1050 | text with `-` parses to the inclusive range between its first two integers |
| Selection.ParseFovs | src/napari_mm3/_compile.py:1046-1054 | definition; characterised by `ParseFovsList`, `ParseFovsRange`, `FovListRoundTrip`, `FovRangeRoundTrip` |
| Selection.FirstTrue | src/napari_mm3/_compile.py:1108-1117 | the first raised flag, or none when none is raised |
| Selection.FirstMatchMeaning | src/napari_mm3/_compile.py:1108-1117 | a match is found exactly when some file names the time, and no earlier file does |
| Selection.FirstMatchAt | src/napari_mm3/_compile.py:1108-1117 | the first file naming the time is the match |
| Selection.FirstMatchNone | src/napari_mm3/_compile.py:1108-1117 | with no file naming the time there is no match |
| Selection.TrimStart | src/napari_mm3/_compile.py:1106-1117 | the start loop keeps the list from the first file naming `t_start` |
| Selection.TrimEnd | src/napari_mm3/_compile.py:1120-1129 | the end loop cuts the list before the first file naming `t_end` |
| Selection.StartTrimmedSuffix | src/napari_mm3/_compile.py:1106-1117 | start trimming drops only files before the first match and keeps a suffix starting at it |
| Selection.EndTrimmedPrefix | src/napari_mm3/_compile.py:1120-1129 | end trimming keeps a prefix without a match that stops right at the first match |
| Selection.StartTrimmed | src/napari_mm3/_compile.py:1106-1117 | definition; characterised by `StartTrimmedSuffix`; computed by `TrimStart` |
| Selection.EndTrimmed | src/napari_mm3/_compile.py:1120-1129 | definition; characterised by `EndTrimmedPrefix`; computed by `TrimEnd` |
| Selection.TrimToWindow | src/napari_mm3/_compile.py:1104-1129 | both loops together compute the window of files |
| Selection.TrimmedRun | src/napari_mm3/_compile.py:1104-1129 | the trimmed list is one contiguous run of the original list |
| Selection.WindowFilesRun | src/napari_mm3/_compile.py:1104-1129 | the time window is one contiguous run of the file list |
| Selection.WindowFilesBeforeEnd | src/napari_mm3/_compile.py:1120-1129 | no file in the window names `t_end` |
| Selection.WindowFilesFromStart | src/napari_mm3/_compile.py:1106-1117 | when some file names `t_start`, the window starts with such a file |
| Selection.NameMatchesItsTime | src/napari_mm3/_compile.py:1110-1114 | an Elements file name with a 4-digit time matches the pattern for that time |
| Selection.FilesWith | src/napari_mm3/_compile.py:1137 | the comprehension keeps exactly the files containing the tag |
| Selection.FilesWithAppend | src/napari_mm3/_compile.py:1137 | filtering a concatenation filters each part in turn, so the kept files keep their order and multiplicity |
| Selection.FilesWithOne | src/napari_mm3/_compile.py:1137 | a single file is kept exactly when it contains the tag |
| Selection.FilterByFovs | src/napari_mm3/_compile.py:1132-1139 | the filter loop computes the FOV-filtered file list |
| Selection.TagFilteredMembers | src/napari_mm3/_compile.py:1134-1137 | a file is kept exactly when it contains one of the tags |
| Selection.FovFilteredMembers | src/napari_mm3/_compile.py:1132-1139 | with FOVs requested a file is kept exactly when it carries one of their tags; with none the list is unchanged |
| Selection.RepeatedFovKeptTwice | src/napari_mm3/_compile.py:1134-1137 | a FOV listed twice keeps each of its files twice |
| Selection.FovFiltered | src/napari_mm3/_compile.py:1132-1139 | definition; characterised by `FovFilteredMembers`, `FilesWithAppend`, `RepeatedFovKeptTwice`; computed by `FilterByFovs` |
| Selection.ElementsNameRoundTrip | src/napari_mm3/_compile.py:206-207 | an Elements name `…t<digits>xy<digits>.tif` yields exactly those FOV and time values |
| Selection.PaddedElementsNameRoundTrip | src/napari_mm3/_compile.py:206-207 | a name written with a padded time and FOV reads back to that FOV and time |
| Selection.ElementsSplitXy | src/napari_mm3/_compile.py:206 | splitting such a name at `xy` gives the time part and the FOV part |
| Selection.FovTextOf | src/napari_mm3/_compile.py:206 | the FOV digits are what precedes `.tif` |
| Selection.TimeTextOf | src/napari_mm3/_compile.py:207 | the time digits are what follows the last `t` |
| Selection.ParseElementsName | src/napari_mm3/_compile.py:206-207 | definition; characterised by `ElementsNameRoundTrip`, `PaddedElementsNameRoundTrip` |
| ChannelLocs.TrimPeaksShape | src/napari_mm3/_compile.py:927-934 | peak trimming fails exactly on no peaks or one edge peak; otherwise it drops only a first or last peak too near the edge |
| ChannelLocs.TrimPeaks | src/napari_mm3/_compile.py:927-934 | definition; characterised by `TrimPeaksShape` |
| ChannelLocs.EndsFromProjection | src/napari_mm3/_compile.py:937-946 | default ends exist for images of 4 or more rows, the closed end in the top third, the open end in the bottom third |
| ChannelLocs.Projection | src/napari_mm3/_compile.py:937 | the projection has one entry per row |
| ChannelLocs.Columns | src/napari_mm3/_compile.py:960 | every row keeps as many pixels as the Python slice selects, pixel x being the one at the normalised start plus x |
| ChannelLocs.OwnEnds | src/napari_mm3/_compile.py:960-965 | a channel's own ends exist exactly for images of 4 or more rows |
| ChannelLocs.FindChannelLocs | src/napari_mm3/_compile.py:927-982 | the whole function returns the channel-location table, or the error it raises |
| ChannelLocs.ChannelLocs | src/napari_mm3/_compile.py:927-982 | definition; characterised by `ChannelLocsKeys`, `ChannelLocsErrors`, `ChannelLocsEntries` |
| ChannelLocs.Plausible | src/napari_mm3/_compile.py:970-974 | definition; characterised by `EntryBounds` |
| ChannelLocs.FillChannelLocs | src/napari_mm3/_compile.py:950-980 | the peak loop gives every kept peak its entry and no other key |
| ChannelLocs.ChannelEntry | src/napari_mm3/_compile.py:955-980 | a peak keeps the default ends unless its own ends pass both plausibility tests |
| ChannelLocs.ChannelLocsKeys | src/napari_mm3/_compile.py:953-958 | the table has an entry for exactly the kept peaks |
| ChannelLocs.ChannelLocsErrors | src/napari_mm3/_compile.py:927-946 | the search fails exactly when trimming fails or the image has fewer than 4 rows |
| ChannelLocs.ChannelLocsEntries | src/napari_mm3/_compile.py:967-980 | every entry has its ends in the top and bottom thirds and is the default or a plausible own pair |
| ChannelLocs.EntryBounds | src/napari_mm3/_compile.py:967-980 | an entry replaces the defaults only by ends within tolerance of the default length and margins |
| ChannelLocs.InteriorPeakColumns | src/napari_mm3/_compile.py:960 | for a peak away from the edges the slice is the plain column range |
| ChannelLocs.EmptySliceKeepsDefaults | src/napari_mm3/_compile.py:960-974 | an empty slice gives own ends at row 0, so the defaults are kept |
| ChannelLocs.FlatProjection | src/napari_mm3/_compile.py:960-963 | a projection of empty rows puts the closed end at row 0 |
| ChannelLocs.LeftEdgeSliceIsEmpty | src/napari_mm3/_compile.py:960 | in an image at least two crop widths wide, every peak nearer the left edge than the crop half-width gives an empty slice |
| Orientation.Planes | src/napari_mm3/_compile.py:1000-1002 | a 2-D image becomes a one-plane stack, and restoring the dimensionality gives back the image |
| Orientation.FlipRows | src/napari_mm3/_compile.py:1021 | in every plane, row y of the result is row rows-1-y of the input, and the shape is kept |
| Orientation.FlipRowsInvolution | src/napari_mm3/_compile.py:1021 | flipping the rows twice gives back every plane |
| Orientation.FirstDigit | src/napari_mm3/_compile.py:1008 | the phase-plane number is the first digit of the plane name, if any |
| Orientation.PhasePlane | src/napari_mm3/_compile.py:1005-1013 | a chosen phase plane is a plane of the image |
| Orientation.PhasePlaneBrightest | src/napari_mm3/_compile.py:1011-1012 | without a digit in the plane name, `auto` picks the first plane of largest total brightness |
| Orientation.RestoreFlipped | src/napari_mm3/_compile.py:1033-1034 | restoring the dimensionality gives back the image, flipped or not |
| Orientation.FixOrientationKeeps | src/napari_mm3/_compile.py:1030-1036 | any orientation other than `auto` and `up` returns the image unchanged |
| Orientation.FixOrientationUp | src/napari_mm3/_compile.py:1026-1027 | as intended, `up` flips the image and keeps its dimensionality |
| Orientation.FixOrientationUpAsWrittenFlat | src/napari_mm3/_compile.py:1026-1027 | as written, `up` returns a 2-D image as a one-plane 3-D stack |
| Orientation.FixOrientationAsWrittenAgrees | src/napari_mm3/_compile.py:998-1036 | the written and intended versions agree except for `up` on a 2-D image |
| Orientation.FixOrientationUpTwice | src/napari_mm3/_compile.py:1026-1027 | flipping up twice gives back the image |
| Orientation.FixOrientationAuto | src/napari_mm3/_compile.py:1017-1023 | `auto` flips exactly when the brightest row of the phase plane is in the top half |
| Orientation.FixOrientationAutoErrors | src/napari_mm3/_compile.py:1005-1020 | `auto` fails exactly when there is no phase plane or it has no rows |
| Orientation.PhasePlaneByName | src/napari_mm3/_compile.py:1008-1009 | digit 0 picks the last plane, digit d the d-th, and a digit past the planes fails |
| Orientation.FixOrientation | src/napari_mm3/_compile.py:998-1036 | definition; characterised by `FixOrientationKeeps`, `FixOrientationUp`, `FixOrientationAuto`, `FixOrientationAutoErrors` |
| Orientation.FixOrientationAsWritten | src/napari_mm3/_compile.py:998-1036 | definition; characterised by `FixOrientationUpAsWrittenFlat`, `FixOrientationAsWrittenAgrees` |
| Orientation.OrientPlanes | src/napari_mm3/_compile.py:1005-1027 | definition; characterised by the `FixOrientation` lemmas |
| Orientation.CutFrame | src/napari_mm3/_compile.py:386-392 | a cut frame has the rows of its Python row slice |
| Orientation.PadRows | src/napari_mm3/_compile.py:395-398 | edge padding repeats the last row below the frame |
| Orientation.CutSliceShape | src/napari_mm3/_compile.py:383-398 | the cut stack keeps every frame, with y2-y1 rows, each the column slice of the clamped row |
| Orientation.CutSliceBelowImage | src/napari_mm3/_compile.py:392-398 | a channel starting below the image fails with ValueError when padding |
| Orientation.CutSlice | src/napari_mm3/_compile.py:383-398 | definition; characterised by `CutSliceShape`, `CutSliceBelowImage` |
| Masks.WindowImages | src/napari_mm3/_compile.py:1204-1216 | the window never adds images |
| Masks.WindowImagesMembers | src/napari_mm3/_compile.py:1204-1216 | an image is kept exactly when its time lies in the window |
| Masks.WindowImagesNoBounds | src/napari_mm3/_compile.py:1204-1216 | without bounds every image is kept |
| Masks.InWindow | src/napari_mm3/_compile.py:1205-1216 | definition; characterised by `WindowImagesMembers` |
| Masks.ChannelRect | src/napari_mm3/_compile.py:700-703 | a channel rectangle lies inside the image |
| Masks.ChannelRectPixels | src/napari_mm3/_compile.py:700-706 | a pixel is covered exactly when it is within the channel's padded ends and crop width |
| Masks.CoverCount | src/napari_mm3/_compile.py:686-709 | a pixel is counted at most once per image |
| Masks.CoverCountPositive | src/napari_mm3/_compile.py:686-709 | a pixel has a positive count exactly when some image of the FOV covers it |
| Masks.ConsensusGrid | src/napari_mm3/_compile.py:683-709 | the consensus grid has the image's shape, and each pixel counts at most one per image |
| Masks.ConsensusGridCovered | src/napari_mm3/_compile.py:683-709 | a pixel of the consensus grid is nonzero exactly when a channel of some image of the FOV covers it |
| Masks.FillRect | src/napari_mm3/_compile.py:706 | filling sets the rectangle's pixels to 1 and leaves the rest |
| Masks.ImageMask | src/napari_mm3/_compile.py:693-706 | an image's mask is 1 exactly on its channels' rectangles |
| Masks.AddInto | src/napari_mm3/_compile.py:709 | adding a mask adds it pixel by pixel |
| Masks.ConsensusMask | src/napari_mm3/_compile.py:683-709 | the summed mask holds each pixel's cover count |
| Masks.Snapshot | src/napari_mm3/_compile.py:721 | the array handed to the labeller is copied unchanged |
| Masks.MedianBetween | src/napari_mm3/_compile.py:736 | the median of a component's columns lies between its first and last column |
| Masks.MedianContiguous | src/napari_mm3/_compile.py:736 | for contiguous columns the median is the floored midpoint |
| Masks.Median | src/napari_mm3/_compile.py:736 | definition; characterised by `MedianBetween`, `MedianContiguous` |
| Masks.FovMasksShape | src/napari_mm3/_compile.py:733-754 | each kept channel's box contains its id column, lies strictly right of column 0 and inside the image, and is within the longest and widest boxes |
| Masks.FovMasksKeys | src/napari_mm3/_compile.py:744-750 | the FOV's channels are exactly the ids of kept components |
| Masks.FovMasks | src/napari_mm3/_compile.py:724-754 | definition; characterised by `FovMasksShape`, `FovMasksKeys` |
| Masks.Kept | src/napari_mm3/_compile.py:744 | definition; characterised by `FovMasksKeys` |
| Masks.LabelMasks | src/napari_mm3/_compile.py:724-754 | the component loop computes the FOV's boxes and raises the running longest and widest to include them |
| Masks.EqualizeMaskRows | src/napari_mm3/_compile.py:767-768 | every box gets the longest length from its own top row |
| Masks.EqualizeMaskColumns | src/napari_mm3/_compile.py:770-783 | widening keeps the box's columns inside the image, and when both sides fit it reaches the widest width, splitting odd extra columns to the right |
| Masks.EqualizeMask | src/napari_mm3/_compile.py:767-789 | definition; characterised by `EqualizeMaskRows`, `EqualizeMaskColumns` |
| Masks.EqualizeFov | src/napari_mm3/_compile.py:764-789 | the per-FOV loop equalises every box of the FOV |
| Masks.EqualizeMasks | src/napari_mm3/_compile.py:759-789 | the loop over FOVs equalises every FOV |
| Masks.AllBoundsEach | src/napari_mm3/_compile.py:753-754 | the global longest and widest bound those of each FOV |
| Masks.MakeMasks | src/napari_mm3/_compile.py:624-801 | the whole method computes the equalised masks of all FOVs |
| Masks.MasksOfShape | src/napari_mm3/_compile.py:759-789 | every final box has the global longest length and contains its id column inside the image |
| Masks.MasksOf | src/napari_mm3/_compile.py:624-801 | definition; characterised by `MasksOfShape`; computed by `MakeMasks` |
| TimeTable.Uint32 | src/napari_mm3/_compile.py:877-879 | conversion to `uint32` lies below 2^32 and is the identity in range |
| TimeTable.MinT | src/napari_mm3/_compile.py:855-864 | the first time index is at most every image's |
| TimeTable.MinTAttained | src/napari_mm3/_compile.py:855-864 | the first time index belongs to some image |
| TimeTable.MakeTimeTable | src/napari_mm3/_compile.py:853-881 | the table-building loops compute the time table |
| TimeTable.FillTimeTable | src/napari_mm3/_compile.py:870-881 | the filling loop computes the time table from the empty per-FOV tables |
| TimeTable.TableAfter | src/napari_mm3/_compile.py:866-881 | the table has an entry for every FOV at every step |
| TimeTable.TableAfterLookup | src/napari_mm3/_compile.py:870-881 | after i images each FOV holds exactly the times seen so far, each mapped to its elapsed seconds |
| TimeTable.TableAfterAll | src/napari_mm3/_compile.py:870-881 | after all images the loop's table is the time table |
| TimeTable.NoImagesNoTable | src/napari_mm3/_compile.py:853-868 | with no images the table is empty |
| TimeTable.TimeTableKeys | src/napari_mm3/_compile.py:866-881 | the table has exactly the images' FOVs and holds every image's time |
| TimeTable.TimeTableLookup | src/napari_mm3/_compile.py:877-881 | an image's entry is its elapsed time from the global first time index |
| TimeTable.ElapsedExact | src/napari_mm3/_compile.py:877-879 | without wrap-around the elapsed time is the index difference times the seconds per index |
| TimeTable.TimeTableEntries | src/napari_mm3/_compile.py:877-881 | without wrap-around an entry is the exact elapsed seconds, and 0 for the first time index |
| TimeTable.TimeTableMonotone | src/napari_mm3/_compile.py:877-881 | without wrap-around later time indices never get fewer seconds, across FOVs too |
| TimeTable.TimeTableGlobalOrigin | src/napari_mm3/_compile.py:855-881 | a time after another image's has positive elapsed seconds, so one origin serves all FOVs |
| TimeTable.TimeTableOf | src/napari_mm3/_compile.py:832-881 | definition; characterised by `TimeTableKeys`, `TimeTableLookup`, `TimeTableEntries`; computed by `MakeTimeTable` |
| TimeTable.Elapsed | src/napari_mm3/_compile.py:877-879 | definition; characterised by `ElapsedExact` |

## Left out

- Reading and writing files is not modelled: TIFF pages, HDF5, YAML, pickle, the
  napari widget and logging. Their contents become parameters: images as
  integer grids, metadata as `ImageMeta` records, tag 65331 as bytes.
- Multiprocessing of the per-image analysis is not modelled; results are
  modelled in list order.
- Floating point is not modelled. Time stamps, the `x`/`y`/`jd` values read by
  `struct.unpack`, and the `np.around` of elapsed seconds are left out. The
  consensus normalisation and threshold (lines 712-714) are out too: the
  model hands the integer cover counts to the labeller.
- `find_peaks_cwt`, `ndi.label` and `match_template` are foreign calls. Peaks
  are an input, and the labeller is the parameter `labelRegions`, of which
  the model requires only that its components are well formed.
- `int(rows / 3.0)` and `int(rows * 2.0 / 3.0)` are taken as exact floors of
  the rational value.
- `np.uint64` and `uint16` sums are taken as unbounded integers; only the
  `int32` diff and the `uint32` time table wrap.
- Dictionary iteration order is not modelled. `Masks.PickKey` picks any
  remaining key, and every loop over a dictionary is proved for every order.
- Aliasing is modelled by value. The shallow copy at line 760 makes the edits
  land in both dictionaries; the model returns the edited one.
- The tag-name test at line 238, `tag.name in ("65331")`, is a substring test
  on a string. The model reads the tag's bytes directly.
- `Tags.ReadTag` follows the evidently intended bytes-level reading (Python 2).
  Under Python 3 the position reads fail, as `Tags.TagAsWrittenFails`
  records, so the planes, `x`, `y` and `jd` of that branch are never set.
- `Orientation.CutSlice` models only the 4-D branch of `cut_slice`. The 2-D
  and 3-D branches are not part of this model.
- `Selection.ParseFovs` takes the FOV parameter as text. An integer FOV from
  YAML (where `"-" in 3` raises TypeError) is not modelled.
- The FOV skip in the masks loop (line 1230) and mixed forms such as
  `"1-3,5"` are not modelled.
- `PyText.ParseInt` accepts ASCII digits, signs, surrounding ASCII white space
  and single underscores. Python's `int()` also accepts non-ASCII digits.
- TimeTable.TimeTableMonotone: stated only where the elapsed seconds stay
  below 2^32, because past that the `uint32` wrap-around breaks the order.

## Findings

| source | as written | input that shows it | evidently intended | confidence | as-written member | corrected member |
|---|---|---|---|---|---|---|
| src/napari_mm3/_compile.py:61 | `source == "nd2" or "TIFF_from_nd2"` is always true | `TIFF_source = "TIFF"` gets the nd2 reader | `source in ("nd2", "TIFF_from_nd2")`, so `TIFF` reaches the file-name reader | high; not executed | Decisions.ReaderAsWrittenOnPlainTiff | Decisions.ReaderCases |
| src/napari_mm3/_compile.py:1026-1027 | `up` returns before the 2-D image is restored | a 2-D image with `image_orient = "up"` comes back as a 1×H×W stack | `up` flips the image and keeps its dimensionality, as the other branches do | high; not executed | Orientation.FixOrientationUpAsWrittenFlat | Orientation.FixOrientationUp |
| src/napari_mm3/_compile.py:261-264 | `struct.unpack` is given a slice of a `str` | any tag 65331 whose text holds `dXPos`, `dYPos` and `dTimeAbsolute` raises TypeError | unpack the tag's bytes at the found offset, then read the plane names | medium; not executed | Tags.TagAsWrittenFails | Tags.ReadTagPlanes |
