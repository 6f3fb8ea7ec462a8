/**
 * The Nikon Elements private tag 65331 read by `get_tif_metadata_elements`: the tag's
 * bytes as little-endian 16-bit words, the letter text searched for the position
 * markers, and the printable text whose words name the optical configurations (planes).
 */
module Tags {
  import opened Wrappers
  import opened PyText

  newtype Byte = x: int | 0 <= x < 256

  const WordModulus := 0x1_0000

  // ------------------------------------------------------- 16-bit words

  predicate AllWords(w: seq<nat>)
  {
    forall k :: 0 <= k < |w| ==> w[k] < WordModulus
  }

  /**
   * `[a + b * 0x100 for a, b in zip(v[0::2], v[1::2])]`: the little-endian 16-bit words;
   * an odd last byte has no partner and is dropped.
   */
  function Words(v: seq<Byte>): (w: seq<nat>)
    ensures |w| == |v| / 2
    ensures AllWords(w)
  {
    seq(|v| / 2, k requires 0 <= k < |v| / 2 => v[2 * k] as int + v[2 * k + 1] as int * 0x100)
  }

  /** The little-endian encoding of 16-bit words: low byte first. */
  function Encode(w: seq<nat>): (v: seq<Byte>)
    requires AllWords(w)
    ensures |v| == 2 * |w|
  {
    seq(2 * |w|, i requires 0 <= i < 2 * |w| =>
      if i % 2 == 0 then (w[i / 2] % 0x100) as Byte else (w[i / 2] / 0x100) as Byte)
  }

  /** Decoding the encoding of any words gives them back. */
  lemma WordsOfEncode(w: seq<nat>)
    requires AllWords(w)
    ensures Words(Encode(w)) == w
  {
    var v := Encode(w);
    forall k | 0 <= k < |w|
      ensures Words(v)[k] == w[k]
    {
      assert (2 * k) / 2 == k && (2 * k) % 2 == 0;
      assert (2 * k + 1) / 2 == k && (2 * k + 1) % 2 == 1;
      assert v[2 * k] as int == w[k] % 0x100;
      assert v[2 * k + 1] as int == w[k] / 0x100;
    }
  }

  /** A tag of even length is exactly the encoding of its words: nothing is lost. */
  lemma EncodeOfWords(v: seq<Byte>)
    requires |v| % 2 == 0
    ensures Encode(Words(v)) == v
  {
    var w := Words(v);
    forall i | 0 <= i < |v|
      ensures Encode(w)[i] == v[i]
    {
      var k := i / 2;
      assert i == 2 * k + i % 2;
      if i % 2 == 0 {
        assert (w[k] % 0x100) as Byte == v[i];
      } else {
        assert (w[k] / 0x100) as Byte == v[i];
      }
    }
  }

  /**
   * `[a + b * 0x100 for a, b in zip(v[1::2], v[2::2])]`: the words read one byte later,
   * which are the words of `v[1..]`.
   */
  function ShiftedWords(v: seq<Byte>): (w: seq<nat>)
    ensures |w| <= |Words(v)|
    ensures AllWords(w)
  {
    if v == [] then [] else Words(v[1..])
  }

  // ------------------------------------------------------------ letter text

  /** One character of `t_string`: the word's character when it lies in 65..126, else a space. */
  function TextChar(w: nat): (c: char)
    ensures c == ' ' || 'A' <= c <= '~'
    ensures c != ' ' <==> 64 < w < 127
    ensures c != ' ' ==> c as int == w
  {
    if 64 < w < 127 then w as char else ' '
  }

  /** The text `t_string` built from the words. */
  function TextOf(words: seq<nat>): (t: string)
    ensures |t| == |words|
  {
    seq(|words|, k requires 0 <= k < |words| => TextChar(words[k]))
  }

  /** The loop at lines 245-253, one character per word. */
  method TagText(words: seq<nat>) returns (t: string)
    ensures t == TextOf(words)
  {
    t := "";
    for k := 0 to |words|
      invariant t == TextOf(words[..k])
    {
      t := t + [TextChar(words[k])];
    }
    assert words[..|words|] == words;
  }

  /** `str.index`: the first position of `p` in `s`, or None where Python raises ValueError. */
  function Find(s: string, p: string): (r: Option<nat>)
    ensures r.Some? <==> Contains(s, p)
    ensures r.Some? ==> r.value + |p| <= |s| && s[r.value..r.value + |p|] == p
    ensures r.Some? ==> forall j :: 0 <= j < r.value ==> !StartsWith(s[j..], p)
    decreases |s|
  {
    if StartsWith(s, p) then Some(0)
    else if s == [] then None
    else
      match Find(s[1..], p)
      case None => None
      case Some(k) =>
        FindShift(s, p, k);
        Some(k + 1)
  }

  /** An occurrence in `s[1..]` at `k`, none before, is one in `s` at `k + 1`, none before. */
  lemma FindShift(s: string, p: string, k: nat)
    requires s != [] && !StartsWith(s, p)
    requires k + |p| <= |s[1..]| && s[1..][k..k + |p|] == p
    requires forall j :: 0 <= j < k ==> !StartsWith(s[1..][j..], p)
    ensures k + 1 + |p| <= |s| && s[k + 1..k + 1 + |p|] == p
    ensures forall j :: 0 <= j < k + 1 ==> !StartsWith(s[j..], p)
  {
    forall j | 0 <= j < k + 1
      ensures !StartsWith(s[j..], p)
    {
      if j > 0 {
        assert s[j..] == s[1..][j - 1..];
      }
    }
    assert s[k + 1..k + 1 + |p|] == s[1..][k..k + |p|];
  }

  // ------------------------------------------------------- printable text

  /** One character of `allchars`: the first word if printable, else the shifted word if printable, else a space. */
  function PairChar(a: nat, b: nat): (c: char)
    ensures ' ' <= c <= '~'
    ensures 31 < a < 127 ==> c as int == a
    ensures !(31 < a < 127) && 31 < b < 127 ==> c as int == b
    ensures !(31 < a < 127) && !(31 < b < 127) ==> c == ' '
  {
    if 31 < a < 127 then a as char
    else if 31 < b < 127 then b as char
    else ' '
  }

  /** `allchars` over `zip(il, li)`: as long as the shorter, shifted, word list. */
  function AllCharsOf(v: seq<Byte>): (s: string)
    ensures |s| == |ShiftedWords(v)|
  {
    var il, li := Words(v), ShiftedWords(v);
    seq(|li|, k requires 0 <= k < |li| => PairChar(il[k], li[k]))
  }

  /** The loop at lines 283-289. */
  method AllChars(v: seq<Byte>) returns (s: string)
    ensures s == AllCharsOf(v)
  {
    var il := Words(v);
    var li := ShiftedWords(v);
    s := "";
    for k := 0 to |li|
      invariant |s| == k
      invariant forall j :: 0 <= j < k ==> s[j] == PairChar(il[j], li[j])
    {
      if 31 < il[k] < 127 {
        s := s + [il[k] as char];
      } else if 31 < li[k] < 127 {
        s := s + [li[k] as char];
      } else {
        s := s + " ";
      }
    }
  }

  // ------------------------------------------------------- re.sub(" +", " ")

  predicate NoDoubleSpace(s: string)
  {
    forall k :: 0 <= k < |s| - 1 ==> !(s[k] == ' ' && s[k + 1] == ' ')
  }

  /** The characters of `s` other than spaces, in order. */
  function NonSpace(s: string): string
  {
    if s == [] then [] else (if s[0] == ' ' then [] else [s[0]]) + NonSpace(s[1..])
  }

  /** `re.sub(" +", " ", s)`: every run of spaces becomes one space. */
  function Collapse(s: string): (r: string)
    ensures |r| <= |s|
    ensures |s| > 0 ==> |r| > 0 && r[0] == s[0]
    ensures NoDoubleSpace(r)
    ensures NonSpace(r) == NonSpace(s)
    decreases |s|
  {
    if |s| < 2 then s
    else if s[0] == ' ' && s[1] == ' ' then Collapse(s[1..])
    else
      var rest := Collapse(s[1..]);
      var r := [s[0]] + rest;
      assert r[1..] == rest;
      r
  }

  /** A text with no run of spaces is left alone. */
  lemma {:induction false} CollapseNoRuns(s: string)
    requires NoDoubleSpace(s)
    ensures Collapse(s) == s
    decreases |s|
  {
    if |s| >= 2 {
      assert !(s[0] == ' ' && s[1] == ' ');
      CollapseNoRuns(s[1..]);
    }
  }

  /** A run of two spaces collapses as one space does; with CollapseNoRuns this pins every run to one space. */
  lemma {:induction false} CollapseDoubled(a: string, b: string)
    ensures Collapse(a + "  " + b) == Collapse(a + " " + b)
    decreases |a|
  {
    var s, t := a + "  " + b, a + " " + b;
    if a == [] {
      assert s[1..] == t;
    } else {
      assert s[1..] == a[1..] + "  " + b;
      assert t[1..] == a[1..] + " " + b;
      assert s[0] == t[0] && s[1] == t[1];
      CollapseDoubled(a[1..], b);
    }
  }

  /** Collapsing twice is collapsing once. */
  lemma CollapseIdempotent(s: string)
    ensures Collapse(Collapse(s)) == Collapse(s)
  {
    CollapseNoRuns(Collapse(s));
  }

  // ------------------------------------------------------------ plane names

  const PlaneMarker := "sOpticalConfigName"

  /** A list of planes, or the exception already raised, with `p` prepended. */
  function Prepend(p: seq<string>, r: Result<seq<string>>): Result<seq<string>>
  {
    if r.Ok? then Ok(p + r.value) else r
  }

  /**
   * The planes appended for the markers at index `i` and later: the word after each
   * marker; a marker that is the last word raises IndexError.
   */
  function PlanesFrom(words: seq<string>, i: nat): Result<seq<string>>
    requires i <= |words|
    decreases |words| - i
  {
    if i == |words| then Ok([])
    else if words[i] != PlaneMarker then PlanesFrom(words, i + 1)
    else if i + 1 == |words| then Err("IndexError")
    else Prepend([words[i + 1]], PlanesFrom(words, i + 1))
  }

  /** The loop at lines 295-298 over the marker positions. */
  method ExtractPlanes(words: seq<string>) returns (r: Result<seq<string>>)
    ensures r == PlanesFrom(words, 0)
  {
    var planes: seq<string> := [];
    var i := 0;
    if PlanesFrom(words, 0).Ok? {
      assert [] + PlanesFrom(words, 0).value == PlanesFrom(words, 0).value;
    }
    while i < |words|
      invariant i <= |words|
      invariant Prepend(planes, PlanesFrom(words, i)) == PlanesFrom(words, 0)
    {
      if words[i] == PlaneMarker {
        if i + 1 == |words| {
          return Err("IndexError");
        }
        var rest := PlanesFrom(words, i + 1);
        if rest.Ok? {
          assert planes + ([words[i + 1]] + rest.value) == (planes + [words[i + 1]]) + rest.value;
        }
        planes := planes + [words[i + 1]];
      }
      i := i + 1;
    }
    assert planes + [] == planes;
    r := Ok(planes);
  }

  /** The extraction fails exactly when the last word is a marker. */
  lemma {:induction false} PlanesError(words: seq<string>, i: nat)
    requires i <= |words|
    ensures PlanesFrom(words, i).Err? <==> i < |words| && words[|words| - 1] == PlaneMarker
    decreases |words| - i
  {
    if i < |words| {
      PlanesError(words, i + 1);
    }
  }

  /** Without failure, a word is a plane name exactly when it follows a marker. */
  lemma {:induction false} PlanesMembers(words: seq<string>, i: nat, x: string)
    requires i <= |words| && PlanesFrom(words, i).Ok?
    ensures x in PlanesFrom(words, i).value
        <==> exists j :: i <= j < |words| - 1 && words[j] == PlaneMarker && words[j + 1] == x
    decreases |words| - i
  {
    if i < |words| {
      PlanesMembers(words, i + 1, x);
      if words[i] == PlaneMarker && i + 1 < |words| && words[i + 1] == x {
        assert x in PlanesFrom(words, i).value;
      }
    }
  }

  /** The number of markers from index `i` on. */
  function Markers(words: seq<string>, i: nat): nat
    requires i <= |words|
    decreases |words| - i
  {
    if i == |words| then 0 else (if words[i] == PlaneMarker then 1 else 0) + Markers(words, i + 1)
  }

  /** Without failure, there is one plane name per marker. */
  lemma {:induction false} PlanesCount(words: seq<string>, i: nat)
    requires i <= |words| && PlanesFrom(words, i).Ok?
    ensures |PlanesFrom(words, i).value| == Markers(words, i)
    decreases |words| - i
  {
    if i < |words| {
      PlanesCount(words, i + 1);
    }
  }

  // ----------------------------------------------------------- whole tag

  /**
   * What the branch for tag 65331 does under Python 3: `t_string.index("dXPos")` raises
   * ValueError when the marker is missing; otherwise `struct.unpack` receives a `str`
   * and raises TypeError, so no plane name is ever recorded.
   */
  function ReadTagAsWritten(v: seq<Byte>): Result<seq<string>>
  {
    if !Contains(TextOf(Words(v)), "dXPos") then Err("ValueError") else Err("TypeError")
  }

  /** The planes of the printable text: its collapsed words, scanned for markers. */
  function PlanesOfTag(v: seq<Byte>): Result<seq<string>>
  {
    PlanesFrom(Split(Collapse(AllCharsOf(v)), " "), 0)
  }

  /**
   * The exception the position reads raise when the code runs on byte strings, checked in
   * the code's order: a missing marker is a ValueError from `str.index`, a slice shorter
   * than what `struct.unpack` reads (4 bytes for x and y, 8 for the time) is a struct.error.
   */
  function PositionError(v: seq<Byte>): (e: Option<string>)
    ensures e.None? ==> Contains(TextOf(Words(v)), "dXPos") && Contains(TextOf(Words(v)), "dYPos")
                        && Contains(TextOf(Words(v)), "dTimeAbsolute")
  {
    var t := TextOf(Words(v));
    match Find(t, "dXPos")
    case None => Some("ValueError")
    case Some(x) =>
      if 2 * x + 16 + 4 > |v| then Some("struct.error")
      else
        match Find(t, "dYPos")
        case None => Some("ValueError")
        case Some(y) =>
          if 2 * y + 16 + 4 > |v| then Some("struct.error")
          else
            match Find(t, "dTimeAbsolute")
            case None => Some("ValueError")
            case Some(jd) =>
              if 2 * jd + 26 + 10 > |v| then Some("struct.error") else None
  }

  /** The branch as its byte-string code intends: the position reads, then the plane names. */
  function ReadTag(v: seq<Byte>): Result<seq<string>>
  {
    if PositionError(v).Some? then Err(PositionError(v).value) else PlanesOfTag(v)
  }

  /**
   * With the three markers present and their slices in range, the intended reading
   * succeeds unless the last word is a marker, while the code as written always raises.
   */
  lemma TagAsWrittenFails(v: seq<Byte>)
    requires PositionError(v).None?
    requires var words := Split(Collapse(AllCharsOf(v)), " "); words[|words| - 1] != PlaneMarker
    ensures ReadTag(v).Ok?
    ensures ReadTagAsWritten(v) == Err("TypeError")
  {
    var words := Split(Collapse(AllCharsOf(v)), " ");
    PlanesError(words, 0);
    assert ReadTag(v) == PlanesFrom(words, 0);
    assert Contains(TextOf(Words(v)), "dXPos");
  }

  /** A plane name read from the tag is the word after a marker in the collapsed text. */
  lemma ReadTagPlanes(v: seq<Byte>, x: string)
    requires ReadTag(v).Ok?
    ensures var words := Split(Collapse(AllCharsOf(v)), " ");
      x in ReadTag(v).value <==> exists j :: 0 <= j < |words| - 1 && words[j] == PlaneMarker && words[j + 1] == x
  {
    var words := Split(Collapse(AllCharsOf(v)), " ");
    assert ReadTag(v) == PlanesFrom(words, 0);
    PlanesMembers(words, 0, x);
  }
}
