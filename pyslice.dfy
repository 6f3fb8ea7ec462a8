/**
 * Python's sequence slicing and indexing rules, which the image code relies on:
 * negative bounds count from the end, out-of-range bounds are clamped, a start past
 * the stop gives an empty slice, and a negative index counts from the end.
 */
module PySlice {
  /** A slice bound normalised against a length: `i + len` when negative, then clamped to `[0, len]`. */
  function Bound(i: int, len: nat): (b: nat)
    ensures b <= len
    ensures 0 <= i <= len ==> b == i
    ensures i > len ==> b == len
    ensures -(len as int) <= i < 0 ==> b == i + len
    ensures i < -(len as int) ==> b == 0
  {
    if i < 0 then (if i + len < 0 then 0 else i + len)
    else if i > len then len
    else i
  }

  /** `s[start:stop]`. */
  function Slice<T>(s: seq<T>, start: int, stop: int): (r: seq<T>)
  {
    var lo := Bound(start, |s|);
    var hi := Bound(stop, |s|);
    if lo < hi then s[lo..hi] else []
  }

  /** Number of elements `s[start:stop]` has in a sequence of length `len`. */
  function SliceLength(start: int, stop: int, len: nat): (n: nat)
    ensures n <= len
  {
    var lo := Bound(start, len);
    var hi := Bound(stop, len);
    if lo < hi then hi - lo else 0
  }

  /** A slice keeps the elements from the normalised start on, and has the predicted length. */
  lemma SliceShape<T>(s: seq<T>, start: int, stop: int)
    ensures |Slice(s, start, stop)| == SliceLength(start, stop, |s|)
    ensures forall k :: 0 <= k < |Slice(s, start, stop)| ==> Slice(s, start, stop)[k] == s[Bound(start, |s|) + k]
  {
  }

  /** Within range, a slice is Dafny's subsequence; a stop past the end is clamped to the end. */
  lemma SliceInRange<T>(s: seq<T>, start: int, stop: int)
    requires 0 <= start <= stop
    ensures Slice(s, start, stop) == if stop <= |s| then s[start..stop] else if start <= |s| then s[start..] else []
  {
  }

  /** `s[i]` for `-len(s) <= i < len(s)`; other indices raise IndexError. */
  predicate IndexOk(i: int, len: nat)
  {
    -(len as int) <= i < len
  }

  function PyIndex(i: int, len: nat): (k: nat)
    requires IndexOk(i, len)
    ensures k < len
    ensures i >= 0 ==> k == i
    ensures i < 0 ==> k == len + i
  {
    if i < 0 then len + i else i
  }
}
