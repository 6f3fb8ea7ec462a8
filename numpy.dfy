/**
 * The handful of NumPy array operations the compile stage uses on integer images:
 * sums along an axis, the int32 cast, first differences, argmax/argmin (which return
 * the first index of the extreme value) and reversal of an axis.
 */
module NumPy {
  function Sum(xs: seq<int>): int
  {
    if xs == [] then 0 else Sum(xs[..|xs| - 1]) + xs[|xs| - 1]
  }

  /** `image.sum(axis=1)`: one total per row, built row by row. */
  function RowSums(image: seq<seq<int>>): (r: seq<int>)
    ensures |r| == |image|
    ensures forall k :: 0 <= k < |image| ==> r[k] == Sum(image[k])
  {
    if image == [] then [] else RowSums(image[..|image| - 1]) + [Sum(image[|image| - 1])]
  }

  /** Sum of a concatenation. */
  lemma {:induction false} SumConcat(xs: seq<int>, ys: seq<int>)
    ensures Sum(xs + ys) == Sum(xs) + Sum(ys)
    decreases |ys|
  {
    if ys != [] {
      var s := xs + ys;
      assert s[..|s| - 1] == xs + ys[..|ys| - 1];
      assert s[|s| - 1] == ys[|ys| - 1];
      SumConcat(xs, ys[..|ys| - 1]);
      assert Sum(s) == Sum(s[..|s| - 1]) + s[|s| - 1];
      assert Sum(ys) == Sum(ys[..|ys| - 1]) + ys[|ys| - 1];
    } else {
      assert xs + ys == xs;
    }
  }

  /** A sequence of zeros sums to zero. */
  lemma {:induction false} SumZeros(xs: seq<int>)
    requires forall k :: 0 <= k < |xs| ==> xs[k] == 0
    ensures Sum(xs) == 0
  {
    if xs != [] {
      SumZeros(xs[..|xs| - 1]);
    }
  }

  // ----------------------------------------------------------- int32 casts

  const Int32Modulus := 0x1_0000_0000
  const Int32Min := -0x8000_0000
  const Int32Max := 0x7fff_ffff

  predicate IsInt32(x: int)
  {
    Int32Min <= x <= Int32Max
  }

  /** `astype(np.int32)` and int32 arithmetic: two's-complement wrap-around. */
  function Int32(x: int): (r: int)
    ensures IsInt32(r)
    ensures (r - x) % Int32Modulus == 0
    ensures IsInt32(x) ==> r == x
  {
    (x - Int32Min) % Int32Modulus + Int32Min
  }

  /** `np.diff` of an int32 array: differences of neighbours, wrapped to int32, one per step. */
  function Diff(xs: seq<int>): (d: seq<int>)
    ensures |d| == if |xs| == 0 then 0 else |xs| - 1
    ensures forall k :: 0 <= k < |d| ==> d[k] == Int32(xs[k + 1] - xs[k])
  {
    if |xs| <= 1 then [] else Diff(xs[..|xs| - 1]) + [Int32(xs[|xs| - 1] - xs[|xs| - 2])]
  }

  /** Two integers that the same int32 value stands for. */
  predicate SameInt32(a: int, b: int)
  {
    (a - b) % Int32Modulus == 0
  }

  /** Values that stand for the same int32 values add up to values that do. */
  lemma SameInt32Add(a: int, b: int, c: int, d: int, sum: int, total: int)
    requires SameInt32(a, b) && SameInt32(c, d)
    requires sum == a + c && total == b + d
    ensures SameInt32(sum, total)
  {
    var i, j := (a - b) / Int32Modulus, (c - d) / Int32Modulus;
    assert sum - total == Int32Modulus * (i + j);
  }

  /** The wrapped differences add up to the difference of the ends, modulo 2^32. */
  lemma {:induction false} DiffTelescopes(xs: seq<int>)
    requires |xs| > 0
    ensures SameInt32(Sum(Diff(xs)), xs[|xs| - 1] - xs[0])
  {
    var n := |xs|;
    var d := Diff(xs);
    if n == 1 {
      assert d == [];
    } else {
      var init := xs[..n - 1];
      DiffTelescopes(init);
      assert d[..|d| - 1] == Diff(init);
      SameInt32Add(Sum(Diff(init)), xs[n - 2] - xs[0], d[|d| - 1], xs[n - 1] - xs[n - 2], Sum(d), xs[n - 1] - xs[0]);
    }
  }

  /** `seq.astype(np.int32)`, element by element. */
  function ToInt32(xs: seq<int>): (r: seq<int>)
    ensures |r| == |xs|
    ensures forall k :: 0 <= k < |xs| ==> r[k] == Int32(xs[k])
  {
    if xs == [] then [] else ToInt32(xs[..|xs| - 1]) + [Int32(xs[|xs| - 1])]
  }

  /** Casting to int32 twice is casting once: every element is already in range. */
  lemma ToInt32Idempotent(xs: seq<int>)
    ensures ToInt32(ToInt32(xs)) == ToInt32(xs)
  {
  }

  // -------------------------------------------------------- argmax, argmin

  /** `np.argmax`: the first index of the largest value. */
  function ArgMax(xs: seq<int>): (r: nat)
    requires |xs| > 0
    ensures r < |xs|
    ensures forall k :: 0 <= k < |xs| ==> xs[k] <= xs[r]
    ensures forall k :: 0 <= k < r ==> xs[k] < xs[r]
  {
    if |xs| == 1 then 0
    else
      var m := ArgMax(xs[..|xs| - 1]);
      if xs[|xs| - 1] > xs[m] then |xs| - 1 else m
  }

  /** `np.argmin`: the first index of the smallest value. */
  function ArgMin(xs: seq<int>): (r: nat)
    requires |xs| > 0
    ensures r < |xs|
    ensures forall k :: 0 <= k < |xs| ==> xs[r] <= xs[k]
    ensures forall k :: 0 <= k < r ==> xs[r] < xs[k]
  {
    if |xs| == 1 then 0
    else
      var m := ArgMin(xs[..|xs| - 1]);
      if xs[|xs| - 1] < xs[m] then |xs| - 1 else m
  }

  /** The first index of the largest value is unique: any index with the same two properties is it. */
  lemma ArgMaxUnique(xs: seq<int>, i: nat)
    requires i < |xs|
    requires forall k :: 0 <= k < |xs| ==> xs[k] <= xs[i]
    requires forall k :: 0 <= k < i ==> xs[k] < xs[i]
    ensures ArgMax(xs) == i
  {
  }

  // --------------------------------------------------------------- reversal

  /** `s[::-1]`: the first element goes last, after the rest reversed. */
  function Reverse<T>(s: seq<T>): (r: seq<T>)
    ensures |r| == |s|
    ensures forall k :: 0 <= k < |s| ==> r[k] == s[|s| - 1 - k]
  {
    if s == [] then [] else Reverse(s[1..]) + [s[0]]
  }

  /** Reversing twice gives the sequence back. */
  lemma ReverseInvolution<T>(s: seq<T>)
    ensures Reverse(Reverse(s)) == s
  {
  }

  /** Reversal keeps the multiset of rows; nothing is lost or duplicated. */
  lemma {:induction false} ReverseSameElements<T>(s: seq<T>)
    ensures multiset(Reverse(s)) == multiset(s)
    decreases |s|
  {
    if s != [] {
      ReverseSameElements(s[1..]);
      assert s == [s[0]] + s[1..];
    }
  }
}
