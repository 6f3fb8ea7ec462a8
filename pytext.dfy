/**
 * The pieces of Python's string handling that the compile stage relies on:
 * `int(str)`, `str(int)`, `"%0Nd" % n` (and the equivalent `"{:0=N}".format(n)`),
 * substring search (`p in s`, `re.search` with a literal pattern), `str.split(sep)`
 * and `sep.join(parts)`.
 */
module PyText {
  import opened Wrappers

  predicate IsDigit(c: char) { '0' <= c <= '9' }

  predicate AllDigits(s: string) { forall i :: 0 <= i < |s| ==> IsDigit(s[i]) }

  /** ASCII whitespace as Python's `str.isspace` sees it. */
  predicate IsSpace(c: char) { c == ' ' || 9 <= c as int <= 13 || 28 <= c as int <= 31 }

  function DigitValue(c: char): nat
    requires IsDigit(c)
  {
    c as int - '0' as int
  }

  function DigitChar(d: nat): (c: char)
    requires d < 10
    ensures IsDigit(c) && DigitValue(c) == d
  {
    ('0' as int + d) as char
  }

  /** The value of a decimal digit string (most significant digit first). */
  function DigitsValue(s: string): nat
    requires AllDigits(s)
  {
    if s == [] then 0 else DigitsValue(s[..|s| - 1]) * 10 + DigitValue(s[|s| - 1])
  }

  /** `str(n)` for a non-negative integer: shortest decimal representation. */
  function NatToDigits(n: nat): (s: string)
    ensures |s| > 0 && AllDigits(s)
    ensures DigitsValue(s) == n
    ensures n < 10 <==> |s| == 1
  {
    if n < 10 then [DigitChar(n)]
    else
      var prefix := NatToDigits(n / 10);
      var s := prefix + [DigitChar(n % 10)];
      assert s[..|s| - 1] == prefix;
      s
  }

  /** `str(i)` for any integer. */
  function IntToString(i: int): string
  {
    if i < 0 then "-" + NatToDigits(-i) else NatToDigits(i)
  }

  function Zeros(n: nat): (z: string)
    ensures |z| == n && AllDigits(z)
  {
    seq(n, _ => '0')
  }

  /** `"%0<width>d" % t`: the sign comes first, then zeros up to the width, then the digits. */
  function ZeroPad(t: int, width: nat): string
  {
    if t < 0 then "-" + PaddedDigits(-t, if width > 0 then width - 1 else 0)
    else PaddedDigits(t, width)
  }

  /** The digits of `n`, with zeros in front up to the width. */
  function PaddedDigits(n: nat, width: nat): (s: string)
    ensures |s| > 0 && AllDigits(s) && DigitsValue(s) == n
    ensures |s| == if |NatToDigits(n)| < width then width else |NatToDigits(n)|
  {
    var digits := NatToDigits(n);
    var fill := if |digits| < width then width - |digits| else 0;
    LeadingZerosIgnored(fill, digits);
    Zeros(fill) + digits
  }

  /** Leading zeros do not change the value of a digit string. */
  lemma {:induction false} LeadingZerosIgnored(n: nat, s: string)
    requires AllDigits(s)
    ensures AllDigits(Zeros(n) + s) && DigitsValue(Zeros(n) + s) == DigitsValue(s)
  {
    var z := Zeros(n) + s;
    assert AllDigits(z);
    if s == [] {
      assert z == Zeros(n);
      ZerosValue(n);
    } else {
      var s' := s[..|s| - 1];
      assert z[..|z| - 1] == Zeros(n) + s';
      assert z[|z| - 1] == s[|s| - 1];
      LeadingZerosIgnored(n, s');
    }
  }

  lemma {:induction false} ZerosValue(n: nat)
    ensures DigitsValue(Zeros(n)) == 0
  {
    if n > 0 {
      assert Zeros(n)[..n - 1] == Zeros(n - 1);
      ZerosValue(n - 1);
    }
  }

  // ---------------------------------------------------------------- int(str)

  function StripLeft(s: string): (r: string)
    ensures |r| <= |s|
    ensures r == [] || !IsSpace(r[0])
  {
    if s != [] && IsSpace(s[0]) then StripLeft(s[1..]) else s
  }

  function StripRight(s: string): (r: string)
    ensures |r| <= |s|
    ensures r == [] || !IsSpace(r[|r| - 1])
  {
    if s != [] && IsSpace(s[|s| - 1]) then StripRight(s[..|s| - 1]) else s
  }

  /** `str.strip()` restricted to ASCII whitespace. */
  function Strip(s: string): string
  {
    StripRight(StripLeft(s))
  }

  function RemoveUnderscores(s: string): (r: string)
    ensures |r| <= |s|
  {
    if s == [] then []
    else (if s[0] == '_' then [] else [s[0]]) + RemoveUnderscores(s[1..])
  }

  /** Digits, with single underscores allowed between two digits (Python 3.6 and later). */
  predicate ValidBody(b: string)
  {
    && |b| > 0
    && IsDigit(b[0]) && IsDigit(b[|b| - 1])
    && (forall i :: 0 <= i < |b| ==> IsDigit(b[i]) || b[i] == '_')
    && NoDoubleUnderscore(b)
  }

  predicate NoDoubleUnderscore(b: string)
  {
    |b| < 2 || (!(b[0] == '_' && b[1] == '_') && NoDoubleUnderscore(b[1..]))
  }

  lemma {:induction false} DigitsNoDoubleUnderscore(d: string)
    requires AllDigits(d)
    ensures NoDoubleUnderscore(d)
  {
    if |d| >= 2 {
      DigitsNoDoubleUnderscore(d[1..]);
    }
  }

  lemma {:induction false} RemoveUnderscoresDigits(s: string)
    requires forall i :: 0 <= i < |s| ==> IsDigit(s[i]) || s[i] == '_'
    ensures AllDigits(RemoveUnderscores(s))
  {
    if s != [] {
      RemoveUnderscoresDigits(s[1..]);
    }
  }

  lemma {:induction false} RemoveUnderscoresOfDigits(s: string)
    requires AllDigits(s)
    ensures RemoveUnderscores(s) == s
  {
    if s != [] {
      RemoveUnderscoresOfDigits(s[1..]);
    }
  }

  /**
   * Python's `int(s)` in base 10: surrounding whitespace is ignored, one optional
   * sign, then the digit body. None stands for the ValueError Python raises.
   */
  function ParseInt(s: string): Option<int>
  {
    ParseSignedBody(Strip(s))
  }

  /** `int()` once the whitespace is gone: an optional sign, then the body. */
  function ParseSignedBody(t: string): Option<int>
  {
    if t == [] then None
    else if t[0] == '-' then Negate(ParseBody(t[1..]))
    else if t[0] == '+' then ParseBody(t[1..])
    else ParseBody(t)
  }

  function Negate(v: Option<nat>): Option<int>
  {
    match v
    case Some(n) => Some(-(n as int))
    case None => None
  }

  function ParseBody(b: string): Option<nat>
  {
    if !ValidBody(b) then None
    else
      RemoveUnderscoresDigits(b);
      Some(DigitsValue(RemoveUnderscores(b)))
  }

  lemma StripUnchanged(s: string)
    requires s != [] && !IsSpace(s[0]) && !IsSpace(s[|s| - 1])
    ensures Strip(s) == s
  {
    assert StripLeft(s) == s;
  }

  lemma ParseBodyDigits(d: string)
    requires |d| > 0 && AllDigits(d)
    ensures ParseBody(d) == Some(DigitsValue(d))
  {
    DigitsNoDoubleUnderscore(d);
    assert ValidBody(d);
    RemoveUnderscoresOfDigits(d);
  }

  /** Any non-empty digit string parses to its value, leading zeros included. */
  lemma ParseDigits(d: string)
    requires |d| > 0 && AllDigits(d)
    ensures ParseInt(d) == Some(DigitsValue(d))
  {
    StripUnchanged(d);
    ParseBodyDigits(d);
  }

  lemma SignedBodyNegative(t: string)
    requires |t| > 1 && t[0] == '-' && AllDigits(t[1..])
    ensures ParseSignedBody(t) == Some(-(DigitsValue(t[1..]) as int))
  {
    ParseBodyDigits(t[1..]);
  }

  lemma StripNegative(d: string)
    requires |d| > 0 && AllDigits(d)
    ensures Strip("-" + d) == "-" + d
  {
    var s := "-" + d;
    assert s[|s| - 1] == d[|d| - 1];
    StripUnchanged(s);
  }

  /** A minus sign followed by digits parses to the negated value. */
  lemma ParseNegativeDigits(d: string)
    requires |d| > 0 && AllDigits(d)
    ensures ParseInt("-" + d) == Some(-(DigitsValue(d) as int))
  {
    var t := "-" + d;
    assert t[1..] == d;
    SignedBodyNegative(t);
    StripNegative(d);
  }

  /** `int(str(i)) == i`. */
  lemma ParseIntToString(i: int)
    ensures ParseInt(IntToString(i)) == Some(i)
  {
    if i < 0 {
      ParseNegativeDigits(NatToDigits(-i));
    } else {
      ParseDigits(NatToDigits(i));
    }
  }

  /** `int("%0Nd" % t) == t` for every width N. */
  lemma ParseZeroPad(t: int, width: nat)
    ensures ParseInt(ZeroPad(t, width)) == Some(t)
  {
    if t < 0 {
      ParseNegativeDigits(PaddedDigits(-t, if width > 0 then width - 1 else 0));
    } else {
      ParseDigits(PaddedDigits(t, width));
    }
  }

  // ------------------------------------------------------------- substrings

  predicate StartsWith(s: string, p: string)
  {
    |p| <= |s| && s[..|p|] == p
  }

  /** `p in s`; also what `re.search` does with a pattern free of metacharacters. */
  predicate Contains(s: string, p: string)
    decreases |s|
  {
    StartsWith(s, p) || (s != [] && Contains(s[1..], p))
  }

  /** A string lacking one of the pattern's characters cannot contain the pattern. */
  lemma {:induction false} MissingCharNotContained(s: string, p: string, k: nat)
    requires k < |p|
    requires forall j :: 0 <= j < |s| ==> s[j] != p[k]
    ensures !Contains(s, p)
  {
    assert !StartsWith(s, p) by {
      if |p| <= |s| {
        assert s[..|p|][k] == s[k];
      }
    }
    if s != [] {
      MissingCharNotContained(s[1..], p, k);
    }
  }

  /** A two-character pattern absent from `u` and from `v` and not straddling the seam is absent from `u + v`. */
  lemma {:induction false} NotContainsPair(u: string, v: string, p: string)
    requires |p| == 2 && !Contains(u, p) && !Contains(v, p)
    requires u == [] || v == [] || u[|u| - 1] != p[0] || v[0] != p[1]
    ensures !Contains(u + v, p)
  {
    if u == [] {
      assert u + v == v;
    } else {
      assert !StartsWith(u + v, p) by {
        if |u| >= 2 {
          assert (u + v)[..2] == u[..2];
        } else if v != [] {
          assert (u + v)[..2] == [u[0], v[0]];
        }
      }
      assert (u + v)[1..] == u[1..] + v;
      NotContainsPair(u[1..], v, p);
    }
  }

  lemma {:induction false} ContainsPrefix(s: string, t: string, p: string)
    requires Contains(s, p)
    ensures Contains(s + t, p)
  {
    if StartsWith(s, p) {
      assert (s + t)[..|p|] == s[..|p|];
    } else {
      assert (s + t)[1..] == s[1..] + t;
      ContainsPrefix(s[1..], t, p);
    }
  }

  // ------------------------------------------------------------ split, join

  /**
   * `s.split(sep)`: the pieces between the occurrences of `sep` found scanning left to
   * right without overlap. Python raises ValueError for an empty separator; every
   * separator the compile stage uses is a non-empty literal.
   */
  function Split(s: string, sep: string): (r: seq<string>)
    requires |sep| > 0
    ensures |r| > 0
    decreases |s|
  {
    if s == [] then [""]
    else if StartsWith(s, sep) then [""] + Split(s[|sep|..], sep)
    else
      var rest := Split(s[1..], sep);
      [[s[0]] + rest[0]] + rest[1..]
  }

  /** `sep.join(parts)`. */
  function Join(parts: seq<string>, sep: string): string
    requires |parts| > 0
  {
    if |parts| == 1 then parts[0] else parts[0] + sep + Join(parts[1..], sep)
  }

  lemma JoinCons(x: string, rest: seq<string>, sep: string)
    requires |rest| > 0
    ensures Join([x] + rest, sep) == x + sep + Join(rest, sep)
  {
    assert ([x] + rest)[1..] == rest;
  }

  /** Prepending a character to the first piece prepends it to the joined string. */
  lemma {:induction false} JoinExtendFirst(c: char, rest: seq<string>, sep: string)
    requires |rest| > 0
    ensures Join([[c] + rest[0]] + rest[1..], sep) == [c] + Join(rest, sep)
  {
    if |rest| > 1 {
      JoinCons([c] + rest[0], rest[1..], sep);
      JoinCons(rest[0], rest[1..], sep);
      assert [rest[0]] + rest[1..] == rest;
    }
  }

  /** Joining the pieces with the separator gives back the original string. */
  lemma {:induction false} JoinSplit(s: string, sep: string)
    requires |sep| > 0
    ensures Join(Split(s, sep), sep) == s
  {
    if s == [] {
    } else if StartsWith(s, sep) {
      var tail := s[|sep|..];
      assert Split(s, sep) == [""] + Split(tail, sep);
      JoinSplit(tail, sep);
      JoinCons("", Split(tail, sep), sep);
      assert s == sep + tail;
    } else {
      var rest := Split(s[1..], sep);
      assert Split(s, sep) == [[s[0]] + rest[0]] + rest[1..];
      JoinSplit(s[1..], sep);
      JoinExtendFirst(s[0], rest, sep);
      assert [s[0]] + s[1..] == s;
    }
  }

  /** The first piece is a prefix of the string. */
  lemma {:induction false} SplitFirstPrefix(s: string, sep: string)
    requires |sep| > 0
    ensures StartsWith(s, Split(s, sep)[0])
  {
    if s != [] && !StartsWith(s, sep) {
      SplitFirstPrefix(s[1..], sep);
      var rest := Split(s[1..], sep);
      assert s[..1 + |rest[0]|] == [s[0]] + s[1..][..|rest[0]|];
    }
  }

  /** No piece contains the separator. */
  lemma {:induction false} SplitPiecesFree(s: string, sep: string)
    requires |sep| > 0
    ensures forall k :: 0 <= k < |Split(s, sep)| ==> !Contains(Split(s, sep)[k], sep)
  {
    if s == [] {
      assert !Contains("", sep);
    } else if StartsWith(s, sep) {
      SplitPiecesFree(s[|sep|..], sep);
      var rest := Split(s[|sep|..], sep);
      assert !Contains("", sep);
      assert forall k :: 1 <= k < |[""] + rest| ==> ([""] + rest)[k] == rest[k - 1];
    } else {
      var rest := Split(s[1..], sep);
      SplitPiecesFree(s[1..], sep);
      SplitFirstPrefix(s[1..], sep);
      var first := [s[0]] + rest[0];
      assert !StartsWith(first, sep) by {
        if |sep| <= |first| {
          assert s[..|sep|] == first[..|sep|];
        }
      }
      assert first[1..] == rest[0];
      assert !Contains(first, sep);
      var r := [first] + rest[1..];
      assert forall k :: 1 <= k < |r| ==> r[k] == rest[k];
    }
  }

  /** A string without the separator splits into itself alone. */
  lemma {:induction false} SplitWithoutSeparator(s: string, sep: string)
    requires |sep| > 0 && !Contains(s, sep)
    ensures Split(s, sep) == [s]
  {
    if s != [] {
      SplitWithoutSeparator(s[1..], sep);
      assert [s[0]] + s[1..] == s;
    }
  }

  /**
   * When the first occurrence of `sep` in `a + sep + b` is the one after `a`, the first
   * piece is `a` and the rest is the split of `b`.
   */
  lemma {:induction false} SplitAtFirst(a: string, sep: string, b: string)
    requires |sep| > 0
    requires !Contains(a + sep[..|sep| - 1], sep)
    ensures Split(a + sep + b, sep) == [a] + Split(b, sep)
  {
    var s := a + sep + b;
    if a == [] {
      assert s == sep + b;
      assert s[|sep|..] == b;
    } else {
      var a' := a + sep[..|sep| - 1];
      assert a'[..|sep|] == s[..|sep|];
      assert !StartsWith(s, sep);
      assert a'[1..] == a[1..] + sep[..|sep| - 1];
      SplitAtFirst(a[1..], sep, b);
      assert s[1..] == a[1..] + sep + b;
      assert [a[0]] + a[1..] == a;
    }
  }

  /** Splitting on a single character distributes over an occurrence of that character. */
  lemma {:induction false} SplitOneCharConcat(a: string, c: char, b: string)
    ensures Split(a + [c] + b, [c]) == Split(a, [c]) + Split(b, [c])
  {
    var s := a + [c] + b;
    if a == [] {
      assert s == [c] + b;
      assert s[1..] == b;
    } else {
      assert s[1..] == a[1..] + [c] + b;
      SplitOneCharConcat(a[1..], c, b);
      if a[0] == c {
        SplitHeadIsSeparator(a, s, c);
      } else {
        assert s[0] == a[0];
        SplitHeadIsOther(a, s, c, Split(a[1..], [c]), Split(b, [c]));
      }
    }
  }

  lemma SplitHeadIsSeparator(a: string, s: string, c: char)
    requires a != [] && |a| <= |s| && s[..|a|] == a && a[0] == c
    ensures Split(s, [c]) == [""] + Split(s[1..], [c])
    ensures Split(a, [c]) == [""] + Split(a[1..], [c])
  {
    assert s[..1] == [c] && a[..1] == [c];
  }

  lemma SplitHeadIsOther(a: string, s: string, c: char, ra: seq<string>, rb: seq<string>)
    requires a != [] && s != [] && s[0] == a[0] && a[0] != c
    requires ra == Split(a[1..], [c]) && Split(s[1..], [c]) == ra + rb
    ensures Split(s, [c]) == Split(a, [c]) + rb
  {
    assert s[..1][0] == s[0] && a[..1][0] == a[0];
    assert !StartsWith(s, [c]) && !StartsWith(a, [c]);
    var r := ra + rb;
    assert r[0] == ra[0];
    assert r[1..] == ra[1..] + rb;
  }
}
