/**
 * String primitives the site compiler relies on, stated the way Rust's `str`
 * methods behave: `find`, `contains`, `starts_with`, `ends_with`, `replace`
 * and the decimal rendering done by `format!("{}", n)`.
 */
module Strings {

  datatype Option<+T> = None | Some(value: T)

  /** `p` occurs in `s` starting at index `i`. */
  predicate OccursAt(s: string, p: string, i: nat) {
    i + |p| <= |s| && s[i..i + |p|] == p
  }

  predicate StartsWith(s: string, p: string) {
    OccursAt(s, p, 0)
  }

  predicate EndsWith(s: string, p: string) {
    |p| <= |s| && s[|s| - |p|..] == p
  }

  /** The first occurrence of `p` at or after `from` (Rust's `s[from..].find(p)`, shifted by `from`). */
  function IndexOf(s: string, p: string, from: nat): (r: Option<nat>)
    requires from <= |s|
    ensures r.Some? ==> from <= r.value <= |s| && OccursAt(s, p, r.value)
    ensures r.Some? ==> forall k: nat :: from <= k < r.value ==> !OccursAt(s, p, k)
    ensures r.None? ==> forall k: nat :: from <= k ==> !OccursAt(s, p, k)
    decreases |s| - from
  {
    if OccursAt(s, p, from) then Some(from)
    else if from == |s| then None
    else IndexOf(s, p, from + 1)
  }

  /** `IndexOf` is pinned down by its contract: the first occurrence at or after `from`. */
  lemma {:induction false} IndexOfFirst(s: string, p: string, from: nat, e: nat)
    requires from <= e && from <= |s| && OccursAt(s, p, e)
    requires forall k: nat :: from <= k < e ==> !OccursAt(s, p, k)
    ensures IndexOf(s, p, from) == Some(e)
  {
  }

  /** The first index of character `c` (Rust's `s.find(c)`). */
  function Find(s: string, c: char): (r: Option<nat>)
    ensures r.Some? ==> r.value < |s| && s[r.value] == c && c !in s[..r.value]
    ensures r.None? ==> c !in s
  {
    if |s| == 0 then None
    else if s[0] == c then Some(0)
    else match Find(s[1..], c)
      case None => None
      case Some(k) => Some(k + 1)
  }

  predicate Contains(s: string, p: string) {
    IndexOf(s, p, 0).Some?
  }

  lemma {:induction false} ContainsAt(s: string, p: string, k: nat)
    requires OccursAt(s, p, k)
    ensures Contains(s, p)
  {
  }

  lemma {:induction false} NotContainsAt(s: string, p: string, k: nat)
    requires !Contains(s, p)
    ensures !OccursAt(s, p, k)
  {
  }

  /** An occurrence inside a slice is an occurrence in the whole string. */
  lemma {:induction false} OccursInSlice(s: string, a: nat, b: nat, p: string, k: nat)
    requires a <= b <= |s|
    requires OccursAt(s[a..b], p, k)
    ensures OccursAt(s, p, a + k)
  {
    forall i | 0 <= i < |p| ensures s[a + k + i] == p[i] {
      assert s[a..b][k..k + |p|][i] == p[i];
    }
    assert s[a + k..a + k + |p|] == p;
  }

  /** A string free of `p` has slices free of `p`. */
  lemma {:induction false} SliceNotContains(s: string, a: nat, b: nat, p: string)
    requires a <= b <= |s|
    requires !Contains(s, p)
    ensures !Contains(s[a..b], p)
  {
    forall k: nat ensures !OccursAt(s[a..b], p, k) {
      if OccursAt(s[a..b], p, k) {
        OccursInSlice(s, a, b, p, k);
        assert false;
      }
    }
  }

  /** Occurrence is transitive: `small` inside `big` inside `s`. */
  lemma {:induction false} OccursTransitive(s: string, big: string, small: string, k: nat, q: nat)
    requires OccursAt(s, big, k) && OccursAt(big, small, q)
    ensures OccursAt(s, small, k + q)
  {
    forall i | 0 <= i < |small| ensures s[k + q + i] == small[i] {
      assert big[q..q + |small|][i] == small[i];
      assert s[k..k + |big|][q + i] == big[q + i];
    }
    assert s[k + q..k + q + |small|] == small;
  }

  /** `p` occurs at `k` only if every prefix of `p` does. */
  lemma {:induction false} OccursPrefix(s: string, p: string, n: nat, k: nat)
    requires OccursAt(s, p, k) && n <= |p|
    ensures OccursAt(s, p[..n], k)
  {
    assert s[k..k + n] == s[k..k + |p|][..n];
  }

  /**
   * Rust's `str::replace`: every non-overlapping occurrence of `p`, found
   * left to right, is replaced by `r`.
   */
  function ReplaceAll(s: string, p: string, r: string): string
    requires |p| > 0
    decreases |s|
  {
    if |s| == 0 then ""
    else if OccursAt(s, p, 0) then r + ReplaceAll(s[|p|..], p, r)
    else [s[0]] + ReplaceAll(s[1..], p, r)
  }

  /** Replacing a pattern that does not occur changes nothing. */
  lemma {:induction false} ReplaceAllAbsent(s: string, p: string, r: string)
    requires |p| > 0
    requires forall k: nat :: !OccursAt(s, p, k)
    ensures ReplaceAll(s, p, r) == s
    decreases |s|
  {
    if |s| > 0 {
      assert !OccursAt(s, p, 0);
      forall k: nat ensures !OccursAt(s[1..], p, k) {
        if OccursAt(s[1..], p, k) {
          assert s[1..] == s[1..|s|];
          OccursInSlice(s, 1, |s|, p, k);
          assert false;
        }
      }
      ReplaceAllAbsent(s[1..], p, r);
      assert s == [s[0]] + s[1..];
    }
  }

  lemma {:induction false} ReplaceAllNotContains(s: string, p: string, r: string)
    requires |p| > 0
    requires !Contains(s, p)
    ensures ReplaceAll(s, p, r) == s
  {
    forall k: nat ensures !OccursAt(s, p, k) {
      NotContainsAt(s, p, k);
    }
    ReplaceAllAbsent(s, p, r);
  }

  /** The pattern itself is replaced whole. */
  lemma {:induction false} ReplaceAllSelf(p: string, r: string)
    requires |p| > 0
    ensures ReplaceAll(p, p, r) == r
  {
    assert OccursAt(p, p, 0);
    assert p[|p|..] == "";
  }

  /** No occurrence of `p` in `x + y` starts inside `x` and ends inside `y`. */
  predicate NoCross(x: string, y: string, p: string) {
    forall q: nat :: q < |x| < q + |p| ==> !OccursAt(x + y, p, q)
  }

  /** `replace` distributes over a concatenation that no occurrence straddles. */
  lemma {:induction false} ReplaceAllConcat(x: string, y: string, p: string, r: string)
    requires |p| > 0
    requires NoCross(x, y, p)
    ensures ReplaceAll(x + y, p, r) == ReplaceAll(x, p, r) + ReplaceAll(y, p, r)
    decreases |x|
  {
    if |x| == 0 {
      assert x + y == y;
    } else if OccursAt(x + y, p, 0) {
      assert |p| <= |x|;
      assert (x + y)[..|p|] == x[..|p|];
      assert OccursAt(x, p, 0);
      NoCrossDrop(x, y, p, |p|);
      assert (x + y)[|p|..] == x[|p|..] + y;
      ReplaceAllConcat(x[|p|..], y, p, r);
    } else {
      assert !OccursAt(x, p, 0) by {
        if |p| <= |x| {
          assert (x + y)[..|p|] == x[..|p|];
        }
      }
      NoCrossDrop(x, y, p, 1);
      assert (x + y)[1..] == x[1..] + y;
      assert (x + y)[0] == x[0];
      ReplaceAllConcat(x[1..], y, p, r);
    }
  }

  /** Dropping a prefix of `x` keeps occurrences from straddling. */
  lemma {:induction false} NoCrossDrop(x: string, y: string, p: string, d: nat)
    requires NoCross(x, y, p) && d <= |x|
    ensures NoCross(x[d..], y, p)
  {
    var x' := x[d..];
    assert (x + y)[d..] == x' + y;
    forall q: nat | q < |x'| < q + |p| ensures !OccursAt(x' + y, p, q) {
      assert !OccursAt(x + y, p, d + q);
      if q + |p| <= |x' + y| {
        assert (x + y)[d + q..d + q + |p|] == (x' + y)[q..q + |p|];
      }
    }
  }

  /** No occurrence can straddle into `y` when `y` starts with a character found only at the head of `p`. */
  lemma {:induction false} NoCrossByHead(x: string, y: string, p: string)
    requires |y| > 0
    requires forall k :: 1 <= k < |p| ==> p[k] != y[0]
    ensures NoCross(x, y, p)
  {
    forall q: nat | q < |x| < q + |p| ensures !OccursAt(x + y, p, q) {
      var i := |x| - q;
      assert p[i] != y[0];
      assert (x + y)[q + i] == y[0];
    }
  }

  /** No occurrence can straddle out of `x` when `x` ends with a character `p` lacks. */
  lemma {:induction false} NoCrossByTail(x: string, y: string, p: string)
    requires |x| > 0
    requires forall k :: 0 <= k < |p| ==> p[k] != x[|x| - 1]
    ensures NoCross(x, y, p)
  {
    forall q: nat | q < |x| < q + |p| ensures !OccursAt(x + y, p, q) {
      var i := |x| - 1 - q;
      assert p[i] != x[|x| - 1];
      assert (x + y)[q + i] == x[|x| - 1];
    }
  }

  /** A character absent from both `s` and `r` is absent from `replace(s, p, r)`. */
  lemma {:induction false} ReplaceAllKeepsOut(s: string, p: string, r: string, c: char)
    requires |p| > 0
    requires c !in s && c !in r
    ensures c !in ReplaceAll(s, p, r)
    decreases |s|
  {
    if |s| > 0 {
      if OccursAt(s, p, 0) {
        ReplaceAllKeepsOut(s[|p|..], p, r, c);
      } else {
        ReplaceAllKeepsOut(s[1..], p, r, c);
      }
    }
  }

  predicate IsDigit(c: char) {
    '0' <= c <= '9'
  }

  function DigitChar(d: nat): (c: char)
    requires d < 10
    ensures IsDigit(c)
  {
    ('0' as int + d) as char
  }

  /** `format!("{}", n)` for a non-negative integer. */
  function Decimal(n: nat): (r: string)
    ensures |r| >= 1
    ensures forall k :: 0 <= k < |r| ==> IsDigit(r[k])
  {
    if n < 10 then [DigitChar(n)] else Decimal(n / 10) + [DigitChar(n % 10)]
  }

  /** Longer numbers never print shorter. */
  lemma {:induction false} DecimalLengthMonotone(a: nat, b: nat)
    requires a <= b
    ensures |Decimal(a)| <= |Decimal(b)|
    decreases b
  {
    if b >= 10 && a >= 10 {
      DecimalLengthMonotone(a / 10, b / 10);
    }
  }

  /** Distinct numbers print differently. */
  lemma {:induction false} DecimalInjective(a: nat, b: nat)
    requires Decimal(a) == Decimal(b)
    ensures a == b
    decreases a
  {
    if a < 10 && b < 10 {
      assert Decimal(a)[0] == DigitChar(a);
    } else if a < 10 || b < 10 {
      assert false;
    } else {
      var da, db := Decimal(a / 10), Decimal(b / 10);
      assert Decimal(a) == da + [DigitChar(a % 10)];
      assert Decimal(b) == db + [DigitChar(b % 10)];
      assert da == Decimal(a)[..|Decimal(a)| - 1];
      assert db == Decimal(b)[..|Decimal(b)| - 1];
      DecimalInjective(a / 10, b / 10);
      assert DigitChar(a % 10) == DigitChar(b % 10);
    }
  }
}
