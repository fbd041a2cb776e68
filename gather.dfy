/**
 * The shape shared by the loops that walk a list and push an output for
 * some of its elements: the math filter, the navbar item builders and the
 * dropdown renderer. `f` says what an element gives, if anything.
 */
module Gather {
  import opened Strings

  /** The outputs of the elements that give one, in the order of the elements. */
  function Gathered<T, U>(xs: seq<T>, f: T -> Option<U>): seq<U> {
    if |xs| == 0 then []
    else
      var last := f(xs[|xs| - 1]);
      Gathered(xs[..|xs| - 1], f) + (if last.Some? then [last.value] else [])
  }

  /** How many elements give an output. */
  function Hits<T, U>(xs: seq<T>, f: T -> Option<U>): (n: nat)
    ensures n <= |xs|
  {
    if |xs| == 0 then 0
    else Hits(xs[1..], f) + (if f(xs[0]).Some? then 1 else 0)
  }

  /** Counting the last element separately. */
  lemma {:induction false} HitsSnoc<T, U>(xs: seq<T>, f: T -> Option<U>)
    requires |xs| > 0
    ensures Hits(xs, f) == Hits(xs[..|xs| - 1], f) + (if f(xs[|xs| - 1]).Some? then 1 else 0)
    decreases |xs|
  {
    var n := |xs|;
    if n > 1 {
      HitsSnoc(xs[1..], f);
      assert xs[1..][..n - 2] == xs[..n - 1][1..];
    }
  }

  /** Counting over a longer prefix counts no fewer elements. */
  lemma {:induction false} HitsPrefix<T, U>(xs: seq<T>, f: T -> Option<U>, i: nat, j: nat)
    requires i <= j <= |xs|
    ensures Hits(xs[..i], f) <= Hits(xs[..j], f)
    ensures i < j && f(xs[i]).Some? ==> Hits(xs[..i], f) < Hits(xs[..j], f)
    decreases j - i
  {
    if i < j {
      HitsPrefix(xs, f, i, j - 1);
      HitsSnoc(xs[..j], f);
      assert xs[..j][..j - 1] == xs[..j - 1];
    }
  }

  /**
   * Exactly one output per element that gives one, and element `k`'s output
   * sits after the outputs of the elements before it.
   */
  lemma {:induction false} GatheredExact<T, U>(xs: seq<T>, f: T -> Option<U>)
    ensures |Gathered(xs, f)| == Hits(xs, f)
    ensures forall k :: 0 <= k < |xs| && f(xs[k]).Some? ==>
      Hits(xs[..k], f) < |Gathered(xs, f)| && Gathered(xs, f)[Hits(xs[..k], f)] == f(xs[k]).value
    decreases |xs|
  {
    var n := |xs|;
    if n > 0 {
      var init := xs[..n - 1];
      var r := Gathered(xs, f);
      GatheredExact(init, f);
      HitsSnoc(xs, f);
      forall k | 0 <= k < n && f(xs[k]).Some?
        ensures Hits(xs[..k], f) < |r| && r[Hits(xs[..k], f)] == f(xs[k]).value
      {
        if k < n - 1 {
          assert init[k] == xs[k] && init[..k] == xs[..k];
        } else {
          assert xs[..k] == init;
        }
      }
    }
  }

  /** Every output is the output of some element. */
  lemma {:induction false} GatheredSound<T, U>(xs: seq<T>, f: T -> Option<U>)
    ensures forall i :: 0 <= i < |Gathered(xs, f)| ==>
      exists k :: 0 <= k < |xs| && f(xs[k]) == Some(Gathered(xs, f)[i])
    decreases |xs|
  {
    var n := |xs|;
    if n > 0 {
      var init := xs[..n - 1];
      var prev := Gathered(init, f);
      var r := Gathered(xs, f);
      GatheredSound(init, f);
      forall i | 0 <= i < |r| ensures exists k :: 0 <= k < |xs| && f(xs[k]) == Some(Gathered(xs, f)[i]) {
        if i < |prev| {
          var k :| 0 <= k < |init| && f(init[k]) == Some(prev[i]);
          assert r[i] == prev[i] && xs[k] == init[k];
          assert f(xs[k]) == Some(r[i]);
        } else {
          assert f(xs[n - 1]) == Some(r[i]);
        }
      }
    } else {
      assert Gathered(xs, f) == [];
    }
  }

  /** The length alone. */
  lemma {:induction false} GatheredLength<T, U>(xs: seq<T>, f: T -> Option<U>)
    ensures |Gathered(xs, f)| == Hits(xs, f)
  {
    GatheredExact(xs, f);
  }

  /** Where element `k`'s output sits. */
  lemma {:induction false} GatheredAt<T, U>(xs: seq<T>, f: T -> Option<U>, k: nat)
    requires k < |xs| && f(xs[k]).Some?
    ensures Hits(xs[..k], f) < |Gathered(xs, f)| && Gathered(xs, f)[Hits(xs[..k], f)] == f(xs[k]).value
  {
    GatheredExact(xs, f);
  }

  /** The element output `i` comes from. */
  lemma {:induction false} GatheredFrom<T, U>(xs: seq<T>, f: T -> Option<U>, i: nat) returns (k: nat)
    requires i < |Gathered(xs, f)|
    ensures k < |xs| && f(xs[k]) == Some(Gathered(xs, f)[i])
  {
    GatheredSound(xs, f);
    k :| 0 <= k < |xs| && f(xs[k]) == Some(Gathered(xs, f)[i]);
  }
}
