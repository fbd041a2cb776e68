/**
 * Splicing replacements into a string at a snapshot of match positions.
 *
 * Both the math protector and the link rewriter collect `(start, end)` match
 * positions first and then call `replace_range` on them from the last to the
 * first, so that an edit never shifts the offsets still to be used. `Spliced`
 * states the result of that loop: the gaps between matches are kept and each
 * match is replaced by its replacement.
 */
module Splice {

  /** A half-open match range `[start, end)` in the text it was found in. */
  datatype Span = Span(start: nat, end: nat)

  /** Spans lie inside a text of length `n`, in increasing order and without overlap. */
  predicate WellFormed(spans: seq<Span>, n: nat) {
    (forall k :: 0 <= k < |spans| ==> spans[k].start <= spans[k].end <= n) &&
    (forall k :: 0 < k < |spans| ==> spans[k - 1].end <= spans[k].start)
  }

  /** A span ending before well-formed spans start can go in front of them. */
  lemma {:induction false} WellFormedCons(sp: Span, rest: seq<Span>, n: nat)
    requires sp.start <= sp.end <= n && WellFormed(rest, n)
    requires |rest| > 0 ==> sp.end <= rest[0].start
    ensures WellFormed([sp] + rest, n)
  {
    var r := [sp] + rest;
    forall k | 0 < k < |r| ensures r[k - 1].end <= r[k].start {
      assert r[k] == rest[k - 1];
      if k > 1 {
        assert r[k - 1] == rest[k - 2];
      }
    }
  }

  /** Order is transitive: an earlier span ends before a later one starts. */
  lemma {:induction false} WellFormedOrdered(spans: seq<Span>, n: nat, k: nat, m: nat)
    requires WellFormed(spans, n) && k < m < |spans|
    ensures spans[k].end <= spans[m].start
    decreases m - k
  {
    if k + 1 < m {
      WellFormedOrdered(spans, n, k + 1, m);
    }
  }

  /** The matched text of span `sp`. */
  function Matched(s: string, sp: Span): string
    requires sp.start <= sp.end <= |s|
  {
    s[sp.start..sp.end]
  }

  /** Where the text kept after span `i - 1` ends: the next span's start, or the end of the text. */
  function Bound(s: string, spans: seq<Span>, i: nat): nat
    requires i <= |spans|
  {
    if i < |spans| then spans[i].start else |s|
  }

  /** The text from span `i` on, with spans `i..` replaced and the gaps between them kept. */
  function SplicedFrom(s: string, spans: seq<Span>, reps: seq<string>, i: nat): string
    requires WellFormed(spans, |s|) && |reps| == |spans| && i <= |spans|
    decreases |spans| - i
  {
    if i == |spans| then ""
    else reps[i] + s[spans[i].end..Bound(s, spans, i + 1)] + SplicedFrom(s, spans, reps, i + 1)
  }

  /** `s` with span `k` replaced by `reps[k]` for every `k`. */
  function Spliced(s: string, spans: seq<Span>, reps: seq<string>): string
    requires WellFormed(spans, |s|) && |reps| == |spans|
  {
    s[..Bound(s, spans, 0)] + SplicedFrom(s, spans, reps, 0)
  }

  /** `replace_range(start..end, rep)` on the text `s[..b] + done`. */
  lemma {:induction false} RangeReplaced(s: string, b: nat, start: nat, end: nat, done: string, cur: string, rep: string)
    requires start <= end <= b <= |s|
    requires cur == s[..b] + done
    ensures cur[..start] + rep + cur[end..] == s[..start] + (rep + s[end..b] + done)
  {
    assert cur[..start] == s[..start];
    assert cur[end..] == s[end..b] + done by {
      assert cur[end..] == s[..b][end..] + done;
      assert s[..b][end..] == s[end..b];
    }
  }

  /** The reverse loop starts with nothing replaced. */
  lemma {:induction false} SplicedLoopStart(s: string, spans: seq<Span>, reps: seq<string>)
    requires WellFormed(spans, |s|) && |reps| == |spans|
    ensures s == s[..Bound(s, spans, |spans|)] + SplicedFrom(s, spans, reps, |spans|)
  {
    assert s[..|s|] == s;
  }

  /**
   * The reverse loop's invariant is kept by one `replace_range`: when spans
   * `i..` are already replaced, replacing span `i - 1` in the current text
   * gives the state for `i - 1`.
   */
  lemma {:induction false} SplicedLoopStep(s: string, spans: seq<Span>, reps: seq<string>, i: nat, cur: string)
    requires WellFormed(spans, |s|) && |reps| == |spans| && 0 < i <= |spans|
    requires cur == s[..Bound(s, spans, i)] + SplicedFrom(s, spans, reps, i)
    ensures spans[i - 1].start <= spans[i - 1].end <= |cur|
    ensures cur[..spans[i - 1].start] + reps[i - 1] + cur[spans[i - 1].end..]
         == s[..Bound(s, spans, i - 1)] + SplicedFrom(s, spans, reps, i - 1)
  {
    var sp := spans[i - 1];
    RangeReplaced(s, Bound(s, spans, i), sp.start, sp.end, SplicedFrom(s, spans, reps, i), cur, reps[i - 1]);
  }

  /** Replacing every match by its own text gives the original string back. */
  lemma {:induction false} SplicedIdentity(s: string, spans: seq<Span>, reps: seq<string>)
    requires WellFormed(spans, |s|) && |reps| == |spans|
    requires forall k :: 0 <= k < |spans| ==> reps[k] == Matched(s, spans[k])
    ensures Spliced(s, spans, reps) == s
  {
    SplicedFromIdentity(s, spans, reps, 0);
    assert s == s[..Bound(s, spans, 0)] + s[Bound(s, spans, 0)..];
  }

  lemma {:induction false} SplicedFromIdentity(s: string, spans: seq<Span>, reps: seq<string>, i: nat)
    requires WellFormed(spans, |s|) && |reps| == |spans| && i <= |spans|
    requires forall k :: 0 <= k < |spans| ==> reps[k] == Matched(s, spans[k])
    ensures Bound(s, spans, i) <= |s|
    ensures SplicedFrom(s, spans, reps, i) == s[Bound(s, spans, i)..]
    decreases |spans| - i
  {
    if i < |spans| {
      SplicedFromIdentity(s, spans, reps, i + 1);
      ThreeSlices(s, spans[i].start, spans[i].end, Bound(s, spans, i + 1));
    }
  }

  lemma {:induction false} ThreeSlices(s: string, a: nat, m: nat, b: nat)
    requires a <= m <= b <= |s|
    ensures s[a..] == s[a..m] + s[m..b] + s[b..]
  {
    assert s[a..] == s[a..m] + s[m..];
    assert s[m..] == s[m..b] + s[b..];
  }

  /** Text at or after position `i`, past every span, is copied through unchanged. */
  lemma {:induction false} SplicedKeepsTail(s: string, spans: seq<Span>, reps: seq<string>, i: nat)
    requires WellFormed(spans, |s|) && |reps| == |spans|
    requires i <= |s|
    requires forall k :: 0 <= k < |spans| ==> spans[k].end <= i
    ensures WellFormed(spans, |s[..i]|)
    ensures Spliced(s, spans, reps) == Spliced(s[..i], spans, reps) + s[i..]
  {
    var t := s[..i];
    if |spans| == 0 {
      assert s[..|s|] == t + s[i..];
    } else {
      SplicedFromKeepsTail(s, spans, reps, i, 0);
      assert t[..spans[0].start] == s[..spans[0].start];
    }
  }

  lemma {:induction false} SplicedFromKeepsTail(s: string, spans: seq<Span>, reps: seq<string>, i: nat, j: nat)
    requires WellFormed(spans, |s|) && |reps| == |spans|
    requires i <= |s| && j < |spans|
    requires forall k :: 0 <= k < |spans| ==> spans[k].end <= i
    ensures WellFormed(spans, |s[..i]|)
    ensures SplicedFrom(s, spans, reps, j) == SplicedFrom(s[..i], spans, reps, j) + s[i..]
    decreases |spans| - j
  {
    var t := s[..i];
    var sp := spans[j];
    if j + 1 < |spans| {
      SplicedFromKeepsTail(s, spans, reps, i, j + 1);
      assert t[sp.end..spans[j + 1].start] == s[sp.end..spans[j + 1].start];
    } else {
      assert s[sp.end..] == t[sp.end..] + s[i..];
    }
  }
}
