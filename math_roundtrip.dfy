/**
 * Protect followed by restore gives the text back, for texts whose math is
 * inline only. The conditions rule out what the page text itself could
 * confuse with the bookkeeping: no `$$` or `\[` (so only the inline pass
 * acts), no `MATH_` (so no token can be found in the text around the math)
 * and no digit right after an inline match (so `MATH_INLINE_1` followed by
 * `2` cannot be read as `MATH_INLINE_12`).
 *
 * The markdown converter runs between the two in the pipeline; here restore
 * is applied straight to the protected text.
 */
module MathRoundTrip {
  import opened Strings
  import opened Splice
  import opened MathProtect
  import opened MathRestore

  /** The texts the round trip is stated for. */
  predicate InlineOnly(s: string) {
    !Contains(s, DollarFence) && !Contains(s, BracketOpen) && !Contains(s, "MATH_") &&
    forall k :: 0 <= k < |InlineSpans(s, 0)| && InlineSpans(s, 0)[k].end < |s| ==>
      !IsDigit(s[InlineSpans(s, 0)[k].end])
  }

  // ---------------------------------------------------------------------
  // The shape of an inline token
  // ---------------------------------------------------------------------

  /** `MATH_INLINE_` and then digits: `M` only at the head, digits from index 12 on. */
  lemma {:induction false} InlineTokenShape(id: nat)
    ensures var ph := InlinePlaceholder(id);
      |ph| >= 13 && ph[0] == 'M' && ph[..5] == "MATH_" &&
      (forall k :: 1 <= k < |ph| ==> ph[k] != 'M') &&
      (forall k :: 12 <= k < |ph| ==> IsDigit(ph[k]))
  {
    var ph := InlinePlaceholder(id);
    var d := Decimal(id);
    assert ph == "MATH_INLINE_" + d;
    forall k | 1 <= k < |ph| ensures ph[k] != 'M' {
      if k >= 12 {
        assert ph[k] == d[k - 12];
      }
    }
  }

  /** A token does not occur in the token of a smaller id. */
  lemma {:induction false} TokenNotInToken(idk: nat, id: nat)
    requires idk < id
    ensures forall q: nat :: !OccursAt(InlinePlaceholder(idk), InlinePlaceholder(id), q)
  {
    var x, ph := InlinePlaceholder(idk), InlinePlaceholder(id);
    InlineTokenShape(idk);
    InlineTokenShape(id);
    DecimalLengthMonotone(idk, id);
    assert Decimal(idk) == x[12..] && Decimal(id) == ph[12..];
    if x == ph {
      DecimalInjective(idk, id);
    }
    forall q: nat ensures !OccursAt(x, ph, q) {
      if q == 0 && |x| == |ph| {
        assert x[q..q + |ph|] == x;
      }
    }
  }

  /** No token straddles out of a token into text that does not start with a digit. */
  lemma {:induction false} TokenNoCrossOut(idk: nat, id: nat, y: string)
    requires |y| == 0 || !IsDigit(y[0])
    ensures NoCross(InlinePlaceholder(idk), y, InlinePlaceholder(id))
  {
    var x, ph := InlinePlaceholder(idk), InlinePlaceholder(id);
    InlineTokenShape(idk);
    InlineTokenShape(id);
    forall q: nat | q < |x| < q + |ph| ensures !OccursAt(x + y, ph, q) {
      if q + |ph| <= |x + y| {
        var w := (x + y)[q..q + |ph|];
        if q > 0 {
          assert w[0] == (x + y)[q] != ph[0];
        } else {
          assert w[|x|] == (x + y)[|x|] != ph[|x|];
        }
      }
    }
  }

  /** No token straddles into text that starts with `M`. */
  lemma {:induction false} TokenNoCrossIn(x: string, y: string, id: nat)
    requires |y| > 0 ==> y[0] == 'M'
    ensures NoCross(x, y, InlinePlaceholder(id))
  {
    InlineTokenShape(id);
    if |y| > 0 {
      NoCrossByHead(x, y, InlinePlaceholder(id));
    }
  }

  /** A slice of a text free of `MATH_` holds no token, so replacing one leaves it alone. */
  lemma {:induction false} SliceUntouched(s: string, a: nat, c: nat, id: nat, b: string)
    requires a <= c <= |s| && !Contains(s, "MATH_")
    ensures ReplaceAll(s[a..c], InlinePlaceholder(id), b) == s[a..c]
  {
    var t, ph := s[a..c], InlinePlaceholder(id);
    InlineTokenShape(id);
    SliceNotContains(s, a, c, "MATH_");
    forall q: nat ensures !OccursAt(t, ph, q) {
      if OccursAt(t, ph, q) {
        OccursPrefix(t, ph, 5, q);
        ContainsAt(t, "MATH_", q);
        assert false;
      }
    }
    ReplaceAllAbsent(t, ph, b);
  }

  // ---------------------------------------------------------------------
  // The protected text, span by span
  // ---------------------------------------------------------------------

  /** Of `n` matches, match `k` gets token `n - 1 - k`. */
  predicate TokenAt(reps: seq<string>, k: nat)
    requires k < |reps|
  {
    reps[k] == InlinePlaceholder(|reps| - 1 - k)
  }

  /**
   * What the inline pass over a `MATH_`-free text produces: span `k` holds
   * inline math and gets token `n - 1 - k`, and no span is followed by a digit.
   */
  predicate Setup(s: string, spans: seq<Span>, reps: seq<string>) {
    WellFormed(spans, |s|) && |reps| == |spans| && !Contains(s, "MATH_") &&
    forall k :: 0 <= k < |spans| ==> SpanOk(s, spans, reps, k)
  }

  /** Span `k` holds inline math, is not followed by a digit, and gets token `n - 1 - k`. */
  predicate SpanOk(s: string, spans: seq<Span>, reps: seq<string>, k: nat)
    requires WellFormed(spans, |s|) && |reps| == |spans| && k < |spans|
  {
    TokenAt(reps, k) && (spans[k].end < |s| ==> !IsDigit(s[spans[k].end])) &&
    IsInlineMath(s[spans[k].start..spans[k].end])
  }

  /** The text after span `k`: its gap, then the tokens and gaps of the later spans. */
  function Rest(s: string, spans: seq<Span>, reps: seq<string>, k: nat): string
    requires WellFormed(spans, |s|) && |reps| == |spans| && k < |spans|
  {
    s[spans[k].end..Bound(s, spans, k + 1)] + SplicedFrom(s, spans, reps, k + 1)
  }

  /** The spliced text from span `k` on starts with that span's token. */
  lemma {:induction false} SplicedFromHead(s: string, spans: seq<Span>, reps: seq<string>, k: nat)
    requires Setup(s, spans, reps) && k < |spans|
    ensures SplicedFrom(s, spans, reps, k) == reps[k] + Rest(s, spans, reps, k)
    ensures |SplicedFrom(s, spans, reps, k)| > 0 && SplicedFrom(s, spans, reps, k)[0] == 'M'
  {
    assert SpanOk(s, spans, reps, k);
    InlineTokenShape(|spans| - 1 - k);
  }

  /** The text after a span is empty or starts with something other than a digit. */
  lemma {:induction false} RestHead(s: string, spans: seq<Span>, reps: seq<string>, k: nat)
    requires Setup(s, spans, reps) && k < |spans|
    ensures var rest := Rest(s, spans, reps, k); |rest| == 0 || !IsDigit(rest[0])
  {
    var gap := s[spans[k].end..Bound(s, spans, k + 1)];
    assert SpanOk(s, spans, reps, k);
    if |gap| > 0 {
      assert Rest(s, spans, reps, k)[0] == s[spans[k].end];
    } else if k + 1 < |spans| {
      SplicedFromHead(s, spans, reps, k + 1);
      assert Rest(s, spans, reps, k) == SplicedFrom(s, spans, reps, k + 1);
    }
  }

  /** Replacing a token of a higher id than any still in the text changes nothing. */
  lemma {:induction false} SplicedFromUntouched(s: string, spans: seq<Span>, reps: seq<string>, k: nat, id: nat, b: string)
    requires Setup(s, spans, reps) && k <= |spans| && |spans| <= id + k
    ensures ReplaceAll(SplicedFrom(s, spans, reps, k), InlinePlaceholder(id), b) == SplicedFrom(s, spans, reps, k)
    decreases |spans| - k, 1
  {
    if k < |spans| {
      var ph, rest := InlinePlaceholder(id), Rest(s, spans, reps, k);
      assert SpanOk(s, spans, reps, k);
      SplicedFromHead(s, spans, reps, k);
      RestHead(s, spans, reps, k);
      TokenNoCrossOut(|spans| - 1 - k, id, rest);
      ReplaceAllConcat(reps[k], rest, ph, b);
      TokenNotInToken(|spans| - 1 - k, id);
      ReplaceAllAbsent(reps[k], ph, b);
      RestUntouched(s, spans, reps, k, id, b);
    }
  }

  lemma {:induction false} RestUntouched(s: string, spans: seq<Span>, reps: seq<string>, k: nat, id: nat, b: string)
    requires Setup(s, spans, reps) && k < |spans| && |spans| <= id + k + 1
    ensures ReplaceAll(Rest(s, spans, reps, k), InlinePlaceholder(id), b) == Rest(s, spans, reps, k)
    decreases |spans| - k, 0
  {
    var ph := InlinePlaceholder(id);
    var gap := s[spans[k].end..Bound(s, spans, k + 1)];
    var tail := SplicedFrom(s, spans, reps, k + 1);
    if k + 1 < |spans| {
      SplicedFromHead(s, spans, reps, k + 1);
    }
    TokenNoCrossIn(gap, tail, id);
    ReplaceAllConcat(gap, tail, ph, b);
    SliceUntouched(s, spans[k].end, Bound(s, spans, k + 1), id, b);
    SplicedFromUntouched(s, spans, reps, k + 1, id, b);
  }

  // ---------------------------------------------------------------------
  // Restore undoes the pass, span by span from the front
  // ---------------------------------------------------------------------

  /**
   * Restoring id `n - 1 - j` (the token of span `j`) into a text whose spans
   * before `j` are already back replaces exactly that token by span `j`'s text.
   */
  lemma {:induction false} RestoreStep(s: string, spans: seq<Span>, reps: seq<string>, j: nat, cur: string, b: string, id: nat, next: string)
    requires Setup(s, spans, reps) && j < |spans| && id == |spans| - 1 - j
    requires cur == s[..Bound(s, spans, j)] + SplicedFrom(s, spans, reps, j)
    requires b == s[spans[j].start..spans[j].end]
    requires next == s[..Bound(s, spans, j + 1)] + SplicedFrom(s, spans, reps, j + 1)
    ensures ReplaceAll(cur, InlinePlaceholder(id), b) == next
  {
    var ph, x, rest := InlinePlaceholder(id), s[..spans[j].start], Rest(s, spans, reps, j);
    var c, tail := Bound(s, spans, j + 1), SplicedFrom(s, spans, reps, j + 1);
    CurShape(s, spans, reps, j, cur, x, rest);
    assert reps[j] == ph by {
      assert SpanOk(s, spans, reps, j);
    }
    RestUntouched(s, spans, reps, j, id, b);
    SwapMiddle(s, spans[j].start, spans[j].end, c, x, rest, tail, id, b, cur, next);
  }

  /**
   * In a `MATH_`-free text, swapping the math at `a..m` for its token and
   * replacing that token again gives back the text.
   */
  lemma {:induction false} SwapMiddle(s: string, a: nat, m: nat, c: nat, x: string, rest: string, tail: string,
                                      id: nat, b: string, cur: string, next: string)
    requires a <= m <= c <= |s| && !Contains(s, "MATH_")
    requires x == s[..a] && b == s[a..m] && rest == s[m..c] + tail
    requires ReplaceAll(rest, InlinePlaceholder(id), b) == rest
    requires cur == x + (InlinePlaceholder(id) + rest) && next == s[..c] + tail
    ensures ReplaceAll(cur, InlinePlaceholder(id), b) == next
  {
    var ph := InlinePlaceholder(id);
    InlineTokenShape(id);
    TokenNoCrossIn(x, ph + rest, id);
    SliceUntouched(s, 0, a, id, b);
    assert s[0..a] == x;
    TokenReplaced(x, ph, rest, b, cur);
    Reassemble(s, a, m, c, tail, b, rest);
  }

  /** Before restoring span `j`, the text is its prefix, its token, and what follows. */
  lemma {:induction false} CurShape(s: string, spans: seq<Span>, reps: seq<string>, j: nat, cur: string, x: string, rest: string)
    requires WellFormed(spans, |s|) && |reps| == |spans| && j < |spans|
    requires cur == s[..Bound(s, spans, j)] + SplicedFrom(s, spans, reps, j)
    requires x == s[..spans[j].start] && rest == Rest(s, spans, reps, j)
    ensures cur == x + (reps[j] + rest)
  {
    var gap, tail := s[spans[j].end..Bound(s, spans, j + 1)], SplicedFrom(s, spans, reps, j + 1);
    assert s[..Bound(s, spans, j)] == x;
    assert SplicedFrom(s, spans, reps, j) == reps[j] + gap + tail;
    assert rest == gap + tail;
    assert reps[j] + gap + tail == reps[j] + rest;
  }

  /** Putting a restored span back between its prefix and the text after it. */
  lemma {:induction false} Reassemble(s: string, a: nat, m: nat, c: nat, tail: string, b: string, rest: string)
    requires a <= m <= c <= |s| && b == s[a..m] && rest == s[m..c] + tail
    ensures s[..a] + b + rest == s[..c] + tail
  {
    assert s[..c] == s[..a] + s[a..m] + s[m..c];
  }

  /** An inline text is restored by a plain replace of its token. */
  lemma {:induction false} InlineRestoreReplaces(cur: string, b: string, id: nat)
    requires IsInlineMath(b)
    ensures RestoreOne(cur, b, id) == ReplaceAll(cur, InlinePlaceholder(id), b)
  {
    InlineNotDisplay(b);
  }

  /** Replacing `ph` in `x + ph + rest`, where only the middle holds it, swaps just the middle. */
  lemma {:induction false} TokenReplaced(x: string, ph: string, rest: string, b: string, cur: string)
    requires |ph| > 0 && cur == x + (ph + rest) && NoCross(x, ph + rest, ph)
    requires ReplaceAll(x, ph, b) == x && ReplaceAll(rest, ph, b) == rest
    ensures ReplaceAll(cur, ph, b) == x + b + rest
  {
    ReplaceAllConcat(x, ph + rest, ph, b);
    assert OccursAt(ph + rest, ph, 0);
    assert (ph + rest)[|ph|..] == rest;
  }

  /** One step of the restore loop on an inline text: its bare token is replaced. */
  lemma {:induction false} RestoreFromInline(t: string, blocks: seq<string>, k: nat, t1: string)
    requires 0 < k <= |blocks| && IsInlineMath(blocks[k - 1])
    requires t1 == ReplaceAll(t, InlinePlaceholder(k - 1), blocks[k - 1])
    ensures RestoreFrom(t, blocks, k) == RestoreFrom(t1, blocks, k - 1)
  {
    InlineRestoreReplaces(t, blocks[k - 1], k - 1);
  }

  /** Step `j` of the walk `ts` restores id `n - 1 - j`, an inline text, by replacing its token. */
  predicate WalkStep(ts: seq<string>, blocks: seq<string>, j: nat)
    requires |ts| == |blocks| + 1 && j < |blocks|
  {
    var id := |blocks| - 1 - j;
    IsInlineMath(blocks[id]) && ts[j + 1] == ReplaceAll(ts[j], InlinePlaceholder(id), blocks[id])
  }

  /** Restoring the ids still left after step `j` of a walk ends where the walk ends. */
  lemma {:induction false} RestoreWalk(ts: seq<string>, blocks: seq<string>, j: nat)
    requires |ts| == |blocks| + 1 && j <= |blocks|
    requires forall i :: j <= i < |blocks| ==> WalkStep(ts, blocks, i)
    ensures RestoreFrom(ts[j], blocks, |blocks| - j) == ts[|blocks|]
    decreases |blocks| - j
  {
    if j < |blocks| {
      assert WalkStep(ts, blocks, j);
      RestoreFromInline(ts[j], blocks, |blocks| - j, ts[j + 1]);
      RestoreWalk(ts, blocks, j + 1);
    }
  }

  /** A pass with no matches changes nothing. */
  lemma {:induction false} EmptyPass(p: Protected, display: bool)
    ensures ProtectPass(p, [], display) == p
  {
    assert p.text[..|p.text|] == p.text;
  }

  /** Without `$$` and `\[` only the inline pass acts, and its filter keeps every match. */
  lemma {:induction false} InlineOnlyProtect(s: string)
    requires !Contains(s, DollarFence) && !Contains(s, BracketOpen)
    ensures ProtectSpec(s) == ProtectPass(Protected(s, []), InlineSpans(s, 0), false)
  {
    NoOpenerNoSpans(s, DollarFence, DollarFence);
    EmptyPass(Protected(s, []), true);
    NoOpenerNoSpans(s, BracketOpen, BracketClose);
    InlineFilterKeepsAll(s);
  }

  lemma {:induction false} SetupHolds(s: string)
    requires InlineOnly(s)
    ensures var spans := InlineSpans(s, 0);
      Setup(s, spans, Placeholders(false, 0, |spans|))
  {
    var spans := InlineSpans(s, 0);
    forall k | 0 <= k < |spans| ensures IsInlineMath(s[spans[k].start..spans[k].end]) {
      InlineSpansMatch(s, 0, k);
    }
  }

  /** Restore undoes protect on inline-only texts. */
  lemma {:induction false} RoundTrip(s: string)
    requires InlineOnly(s)
    ensures RestoreSpec(ProtectSpec(s).text, ProtectSpec(s).blocks) == s
  {
    var spans := InlineSpans(s, 0);
    var reps := Placeholders(false, 0, |spans|);
    var blocks := MatchedLastFirst(s, spans, 0);
    InlineOnlyProtect(s);
    var p := ProtectSpec(s);
    assert p.text == s[..Bound(s, spans, 0)] + SplicedFrom(s, spans, reps, 0);
    assert p.blocks == blocks by {
      assert [] + blocks == blocks;
    }
    SetupHolds(s);
    RestoreAll(s, spans, reps, blocks, p.text);
  }

  lemma {:induction false} RestoreAll(s: string, spans: seq<Span>, reps: seq<string>, blocks: seq<string>, text: string)
    requires Setup(s, spans, reps)
    requires blocks == MatchedLastFirst(s, spans, 0)
    requires text == s[..Bound(s, spans, 0)] + SplicedFrom(s, spans, reps, 0)
    ensures RestoreSpec(text, blocks) == s
  {
    var n := |spans|;
    var ts := seq(n + 1, j requires 0 <= j <= n => s[..Bound(s, spans, j)] + SplicedFrom(s, spans, reps, j));
    forall j | 0 <= j < n ensures WalkStep(ts, blocks, j) {
      MatchedLastFirstAt(s, spans, 0, j);
      assert SpanOk(s, spans, reps, j);
      RestoreStep(s, spans, reps, j, ts[j], blocks[n - 1 - j], n - 1 - j, ts[j + 1]);
    }
    RestoreWalk(ts, blocks, 0);
    assert ts[n] == s[..|s|] + "";
  }

  /**
   * Why ids go from the highest down: the token of id 1 is a prefix of the
   * token of id 12, so replacing it first would cut into the longer token.
   */
  lemma {:induction false} LowerIdFirstClobbers()
    ensures ReplaceAll(InlinePlaceholder(12), InlinePlaceholder(1), "$a$") == "$a$2"
  {
    var ph := InlinePlaceholder(1);
    assert ph == "MATH_INLINE_1";
    assert InlinePlaceholder(12) == ph + "2";
    assert OccursAt(ph + "2", ph, 0);
    assert (ph + "2")[|ph|..] == "2";
  }
}
