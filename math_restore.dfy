/**
 * `restore_math_expressions`: after markdown conversion, each placeholder
 * token is swapped back for the math text it stood for. Ids are visited from
 * the highest to the lowest. A display text (one starting with `$$` or `\[`)
 * first tries a fixed list of paragraph wrappers around its token, taking the
 * first one present anywhere in the page; an inline text replaces its bare
 * token.
 */
module MathRestore {
  import opened Strings
  import opened MathProtect

  /** The test restore uses to tell display math from inline math. */
  predicate IsDisplayBlock(b: string) {
    StartsWith(b, DollarFence) || StartsWith(b, BracketOpen)
  }

  /** The bare token restore looks for: `MATH_BLOCK_i` for display math, `MATH_INLINE_i` otherwise. */
  function RestorePlaceholder(b: string, i: nat): (ph: string)
    ensures IsDisplayBlock(b) ==> ph == BlockPlaceholder(i)
    ensures !IsDisplayBlock(b) ==> ph == InlinePlaceholder(i)
  {
    if IsDisplayBlock(b) then BlockPlaceholder(i) else InlinePlaceholder(i)
  }

  /** Where the token sits inside each wrapper. */
  const WrapperOffsets: seq<nat> := [3, 4, 0, 1, 2, 0]

  /** The wrappers tried around a display token, in the order they are tried; the last is the bare token. */
  function WrapperPatterns(ph: string): (r: seq<string>)
    ensures |r| == 6 && r[5] == ph
  {
    ["<p>" + ph + "</p>", "<p>\n" + ph + "\n</p>", ph + "\n", "\n" + ph + "\n", "\n\n" + ph + "\n\n", ph]
  }

  /** Each wrapper holds the token, at the offset `WrapperOffsets` gives. */
  lemma {:induction false} WrapperTokenAt(ph: string, k: nat)
    requires k < 6
    ensures OccursAt(WrapperPatterns(ph)[k], ph, WrapperOffsets[k])
  {
    var w := WrapperPatterns(ph)[k];
    var off := WrapperOffsets[k];
    assert w[off..off + |ph|] == ph;
  }

  /** The index of the first of `pats[from..]` that occurs in `s`. */
  function FirstContained(s: string, pats: seq<string>, from: nat): (r: Option<nat>)
    requires from <= |pats|
    ensures r.Some? ==> from <= r.value < |pats| && Contains(s, pats[r.value])
    ensures r.Some? ==> forall j :: from <= j < r.value ==> !Contains(s, pats[j])
    ensures r.None? ==> forall j :: from <= j < |pats| ==> !Contains(s, pats[j])
    decreases |pats| - from
  {
    if from == |pats| then None
    else if Contains(s, pats[from]) then Some(from)
    else FirstContained(s, pats, from + 1)
  }

  /** Restoring the text with id `i` into `s`. */
  function RestoreOne(s: string, b: string, i: nat): string {
    var ph := RestorePlaceholder(b, i);
    if IsDisplayBlock(b) then
      var pats := WrapperPatterns(ph);
      match FirstContained(s, pats, 0)
      case Some(k) => ReplaceAll(s, pats[k], b)
      case None => ReplaceAll(s, ph, b)
    else ReplaceAll(s, ph, b)
  }

  /** Restoring ids `k - 1` down to `0` into `s`. */
  function RestoreFrom(s: string, blocks: seq<string>, k: nat): string
    requires k <= |blocks|
    decreases k
  {
    if k == 0 then s else RestoreFrom(RestoreOne(s, blocks[k - 1], k - 1), blocks, k - 1)
  }

  /** What `restore_math_expressions` returns. */
  function RestoreSpec(html: string, blocks: seq<string>): string {
    RestoreFrom(html, blocks, |blocks|)
  }

  /** `restore_math_expressions` */
  method RestoreMathExpressions(html: string, mathBlocks: seq<string>) returns (result: string)
    ensures result == RestoreSpec(html, mathBlocks)
  {
    result := html;
    var i := |mathBlocks|;
    while i > 0
      invariant 0 <= i <= |mathBlocks|
      invariant RestoreFrom(result, mathBlocks, i) == RestoreSpec(html, mathBlocks)
    {
      i := i - 1;
      var mathBlock := mathBlocks[i];
      var display := StartsWith(mathBlock, DollarFence) || StartsWith(mathBlock, BracketOpen);
      var placeholder := if display then BlockPlaceholder(i) else InlinePlaceholder(i);
      ghost var before := result;
      if display {
        var patterns := WrapperPatterns(placeholder);
        var replaced := false;
        var j := 0;
        while j < |patterns|
          invariant 0 <= j <= |patterns|
          invariant !replaced && result == before
          invariant FirstContained(before, patterns, 0) == FirstContained(before, patterns, j)
        {
          if Contains(result, patterns[j]) {
            result := ReplaceAll(result, patterns[j], mathBlock);
            replaced := true;
            break;
          }
          j := j + 1;
        }
        if !replaced {
          result := ReplaceAll(result, placeholder, mathBlock);
        }
      } else {
        result := ReplaceAll(result, placeholder, mathBlock);
      }
      assert result == RestoreOne(before, mathBlock, i);
    }
  }

  // ---------------------------------------------------------------------
  // Properties
  // ---------------------------------------------------------------------

  /** A string holding `big` holds everything inside `big`. */
  lemma {:induction false} ContainsWithin(s: string, big: string, small: string, off: nat)
    requires Contains(s, big) && OccursAt(big, small, off)
    ensures Contains(s, small)
  {
    var q := IndexOf(s, big, 0).value;
    OccursTransitive(s, big, small, q, off);
    ContainsAt(s, small, q + off);
  }

  /** Every wrapper holds the bare token, so a page with a wrapper holds the token. */
  lemma {:induction false} WrapperHoldsToken(s: string, ph: string, k: nat)
    requires k < 6 && Contains(s, WrapperPatterns(ph)[k])
    ensures Contains(s, ph)
  {
    WrapperTokenAt(ph, k);
    ContainsWithin(s, WrapperPatterns(ph)[k], ph, WrapperOffsets[k]);
  }

  /**
   * The fourth and fifth wrappers (`\nTOKEN\n`, `\n\nTOKEN\n\n`) are never
   * the one chosen: both contain the third (`TOKEN\n`), which is tried first.
   */
  lemma {:induction false} WrappersShadowed(s: string, ph: string)
    ensures FirstContained(s, WrapperPatterns(ph), 0) != Some(3)
    ensures FirstContained(s, WrapperPatterns(ph), 0) != Some(4)
  {
    var pats := WrapperPatterns(ph);
    var r := FirstContained(s, pats, 0);
    if r == Some(3) {
      assert pats[3][1..1 + |pats[2]|] == pats[2];
      ContainsWithin(s, pats[3], pats[2], 1);
      assert false;
    }
    if r == Some(4) {
      assert pats[4][2..2 + |pats[2]|] == pats[2];
      ContainsWithin(s, pats[4], pats[2], 2);
      assert false;
    }
  }

  /**
   * A page without the token is left as it is; in particular the fallback
   * replace after no wrapper matched never changes anything, since the bare
   * token is the last wrapper tried.
   */
  lemma {:induction false} TokenAbsentUnchanged(s: string, b: string, i: nat)
    requires !Contains(s, RestorePlaceholder(b, i))
    ensures RestoreOne(s, b, i) == s
  {
    var ph := RestorePlaceholder(b, i);
    if IsDisplayBlock(b) {
      var pats := WrapperPatterns(ph);
      var r := FirstContained(s, pats, 0);
      if r.Some? {
        WrapperHoldsToken(s, ph, r.value);
        assert false;
      }
    }
    ReplaceAllNotContains(s, ph, b);
  }

  /** When no wrapper is found, the display text is not restored at all. */
  lemma {:induction false} FallbackNoOp(s: string, b: string, i: nat)
    requires IsDisplayBlock(b)
    requires FirstContained(s, WrapperPatterns(RestorePlaceholder(b, i)), 0).None?
    ensures RestoreOne(s, b, i) == s
  {
    ReplaceAllNotContains(s, RestorePlaceholder(b, i), b);
  }

  /** An inline text is never taken for display math. */
  lemma {:induction false} InlineNotDisplay(b: string)
    requires IsInlineMath(b)
    ensures !IsDisplayBlock(b)
  {
    InlineNotDoubleDollar(b);
    assert b[..2][0] == '$';
  }

  /**
   * Restore picks the kind protect used: the entries with the display ids
   * (the `$$` and `\[` passes) are exactly those it treats as display math,
   * so it looks for `MATH_BLOCK_i` there and `MATH_INLINE_i` elsewhere.
   */
  lemma {:induction false} RestoreKindMatchesProtect(s: string, i: nat)
    requires i < |ProtectSpec(s).blocks|
    ensures var display := |BracketPass(DollarPass(Protected(s, []))).blocks|;
      var b := ProtectSpec(s).blocks[i];
      (IsDisplayBlock(b) <==> i < display) &&
      RestorePlaceholder(b, i) == (if i < display then BlockPlaceholder(i) else InlinePlaceholder(i))
  {
    ProtectBlockKinds(s);
    var p1 := DollarPass(Protected(s, []));
    var p2 := BracketPass(p1);
    var b := ProtectSpec(s).blocks[i];
    if i < |p1.blocks| {
      assert IsDelimitedMath(b, DollarFence, DollarFence);
    } else if i < |p2.blocks| {
      assert IsDelimitedMath(b, BracketOpen, BracketClose);
    } else {
      InlineNotDisplay(b);
    }
  }
}
