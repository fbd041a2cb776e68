/**
 * `protect_math_expressions`: before markdown conversion, every math span is
 * cut out of the text and replaced by a placeholder token, and the cut text
 * is kept in a list indexed by the token's number.
 *
 * Three passes run one after the other, each on the output of the previous
 * one: `$$...$$` (lazy), `\[...\]` (lazy), then inline `$x...$`. A pass
 * snapshots its leftmost non-overlapping matches and replaces them from the
 * last to the first while a block counter hands out ids, so within a pass the
 * last match gets the lowest id. The regular expressions are restated as
 * scanners with the regex crate's leftmost-first semantics.
 */
module MathProtect {
  import opened Strings
  import opened Splice
  import opened Gather

  /** The delimiters of display math: `$$...$$` and `\\[...\\]`. */
  const DollarFence: string := "$$"
  const BracketOpen: string := "\\["
  const BracketClose: string := "\\]"

  // ---------------------------------------------------------------------
  // Scanners for the three patterns
  // ---------------------------------------------------------------------

  /**
   * `sp` is a lazy match of `open`, anything, `close`: it starts with `open`,
   * ends with the first `close` found after the opener.
   */
  predicate IsDelimited(s: string, sp: Span, open: string, close: string) {
    sp.start + |open| + |close| <= sp.end <= |s| &&
    OccursAt(s, open, sp.start) && OccursAt(s, close, sp.end - |close|) &&
    forall q: nat :: sp.start + |open| <= q < sp.end - |close| ==> !OccursAt(s, close, q)
  }

  /**
   * The leftmost lazy match at or after `from`: the first opener, closed by
   * the first closer after it. When that opener has no closer, no later
   * opener has one either, so there is no match.
   */
  function DelimitedNext(s: string, open: string, close: string, from: nat): (r: Option<Span>)
    requires from <= |s| && |open| > 0 && |close| > 0
    ensures r.Some? ==> from <= r.value.start && IsDelimited(s, r.value, open, close)
  {
    match IndexOf(s, open, from)
    case None => None
    case Some(i) =>
      match IndexOf(s, close, i + |open|)
      case None => None
      case Some(j) => Some(Span(i, j + |close|))
  }

  /** The matches of `open[\s\S]*?close`, leftmost first, from `from` on. */
  function DelimitedSpans(s: string, open: string, close: string, from: nat): (r: seq<Span>)
    requires from <= |s| && |open| > 0 && |close| > 0
    ensures WellFormed(r, |s|)
    ensures forall k :: 0 <= k < |r| ==> from <= r[k].start
    decreases |s| - from
  {
    match DelimitedNext(s, open, close, from)
    case None => []
    case Some(sp) =>
      var rest := DelimitedSpans(s, open, close, sp.end);
      WellFormedCons(sp, rest, |s|);
      [sp] + rest
  }

  /** Every span the scanner reports is a lazy match of the pattern. */
  lemma {:induction false} DelimitedSpansMatch(s: string, open: string, close: string, from: nat, k: nat, sp: Span)
    requires from <= |s| && |open| > 0 && |close| > 0
    requires k < |DelimitedSpans(s, open, close, from)| && sp == DelimitedSpans(s, open, close, from)[k]
    ensures IsDelimited(s, sp, open, close)
    decreases |s| - from
  {
    var first := DelimitedNext(s, open, close, from).value;
    var rest := DelimitedSpans(s, open, close, first.end);
    assert DelimitedSpans(s, open, close, from) == [first] + rest;
    if k > 0 {
      DelimitedSpansMatch(s, open, close, first.end, k - 1, sp);
    }
  }

  /**
   * An opener at `i` that has no closer after it never starts a match, and
   * the match found from `from <= i`, if any, starts before `i`.
   */
  lemma {:induction false} DelimitedNextBefore(s: string, open: string, close: string, from: nat, i: nat)
    requires from <= i && |open| > 0 && |close| > 0
    requires OccursAt(s, open, i)
    requires IndexOf(s, close, i + |open|).None?
    ensures DelimitedNext(s, open, close, from).Some? ==> DelimitedNext(s, open, close, from).value.start < i
  {
  }

  /** `\$\$[\s\S]*?\$\$` */
  function DollarSpans(s: string): seq<Span> {
    DelimitedSpans(s, DollarFence, DollarFence, 0)
  }

  /** `\\\[[\s\S]*?\\\]` */
  function BracketSpans(s: string): seq<Span> {
    DelimitedSpans(s, BracketOpen, BracketClose, 0)
  }

  /** The first index at or after `j` holding `$` or a newline, or the end of `s`. */
  function RunEnd(s: string, j: nat): (k: nat)
    requires j <= |s|
    ensures j <= k <= |s|
    ensures forall q :: j <= q < k ==> s[q] != '$' && s[q] != '\n'
    ensures k < |s| ==> s[k] == '$' || s[k] == '\n'
    decreases |s| - j
  {
    if j == |s| || s[j] == '$' || s[j] == '\n' then j else RunEnd(s, j + 1)
  }

  /** An inline math text: `$`, at least one character that is neither `$` nor a newline, `$`. */
  predicate IsInlineMath(b: string) {
    |b| >= 3 && b[0] == '$' && b[|b| - 1] == '$' &&
    forall q :: 1 <= q < |b| - 1 ==> b[q] != '$' && b[q] != '\n'
  }

  /** `\$[^$\n]+?\$` anchored at `i`: the end of the match, if there is one. */
  function InlineAt(s: string, i: nat): (r: Option<nat>)
    requires i < |s|
    ensures r.Some? ==> i + 3 <= r.value <= |s| && IsInlineMath(s[i..r.value])
  {
    if s[i] != '$' then None
    else
      var k := RunEnd(s, i + 1);
      if k > i + 1 && k < |s| && s[k] == '$' then Some(k + 1) else None
  }

  /** The matches of `\$[^$\n]+?\$`, leftmost first, from `from` on. */
  function InlineSpans(s: string, from: nat): (r: seq<Span>)
    requires from <= |s|
    ensures WellFormed(r, |s|)
    ensures forall k :: 0 <= k < |r| ==> from <= r[k].start
    decreases |s| - from
  {
    if from == |s| then []
    else
      match InlineAt(s, from)
      case Some(e) => [Span(from, e)] + InlineSpans(s, e)
      case None => InlineSpans(s, from + 1)
  }

  /** Every span the scanner reports is an inline match anchored at its start. */
  lemma {:induction false} InlineSpansMatch(s: string, from: nat, k: nat)
    requires from <= |s| && k < |InlineSpans(s, from)|
    ensures InlineSpans(s, from)[k].start < |s|
    ensures InlineAt(s, InlineSpans(s, from)[k].start) == Some(InlineSpans(s, from)[k].end)
    decreases |s| - from
  {
    if InlineAt(s, from).Some? {
      if k > 0 {
        InlineSpansMatch(s, InlineAt(s, from).value, k - 1);
      }
    } else {
      InlineSpansMatch(s, from + 1, k);
    }
  }

  /** The third pass drops matches whose text starts with `$$`. */
  function KeepInline(s: string, spans: seq<Span>): (r: seq<Span>)
    requires WellFormed(spans, |s|)
    ensures WellFormed(r, |s|)
    ensures |spans| > 0 ==> forall k :: 0 <= k < |r| ==> r[k].end <= spans[|spans| - 1].end
    decreases |spans|
  {
    if |spans| == 0 then []
    else
      var last := spans[|spans| - 1];
      var kept := KeepInline(s, spans[..|spans| - 1]);
      if StartsWith(Matched(s, last), DollarFence) then kept else kept + [last]
  }

  /** What the third pass keeps of one match: the match, unless its text starts with `$$`. */
  function InlineKept(s: string, sp: Span): Option<Span> {
    if sp.start <= sp.end <= |s| && StartsWith(Matched(s, sp), DollarFence) then None else Some(sp)
  }

  function InlineFilter(s: string): Span -> Option<Span> {
    sp => InlineKept(s, sp)
  }

  lemma {:induction false} KeepInlineGathered(s: string, spans: seq<Span>)
    requires WellFormed(spans, |s|)
    ensures KeepInline(s, spans) == Gathered(spans, InlineFilter(s))
    decreases |spans|
  {
    if |spans| > 0 {
      KeepInlineGathered(s, spans[..|spans| - 1]);
    }
  }

  /**
   * The third pass keeps exactly the matches whose text does not start with
   * `$$`, in their order: match `k`, when kept, comes right after the kept
   * matches before it, and nothing else is kept.
   */
  lemma {:induction false} KeepInlineExact(s: string, spans: seq<Span>)
    requires WellFormed(spans, |s|)
    ensures |KeepInline(s, spans)| == Hits(spans, InlineFilter(s))
    ensures forall k :: 0 <= k < |spans| && !StartsWith(Matched(s, spans[k]), DollarFence) ==>
      Hits(spans[..k], InlineFilter(s)) < |KeepInline(s, spans)| &&
      KeepInline(s, spans)[Hits(spans[..k], InlineFilter(s))] == spans[k]
    ensures forall i :: 0 <= i < |KeepInline(s, spans)| ==>
      exists k :: 0 <= k < |spans| && spans[k] == KeepInline(s, spans)[i] &&
        !StartsWith(Matched(s, spans[k]), DollarFence)
  {
    KeepInlineGathered(s, spans);
    GatheredLength(spans, InlineFilter(s));
    forall k | 0 <= k < |spans| && !StartsWith(Matched(s, spans[k]), DollarFence)
      ensures Hits(spans[..k], InlineFilter(s)) < |KeepInline(s, spans)| &&
        KeepInline(s, spans)[Hits(spans[..k], InlineFilter(s))] == spans[k]
    {
      KeepInlineAt(s, spans, k);
    }
    forall i | 0 <= i < |KeepInline(s, spans)|
      ensures exists k ::
        0 <= k < |spans| && spans[k] == KeepInline(s, spans)[i] && !StartsWith(Matched(s, spans[k]), DollarFence)
    {
      var k := KeepInlineFrom(s, spans, i);
    }
  }

  lemma {:induction false} KeepInlineAt(s: string, spans: seq<Span>, k: nat)
    requires WellFormed(spans, |s|) && k < |spans|
    requires spans[k].start <= spans[k].end <= |s| && !StartsWith(Matched(s, spans[k]), DollarFence)
    ensures Hits(spans[..k], InlineFilter(s)) < |KeepInline(s, spans)| &&
      KeepInline(s, spans)[Hits(spans[..k], InlineFilter(s))] == spans[k]
  {
    KeepInlineGathered(s, spans);
    assert InlineFilter(s)(spans[k]) == Some(spans[k]);
    GatheredAt(spans, InlineFilter(s), k);
  }

  lemma {:induction false} KeepInlineFrom(s: string, spans: seq<Span>, i: nat) returns (k: nat)
    requires WellFormed(spans, |s|) && i < |KeepInline(s, spans)|
    ensures k < |spans| && spans[k] == KeepInline(s, spans)[i]
    ensures spans[k].start <= spans[k].end <= |s| && !StartsWith(Matched(s, spans[k]), DollarFence)
  {
    KeepInlineGathered(s, spans);
    k := GatheredFrom(spans, InlineFilter(s), i);
    assert InlineKept(s, spans[k]) == Some(KeepInline(s, spans)[i]);
    assert spans[k].start <= spans[k].end <= |s|;
  }

  function InlineMathSpans(s: string): seq<Span> {
    KeepInline(s, InlineSpans(s, 0))
  }

  // ---------------------------------------------------------------------
  // Placeholders and one pass
  // ---------------------------------------------------------------------

  function BlockPlaceholder(id: nat): string {
    "MATH_BLOCK_" + Decimal(id)
  }

  function InlinePlaceholder(id: nat): string {
    "MATH_INLINE_" + Decimal(id)
  }

  /** The token that stands in for the math text with id `id`. */
  function Placeholder(display: bool, id: nat): string {
    if display then "\n\n" + BlockPlaceholder(id) + "\n\n" else InlinePlaceholder(id)
  }

  /** Placeholders for `n` matches of one pass: match `j` gets id `base + n - 1 - j`. */
  function Placeholders(display: bool, base: nat, n: nat): (r: seq<string>)
    ensures |r| == n
    ensures forall j :: 0 <= j < n ==> r[j] == Placeholder(display, base + n - 1 - j)
  {
    seq(n, j requires 0 <= j < n => Placeholder(display, base + n - 1 - j))
  }

  /** The texts of spans `i..` in the order the reverse loop pushes them: last match first. */
  function MatchedLastFirst(s: string, spans: seq<Span>, i: nat): (r: seq<string>)
    requires WellFormed(spans, |s|) && i <= |spans|
    ensures |r| == |spans| - i
    decreases |spans| - i
  {
    if i == |spans| then [] else MatchedLastFirst(s, spans, i + 1) + [Matched(s, spans[i])]
  }

  /** Span `j`'s text sits at position `|spans| - 1 - j`: the last match comes first. */
  lemma {:induction false} MatchedLastFirstAt(s: string, spans: seq<Span>, i: nat, j: nat)
    requires WellFormed(spans, |s|) && i <= j < |spans|
    ensures MatchedLastFirst(s, spans, i)[|spans| - 1 - j] == Matched(s, spans[j])
    decreases j - i
  {
    if i < j {
      MatchedLastFirstAt(s, spans, i + 1, j);
    }
  }

  /** The protected text and the list of cut-out math texts, indexed by placeholder id. */
  datatype Protected = Protected(text: string, blocks: seq<string>)

  /** One pass over a snapshot of its matches. */
  function ProtectPass(p: Protected, spans: seq<Span>, display: bool): Protected
    requires WellFormed(spans, |p.text|)
  {
    Protected(Spliced(p.text, spans, Placeholders(display, |p.blocks|, |spans|)),
              p.blocks + MatchedLastFirst(p.text, spans, 0))
  }

  /** What `protect_math_expressions` returns: the three passes in order. */
  function ProtectSpec(markdown: string): Protected {
    InlinePass(BracketPass(DollarPass(Protected(markdown, []))))
  }

  /** Pass 1: `$$...$$` becomes a display placeholder. */
  function DollarPass(p: Protected): Protected {
    ProtectPass(p, DollarSpans(p.text), true)
  }

  /** Pass 2: `\\[...\\]` becomes a display placeholder. */
  function BracketPass(p: Protected): Protected {
    ProtectPass(p, BracketSpans(p.text), true)
  }

  /** Pass 3: `$...$` becomes an inline placeholder. */
  function InlinePass(p: Protected): Protected {
    ProtectPass(p, InlineMathSpans(p.text), false)
  }

  // ---------------------------------------------------------------------
  // The imperative passes
  // ---------------------------------------------------------------------

  /** The reverse replacement loop shared by the three passes. */
  method ReplaceMatches(text: string, blocks: seq<string>, blockId: nat, positions: seq<Span>, display: bool)
      returns (protected: string, mathBlocks: seq<string>, nextId: nat)
    requires WellFormed(positions, |text|) && blockId == |blocks|
    ensures Protected(protected, mathBlocks) == ProtectPass(Protected(text, blocks), positions, display)
    ensures nextId == |mathBlocks|
  {
    protected, mathBlocks, nextId := text, blocks, blockId;
    var n := |positions|;
    ghost var reps := Placeholders(display, blockId, n);
    SplicedLoopStart(text, positions, reps);
    var i := n;
    while i > 0
      invariant 0 <= i <= n
      invariant nextId == |mathBlocks| == blockId + (n - i)
      invariant mathBlocks == blocks + MatchedLastFirst(text, positions, i)
      invariant protected == text[..Bound(text, positions, i)] + SplicedFrom(text, positions, reps, i)
    {
      SplicedLoopStep(text, positions, reps, i, protected);
      var sp := positions[i - 1];
      var placeholder := Placeholder(display, nextId);
      assert placeholder == reps[i - 1];
      protected := protected[..sp.start] + placeholder + protected[sp.end..];
      mathBlocks := mathBlocks + [text[sp.start..sp.end]];
      nextId := nextId + 1;
      i := i - 1;
    }
  }

  /** `protect_math_expressions` */
  method ProtectMathExpressions(markdown: string) returns (protected: string, mathBlocks: seq<string>)
    ensures Protected(protected, mathBlocks) == ProtectSpec(markdown)
  {
    protected := markdown;
    mathBlocks := [];
    var blockId: nat := 0;

    var positions := DollarSpans(protected);
    protected, mathBlocks, blockId := ReplaceMatches(protected, mathBlocks, blockId, positions, true);

    positions := BracketSpans(protected);
    protected, mathBlocks, blockId := ReplaceMatches(protected, mathBlocks, blockId, positions, true);

    var found := InlineSpans(protected, 0);
    var inlinePositions := KeepNotDoubleDollar(protected, found);
    protected, mathBlocks, blockId := ReplaceMatches(protected, mathBlocks, blockId, inlinePositions, false);
  }

  /** The `filter` of the third pass: matches whose text starts with `$$` are dropped. */
  method KeepNotDoubleDollar(text: string, found: seq<Span>) returns (kept: seq<Span>)
    requires WellFormed(found, |text|)
    ensures kept == KeepInline(text, found)
  {
    kept := [];
    for k := 0 to |found|
      invariant kept == KeepInline(text, found[..k])
    {
      assert found[..k + 1][..k] == found[..k];
      if !StartsWith(text[found[k].start..found[k].end], DollarFence) {
        kept := kept + [found[k]];
      }
    }
    assert found[..|found|] == found;
  }

  // ---------------------------------------------------------------------
  // Properties
  // ---------------------------------------------------------------------

  /** The text of a lazy delimited match: opener, then no closer before the final one. */
  predicate IsDelimitedMath(b: string, open: string, close: string) {
    |b| >= |open| + |close| && StartsWith(b, open) && EndsWith(b, close) &&
    forall q: nat :: |open| <= q < |b| - |close| ==> !OccursAt(b, close, q)
  }

  lemma {:induction false} DelimitedMatchedText(s: string, sp: Span, open: string, close: string, b: string)
    requires IsDelimited(s, sp, open, close) && b == Matched(s, sp)
    ensures IsDelimitedMath(b, open, close)
  {
    assert b[..|open|] == s[sp.start..sp.start + |open|];
    assert b[|b| - |close|..] == s[sp.end - |close|..sp.end];
    forall q: nat | |open| <= q < |b| - |close| ensures !OccursAt(b, close, q) {
      if OccursAt(b, close, q) {
        OccursInSlice(s, sp.start, sp.end, close, q);
        assert false;
      }
    }
  }

  /**
   * Placeholder `j` of a pass and list entry `id` are paired: the entry with
   * the placeholder's id is exactly the text that placeholder replaced, ids
   * continue from the list's length, the last match gets the lowest id, and
   * the entries already in the list stay as they were.
   */
  lemma {:induction false} ProtectPassPairs(p: Protected, spans: seq<Span>, display: bool, j: nat)
    requires WellFormed(spans, |p.text|) && j < |spans|
    ensures var r := ProtectPass(p, spans, display);
      var id := |p.blocks| + |spans| - 1 - j;
      |r.blocks| == |p.blocks| + |spans| && r.blocks[..|p.blocks|] == p.blocks &&
      Placeholders(display, |p.blocks|, |spans|)[j] == Placeholder(display, id) &&
      r.blocks[id] == Matched(p.text, spans[j])
  {
    MatchedLastFirstAt(p.text, spans, 0, j);
  }

  /** Every text a delimited pass adds is a lazy delimited match; earlier entries stay. */
  lemma {:induction false} DelimitedPassBlocks(p: Protected, open: string, close: string, display: bool)
    requires |open| > 0 && |close| > 0
    ensures var spans := DelimitedSpans(p.text, open, close, 0);
      var r := ProtectPass(p, spans, display);
      |r.blocks| == |p.blocks| + |spans| &&
      (forall i :: 0 <= i < |p.blocks| ==> r.blocks[i] == p.blocks[i]) &&
      (forall i :: |p.blocks| <= i < |r.blocks| ==> IsDelimitedMath(r.blocks[i], open, close))
  {
    var spans := DelimitedSpans(p.text, open, close, 0);
    var r := ProtectPass(p, spans, display);
    forall i | |p.blocks| <= i < |r.blocks| ensures IsDelimitedMath(r.blocks[i], open, close) {
      DelimitedPassBlock(p, open, close, display, spans, r, i);
    }
  }

  lemma {:induction false} DelimitedPassBlock(p: Protected, open: string, close: string, display: bool, spans: seq<Span>,
                           r: Protected, i: nat)
    requires |open| > 0 && |close| > 0
    requires spans == DelimitedSpans(p.text, open, close, 0) && r == ProtectPass(p, spans, display)
    requires |p.blocks| <= i < |r.blocks|
    ensures IsDelimitedMath(r.blocks[i], open, close)
  {
    var j := |p.blocks| + |spans| - 1 - i;
    ProtectPassPairs(p, spans, display, j);
    DelimitedSpansMatch(p.text, open, close, 0, j, spans[j]);
    DelimitedMatchedText(p.text, spans[j], open, close, r.blocks[i]);
  }

  lemma {:induction false} DollarPassBlocks(p: Protected)
    ensures var r := DollarPass(p);
      |r.blocks| == |p.blocks| + |DollarSpans(p.text)| &&
      (forall i :: 0 <= i < |p.blocks| ==> r.blocks[i] == p.blocks[i]) &&
      (forall i :: |p.blocks| <= i < |r.blocks| ==> IsDelimitedMath(r.blocks[i], DollarFence, DollarFence))
  {
    DelimitedPassBlocks(p, DollarFence, DollarFence, true);
  }

  lemma {:induction false} BracketPassBlocks(p: Protected)
    ensures var r := BracketPass(p);
      |r.blocks| == |p.blocks| + |BracketSpans(p.text)| &&
      (forall i :: 0 <= i < |p.blocks| ==> r.blocks[i] == p.blocks[i]) &&
      (forall i :: |p.blocks| <= i < |r.blocks| ==> IsDelimitedMath(r.blocks[i], BracketOpen, BracketClose))
  {
    DelimitedPassBlocks(p, BracketOpen, BracketClose, true);
  }

  /** Every text the inline pass adds is an inline match; earlier entries stay. */
  lemma {:induction false} InlinePassBlocks(p: Protected)
    ensures var r := InlinePass(p);
      |r.blocks| == |p.blocks| + |InlineMathSpans(p.text)| &&
      (forall i :: 0 <= i < |p.blocks| ==> r.blocks[i] == p.blocks[i]) &&
      (forall i :: |p.blocks| <= i < |r.blocks| ==> IsInlineMath(r.blocks[i]))
  {
    var spans := InlineMathSpans(p.text);
    var r := InlinePass(p);
    InlineFilterKeepsAll(p.text);
    forall i | |p.blocks| <= i < |r.blocks| ensures IsInlineMath(r.blocks[i]) {
      InlinePassBlock(p, spans, r, i);
    }
  }

  lemma {:induction false} InlinePassBlock(p: Protected, spans: seq<Span>, r: Protected, i: nat)
    requires spans == InlineMathSpans(p.text) && spans == InlineSpans(p.text, 0) && r == InlinePass(p)
    requires |p.blocks| <= i < |r.blocks|
    ensures IsInlineMath(r.blocks[i])
  {
    var j := |p.blocks| + |spans| - 1 - i;
    ProtectPassPairs(p, spans, false, j);
    InlineSpansMatch(p.text, 0, j);
  }

  /**
   * The list's layout: the `$$` texts take the lowest ids, then the `\\[`
   * texts, then the inline texts, and each has its pattern's shape.
   */
  lemma {:induction false} ProtectBlockKinds(s: string)
    ensures var p1 := DollarPass(Protected(s, []));
      var p2 := BracketPass(p1);
      var r := InlinePass(p2);
      r == ProtectSpec(s) &&
      |r.blocks| == |p2.blocks| + |InlineMathSpans(p2.text)| &&
      |p2.blocks| == |p1.blocks| + |BracketSpans(p1.text)| &&
      |p1.blocks| == |DollarSpans(s)| &&
      (forall i :: 0 <= i < |p1.blocks| ==> IsDelimitedMath(r.blocks[i], DollarFence, DollarFence)) &&
      (forall i :: |p1.blocks| <= i < |p2.blocks| ==> IsDelimitedMath(r.blocks[i], BracketOpen, BracketClose)) &&
      (forall i :: |p2.blocks| <= i < |r.blocks| ==> IsInlineMath(r.blocks[i]))
  {
    var p1 := DollarPass(Protected(s, []));
    var p2 := BracketPass(p1);
    DollarPassBlocks(Protected(s, []));
    BracketPassBlocks(p1);
    InlinePassBlocks(p2);
  }

  /** The filter keeps every span when no matched text starts with `$$`. */
  lemma {:induction false} KeepAllInline(s: string, spans: seq<Span>)
    requires WellFormed(spans, |s|)
    requires forall k :: 0 <= k < |spans| ==> !StartsWith(Matched(s, spans[k]), DollarFence)
    ensures KeepInline(s, spans) == spans
    decreases |spans|
  {
    if |spans| > 0 {
      var n := |spans|;
      assert spans[..n - 1] + [spans[n - 1]] == spans;
      KeepAllInline(s, spans[..n - 1]);
    }
  }

  /** An inline match's second character is not `$`. */
  lemma {:induction false} InlineNotDoubleDollar(b: string)
    requires IsInlineMath(b)
    ensures !StartsWith(b, DollarFence)
  {
    assert b[0..2][1] == b[1];
  }

  /** The `$$` filter of the third pass never drops anything: an inline match has a non-`$` second character. */
  lemma {:induction false} InlineFilterKeepsAll(s: string)
    ensures InlineMathSpans(s) == InlineSpans(s, 0)
  {
    var spans := InlineSpans(s, 0);
    forall k | 0 <= k < |spans| ensures !StartsWith(Matched(s, spans[k]), DollarFence) {
      InlineSpansMatch(s, 0, k);
      InlineNotDoubleDollar(Matched(s, spans[k]));
    }
    KeepAllInline(s, spans);
  }

  /** No opener of a pattern means no match of it. */
  lemma {:induction false} NoOpenerNoSpans(s: string, open: string, close: string)
    requires |open| > 0 && |close| > 0
    requires !Contains(s, open)
    ensures DelimitedSpans(s, open, close, 0) == []
  {
  }

  /** Without a `$` there is no inline match. */
  lemma {:induction false} NoDollarNoInline(s: string, from: nat)
    requires from <= |s|
    requires '$' !in s
    ensures InlineSpans(s, from) == []
    decreases |s| - from
  {
    if from < |s| {
      assert s[from] in s;
      NoDollarNoInline(s, from + 1);
    }
  }

  /** A text with no `$` and no `\[` comes back unchanged with an empty list. */
  lemma {:induction false} NoMathUnchanged(s: string)
    requires '$' !in s && !Contains(s, BracketOpen)
    ensures ProtectSpec(s) == Protected(s, [])
  {
    NoOpenerNoSpans(s, DollarFence, DollarFence);
    assert s[..|s|] == s;
    var p1 := ProtectPass(Protected(s, []), [], true);
    assert p1 == Protected(s, []);
    NoOpenerNoSpans(s, BracketOpen, BracketClose);
    NoDollarNoInline(s, 0);
    assert InlineMathSpans(s) == [];
  }

  /** No span has `i` strictly inside it or at its start. */
  predicate NotInside(spans: seq<Span>, i: nat) {
    forall k :: 0 <= k < |spans| ==> i < spans[k].start || spans[k].end <= i
  }

  /** Every span ends at or before `i`. */
  predicate AllBefore(spans: seq<Span>, i: nat) {
    forall k :: 0 <= k < |spans| ==> spans[k].end <= i
  }

  /**
   * An opener at `i` with no closer anywhere after it, and not itself inside
   * an earlier match, is left as it is: every match ends before it, so the
   * pass copies `s[i..]` verbatim.
   */
  lemma {:induction false} UnterminatedStaysVerbatim(s: string, open: string, close: string, from: nat, i: nat)
    requires from <= i && |open| > 0 && |close| > 0
    requires OccursAt(s, open, i)
    requires IndexOf(s, close, i + |open|).None?
    requires NotInside(DelimitedSpans(s, open, close, from), i)
    ensures AllBefore(DelimitedSpans(s, open, close, from), i)
    decreases |s| - from
  {
    var r := DelimitedSpans(s, open, close, from);
    if |r| > 0 {
      DelimitedNextBefore(s, open, close, from, i);
      var first := DelimitedNext(s, open, close, from).value;
      var rest := DelimitedSpans(s, open, close, first.end);
      assert r == [first] + rest;
      assert first.end <= i by {
        assert i < r[0].start || r[0].end <= i;
      }
      NotInsideTail(r, i);
      UnterminatedStaysVerbatim(s, open, close, first.end, i);
      AllBeforeCons(r, i);
    }
  }

  lemma {:induction false} NotInsideTail(spans: seq<Span>, i: nat)
    requires |spans| > 0 && NotInside(spans, i)
    ensures NotInside(spans[1..], i)
  {
    assert forall k :: 0 <= k < |spans| - 1 ==> spans[1..][k] == spans[k + 1];
  }

  lemma {:induction false} AllBeforeCons(spans: seq<Span>, i: nat)
    requires |spans| > 0 && spans[0].end <= i && AllBefore(spans[1..], i)
    ensures AllBefore(spans, i)
  {
    forall k | 0 < k < |spans| ensures spans[k].end <= i {
      assert spans[k] == spans[1..][k - 1];
    }
  }

  /** The pass output ends with the unterminated tail, untouched. */
  lemma {:induction false} UnterminatedTailCopied(p: Protected, open: string, close: string, display: bool, i: nat)
    requires |open| > 0 && |close| > 0
    requires OccursAt(p.text, open, i)
    requires IndexOf(p.text, close, i + |open|).None?
    requires NotInside(DelimitedSpans(p.text, open, close, 0), i)
    ensures exists head :: ProtectPass(p, DelimitedSpans(p.text, open, close, 0), display).text == head + p.text[i..]
  {
    var spans := DelimitedSpans(p.text, open, close, 0);
    UnterminatedStaysVerbatim(p.text, open, close, 0, i);
    var reps := Placeholders(display, |p.blocks|, |spans|);
    SplicedKeepsTail(p.text, spans, reps, i);
    var head := Spliced(p.text[..i], spans, reps);
    assert ProtectPass(p, spans, display).text == head + p.text[i..];
  }

  /**
   * A `$` whose run of characters reaches a newline before any `$` opens no
   * inline match, and the newline itself is never inside one.
   */
  lemma {:induction false} InlineStopsAtNewline(s: string, i: nat, nl: nat)
    requires i < nl < |s| && s[i] == '$' && s[nl] == '\n'
    requires forall q :: i < q < nl ==> s[q] != '$' && s[q] != '\n'
    ensures forall k :: 0 <= k < |InlineSpans(s, 0)| ==> InlineSpans(s, 0)[k].start != i
    ensures forall k :: 0 <= k < |InlineSpans(s, 0)| ==>
      !(InlineSpans(s, 0)[k].start <= nl < InlineSpans(s, 0)[k].end)
  {
    var r := InlineSpans(s, 0);
    assert RunEnd(s, i + 1) == nl by {
      RunEndIs(s, i + 1, nl);
    }
    assert InlineAt(s, i) == None;
    forall k | 0 <= k < |r| ensures r[k].start != i && !(r[k].start <= nl < r[k].end) {
      InlineSpansMatch(s, 0, k);
      var b := Matched(s, r[k]);
      assert IsInlineMath(b);
    }
  }

  lemma {:induction false} RunEndIs(s: string, j: nat, k: nat)
    requires j <= k < |s|
    requires forall q :: j <= q < k ==> s[q] != '$' && s[q] != '\n'
    requires s[k] == '$' || s[k] == '\n'
    ensures RunEnd(s, j) == k
    decreases k - j
  {
    if j < k {
      RunEndIs(s, j + 1, k);
    }
  }
}
