/**
 * `convert_internal_links`: in the generated HTML, every anchor tag
 * `<a\s+href="([^"]+)"([^>]*)>` whose href points at another page of the site
 * is rewritten to point at that page's `.html` output. External hrefs are
 * left alone; the rewrites are collected first and spliced in from the last
 * to the first, like the math placeholders.
 */
module Links {
  import opened Strings
  import opened Splice

  // ---------------------------------------------------------------------
  // The anchor pattern
  // ---------------------------------------------------------------------

  /** The regex crate's `\s`: the Unicode White_Space property. */
  predicate IsSpace(c: char) {
    '\t' <= c <= '\r' || c == ' ' || c == '\U{85}' || c == '\U{A0}' || c == '\U{1680}' ||
    '\U{2000}' <= c <= '\U{200A}' || c == '\U{2028}' || c == '\U{2029}' ||
    c == '\U{202F}' || c == '\U{205F}' || c == '\U{3000}'
  }

  /**
   * A match of the anchor pattern: `<a` at `start`, whitespace, `href="`, the
   * href (capture 1) in `[hrefStart, hrefEnd)`, `"`, the trailing attributes
   * (capture 2) up to `end - 1`, and `>` at `end - 1`.
   */
  datatype Tag = Tag(start: nat, hrefStart: nat, hrefEnd: nat, end: nat)

  /** The bounds the two captures need. */
  predicate TagBounds(s: string, t: Tag) {
    t.start <= t.hrefStart <= t.hrefEnd && t.hrefEnd + 2 <= t.end <= |s|
  }

  function Href(s: string, t: Tag): string
    requires TagBounds(s, t)
  {
    s[t.hrefStart..t.hrefEnd]
  }

  function Attrs(s: string, t: Tag): string
    requires TagBounds(s, t)
  {
    s[t.hrefEnd + 1..t.end - 1]
  }

  const TagOpen: string := "<a"
  const HrefOpen: string := "href=\""

  /** `t` is a match of `<a\s+href="([^"]+)"([^>]*)>` in `s`. */
  predicate IsAnchorTag(s: string, t: Tag) {
    t.start + 9 <= t.hrefStart < t.hrefEnd && t.hrefEnd + 2 <= t.end <= |s| &&
    OccursAt(s, TagOpen, t.start) &&
    (forall q :: t.start + 2 <= q < t.hrefStart - 6 ==> IsSpace(s[q])) &&
    OccursAt(s, HrefOpen, t.hrefStart - 6) &&
    (forall q :: t.hrefStart <= q < t.hrefEnd ==> s[q] != '"') && s[t.hrefEnd] == '"' &&
    (forall q :: t.hrefEnd + 1 <= q < t.end - 1 ==> s[q] != '>') && s[t.end - 1] == '>'
  }

  /** The first index at or after `j` that is not whitespace, or the end of `s`. */
  function SpaceRunEnd(s: string, j: nat): (k: nat)
    requires j <= |s|
    ensures j <= k <= |s|
    ensures forall q :: j <= q < k ==> IsSpace(s[q])
    ensures k < |s| ==> !IsSpace(s[k])
    decreases |s| - j
  {
    if j == |s| || !IsSpace(s[j]) then j else SpaceRunEnd(s, j + 1)
  }

  /** The first index at or after `j` holding `c`, or the end of `s`. */
  function CharFrom(s: string, c: char, j: nat): (k: nat)
    requires j <= |s|
    ensures j <= k <= |s|
    ensures forall q :: j <= q < k ==> s[q] != c
    ensures k < |s| ==> s[k] == c
    decreases |s| - j
  {
    if j == |s| || s[j] == c then j else CharFrom(s, c, j + 1)
  }

  /**
   * The match anchored at `i`, if any. The greedy runs leave no choice: the
   * whitespace must run up to `href="`, the href up to the first quote and
   * the attributes up to the first `>`.
   */
  function AnchorAt(s: string, i: nat): (r: Option<Tag>)
    requires i <= |s|
    ensures r.Some? ==> r.value.start == i && IsAnchorTag(s, r.value)
  {
    if !OccursAt(s, TagOpen, i) then None
    else
      var w := SpaceRunEnd(s, i + 2);
      if w == i + 2 || !OccursAt(s, HrefOpen, w) then None
      else
        var q := CharFrom(s, '"', w + 6);
        if q == w + 6 || q == |s| then None
        else
          var g := CharFrom(s, '>', q + 1);
          if g == |s| then None else Some(Tag(i, w + 6, q, g + 1))
  }

  /** A run ending where the run's character class stops is found by the scanner. */
  lemma {:induction false} SpaceRunEndIs(s: string, j: nat, k: nat)
    requires j <= k < |s| && !IsSpace(s[k])
    requires forall q :: j <= q < k ==> IsSpace(s[q])
    ensures SpaceRunEnd(s, j) == k
    decreases k - j
  {
    if j < k {
      SpaceRunEndIs(s, j + 1, k);
    }
  }

  lemma {:induction false} CharFromIs(s: string, c: char, j: nat, k: nat)
    requires j <= k < |s| && s[k] == c
    requires forall q :: j <= q < k ==> s[q] != c
    ensures CharFrom(s, c, j) == k
    decreases k - j
  {
    if j < k {
      CharFromIs(s, c, j + 1, k);
    }
  }

  /** Every match of the pattern is found by the scanner at its start: the match at a position is unique. */
  lemma {:induction false} AnchorAtComplete(s: string, t: Tag)
    requires IsAnchorTag(s, t)
    ensures AnchorAt(s, t.start) == Some(t)
  {
    var w := t.hrefStart - 6;
    OccursHead(s, HrefOpen, w);
    SpaceRunEndIs(s, t.start + 2, w);
    CharFromIs(s, '"', t.hrefStart, t.hrefEnd);
    CharFromIs(s, '>', t.hrefEnd + 1, t.end - 1);
  }

  lemma {:induction false} OccursHead(s: string, p: string, i: nat)
    requires |p| > 0 && OccursAt(s, p, i)
    ensures s[i] == p[0]
  {
    assert s[i..i + |p|][0] == s[i];
  }

  /** Tags in increasing order, without overlap, from `from` on. */
  predicate TagsOrdered(s: string, tags: seq<Tag>) {
    (forall k :: 0 <= k < |tags| ==> TagBounds(s, tags[k])) &&
    (forall k, m :: 0 <= k < m < |tags| ==> tags[k].end <= tags[m].start)
  }

  /** `captures_iter`: the matches, leftmost first and non-overlapping, from `from` on. */
  function Anchors(s: string, from: nat): (r: seq<Tag>)
    requires from <= |s|
    ensures TagsOrdered(s, r)
    ensures forall k :: 0 <= k < |r| ==> from <= r[k].start
    decreases |s| - from
  {
    if from == |s| then []
    else
      match AnchorAt(s, from)
      case Some(t) => [t] + Anchors(s, t.end)
      case None => Anchors(s, from + 1)
  }

  /** Every tag the scanner reports is a match of the pattern. */
  lemma {:induction false} AnchorsMatch(s: string, from: nat, k: nat)
    requires from <= |s| && k < |Anchors(s, from)|
    ensures IsAnchorTag(s, Anchors(s, from)[k])
    decreases |s| - from
  {
    match AnchorAt(s, from)
    case Some(t) =>
      if k > 0 {
        AnchorsMatch(s, t.end, k - 1);
      }
    case None =>
      AnchorsMatch(s, from + 1, k);
  }

  // ---------------------------------------------------------------------
  // Classifying and rewriting one href
  // ---------------------------------------------------------------------

  const HttpPrefix: string := "http://"
  const HttpsPrefix: string := "https://"
  const MailtoPrefix: string := "mailto:"
  const FragmentPrefix: string := "#"
  const RootPrefix: string := "/"
  const SchemeSeparator: string := "://"
  const MdExtension: string := ".md"
  const HtmlExtension: string := ".html"

  /** Hrefs that are never rewritten: absolute URLs, mail links, fragments and site-absolute paths. */
  predicate IsExternal(href: string) {
    StartsWith(href, HttpPrefix) || StartsWith(href, HttpsPrefix) || StartsWith(href, MailtoPrefix) ||
    StartsWith(href, FragmentPrefix) || StartsWith(href, RootPrefix) || Contains(href, SchemeSeparator)
  }

  /** The href split into its base and its fragment-or-query suffix. */
  datatype HrefParts = HrefParts(base: string, suffix: string)

  /** The split is at the first `#` if there is one, otherwise at the first `?`. */
  function SplitHref(href: string): (r: HrefParts)
    ensures r.base + r.suffix == href
    ensures '#' in href ==> '#' !in r.base && |r.suffix| > 0 && r.suffix[0] == '#'
    ensures '#' !in href && '?' in href ==> '?' !in r.base && |r.suffix| > 0 && r.suffix[0] == '?'
    ensures '#' !in href && '?' !in href ==> r.suffix == ""
  {
    match Find(href, '#')
    case Some(pos) => HrefParts(href[..pos], href[pos..])
    case None =>
      match Find(href, '?')
      case Some(pos) => HrefParts(href[..pos], href[pos..])
      case None => HrefParts(href, "")
  }

  /** The new base for an internal href, if the href is internal. */
  function NewBase(base: string, files: set<string>): Option<string> {
    if EndsWith(base, MdExtension) then Some(ReplaceAll(base, MdExtension, HtmlExtension))
    else if '.' !in base && base in files then Some(base + HtmlExtension)
    else None
  }

  /** The rewritten href, or `None` when the tag is left alone. */
  function RewriteHref(href: string, files: set<string>): Option<string> {
    if IsExternal(href) then None
    else
      var parts := SplitHref(href);
      match NewBase(parts.base, files)
      case Some(b) => Some(b + parts.suffix)
      case None => None
  }

  /** The rewritten tag: the new href and the original trailing attributes. */
  function NewLink(href: string, attrs: string): string {
    "<a href=\"" + href + "\"" + attrs + ">"
  }

  // ---------------------------------------------------------------------
  // The whole document
  // ---------------------------------------------------------------------

  /** One collected rewrite: the tag it replaces and the new tag text. */
  datatype Replacement = Replacement(tag: Tag, link: string)

  /** The rewrite of one tag, if its href is rewritten. */
  function RewriteTag(s: string, t: Tag, files: set<string>): (r: Option<Replacement>)
    requires TagBounds(s, t)
    ensures r.Some? <==> IsRewritten(s, t, files)
    ensures r.Some? ==> r.value.tag == t && r.value.link == NewLink(RewriteHref(Href(s, t), files).value, Attrs(s, t))
  {
    match RewriteHref(Href(s, t), files)
    case None => None
    case Some(h) => Some(Replacement(t, NewLink(h, Attrs(s, t))))
  }

  /** Rewrites in increasing order, without overlap. */
  predicate RepsOrdered(s: string, rs: seq<Replacement>) {
    (forall k :: 0 <= k < |rs| ==> TagBounds(s, rs[k].tag)) &&
    (forall k, m :: 0 <= k < m < |rs| ==> rs[k].tag.end <= rs[m].tag.start)
  }

  /** The rewrites collected from `tags`, in order; tags left alone contribute nothing. */
  function Replacements(s: string, tags: seq<Tag>, files: set<string>): (r: seq<Replacement>)
    requires TagsOrdered(s, tags)
    ensures RepsOrdered(s, r)
    ensures |tags| > 0 ==> forall k :: 0 <= k < |r| ==> r[k].tag.end <= tags[|tags| - 1].end
    decreases |tags|
  {
    if |tags| == 0 then []
    else
      var last := tags[|tags| - 1];
      var prev := Replacements(s, tags[..|tags| - 1], files);
      match RewriteTag(s, last, files)
      case None => prev
      case Some(rep) =>
        AppendOrdered(s, tags, prev, rep);
        prev + [rep]
  }

  /** A rewrite of the last tag goes after every rewrite collected from the earlier tags. */
  lemma {:induction false} AppendOrdered(s: string, tags: seq<Tag>, prev: seq<Replacement>, rep: Replacement)
    requires TagsOrdered(s, tags) && |tags| > 0 && rep.tag == tags[|tags| - 1]
    requires RepsOrdered(s, prev)
    requires |tags| > 1 ==> forall k :: 0 <= k < |prev| ==> prev[k].tag.end <= tags[|tags| - 2].end
    requires |tags| == 1 ==> prev == []
    ensures RepsOrdered(s, prev + [rep])
  {
  }

  function SpansOf(rs: seq<Replacement>): (r: seq<Span>)
    ensures |r| == |rs| && forall k :: 0 <= k < |rs| ==> r[k] == Span(rs[k].tag.start, rs[k].tag.end)
  {
    seq(|rs|, k requires 0 <= k < |rs| => Span(rs[k].tag.start, rs[k].tag.end))
  }

  function LinksOf(rs: seq<Replacement>): (r: seq<string>)
    ensures |r| == |rs| && forall k :: 0 <= k < |rs| ==> r[k] == rs[k].link
  {
    seq(|rs|, k requires 0 <= k < |rs| => rs[k].link)
  }

  /** Collecting over one more tag appends that tag's rewrite, if any. */
  lemma {:induction false} ReplacementsSnoc(s: string, tags: seq<Tag>, k: nat, files: set<string>)
    requires TagsOrdered(s, tags) && k < |tags|
    ensures TagsOrdered(s, tags[..k]) && TagsOrdered(s, tags[..k + 1])
    ensures RewriteTag(s, tags[k], files).None? ==>
      Replacements(s, tags[..k + 1], files) == Replacements(s, tags[..k], files)
    ensures RewriteTag(s, tags[k], files).Some? ==>
      Replacements(s, tags[..k + 1], files) == Replacements(s, tags[..k], files) + [RewriteTag(s, tags[k], files).value]
  {
    assert tags[..k + 1][..k] == tags[..k];
  }

  /** `Replacements` over a non-empty list, unfolded once. */
  lemma {:induction false} ReplacementsLast(s: string, tags: seq<Tag>, files: set<string>)
    requires TagsOrdered(s, tags) && |tags| > 0
    ensures TagsOrdered(s, tags[..|tags| - 1])
    ensures var last := tags[|tags| - 1];
      RewriteTag(s, last, files).None? ==> Replacements(s, tags, files) == Replacements(s, tags[..|tags| - 1], files)
    ensures var last := tags[|tags| - 1];
      RewriteTag(s, last, files).Some? ==>
        Replacements(s, tags, files) == Replacements(s, tags[..|tags| - 1], files) + [RewriteTag(s, last, files).value]
  {
  }

  /** Ordered rewrites give well-formed splice spans. */
  lemma {:induction false} OrderedSpans(s: string, rs: seq<Replacement>)
    requires RepsOrdered(s, rs)
    ensures WellFormed(SpansOf(rs), |s|)
  {
  }

  /** What `convert_internal_links` returns. */
  function ConvertLinksSpec(html: string, files: set<string>): string {
    var rs := Replacements(html, Anchors(html, 0), files);
    OrderedSpans(html, rs);
    Spliced(html, SpansOf(rs), LinksOf(rs))
  }

  /** `convert_internal_links` */
  method ConvertInternalLinks(html: string, files: set<string>) returns (result: string)
    ensures result == ConvertLinksSpec(html, files)
  {
    var tags := Anchors(html, 0);
    var replacements: seq<Replacement> := [];
    for k := 0 to |tags|
      invariant TagsOrdered(html, tags[..k])
      invariant replacements == Replacements(html, tags[..k], files)
    {
      ReplacementsSnoc(html, tags, k, files);
      var t := tags[k];
      var href := Href(html, t);
      var attrs := Attrs(html, t);
      match RewriteHref(href, files) {
        case None =>
        case Some(newHref) =>
          replacements := replacements + [Replacement(t, NewLink(newHref, attrs))];
      }
    }
    assert tags[..|tags|] == tags;

    var spans, links := SpansOf(replacements), LinksOf(replacements);
    OrderedSpans(html, replacements);
    SplicedLoopStart(html, spans, links);
    result := html;
    var i := |replacements|;
    while i > 0
      invariant 0 <= i <= |replacements|
      invariant result == html[..Bound(html, spans, i)] + SplicedFrom(html, spans, links, i)
    {
      SplicedLoopStep(html, spans, links, i, result);
      var r := replacements[i - 1];
      result := result[..r.tag.start] + r.link + result[r.tag.end..];
      i := i - 1;
    }
  }

  // ---------------------------------------------------------------------
  // Properties
  // ---------------------------------------------------------------------

  /** `find` lands on the first character of `y` when `x` lacks it. */
  lemma {:induction false} FindAt(x: string, y: string, c: char)
    requires c !in x && |y| > 0 && y[0] == c
    ensures Find(x + y, c) == Some(|x|)
  {
    var s := x + y;
    assert s[|x|] == c;
  }

  /** Splitting `base + suffix` gives them back when the base holds no separator the suffix starts with. */
  lemma {:induction false} SplitRejoined(href: string, nb: string)
    requires '#' !in nb
    requires '#' !in href ==> '?' !in nb
    ensures SplitHref(nb + SplitHref(href).suffix) == HrefParts(nb, SplitHref(href).suffix)
  {
    var suffix := SplitHref(href).suffix;
    var h := nb + suffix;
    if '#' in href {
      FindAt(nb, suffix, '#');
    } else if '?' in href {
      assert '#' !in suffix by {
        assert suffix == href[|SplitHref(href).base|..];
      }
      assert '#' !in h;
      FindAt(nb, suffix, '?');
    } else {
      assert suffix == "" && h == nb;
    }
  }

  /** Replacing `.md` in a base ending with `.md` turns that ending into `.html`. */
  lemma {:induction false} MdEndingReplaced(base: string)
    requires EndsWith(base, MdExtension)
    ensures var x := base[..|base| - 3];
      ReplaceAll(base, MdExtension, HtmlExtension) == ReplaceAll(x, MdExtension, HtmlExtension) + HtmlExtension
  {
    var x := base[..|base| - 3];
    assert base == x + MdExtension;
    assert MdExtension[1] != MdExtension[0] && MdExtension[2] != MdExtension[0];
    NoCrossSelf(x, MdExtension);
    ReplaceAllConcat(x, MdExtension, MdExtension, HtmlExtension);
    ReplaceAllSelf(MdExtension, HtmlExtension);
  }

  /** A pattern whose first character does not recur cannot straddle into a copy of itself. */
  lemma {:induction false} NoCrossSelf(x: string, p: string)
    requires |p| > 0 && forall i :: 0 < i < |p| ==> p[i] != p[0]
    ensures NoCross(x, p, p)
  {
    forall q: nat | q < |x| < q + |p| ensures !OccursAt(x + p, p, q) {
      var i := |x| - q;
      assert (x + p)[q..q + |p|][i] == p[0];
    }
  }

  /** A rewritten base ends with `.html` and holds no `#` or `?` the original base lacked. */
  lemma {:induction false} NewBaseShape(base: string, files: set<string>)
    requires NewBase(base, files).Some?
    ensures var nb := NewBase(base, files).value;
      EndsWith(nb, HtmlExtension) &&
      ('#' !in base ==> '#' !in nb) && ('?' !in base ==> '?' !in nb)
  {
    var nb := NewBase(base, files).value;
    if EndsWith(base, MdExtension) {
      MdEndingReplaced(base);
      var x := ReplaceAll(base[..|base| - 3], MdExtension, HtmlExtension);
      assert nb == x + HtmlExtension;
      assert nb[|nb| - 5..] == HtmlExtension;
      if '#' !in base {
        ReplaceAllKeepsOut(base, MdExtension, HtmlExtension, '#');
      }
      if '?' !in base {
        ReplaceAllKeepsOut(base, MdExtension, HtmlExtension, '?');
      }
    } else {
      assert nb == base + HtmlExtension;
      assert nb[|nb| - 5..] == HtmlExtension;
    }
  }

  /**
   * Rewriting is idempotent on hrefs: a rewritten href keeps its suffix, and
   * its new base contains `.` and ends in `.html`, so it is not rewritten again.
   */
  lemma {:induction false} RewriteIdempotent(href: string, files: set<string>)
    requires RewriteHref(href, files).Some?
    ensures RewriteHref(RewriteHref(href, files).value, files).None?
    ensures SplitHref(RewriteHref(href, files).value).suffix == SplitHref(href).suffix
  {
    var parts := SplitHref(href);
    var nb := NewBase(parts.base, files).value;
    var h := nb + parts.suffix;
    assert RewriteHref(href, files) == Some(h);
    NewBaseShape(parts.base, files);
    SplitRejoined(href, nb);
    HtmlBaseKept(h, nb, files);
  }

  /** An href whose base ends in `.html` is left alone. */
  lemma {:induction false} HtmlBaseKept(h: string, nb: string, files: set<string>)
    requires SplitHref(h).base == nb && EndsWith(nb, HtmlExtension)
    ensures RewriteHref(h, files).None?
  {
    assert !EndsWith(nb, MdExtension) by {
      assert nb[|nb| - 1] == 'l';
    }
    assert nb[|nb| - 5] == '.';
  }

  /** A character the base and `.html` both lack is not in the new base. */
  lemma {:induction false} NewBaseKeepsOut(base: string, files: set<string>, c: char)
    requires NewBase(base, files).Some? && c !in base && c !in HtmlExtension
    ensures c !in NewBase(base, files).value
  {
    if EndsWith(base, MdExtension) {
      ReplaceAllKeepsOut(base, MdExtension, HtmlExtension, c);
    }
  }

  /** A rewritten href keeps out a quote the original lacked. */
  lemma {:induction false} RewriteKeepsOutQuote(href: string, files: set<string>)
    requires RewriteHref(href, files).Some? && '"' !in href
    ensures '"' !in RewriteHref(href, files).value && |RewriteHref(href, files).value| > 0
  {
    var parts := SplitHref(href);
    assert '"' !in parts.base && '"' !in parts.suffix by {
      assert forall q :: 0 <= q < |parts.base| ==> parts.base[q] == href[q];
      assert forall q :: 0 <= q < |parts.suffix| ==> parts.suffix[q] == href[|parts.base| + q];
    }
    NewBaseKeepsOut(parts.base, files, '"');
    NewBaseShape(parts.base, files);
  }

  /**
   * The three outcomes for an href: external hrefs are kept; otherwise a base
   * ending in `.md` has every `.md` turned into `.html`, a base without a dot
   * naming a page gains `.html`, and any other base is kept. The fragment or
   * query after the base is carried over unchanged.
   */
  lemma {:induction false} RewriteHrefCases(href: string, files: set<string>)
    ensures IsExternal(href) ==> RewriteHref(href, files).None?
    ensures var p := SplitHref(href);
      !IsExternal(href) && EndsWith(p.base, MdExtension) ==>
        RewriteHref(href, files) == Some(ReplaceAll(p.base, MdExtension, HtmlExtension) + p.suffix)
    ensures var p := SplitHref(href);
      !IsExternal(href) && !EndsWith(p.base, MdExtension) && '.' !in p.base && p.base in files ==>
        RewriteHref(href, files) == Some(p.base + HtmlExtension + p.suffix)
    ensures var p := SplitHref(href);
      !IsExternal(href) && !EndsWith(p.base, MdExtension) && ('.' in p.base || p.base !in files) ==>
        RewriteHref(href, files).None?
  {
  }

  /** An href with no colon that starts with neither `#` nor `/` is not external. */
  lemma {:induction false} NoColonNotExternal(href: string)
    requires ':' !in href && |href| > 0 && href[0] != '#' && href[0] != '/'
    ensures !IsExternal(href)
  {
    assert !StartsWith(href, HttpPrefix) && !StartsWith(href, HttpsPrefix) && !StartsWith(href, MailtoPrefix) by {
      if |href| >= 7 {
        assert href[4] != ':' && href[5] != ':' && href[6] != ':';
      }
    }
    forall q: nat ensures !OccursAt(href, SchemeSeparator, q) {
      if q + 3 <= |href| {
        assert href[q..q + 3][0] == href[q];
      }
    }
  }

  /** A page name without dots or separators, with `.md` or a fragment or query after it. */
  predicate PageName(name: string) {
    |name| > 0 && name[0] != '/' && '.' !in name && '#' !in name && '?' !in name && ':' !in name
  }

  /** Empty, a `#` fragment, or a `?` query without a fragment; never a colon. */
  predicate PlainSuffix(tail: string) {
    ':' !in tail && (tail == "" || tail[0] == '#' || (tail[0] == '?' && '#' !in tail))
  }

  /** A plain suffix is what the split leaves after any base without `#` or `?`. */
  lemma {:induction false} PlainSuffixSplit(base: string, tail: string)
    requires PlainSuffix(tail) && '#' !in base && '?' !in base
    ensures SplitHref(base + tail) == HrefParts(base, tail)
  {
    assert SplitHref(tail).suffix == tail by {
      if tail != "" && tail[0] == '#' {
        assert Find(tail, '#') == Some(0);
      } else if tail != "" {
        assert Find(tail, '?') == Some(0);
      }
    }
    SplitRejoined(tail, base);
  }

  /** In a name without dots, the only `.md` is the one appended. */
  lemma {:induction false} MdNameReplaced(name: string)
    requires '.' !in name
    ensures ReplaceAll(name + MdExtension, MdExtension, HtmlExtension) == name + HtmlExtension
  {
    var md := name + MdExtension;
    assert md[..|md| - 3] == name && md[|md| - 3..] == MdExtension;
    MdEndingReplaced(md);
    forall k: nat ensures !OccursAt(name, MdExtension, k) {
      if k + 3 <= |name| {
        assert name[k..k + 3][0] == name[k];
      }
    }
    ReplaceAllAbsent(name, MdExtension, HtmlExtension);
  }

  /** A link to `name.md`, with a fragment or query, becomes a link to `name.html` with the same. */
  lemma {:induction false} MdLinkRewritten(name: string, tail: string, files: set<string>)
    requires PageName(name) && PlainSuffix(tail)
    ensures RewriteHref(name + MdExtension + tail, files) == Some(name + HtmlExtension + tail)
  {
    var md := name + MdExtension;
    assert ':' !in md && '#' !in md && '?' !in md;
    PlainSuffixSplit(md, tail);
    assert (md + tail)[0] == name[0];
    NoColonNotExternal(md + tail);
    assert EndsWith(md, MdExtension) by {
      assert md[|md| - 3..] == MdExtension;
    }
    MdNameReplaced(name);
  }

  /** A bare `name`, with a fragment or query, gains `.html` exactly when a page has that stem. */
  lemma {:induction false} BareLinkRewritten(name: string, tail: string, files: set<string>)
    requires PageName(name) && PlainSuffix(tail)
    ensures name in files ==> RewriteHref(name + tail, files) == Some(name + HtmlExtension + tail)
    ensures name !in files ==> RewriteHref(name + tail, files).None?
  {
    PlainSuffixSplit(name, tail);
    assert (name + tail)[0] == name[0];
    NoColonNotExternal(name + tail);
    if |name| >= 3 {
      assert name[|name| - 3..][0] == name[|name| - 3];
    }
  }

  /** Worked cases of hrefs that are never rewritten. */
  lemma {:induction false} ExternalExamples(files: set<string>)
    ensures RewriteHref("https://example.org/a.md", files).None?
    ensures RewriteHref("mailto:a@b.org", files).None?
    ensures RewriteHref("#top", files).None?
    ensures RewriteHref("/notes.md", files).None?
  {
    assert StartsWith("https://example.org/a.md", HttpsPrefix);
    assert StartsWith("mailto:a@b.org", MailtoPrefix);
    assert StartsWith("#top", FragmentPrefix);
    assert StartsWith("/notes.md", RootPrefix);
  }

  /** Worked case: `notes.md#part-2` becomes `notes.html#part-2`. */
  lemma {:induction false} MdLinkExample(name: string, frag: string, files: set<string>)
    requires name == "notes" && frag == "#part-2" && files == {"notes"}
    ensures RewriteHref(name + ".md" + frag, files) == Some(name + ".html" + frag)
  {
    assert PageName(name) && PlainSuffix(frag);
    MdLinkRewritten(name, frag, files);
  }

  /** Worked case: `notes?x=1`, naming a page, becomes `notes.html?x=1`. */
  lemma {:induction false} BareLinkExample(name: string, query: string, files: set<string>)
    requires name == "notes" && query == "?x=1" && files == {"notes"}
    ensures RewriteHref(name + query, files) == Some(name + ".html" + query)
  {
    assert PageName(name) && PlainSuffix(query);
    BareLinkRewritten(name, query, files);
  }

  /** Worked case: a bare name that no page has is kept. */
  lemma {:induction false} UnknownNameExample(href: string, files: set<string>)
    requires href == "slides" && files == {"notes"}
    ensures RewriteHref(href, files).None?
  {
    assert PageName(href) && PlainSuffix("") && href !in files;
    BareLinkRewritten(href, "", files);
    assert href + "" == href;
  }

  /** No tag is rewritten: the page comes back unchanged. */
  lemma {:induction false} NoRewriteNoChange(html: string, files: set<string>)
    requires Replacements(html, Anchors(html, 0), files) == []
    ensures ConvertLinksSpec(html, files) == html
  {
    assert html[..|html|] == html;
  }

  /**
   * Each collected rewrite is for one of the scanned tags, whose href is
   * rewritten, and its new text is that href's rewrite with the tag's own
   * trailing attributes.
   */
  lemma {:induction false} RewriteIsOfTag(s: string, tags: seq<Tag>, files: set<string>, k: nat)
    requires TagsOrdered(s, tags) && k < |Replacements(s, tags, files)|
    ensures var rep := Replacements(s, tags, files)[k];
      rep.tag in tags && RewriteHref(Href(s, rep.tag), files).Some? &&
      rep.link == NewLink(RewriteHref(Href(s, rep.tag), files).value, Attrs(s, rep.tag))
    decreases |tags|
  {
    var n := |tags|;
    var prev := Replacements(s, tags[..n - 1], files);
    if k < |prev| {
      RewriteIsOfTag(s, tags[..n - 1], files, k);
      assert prev[k] == Replacements(s, tags, files)[k];
    }
  }

  /** The tags a list of rewrites replaces. */
  function TagsOf(rs: seq<Replacement>): (r: seq<Tag>)
    ensures |r| == |rs| && forall k :: 0 <= k < |rs| ==> r[k] == rs[k].tag
  {
    seq(|rs|, k requires 0 <= k < |rs| => rs[k].tag)
  }

  /** The tag is one whose href is rewritten. */
  predicate IsRewritten(s: string, t: Tag, files: set<string>) {
    TagBounds(s, t) && RewriteHref(Href(s, t), files).Some?
  }

  /** The tags of `tags` whose href is rewritten, in order. */
  function RewrittenTags(s: string, tags: seq<Tag>, files: set<string>): seq<Tag> {
    if |tags| == 0 then []
    else
      var init := RewrittenTags(s, tags[..|tags| - 1], files);
      if IsRewritten(s, tags[|tags| - 1], files) then init + [tags[|tags| - 1]] else init
  }

  /** The rewritten tags are exactly the scanned tags whose href is rewritten, in document order. */
  lemma {:induction false} RewrittenExactly(s: string, tags: seq<Tag>, files: set<string>)
    requires TagsOrdered(s, tags)
    ensures TagsOf(Replacements(s, tags, files)) == RewrittenTags(s, tags, files)
    decreases |tags|
  {
    var n := |tags|;
    if n > 0 {
      var init := tags[..n - 1];
      var last := tags[n - 1];
      ReplacementsLast(s, tags, files);
      RewrittenExactly(s, init, files);
      var b := RewriteTag(s, last, files).Some?;
      assert b ==> RewrittenTags(s, tags, files) == RewrittenTags(s, init, files) + [last];
      assert !b ==> RewrittenTags(s, tags, files) == RewrittenTags(s, init, files);
      FilterStep(Replacements(s, init, files), Replacements(s, tags, files),
        RewrittenTags(s, init, files), RewrittenTags(s, tags, files),
        last, if b then RewriteTag(s, last, files).value else Replacement(last, ""), b);
    }
  }

  /** One step of the induction above, with the rewrite test abstracted to a boolean. */
  lemma {:induction false} FilterStep(prev: seq<Replacement>, rs: seq<Replacement>, tagsInit: seq<Tag>, tagsAll: seq<Tag>,
                   last: Tag, rep: Replacement, b: bool)
    requires TagsOf(prev) == tagsInit
    requires b ==> rs == prev + [rep] && tagsAll == tagsInit + [last] && rep.tag == last
    requires !b ==> rs == prev && tagsAll == tagsInit
    ensures TagsOf(rs) == tagsAll
  {
    if b {
      TagsOfSnoc(prev, rep);
    }
  }

  lemma {:induction false} TagsOfSnoc(rs: seq<Replacement>, rep: Replacement)
    ensures TagsOf(rs + [rep]) == TagsOf(rs) + [rep.tag]
  {
    var a := TagsOf(rs + [rep]);
    var b := TagsOf(rs) + [rep.tag];
    assert |a| == |b|;
    forall k | 0 <= k < |a| ensures a[k] == b[k] {
      if k < |rs| {
        assert (rs + [rep])[k] == rs[k];
      }
    }
  }

  /** The rewritten tag, read back, is a match of the anchor pattern at its start. */
  lemma {:induction false} NewLinkIsAnchor(h: string, attrs: string)
    requires |h| > 0 && '"' !in h && '>' !in attrs
    ensures var link := NewLink(h, attrs);
      AnchorAt(link, 0) == Some(Tag(0, 9, 9 + |h|, |link|))
  {
    var link := NewLink(h, attrs);
    var t := Tag(0, 9, 9 + |h|, |link|);
    assert link == TagOpen + " " + HrefOpen + h + "\"" + attrs + ">";
    assert link[..2] == TagOpen;
    assert link[3..9] == HrefOpen;
    assert link[2] == ' ';
    assert forall q :: 9 <= q < 9 + |h| ==> link[q] == h[q - 9];
    assert forall q :: 10 + |h| <= q < |link| - 1 ==> link[q] == attrs[q - 10 - |h|];
    assert IsAnchorTag(link, t);
    AnchorAtComplete(link, t);
  }

  /** The href and the attributes sit where the tag's captures say. */
  lemma {:induction false} NewLinkParts(h: string, attrs: string)
    ensures var link := NewLink(h, attrs);
      |link| == |h| + |attrs| + 11 && link[9..9 + |h|] == h && link[10 + |h|..|link| - 1] == attrs
  {
    var link := NewLink(h, attrs);
    var pre := "<a href=\"";
    assert |pre| == 9;
    assert link == pre + h + "\"" + attrs + ">";
    assert link[9..] == h + "\"" + attrs + ">";
    assert (h + "\"" + attrs + ">")[..|h|] == h;
    assert (h + "\"" + attrs + ">")[|h| + 1..] == attrs + ">";
  }

  /** The page made of a rewritten tag holds that one tag. */
  lemma {:induction false} NewLinkAnchors(h: string, attrs: string, link: string, t: Tag)
    requires |h| > 0 && '"' !in h && '>' !in attrs
    requires link == NewLink(h, attrs) && t == Tag(0, 9, 9 + |h|, |link|)
    ensures Anchors(link, 0) == [t]
  {
    NewLinkIsAnchor(h, attrs);
    assert Anchors(link, |link|) == [];
  }

  /** A page whose only tag is left alone comes back unchanged. */
  lemma {:induction false} SingleTagKept(link: string, t: Tag, files: set<string>)
    requires Anchors(link, 0) == [t] && TagBounds(link, t)
    requires RewriteHref(Href(link, t), files).None?
    ensures ConvertLinksSpec(link, files) == link
  {
    assert [t][..0] == [];
    assert Replacements(link, [t], files) == [];
    NoRewriteNoChange(link, files);
  }

  /**
   * A rewritten tag is left alone by a second conversion: the page made of
   * just that tag converts to itself.
   */
  lemma {:induction false} RewrittenTagStable(href: string, attrs: string, files: set<string>)
    requires RewriteHref(href, files).Some? && '"' !in href && '>' !in attrs
    ensures var link := NewLink(RewriteHref(href, files).value, attrs);
      ConvertLinksSpec(link, files) == link
  {
    var h := RewriteHref(href, files).value;
    var link := NewLink(h, attrs);
    RewriteKeepsOutQuote(href, files);
    RewriteIdempotent(href, files);
    var t := Tag(0, 9, 9 + |h|, |link|);
    NewLinkAnchors(h, attrs, link, t);
    NewLinkParts(h, attrs);
    SingleTagKept(link, t, files);
  }
}
