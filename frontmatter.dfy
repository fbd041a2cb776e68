/**
 * The front-matter splitter: a document may open with a `---\n` line, a YAML
 * block and a closing `---\n`; the block is parsed for an optional title and
 * the rest is the markdown body. Any failure leaves the whole text as body.
 *
 * The YAML deserializer is a foreign library, so it is a parameter here: a
 * total function that answers `None` where deserialization fails.
 */
module FrontMatter {
  import opened Strings

  datatype FrontMatter = FrontMatter(title: Option<string>)

  /** What `extract_frontmatter` returns: the parsed metadata, if any, and the body. */
  datatype Split = Split(meta: Option<FrontMatter>, body: string)

  const Marker: string := "---\n"

  function ExtractFrontmatter(content: string, parse: string -> Option<FrontMatter>): (r: Split)
    ensures r.meta.None? ==> r.body == content
    ensures r.meta.Some? ==>
      var fmEnd := |content| - |r.body| - 4;
      4 <= fmEnd && StartsWith(content, Marker) && OccursAt(content, Marker, fmEnd) &&
      content == Marker + content[4..fmEnd] + Marker + r.body &&
      parse(content[4..fmEnd]) == r.meta &&
      forall k: nat :: 4 <= k < fmEnd ==> !OccursAt(content, Marker, k)
  {
    if StartsWith(content, Marker) then
      match IndexOf(content, Marker, 4)
      case Some(end) =>
        var fm := content[4..end];
        var body := content[end + 4..];
        (match parse(fm)
         case Some(m) => Split(Some(m), body)
         case None => Split(None, content))
      case None => Split(None, content)
    else Split(None, content)
  }

  /**
   * Fail-open policy: without an opening marker, without a closing marker, or
   * when the block does not deserialize, nothing is stripped.
   */
  lemma {:induction false} FailsOpen(content: string, parse: string -> Option<FrontMatter>)
    requires !StartsWith(content, Marker)
          || IndexOf(content, Marker, 4).None?
          || parse(content[4..IndexOf(content, Marker, 4).value]).None?
    ensures ExtractFrontmatter(content, parse) == Split(None, content)
  {
  }

  /**
   * Splitting inverts assembling a document: a block free of the marker,
   * framed by two markers and followed by any body, comes back apart.
   */
  lemma {:induction false} SplitsAssembled(fm: string, body: string, parse: string -> Option<FrontMatter>)
    requires forall k: nat :: k < |fm| ==> !OccursAt(fm + Marker, Marker, k)
    requires parse(fm).Some?
    ensures ExtractFrontmatter(Marker + fm + Marker + body, parse) == Split(parse(fm), body)
  {
    var content := Marker + fm + Marker + body;
    var e := 4 + |fm|;
    assert content[e..e + 4] == Marker;
    assert OccursAt(content, Marker, 0) by { assert content[..4] == Marker; }
    forall k: nat | 4 <= k < e ensures !OccursAt(content, Marker, k) {
      assert !OccursAt(fm + Marker, Marker, k - 4);
      var t := content[4..e + 4];
      assert t == fm + Marker;
      assert content[k..k + 4] == t[k - 4..k];
    }
    IndexOfFirst(content, Marker, 4, e);
    assert content[4..e] == fm;
    assert content[e + 4..] == body;
  }

  /** The page title: the metadata's `title` when present, otherwise the file stem. */
  function TitleOf(meta: Option<FrontMatter>, stem: string): (t: string)
    ensures meta.Some? && meta.value.title.Some? ==> t == meta.value.title.value
    ensures meta.None? || meta.value.title.None? ==> t == stem
  {
    match meta
    case Some(FrontMatter(Some(title))) => title
    case _ => stem
  }

  /** A document whose metadata is malformed is titled by its file stem. */
  lemma {:induction false} MalformedTitledByStem(content: string, stem: string, parse: string -> Option<FrontMatter>)
    requires StartsWith(content, Marker) && IndexOf(content, Marker, 4).Some?
    requires parse(content[4..IndexOf(content, Marker, 4).value]).None?
    ensures TitleOf(ExtractFrontmatter(content, parse).meta, stem) == stem
  {
  }

  /**
   * An assembled document is titled by its block: the block's `title` when
   * the parsed block has one, otherwise the file stem.
   */
  lemma {:induction false} AssembledTitled(fm: string, body: string, stem: string, parse: string -> Option<FrontMatter>)
    requires forall k: nat :: k < |fm| ==> !OccursAt(fm + Marker, Marker, k)
    requires parse(fm).Some?
    ensures parse(fm).value.title.Some? ==>
      TitleOf(ExtractFrontmatter(Marker + fm + Marker + body, parse).meta, stem) == parse(fm).value.title.value
    ensures parse(fm).value.title.None? ==>
      TitleOf(ExtractFrontmatter(Marker + fm + Marker + body, parse).meta, stem) == stem
  {
    SplitsAssembled(fm, body, parse);
  }
}
