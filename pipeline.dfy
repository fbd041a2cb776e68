/**
 * `markdown_to_html`: protect the math, run the markdown converter, put the
 * math back, then rewrite the internal links. The converter (pulldown-cmark
 * with every extension on) is not part of this model: it is the parameter
 * `render`, about which nothing is assumed.
 */
module Pipeline {
  import opened Strings
  import opened MathProtect
  import opened MathRestore
  import opened MathRoundTrip
  import opened Links

  /** What `markdown_to_html` returns for a given converter. */
  function MarkdownToHtmlSpec(markdown: string, files: set<string>, render: string -> string): string {
    var p := ProtectSpec(markdown);
    ConvertLinksSpec(RestoreSpec(render(p.text), p.blocks), files)
  }

  /** `markdown_to_html` */
  method MarkdownToHtml(markdown: string, files: set<string>, render: string -> string) returns (html: string)
    ensures html == MarkdownToHtmlSpec(markdown, files, render)
  {
    var protected, mathBlocks := ProtectMathExpressions(markdown);
    var htmlOutput := render(protected);
    var withMath := RestoreMathExpressions(htmlOutput, mathBlocks);
    html := ConvertInternalLinks(withMath, files);
  }

  /** A page without math reaches the converter as written, and only the link pass follows it. */
  lemma {:induction false} NoMathPassesThrough(markdown: string, files: set<string>, render: string -> string)
    requires '$' !in markdown && !Contains(markdown, BracketOpen)
    ensures MarkdownToHtmlSpec(markdown, files, render) == ConvertLinksSpec(render(markdown), files)
  {
    NoMathUnchanged(markdown);
  }

  /**
   * With a converter that changes nothing, a page whose math is inline only
   * and which has no link to rewrite comes out exactly as it went in: the
   * converter never sees the math, and the math it did not see is put back.
   */
  lemma {:induction false} TransparentRender(markdown: string, files: set<string>, render: string -> string)
    requires forall t :: render(t) == t
    requires InlineOnly(markdown)
    requires Replacements(markdown, Anchors(markdown, 0), files) == []
    ensures MarkdownToHtmlSpec(markdown, files, render) == markdown
  {
    RoundTrip(markdown);
    NoRewriteNoChange(markdown, files);
  }
}
