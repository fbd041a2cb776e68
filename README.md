# ideeep content pipeline, modelled in Dafny

`ideeep` is a static site generator. It reads the markdown pages under
`content/`, each optionally opening with a YAML front-matter block, together
with an optional `config.yaml` (`page_order`, `navbar_order`, `dropdowns`).
It writes one HTML page per markdown page to `dist/`, each with a shared
navigation bar.

This project models the part of `src/main.rs` that transforms content:

- **Front matter** (`extract_frontmatter`). It splits a page into its
  metadata and its body, and falls back to the whole text when the block is
  missing, unterminated or malformed. A page's title is the metadata's title
  or else the file stem.
- **Math protection** (`protect_math_expressions`). Three passes run in
  order: `$$…$$`, then `\[…\]`, then inline `$…$`. Each pass cuts its
  matches out of the text, back to front, and puts placeholder tokens in
  their place: `\n\nMATH_BLOCK_i\n\n` for display math and `MATH_INLINE_i`
  for inline math. The cut-out texts are pushed onto a list in the order
  they are replaced.
- **Math restoration** (`restore_math_expressions`). Working from the
  highest index down, each list entry is put back at its token. For display
  math, the first of six wrapper patterns present in the HTML is replaced.
- **Link rewriting** (`convert_internal_links`). Every `<a href="…"…>` tag
  that points at a page of the site is rewritten from `.md`, or from a bare
  page stem, to `.html`. The query or fragment is kept. All matches are
  collected first and then replaced from the last to the first.
- **The page pipeline** (`markdown_to_html`): protect, then the markdown
  converter, then restore, then rewrite links.
- **Page ordering** (in `main`). `index` comes first. Without
  `page_order`, the remaining pages go by name. With it, listed pages go by
  list position, followed by unlisted pages by name.
- **Navbar items**. First, the pages hidden by sequence dropdowns are
  collected. Then items are built from `navbar_order`, or else from
  `page_order`, or else from the ordered pages. In the last two cases the
  dropdowns are appended at the end.
- **The navbar** (`generate_navbar`). The logo link comes first, followed
  by one entry per item. Dropdowns are expanded from their mapping or
  sequence values.

Conventions:
- Strings are `seq<char>`. Indices are character positions, because every
  delimiter the code searches for is ASCII.
- Regular expressions are written out as scanner functions that give the
  same leftmost, lazy matches.
- Loops that build strings or lists in place are methods. Each method is
  proved equal to a specification function, and the properties are proved
  about that function.
- The loops that keep some elements of a list, each turned into an output,
  are all related to one definition, `Gather.Gathered`. The lemmas about it
  place the output of element `k` right after the outputs of the elements
  before it, so "exactly these, in this order" is stated the same way for
  the inline math filter, the navbar items and the dropdown links.

The model follows the code where the code and its design description
differ:
- There is no `\(…\)` inline math.
- An href is split at the first `#` if it has one, and at the first `?`
  only otherwise.
- A bare base matches a page only when it has no `.` and equals a page's
  stem exactly; there is no match on a final path segment.
- `.md` is replaced everywhere in a base that ends with `.md`, not only at
  its end.
- Pages live in one flat directory, so there are no depth-relative paths.

## Model

| member | source | states |
|---|---|---|
| FrontMatter.ExtractFrontmatter | src/main.rs:18-34 | Without metadata the body is the whole content. With metadata, the content is the marker, the metadata text, the marker and the body; the closing marker is the first one after the opening; and the metadata is that text's parse. |
| FrontMatter.FailsOpen | src/main.rs:19-33 | A page not opening with `---\n`, with no closing marker, or whose block does not parse, comes back whole with no metadata. |
| FrontMatter.SplitsAssembled | src/main.rs:19-25 | Round trip: assembling marker + metadata + marker + body and splitting it again gives back the parsed metadata and the same body, when the metadata holds no marker. |
| FrontMatter.AssembledTitled | src/main.rs:667-676 | A document made of a block, its markers and a body is titled by the block's `title` when the parsed block has one, and by its file stem otherwise. |
| FrontMatter.MalformedTitledByStem | src/main.rs:24-26 | A page whose front matter fails to parse is titled by its file stem. |
| Strings.IndexOf | src/main.rs:20 | `str::find` from an offset gives the first occurrence at or after it, or proves there is none. |
| Strings.IndexOfFirst | src/main.rs:20 | Any occurrence with none before it is the one `find` returns. |
| Strings.Find | src/main.rs:162-166 | Finding a character gives its first position, or proves it absent. |
| Strings.ReplaceAllNotContains | src/main.rs:130-134 | `str::replace` of an absent pattern changes nothing. |
| Strings.ReplaceAllConcat | src/main.rs:134 | `str::replace` distributes over concatenation when no occurrence straddles the join. |
| Strings.ReplaceAllKeepsOut | src/main.rs:174 | `str::replace` introduces no character that neither the text nor the replacement holds. |
| Strings.DecimalInjective | src/main.rs:51 | Distinct block ids print as distinct decimal numerals, so placeholder tokens are distinct. |
| Splice.SplicedIdentity | src/main.rs:50-55 | Replacing each matched range by its own text gives the input back. |
| Splice.SplicedLoopStep | src/main.rs:196-198 | One `replace_range` of the back-to-front loop extends the spliced suffix by one match. Earlier offsets stay valid. |
| MathProtect.DelimitedSpans | src/main.rs:42-47 | The `$$…$$` and `\[…\]` matches are ordered, non-overlapping ranges of the text, each starting at or after the scan start. |
| MathProtect.DelimitedSpansMatch | src/main.rs:42-58 | Every match starts with the opener and ends with the first closer after it. |
| MathProtect.UnterminatedStaysVerbatim | src/main.rs:42-47 | When an opener has no closer after it and lies inside no match, every match ends before that opener. |
| MathProtect.UnterminatedTailCopied | src/main.rs:50-55 | After a delimited pass, the text from an unterminated opener on is copied unchanged. |
| MathProtect.InlineSpans | src/main.rs:75-78 | The inline matches are ordered, non-overlapping ranges. |
| MathProtect.InlineSpansMatch | src/main.rs:75 | Every inline match is `$`, a non-empty run without `$` or newline, then `$`. |
| MathProtect.InlineStopsAtNewline | src/main.rs:75 | A `$` whose run reaches a newline before the next `$` starts no inline match, and no match spans the newline. |
| MathProtect.KeepInline | src/main.rs:78-84 | Filtering the inline matches leaves non-overlapping matches in increasing order. |
| MathProtect.KeepInlineExact | src/main.rs:78-84 | The filter keeps exactly the matches whose text does not start with `$$`, in their order: a kept match follows the kept matches before it, and every kept span is such a match. |
| MathProtect.InlineFilterKeepsAll | src/main.rs:81 | The `$$` filter in the inline pass never removes a match: no inline match starts with `$$`. |
| MathProtect.ProtectPassPairs | src/main.rs:50-55 | After a pass, list entry `id` is exactly the text that the placeholder with that id replaced, and earlier entries are unchanged. |
| MathProtect.ProtectBlockKinds | src/main.rs:36-95 | The list holds the `$$` texts first, then the `\[` texts, then the inline texts, each of its pattern's shape. |
| MathProtect.NoMathUnchanged | src/main.rs:36-95 | A text with no `$` and no `\[` is returned unchanged with an empty list. |
| MathProtect.ReplaceMatches | src/main.rs:50-55 | The reverse replacement loop computes the pass's specification and returns the next free id. |
| MathProtect.ProtectMathExpressions | src/main.rs:36-95 | The method computes the three-pass specification. |
| MathProtect.KeepNotDoubleDollar | src/main.rs:78-84 | The filtering loop computes the specification filter. |
| MathRestore.WrapperTokenAt | src/main.rs:111-118 | Each pattern contains the token at a fixed offset: after `<p>`, after `<p>\n`, at the start, after `\n`, after `\n\n`, or on its own. |
| MathRestore.FirstContained | src/main.rs:120-127 | The pattern chosen is the first one the HTML contains, or none of them is contained. |
| MathRestore.WrapperHoldsToken | src/main.rs:111-118 | An HTML text that contains any wrapper pattern also contains the bare token. |
| MathRestore.WrappersShadowed | src/main.rs:114-116 | The fourth and fifth patterns are never chosen, because the third is a substring of both. |
| MathRestore.FallbackNoOp | src/main.rs:129-131 | The fallback replacement after no pattern matched changes nothing. |
| MathRestore.TokenAbsentUnchanged | src/main.rs:101-135 | An entry whose token is absent leaves the HTML unchanged. |
| MathRestore.RestoreKindMatchesProtect | src/main.rs:36-109 | Restore treats list entry `i` as display math exactly when protect stored it from a display pass, so it looks for the token protect wrote. |
| MathRestore.RestoreMathExpressions | src/main.rs:97-139 | The reverse loop over the list computes the restore specification. |
| MathRoundTrip.RoundTrip | src/main.rs:36-139 | Restoring the protected text with its list gives the original back, for texts with inline math only (see Left out). |
| MathRoundTrip.RestoreAll | src/main.rs:97-136 | Restoring from the highest id down turns the spliced text back into the source, one token at a time. |
| MathRoundTrip.RestoreStep | src/main.rs:134 | Replacing token `id` by its text in a partly restored text gives the next partly restored text. |
| MathRoundTrip.TokenNotInToken | src/main.rs:88-101 | The token of a lower id never contains the token of a higher id, so no token is clobbered when ids are restored from the highest down. |
| MathRoundTrip.LowerIdFirstClobbers | src/main.rs:101 | Witness for the reverse order: replacing `MATH_INLINE_1` first would cut into `MATH_INLINE_12`. |
| Links.Anchors | src/main.rs:143-149 | The matched anchor tags are ordered and non-overlapping. |
| Links.AnchorsMatch | src/main.rs:143 | Each match is `<a`, whitespace, `href="`, a non-empty quote-free href, `"`, attributes without `>`, then `>`. |
| Links.AnchorAtComplete | src/main.rs:143 | The scanner finds every tag of that shape at its start. |
| Links.SplitHref | src/main.rs:161-170 | Base and suffix concatenate to the href. The split is at the first `#` if there is one, else at the first `?`, else the suffix is empty. |
| Links.Replacements | src/main.rs:147-193 | The collected rewrites are ordered and non-overlapping. |
| Links.RewrittenExactly | src/main.rs:149-193 | The rewritten tags are exactly the scanned tags whose href is rewritten, in document order. |
| Links.RewriteIsOfTag | src/main.rs:191-192 | Each rewrite's new text is the new href with that tag's own trailing attributes. |
| Links.NewBaseShape | src/main.rs:172-189 | A new base ends with `.html` and gains no `#` or `?`. |
| Links.RewriteHrefCases | src/main.rs:154-189 | External hrefs are kept. Otherwise a base ending in `.md` has its `.md` turned into `.html`, a dot-free base naming a page gains `.html`, and any other base is kept. The fragment or query is carried over. |
| Links.NoColonNotExternal | src/main.rs:154-159 | An href without a colon that starts with neither `#` nor `/` is not external. |
| Links.MdLinkRewritten | src/main.rs:154-178 | A link to `name.md`, optionally with a `#` fragment or `?` query, becomes a link to `name.html` with the same fragment or query. |
| Links.BareLinkRewritten | src/main.rs:154-189 | A bare page name, optionally with a fragment or query, gains `.html` exactly when a page has that stem, and is kept otherwise. |
| Links.ExternalExamples | src/main.rs:154-159 | `https://…`, `mailto:…`, `#top` and `/notes.md` are never rewritten. |
| Links.MdLinkExample | src/main.rs:161-178 | `notes.md#part-2` becomes `notes.html#part-2`. |
| Links.BareLinkExample | src/main.rs:161-185 | With a page `notes`, `notes?x=1` becomes `notes.html?x=1`. |
| Links.UnknownNameExample | src/main.rs:179-189 | `slides`, when no page has that stem, is kept. |
| Links.RewriteIdempotent | src/main.rs:155-189 | A rewritten href keeps its query or fragment and is not rewritten again. |
| Links.RewrittenTagStable | src/main.rs:141-201 | Converting a page made of one rewritten tag changes nothing. |
| Links.NoRewriteNoChange | src/main.rs:195-200 | A page with nothing to rewrite comes back unchanged. |
| Links.ConvertInternalLinks | src/main.rs:141-201 | The collect-then-replace loops compute the conversion's specification. |
| Pipeline.MarkdownToHtml | src/main.rs:203-213 | The method composes protect, the converter, restore and link conversion. |
| Pipeline.NoMathPassesThrough | src/main.rs:203-213 | A page without math reaches the converter unchanged. |
| Pipeline.TransparentRender | src/main.rs:203-213 | With a converter that changes nothing, an inline-only page with no links to rewrite comes out unchanged. |
| Site.Get | src/main.rs:843-845 | A mapping lookup gives the value of a pair with that key, or proves there is none. |
| Site.FindPage | src/main.rs:823-829 | Page lookup by stem gives a page with that stem, or proves there is none. |
| Site.Titles | src/main.rs:683-689 | Every page's stem has a title, and each recorded title is the title of a page with that stem. |
| Site.TitlesOfDistinct | src/main.rs:683-689 | With distinct stems, each page's stem maps to its own title. |
| PageOrder.Position | src/main.rs:739-752 | The position of a name in the order list is its first listing, or proves it unlisted. |
| PageOrder.CompareTransitive | src/main.rs:754-759 | The comparator is transitive, as `sort_by` requires. |
| PageOrder.CompareFlip | src/main.rs:754-783 | The comparator is antisymmetric. |
| PageOrder.CompareEqual | src/main.rs:754-783 | The comparator calls two pages equal exactly when they share a stem. |
| PageOrder.SortBySorted | src/main.rs:731-784 | The stable sort's result is sorted by the comparator. |
| PageOrder.SortByPermutes | src/main.rs:731-784 | The sort is a permutation of its input. |
| PageOrder.Partition | src/main.rs:716-728 | The index page is found when present, and the other pages hold no index. |
| PageOrder.OrderPages | src/main.rs:713-785 | The method computes the ordering specification. |
| PageOrder.OrderIsPermutation | src/main.rs:713-785 | With at most one index page, ordering is a permutation of the pages. |
| PageOrder.IndexFirst | src/main.rs:762-781 | When an index page exists, it comes first, with or without `page_order`. |
| PageOrder.PageOrderHonoured | src/main.rs:754-759 | Under `page_order`: listed pages come before unlisted ones, listed pages follow their first listing, and unlisted pages go by name. |
| PageOrder.DefaultByName | src/main.rs:782 | Without `page_order`, the non-index pages are in name order. |
| PageOrder.PageOrderExample | src/main.rs:713-768 | With `page_order: [b, a]`, pages `a, b, c, index` are ordered `index, b, a, c`. |
| NavbarItems.HiddenPagesMeaning | src/main.rs:787-805 | A name is hidden exactly when it is a string item of a sequence-valued dropdown. Mapping dropdowns hide nothing. |
| NavbarItems.PagesInDropdowns | src/main.rs:787-805 | The loop computes the hidden set. |
| NavbarItems.FromPageOrder | src/main.rs:866-901 | Items built from `page_order` are never dropdowns, and each page item is a discovered page that is `index` or not hidden. |
| NavbarItems.FromFiles | src/main.rs:911-918 | Every default item is a discovered page that is `index` or not hidden. |
| NavbarItems.FromFilesExact | src/main.rs:911-918 | There is one default item per page that is `index` or not hidden, and page `k` sits right after the shown pages before it. So every such page is listed, in page order. |
| NavbarItems.FromPageOrderExact | src/main.rs:866-901 | Entry by entry, in order: a name of a discovered page that is `index` or not hidden gives that page. A mapping with string `url` and `text` gives an external link. Every item comes from an entry. |
| NavbarItems.DefaultListsPage | src/main.rs:787-918 | Without `navbar_order` or `page_order`, a page is listed unless a sequence dropdown names it. A page named only by a mapping dropdown is still listed. |
| NavbarItems.BuildNavbarItems | src/main.rs:807-925 | The method computes the item-list specification. |
| NavbarItems.NavbarOrderFirst | src/main.rs:810-864 | `navbar_order` takes precedence, and `page_order` then makes no difference. |
| NavbarItems.PageItemsFromFiles | src/main.rs:807-925 | Every page item is a discovered page. It is never `index` under `navbar_order`, and it is not hidden otherwise. |
| NavbarItems.NavbarOrderNames | src/main.rs:814-840 | Under `navbar_order`, a dropdown name gives its dropdown even when a page shares the stem. A page name gives its page even when hidden. |
| NavbarItems.NavbarOrderEntryKept | src/main.rs:812-863 | Every entry's item appears in the list. |
| NavbarItems.FromNavbarOrderExact | src/main.rs:810-863 | Under `navbar_order`, entry by entry and in order: a configured dropdown's name gives that dropdown, and any other name of a discovered non-index page gives that page. A mapping with a string `dropdown` gives that dropdown; any other mapping with string `url` and `text` gives an external link. Every item comes from an entry. |
| NavbarItems.DropdownsLast | src/main.rs:903-924 | Without `navbar_order`, the dropdowns come last, each configured dropdown exactly once. |
| Navbar.GenerateNavbar | src/main.rs:222-445 | The method computes the navbar specification. |
| Navbar.LogoFirst | src/main.rs:333-342 | The logo comes first. It takes the index title or `IDEEP`, is active exactly on `index`, and there is no other logo. |
| Navbar.EntryShape | src/main.rs:344-440 | Every later entry: is no logo; never links `index.html`; is active exactly when it is the current page; and a new-tab dropdown link has a non-empty URL and text. |
| Navbar.NavbarNested | src/main.rs:374-439 | Dropdown entries are well nested: each menu start is followed only by its links and then its end, and page and external links appear only outside dropdowns. |
| Navbar.DropdownRenderedIff | src/main.rs:374-377 | A dropdown is rendered exactly when it is an item and is configured. |
| Navbar.PageLinkIff | src/main.rs:346-366 | A non-index page gets a link exactly when it is an item, with its current-page flag. |
| Navbar.SequenceLinks | src/main.rs:398-431 | Sequence items give menu links. An external link opens in a new tab only when its URL and text are non-empty. |
| Navbar.SequenceLinksExact | src/main.rs:398-431 | Item by item, in order: a page name gives a same-tab link to `<name>.html`, titled from the title map or else by the name. A mapping with non-empty `url` and `text` gives a new-tab link to that URL with that text. Every link comes from an item. |
| Navbar.MappingDropdownEntries | src/main.rs:375-396 | A configured mapping dropdown renders its name, then one same-tab link per pair in map order, then the menu's end. Each link goes to the pair's value and is titled by the key's page title, or else by the key. |
| Navbar.RenderItem | src/main.rs:344-440 | The per-item loop body computes the entries of one item. |

## Left out

- File-system work in `main` is not modelled: directory creation, listing `content/`, reading pages and `config.yaml`, writing `dist/`, and `copy_assets_to_dist`. Pages arrive as a sequence of stems and titles.
- Skipping of `README.md` and of files starting with `<!DOCTYPE` or `<html` is not modelled, because it happens during directory listing.
- The page template and CSS around the body and the navbar are not modelled, because they are constant text.
- The markdown converter (pulldown-cmark) is the uninterpreted parameter `render`, and nothing about it is assumed.
- The YAML parser is an uninterpreted `parse` function. YAML values are a datatype with strings, mappings, sequences and everything else lumped together.
- `HashMap` iteration order for dropdown keys is a parameter `keys`. Properties that depend on it assume it lists every key exactly once.
- `output_in_dist` is not modelled, because both of its branches build the same path.
- The `"Untitled"` title fallback is not modelled, because a page's stem always exists.
- Path stems that are not valid UTF-8 are not modelled.
- Warnings printed for an unreadable `config.yaml` are left out. Only the fallback to "no configuration" is modelled.
- MathRoundTrip.RoundTrip: the round trip is proved only for texts whose math is inline. The text must also contain no `$$`, no `\[` and no `MATH_`, and must have no digit right after an inline match; without the last condition a token such as `MATH_INLINE_1` followed by `2` reads as `MATH_INLINE_12`. Restore is applied directly to the protected text, not after the converter.
- MathProtect.UnterminatedStaysVerbatim: this holds per delimited pass only. An unterminated `$$x$` left by the first pass can still be matched as `$x$` by the inline pass.
- Rust's stable `sort_by` is modelled as a stable insertion sort. `str` comparison is by character code, which agrees with byte order on UTF-8.
- PageOrder.OrderIsPermutation: it requires at most one page with stem `index`. With two, the code keeps only the last one under `page_order`, and the lemma does not describe that case.
- Site.Titles: with duplicate stems the later page's title wins. Its contract only says that some page with that stem has the recorded title.
- The navbar is modelled as a sequence of records, one per emitted link or dropdown boundary, rather than as HTML text. Titles and URLs are not HTML-escaped in the code, and none is modelled.
- The regular expressions are re-expressed as scanners. `\s` is taken as the Unicode `White_Space` characters.
- Links.RewrittenTagStable: converting an already converted page again is proved to change nothing only for a page made of one rewritten tag. For a whole page this is not proved, because it needs the anchor scan of the converted text related to the scan of the original across every splice. What is proved per href is that a rewritten href is never rewritten again (`Links.RewriteIdempotent`).
