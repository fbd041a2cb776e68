/**
 * `generate_navbar`: the navigation bar of one page. Its HTML is modelled as
 * the sequence of entries it writes, one record per link; the constant
 * markup and CSS around them carry no logic.
 */
module Navbar {
  import opened Strings
  import opened Site
  import opened NavbarItems
  import opened Gather

  /** One entry of the emitted navbar. */
  datatype NavEntry =
    | Logo(title: string, active: bool)                     // the `index.html` link with the logo
    | PageLink(href: string, title: string, active: bool)   // a page of the site
    | External(url: string, text: string)                   // an external link, opened in a new tab
    | MenuStart(name: string)                               // `<li class="dropdown">` and its label
    | MenuLink(href: string, text: string, newTab: bool)    // a link inside a dropdown
    | MenuEnd                                               // the dropdown's closing tags

  const HtmlSuffix: string := ".html"
  const DefaultLogoTitle: string := "IDEEP"

  /** `titles.get(name).cloned().unwrap_or(fallback)`. */
  function TitleOr(titles: map<string, string>, name: string, fallback: string): string {
    if name in titles then titles[name] else fallback
  }

  /** `unwrap_or("")` on an optional string. */
  function OrEmpty(o: Option<string>): string {
    if o.Some? then o.value else ""
  }

  /** The page whose navbar this is is `stem`. */
  predicate IsCurrent(current: Option<string>, stem: string) {
    current == Some(stem)
  }

  /** The logo link that always comes first. */
  function LogoEntry(titles: map<string, string>, current: Option<string>): NavEntry {
    Logo(TitleOr(titles, IndexStem, DefaultLogoTitle), IsCurrent(current, IndexStem))
  }

  /** A link of a mapping dropdown: the value is the URL, the key names the page whose title is shown. */
  function MappingLink(pair: (Yaml, Yaml), titles: map<string, string>): NavEntry {
    var pageName := OrEmpty(AsStr(pair.0));
    MenuLink(OrEmpty(AsStr(pair.1)), TitleOr(titles, pageName, pageName), false)
  }

  function MappingLinks(pairs: seq<(Yaml, Yaml)>, titles: map<string, string>): (r: seq<NavEntry>)
    ensures |r| == |pairs| && forall k :: 0 <= k < |pairs| ==> r[k] == MappingLink(pairs[k], titles)
  {
    seq(|pairs|, k requires 0 <= k < |pairs| => MappingLink(pairs[k], titles))
  }

  /** A link of a sequence dropdown: a page name, or a `{url, text}` mapping with both non-empty. */
  function SequenceLink(y: Yaml, titles: map<string, string>): Option<NavEntry> {
    match y
    case YString(name) => Some(MenuLink(name + HtmlSuffix, TitleOr(titles, name, name), false))
    case YMapping(pairs) =>
      var url := OrEmpty(GetStr(pairs, UrlKey));
      var text := OrEmpty(GetStr(pairs, TextKey));
      if url != "" && text != "" then Some(MenuLink(url, text, true)) else None
    case _ => None
  }

  /** Only `{url, text}` entries open in a new tab, and they never have an empty URL or text. */
  function SequenceLinks(items: seq<Yaml>, titles: map<string, string>): (r: seq<NavEntry>)
    ensures |r| <= |items|
    ensures forall k :: 0 <= k < |r| ==> r[k].MenuLink? && (r[k].newTab ==> r[k].href != "" && r[k].text != "")
  {
    if |items| == 0 then []
    else
      var last := SequenceLink(items[|items| - 1], titles);
      SequenceLinks(items[..|items| - 1], titles) + (if last.Some? then [last.value] else [])
  }

  function SequenceFilter(titles: map<string, string>): Yaml -> Option<NavEntry> {
    y => SequenceLink(y, titles)
  }

  lemma {:induction false} SequenceLinksGathered(items: seq<Yaml>, titles: map<string, string>)
    ensures SequenceLinks(items, titles) == Gathered(items, SequenceFilter(titles))
    decreases |items|
  {
    if |items| > 0 {
      SequenceLinksGathered(items[..|items| - 1], titles);
    }
  }

  /**
   * Item by item, in order: a page name gives a link to its `.html` file,
   * titled from the title map or by the name itself, in the same tab; a
   * mapping with non-empty `url` and `text` gives a new-tab link. Item `k`'s
   * link comes right after the links of the items before it, and every link
   * comes from an item.
   */
  lemma {:induction false} SequenceLinksExact(items: seq<Yaml>, titles: map<string, string>)
    ensures |SequenceLinks(items, titles)| == Hits(items, SequenceFilter(titles))
    ensures forall k :: 0 <= k < |items| && items[k].YString? ==>
      Hits(items[..k], SequenceFilter(titles)) < |SequenceLinks(items, titles)| &&
      SequenceLinks(items, titles)[Hits(items[..k], SequenceFilter(titles))] ==
        MenuLink(items[k].str + HtmlSuffix, TitleOr(titles, items[k].str, items[k].str), false)
    ensures forall k ::
      (0 <= k < |items| && items[k].YMapping? &&
       OrEmpty(GetStr(items[k].pairs, UrlKey)) != "" && OrEmpty(GetStr(items[k].pairs, TextKey)) != "") ==>
      Hits(items[..k], SequenceFilter(titles)) < |SequenceLinks(items, titles)| &&
      SequenceLinks(items, titles)[Hits(items[..k], SequenceFilter(titles))] ==
        MenuLink(GetStr(items[k].pairs, UrlKey).value, GetStr(items[k].pairs, TextKey).value, true)
    ensures forall i :: 0 <= i < |SequenceLinks(items, titles)| ==>
      exists k :: 0 <= k < |items| && SequenceLink(items[k], titles) == Some(SequenceLinks(items, titles)[i])
  {
    var f := SequenceFilter(titles);
    var r := SequenceLinks(items, titles);
    SequenceLinksGathered(items, titles);
    GatheredLength(items, f);
    forall k | 0 <= k < |items| && items[k].YString?
      ensures Hits(items[..k], f) < |r| &&
        r[Hits(items[..k], f)] == MenuLink(items[k].str + HtmlSuffix, TitleOr(titles, items[k].str, items[k].str), false)
    {
      assert f(items[k]) == SequenceLink(items[k], titles);
      GatheredAt(items, f, k);
    }
    forall k | 0 <= k < |items| && items[k].YMapping? &&
      OrEmpty(GetStr(items[k].pairs, UrlKey)) != "" && OrEmpty(GetStr(items[k].pairs, TextKey)) != ""
      ensures Hits(items[..k], f) < |r| &&
        r[Hits(items[..k], f)] == MenuLink(GetStr(items[k].pairs, UrlKey).value, GetStr(items[k].pairs, TextKey).value, true)
    {
      assert f(items[k]) == SequenceLink(items[k], titles);
      GatheredAt(items, f, k);
    }
    forall i | 0 <= i < |r| ensures exists k :: 0 <= k < |items| && SequenceLink(items[k], titles) == Some(r[i]) {
      var k := GatheredFrom(items, f, i);
      assert SequenceLink(items[k], titles) == Some(r[i]);
    }
  }

  /** The links inside a dropdown; a value that is neither a mapping nor a sequence gives none. */
  function MenuBody(value: Yaml, titles: map<string, string>): (r: seq<NavEntry>)
    ensures forall k :: 0 <= k < |r| ==> r[k].MenuLink? && (r[k].newTab ==> r[k].href != "" && r[k].text != "")
  {
    match value
    case YMapping(pairs) => MappingLinks(pairs, titles)
    case YSequence(items) => SequenceLinks(items, titles)
    case _ => []
  }

  /** The entries one navbar item gives. */
  function ItemEntries(item: NavbarItem, dropdowns: Option<map<string, Yaml>>, titles: map<string, string>,
                       current: Option<string>): seq<NavEntry> {
    match item
    case MarkdownFile(stem, title) =>
      if stem == IndexStem then [] else [PageLink(stem + HtmlSuffix, title, IsCurrent(current, stem))]
    case ExternalLink(url, text) => [External(url, text)]
    case Dropdown(name) =>
      if dropdowns.Some? && name in dropdowns.value then
        [MenuStart(name)] + MenuBody(dropdowns.value[name], titles) + [MenuEnd]
      else []
  }

  /**
   * A configured mapping dropdown opens with its name and closes the menu,
   * and between the two holds, pair by pair in map order, a same-tab link to
   * the pair's value (or `""`) titled by the key's page title, or by the key
   * itself (or `""`).
   */
  lemma {:induction false} MappingDropdownEntries(name: string, dropdowns: Option<map<string, Yaml>>,
                                                  titles: map<string, string>, current: Option<string>)
    requires dropdowns.Some? && name in dropdowns.value && dropdowns.value[name].YMapping?
    ensures var pairs := dropdowns.value[name].pairs;
      var e := ItemEntries(Dropdown(name), dropdowns, titles, current);
      |e| == |pairs| + 2 && e[0] == MenuStart(name) && e[|e| - 1] == MenuEnd &&
      forall k :: 0 <= k < |pairs| ==>
        e[k + 1] == MenuLink(OrEmpty(AsStr(pairs[k].1)),
                             TitleOr(titles, OrEmpty(AsStr(pairs[k].0)), OrEmpty(AsStr(pairs[k].0))), false)
  {
    var pairs := dropdowns.value[name].pairs;
    var body := MappingLinks(pairs, titles);
    var e := ItemEntries(Dropdown(name), dropdowns, titles, current);
    assert e == [MenuStart(name)] + body + [MenuEnd];
    forall k | 0 <= k < |pairs|
      ensures e[k + 1] == MenuLink(OrEmpty(AsStr(pairs[k].1)),
                                   TitleOr(titles, OrEmpty(AsStr(pairs[k].0)), OrEmpty(AsStr(pairs[k].0))), false)
    {
      assert e[k + 1] == body[k];
    }
  }

  function Entries(items: seq<NavbarItem>, dropdowns: Option<map<string, Yaml>>, titles: map<string, string>,
                   current: Option<string>): seq<NavEntry> {
    if |items| == 0 then []
    else
      Entries(items[..|items| - 1], dropdowns, titles, current) +
        ItemEntries(items[|items| - 1], dropdowns, titles, current)
  }

  /** What `generate_navbar` writes, entry by entry. */
  function NavbarSpec(items: seq<NavbarItem>, dropdowns: Option<map<string, Yaml>>, titles: map<string, string>,
                      current: Option<string>): seq<NavEntry> {
    [LogoEntry(titles, current)] + Entries(items, dropdowns, titles, current)
  }

  /** `generate_navbar` */
  method GenerateNavbar(items: seq<NavbarItem>, dropdowns: Option<map<string, Yaml>>, titles: map<string, string>,
                        current: Option<string>) returns (nav: seq<NavEntry>)
    ensures nav == NavbarSpec(items, dropdowns, titles, current)
  {
    var indexTitle := if IndexStem in titles then titles[IndexStem] else DefaultLogoTitle;
    var links: seq<NavEntry> := [];
    for i := 0 to |items|
      invariant links == Entries(items[..i], dropdowns, titles, current)
    {
      var entries := RenderItem(items[i], dropdowns, titles, current);
      EntriesSnoc(items, i, dropdowns, titles, current);
      links := links + entries;
    }
    assert items[..|items|] == items;
    nav := [Logo(indexTitle, current == Some(IndexStem))] + links;
  }

  lemma {:induction false} EntriesSnoc(items: seq<NavbarItem>, i: nat, dropdowns: Option<map<string, Yaml>>,
                    titles: map<string, string>, current: Option<string>)
    requires i < |items|
    ensures Entries(items[..i + 1], dropdowns, titles, current)
         == Entries(items[..i], dropdowns, titles, current) + ItemEntries(items[i], dropdowns, titles, current)
  {
    assert items[..i + 1][..i] == items[..i];
  }

  /** The body of the loop over the navbar items. */
  method RenderItem(item: NavbarItem, dropdowns: Option<map<string, Yaml>>, titles: map<string, string>,
                    current: Option<string>) returns (entries: seq<NavEntry>)
    ensures entries == ItemEntries(item, dropdowns, titles, current)
  {
    entries := [];
    match item {
      case MarkdownFile(stem, title) =>
        if stem != IndexStem {
          entries := [PageLink(stem + HtmlSuffix, title, current == Some(stem))];
        }
      case ExternalLink(url, text) =>
        entries := [External(url, text)];
      case Dropdown(name) =>
        if dropdowns.Some? && name in dropdowns.value {
          var body := DropdownBody(dropdowns.value[name], titles);
          entries := [MenuStart(name)] + body + [MenuEnd];
        }
    }
  }

  /** The links inside a dropdown, by the kind of its value. */
  method DropdownBody(value: Yaml, titles: map<string, string>) returns (body: seq<NavEntry>)
    ensures body == MenuBody(value, titles)
  {
    match value {
      case YMapping(pairs) =>
        body := MappingMenu(pairs, titles);
      case YSequence(seqItems) =>
        body := SequenceMenu(seqItems, titles);
      case _ =>
        body := [];
    }
  }

  /** The loop over a mapping dropdown. */
  method MappingMenu(pairs: seq<(Yaml, Yaml)>, titles: map<string, string>) returns (body: seq<NavEntry>)
    ensures body == MappingLinks(pairs, titles)
  {
    body := [];
    for k := 0 to |pairs|
      invariant body == MappingLinks(pairs[..k], titles)
    {
      var pageName := if pairs[k].0.YString? then pairs[k].0.str else "";
      var url := if pairs[k].1.YString? then pairs[k].1.str else "";
      var displayTitle := if pageName in titles then titles[pageName] else pageName;
      body := body + [MenuLink(url, displayTitle, false)];
    }
    assert pairs[..|pairs|] == pairs;
  }

  /** The loop over a sequence dropdown. */
  method SequenceMenu(seqItems: seq<Yaml>, titles: map<string, string>) returns (body: seq<NavEntry>)
    ensures body == SequenceLinks(seqItems, titles)
  {
    body := [];
    for k := 0 to |seqItems|
      invariant body == SequenceLinks(seqItems[..k], titles)
    {
      assert seqItems[..k + 1][..k] == seqItems[..k];
      match seqItems[k] {
        case YString(pageName) =>
          var displayTitle := if pageName in titles then titles[pageName] else pageName;
          body := body + [MenuLink(pageName + HtmlSuffix, displayTitle, false)];
        case YMapping(pairs) =>
          var url := OrEmpty(GetStr(pairs, UrlKey));
          var text := OrEmpty(GetStr(pairs, TextKey));
          if url != "" && text != "" {
            body := body + [MenuLink(url, text, true)];
          }
        case _ =>
      }
    }
    assert seqItems[..|seqItems|] == seqItems;
  }

  // ---------------------------------------------------------------------
  // What the emitted navbar guarantees

  lemma {:induction false} SuffixCancel(a: string, b: string, suffix: string)
    requires a + suffix == b + suffix
    ensures a == b
  {
    assert |a| == |b|;
    assert a == (a + suffix)[..|a|];
    assert b == (b + suffix)[..|b|];
  }

  /**
   * Every entry after the logo: is not a second logo; never links a page to
   * `index.html`; is marked active exactly when its target is the current
   * page; and, inside a dropdown, opens a new tab only with a non-empty URL
   * and text.
   */
  lemma {:induction false} EntryShape(items: seq<NavbarItem>, dropdowns: Option<map<string, Yaml>>,
                                      titles: map<string, string>, current: Option<string>, k: nat)
    requires k < |Entries(items, dropdowns, titles, current)|
    ensures var e := Entries(items, dropdowns, titles, current)[k];
      && !e.Logo?
      && (e.PageLink? ==> e.href != IndexStem + HtmlSuffix)
      && (e.PageLink? ==> (e.active <==> current.Some? && e.href == current.value + HtmlSuffix))
      && (e.MenuLink? && e.newTab ==> e.href != "" && e.text != "")
  {
    var n := |items|;
    var init := Entries(items[..n - 1], dropdowns, titles, current);
    var last := ItemEntries(items[n - 1], dropdowns, titles, current);
    assert Entries(items, dropdowns, titles, current) == init + last;
    if k < |init| {
      EntryShape(items[..n - 1], dropdowns, titles, current, k);
    } else {
      var e := last[k - |init|];
      if e.PageLink? {
        var stem := items[n - 1].stem;
        assert e.href == stem + HtmlSuffix && stem != IndexStem;
        if e.href == IndexStem + HtmlSuffix {
          SuffixCancel(stem, IndexStem, HtmlSuffix);
        }
        if current.Some? && e.href == current.value + HtmlSuffix {
          SuffixCancel(stem, current.value, HtmlSuffix);
        }
      }
    }
  }

  /** The whole navbar: the logo first, titled by the index page, and no other logo. */
  lemma {:induction false} LogoFirst(items: seq<NavbarItem>, dropdowns: Option<map<string, Yaml>>,
                  titles: map<string, string>, current: Option<string>)
    ensures var nav := NavbarSpec(items, dropdowns, titles, current);
      && nav[0].Logo?
      && nav[0].title == (if IndexStem in titles then titles[IndexStem] else DefaultLogoTitle)
      && (nav[0].active <==> current == Some(IndexStem))
      && forall k :: 1 <= k < |nav| ==> !nav[k].Logo?
  {
    var nav := NavbarSpec(items, dropdowns, titles, current);
    forall k | 1 <= k < |nav|
      ensures !nav[k].Logo?
    {
      EntryShape(items, dropdowns, titles, current, k - 1);
    }
  }

  /**
   * Scanning the entries from a state inside or outside a dropdown: a
   * dropdown opens only outside one, its links and its end come only inside
   * one, page and external links come only outside, and the scan ends outside.
   */
  predicate NestedFrom(es: seq<NavEntry>, inMenu: bool) {
    if |es| == 0 then !inMenu
    else if es[0].MenuStart? then !inMenu && NestedFrom(es[1..], true)
    else if es[0].MenuEnd? then inMenu && NestedFrom(es[1..], false)
    else if es[0].MenuLink? then inMenu && NestedFrom(es[1..], true)
    else !inMenu && NestedFrom(es[1..], false)
  }

  lemma {:induction false} NestedConcat(a: seq<NavEntry>, b: seq<NavEntry>, inMenu: bool)
    requires NestedFrom(a, inMenu) && NestedFrom(b, false)
    ensures NestedFrom(a + b, inMenu)
  {
    if |a| == 0 {
      assert a + b == b;
    } else {
      assert (a + b)[0] == a[0];
      assert (a + b)[1..] == a[1..] + b;
      NestedConcat(a[1..], b, !a[0].MenuEnd? && (a[0].MenuStart? || (a[0].MenuLink? && inMenu)));
    }
  }

  lemma {:induction false} LinksThenEnd(body: seq<NavEntry>)
    requires forall k :: 0 <= k < |body| ==> body[k].MenuLink?
    ensures NestedFrom(body + [MenuEnd], true)
  {
    if |body| == 0 {
      assert body + [MenuEnd] == [MenuEnd];
      assert [MenuEnd][1..] == [];
    } else {
      assert (body + [MenuEnd])[1..] == body[1..] + [MenuEnd];
      LinksThenEnd(body[1..]);
    }
  }

  lemma {:induction false} ItemNested(item: NavbarItem, dropdowns: Option<map<string, Yaml>>,
                   titles: map<string, string>, current: Option<string>)
    ensures NestedFrom(ItemEntries(item, dropdowns, titles, current), false)
  {
    var es := ItemEntries(item, dropdowns, titles, current);
    if item.Dropdown? && dropdowns.Some? && item.name in dropdowns.value {
      var body := MenuBody(dropdowns.value[item.name], titles);
      LinksThenEnd(body);
      assert es[1..] == body + [MenuEnd];
    } else if |es| == 1 {
      assert es[1..] == [];
    }
  }

  lemma {:induction false} EntriesNested(items: seq<NavbarItem>, dropdowns: Option<map<string, Yaml>>,
                                         titles: map<string, string>, current: Option<string>)
    ensures NestedFrom(Entries(items, dropdowns, titles, current), false)
  {
    if |items| > 0 {
      var n := |items|;
      EntriesNested(items[..n - 1], dropdowns, titles, current);
      ItemNested(items[n - 1], dropdowns, titles, current);
      NestedConcat(Entries(items[..n - 1], dropdowns, titles, current),
                   ItemEntries(items[n - 1], dropdowns, titles, current), false);
    }
  }

  /** Every dropdown the navbar opens is closed again, and dropdown links appear only inside one. */
  lemma {:induction false} NavbarNested(items: seq<NavbarItem>, dropdowns: Option<map<string, Yaml>>,
                     titles: map<string, string>, current: Option<string>)
    ensures NestedFrom(NavbarSpec(items, dropdowns, titles, current), false)
  {
    var nav := NavbarSpec(items, dropdowns, titles, current);
    EntriesNested(items, dropdowns, titles, current);
    assert nav[1..] == Entries(items, dropdowns, titles, current);
  }

  /** A dropdown is rendered exactly when it is among the items and configured; an unknown name renders nothing. */
  lemma {:induction false} DropdownRenderedIff(items: seq<NavbarItem>, dropdowns: Option<map<string, Yaml>>,
                                               titles: map<string, string>, current: Option<string>, name: string)
    ensures MenuStart(name) in Entries(items, dropdowns, titles, current)
        <==> Dropdown(name) in items && dropdowns.Some? && name in dropdowns.value
  {
    if |items| > 0 {
      var n := |items|;
      var init := Entries(items[..n - 1], dropdowns, titles, current);
      var last := ItemEntries(items[n - 1], dropdowns, titles, current);
      DropdownRenderedIff(items[..n - 1], dropdowns, titles, current, name);
      assert items == items[..n - 1] + [items[n - 1]];
      assert MenuStart(name) in init + last <==> MenuStart(name) in init || MenuStart(name) in last;
      if items[n - 1].Dropdown? && dropdowns.Some? && items[n - 1].name in dropdowns.value {
        var body := MenuBody(dropdowns.value[items[n - 1].name], titles);
        assert last == [MenuStart(items[n - 1].name)] + body + [MenuEnd];
        assert MenuStart(name) !in body;
      }
    }
  }

  /** Every non-index page among the items gets exactly its link, and no other page link appears. */
  lemma {:induction false} PageLinkIff(items: seq<NavbarItem>, dropdowns: Option<map<string, Yaml>>,
                                       titles: map<string, string>, current: Option<string>,
                                       stem: string, title: string, active: bool)
    requires stem != IndexStem
    ensures PageLink(stem + HtmlSuffix, title, active) in Entries(items, dropdowns, titles, current)
        <==> MarkdownFile(stem, title) in items && active == IsCurrent(current, stem)
  {
    var link := PageLink(stem + HtmlSuffix, title, active);
    if |items| > 0 {
      var n := |items|;
      var init := Entries(items[..n - 1], dropdowns, titles, current);
      var last := ItemEntries(items[n - 1], dropdowns, titles, current);
      PageLinkIff(items[..n - 1], dropdowns, titles, current, stem, title, active);
      assert items == items[..n - 1] + [items[n - 1]];
      assert link in init + last <==> link in init || link in last;
      var item := items[n - 1];
      if item.MarkdownFile? && link in last {
        SuffixCancel(item.stem, stem, HtmlSuffix);
      }
      if item.Dropdown? && dropdowns.Some? && item.name in dropdowns.value {
        var body := MenuBody(dropdowns.value[item.name], titles);
        assert last == [MenuStart(item.name)] + body + [MenuEnd];
        assert link !in body;
      }
    }
  }
}
