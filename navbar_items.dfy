/**
 * The navbar items `main` builds before emitting any page: from
 * `navbar_order` when the config has one, else from `page_order`, else from
 * every page; the last two hide the pages listed in sequence dropdowns and
 * append every dropdown at the end, in the map's key order.
 */
module NavbarItems {
  import opened Strings
  import opened Site
  import opened Gather

  const DropdownKey: string := "dropdown"
  const UrlKey: string := "url"
  const TextKey: string := "text"

  /** The stems hidden from the navbar: the string items of every sequence-valued dropdown. */
  function HiddenPages(dropdowns: Option<map<string, Yaml>>): (r: set<string>)
    ensures dropdowns.None? ==> r == {}
  {
    match dropdowns
    case None => {}
    case Some(m) => HiddenAmong(m, m.Keys)
  }

  /** The stems hidden by the dropdowns named in `names`. */
  function HiddenAmong(m: map<string, Yaml>, names: set<string>): set<string> {
    set d, y | d in names && d in m && m[d].YSequence? && y in m[d].items && y.YString? :: y.str
  }

  /** The string items of one dropdown's sequence. */
  function StringItems(items: seq<Yaml>): (r: set<string>)
    ensures forall s :: s in r <==> YString(s) in items
  {
    set y | y in items && y.YString? :: y.str
  }

  /** The loop filling `pages_in_dropdowns`, visiting the map's values in an unspecified order. */
  method PagesInDropdowns(dropdowns: Option<map<string, Yaml>>) returns (hidden: set<string>)
    ensures hidden == HiddenPages(dropdowns)
  {
    hidden := {};
    if dropdowns.Some? {
      var m := dropdowns.value;
      var rest := m.Keys;
      while rest != {}
        invariant rest <= m.Keys
        invariant hidden == HiddenAmong(m, m.Keys - rest)
        decreases |rest|
      {
        var d :| d in rest;
        var value := m[d];
        if value.YSequence? {
          hidden := AddStringItems(hidden, value.items);
        }
        HiddenAmongAdd(m, m.Keys - rest, d);
        assert m.Keys - (rest - {d}) == (m.Keys - rest) + {d};
        rest := rest - {d};
      }
    }
  }

  /** The inner loop: inserting the string items of one sequence dropdown. */
  method AddStringItems(hidden: set<string>, items: seq<Yaml>) returns (r: set<string>)
    ensures r == hidden + StringItems(items)
  {
    r := hidden;
    for k := 0 to |items|
      invariant r == hidden + StringItems(items[..k])
    {
      assert items[..k + 1] == items[..k] + [items[k]];
      if items[k].YString? {
        r := r + {items[k].str};
      }
    }
    assert items[..|items|] == items;
  }

  /** Visiting one more dropdown adds its string items, if it is a sequence. */
  lemma {:induction false} HiddenAmongAdd(m: map<string, Yaml>, names: set<string>, d: string)
    requires d in m
    ensures HiddenAmong(m, names + {d}) ==
      HiddenAmong(m, names) + (if m[d].YSequence? then StringItems(m[d].items) else {})
  {
  }

  function ItemSeq(o: Option<NavbarItem>): seq<NavbarItem> {
    if o.Some? then [o.value] else []
  }

  /** A `{url, text}` mapping gives an external link exactly when both are strings. */
  function LinkItem(pairs: seq<(Yaml, Yaml)>): (r: Option<NavbarItem>)
    ensures r.Some? <==> GetStr(pairs, UrlKey).Some? && GetStr(pairs, TextKey).Some?
    ensures r.Some? ==> r.value == ExternalLink(GetStr(pairs, UrlKey).value, GetStr(pairs, TextKey).value)
  {
    match (GetStr(pairs, UrlKey), GetStr(pairs, TextKey))
    case (Some(url), Some(text)) => Some(ExternalLink(url, text))
    case _ => None
  }

  /** The item a `navbar_order` entry gives, if any. */
  function NavbarOrderItem(y: Yaml, files: seq<Page>, dropdowns: Option<map<string, Yaml>>): Option<NavbarItem> {
    match y
    case YString(name) =>
      if dropdowns.Some? && name in dropdowns.value then Some(Dropdown(name))
      else
        (match FindPage(files, name)
         case Some(p) => if p.stem != IndexStem then Some(MarkdownFile(p.stem, p.title)) else None
         case None => None)
    case YMapping(pairs) =>
      (match GetStr(pairs, DropdownKey)
       case Some(name) => Some(Dropdown(name))
       case None => LinkItem(pairs))
    case _ => None
  }

  /** The item a `page_order` entry gives, if any. */
  function PageOrderItem(y: Yaml, files: seq<Page>, hidden: set<string>): Option<NavbarItem> {
    match y
    case YString(name) =>
      (match FindPage(files, name)
       case Some(p) =>
         if p.stem == IndexStem || p.stem !in hidden then Some(MarkdownFile(p.stem, p.title)) else None
       case None => None)
    case YMapping(pairs) => LinkItem(pairs)
    case _ => None
  }

  /** The items of a `navbar_order` list: every markdown item names a page, and never the index page. */
  function FromNavbarOrder(order: seq<Yaml>, files: seq<Page>, dropdowns: Option<map<string, Yaml>>): (r: seq<NavbarItem>)
    ensures forall k :: 0 <= k < |r| && r[k].MarkdownFile? ==>
      Page(r[k].stem, r[k].title) in files && r[k].stem != IndexStem
  {
    if |order| == 0 then []
    else
      FromNavbarOrder(order[..|order| - 1], files, dropdowns) + ItemSeq(NavbarOrderItem(order[|order| - 1], files, dropdowns))
  }

  /** The items of a `page_order` list: pages that are not hidden and links, never a dropdown. */
  function FromPageOrder(order: seq<Yaml>, files: seq<Page>, hidden: set<string>): (r: seq<NavbarItem>)
    ensures forall k :: 0 <= k < |r| ==> !r[k].Dropdown?
    ensures forall k :: 0 <= k < |r| && r[k].MarkdownFile? ==>
      Page(r[k].stem, r[k].title) in files && (r[k].stem == IndexStem || r[k].stem !in hidden)
  {
    if |order| == 0 then []
    else FromPageOrder(order[..|order| - 1], files, hidden) + ItemSeq(PageOrderItem(order[|order| - 1], files, hidden))
  }

  /** Every page, in order, except the hidden ones; the index page is never hidden. */
  function FromFiles(files: seq<Page>, hidden: set<string>): (r: seq<NavbarItem>)
    ensures forall k :: 0 <= k < |r| ==>
      r[k].MarkdownFile? && Page(r[k].stem, r[k].title) in files && (r[k].stem == IndexStem || r[k].stem !in hidden)
  {
    if |files| == 0 then []
    else
      var p := files[|files| - 1];
      FromFiles(files[..|files| - 1], hidden) +
        (if p.stem == IndexStem || p.stem !in hidden then [MarkdownFile(p.stem, p.title)] else [])
  }

  /** The item the default loop gives for one page: the page, unless it is hidden and not `index`. */
  function FileItem(hidden: set<string>, p: Page): Option<NavbarItem> {
    if p.stem == IndexStem || p.stem !in hidden then Some(MarkdownFile(p.stem, p.title)) else None
  }

  function FileFilter(hidden: set<string>): Page -> Option<NavbarItem> {
    p => FileItem(hidden, p)
  }

  function NavbarOrderFilter(files: seq<Page>, dropdowns: Option<map<string, Yaml>>): Yaml -> Option<NavbarItem> {
    y => NavbarOrderItem(y, files, dropdowns)
  }

  function PageOrderFilter(files: seq<Page>, hidden: set<string>): Yaml -> Option<NavbarItem> {
    y => PageOrderItem(y, files, hidden)
  }

  /** One `Dropdown` item per key, in the order given. */
  function DropdownItems(keys: seq<string>): (r: seq<NavbarItem>)
    ensures |r| == |keys| && forall k :: 0 <= k < |keys| ==> r[k] == Dropdown(keys[k])
  {
    seq(|keys|, k requires 0 <= k < |keys| => Dropdown(keys[k]))
  }

  /** The dropdowns appended at the end, when the config has a dropdown map. */
  function Trailing(dropdowns: Option<map<string, Yaml>>, keys: seq<string>): seq<NavbarItem> {
    if dropdowns.Some? then DropdownItems(keys) else []
  }

  /**
   * What the navbar section of `main` builds. `keys` is the order in which
   * the dropdown map hands out its keys.
   */
  function NavbarItemsSpec(config: Config, files: seq<Page>, keys: seq<string>): seq<NavbarItem> {
    var hidden := HiddenPages(config.dropdowns);
    match config.navbarOrder
    case Some(order) => FromNavbarOrder(order, files, config.dropdowns)
    case None =>
      match config.pageOrder
      case Some(order) => FromPageOrder(order, files, hidden) + Trailing(config.dropdowns, keys)
      case None => FromFiles(files, hidden) + Trailing(config.dropdowns, keys)
  }

  /** The navbar section of `main`. */
  method BuildNavbarItems(config: Config, files: seq<Page>, keys: seq<string>) returns (items: seq<NavbarItem>)
    ensures items == NavbarItemsSpec(config, files, keys)
  {
    var hidden := PagesInDropdowns(config.dropdowns);
    if config.navbarOrder.Some? {
      items := ItemsFromNavbarOrder(config.navbarOrder.value, files, config.dropdowns);
    } else {
      if config.pageOrder.Some? {
        items := ItemsFromPageOrder(config.pageOrder.value, files, hidden);
      } else {
        items := ItemsFromFiles(files, hidden);
      }
      if config.dropdowns.Some? {
        items := AppendDropdowns(items, keys);
      }
    }
  }

  /** The `navbar_order` loop. */
  method ItemsFromNavbarOrder(order: seq<Yaml>, files: seq<Page>, dropdowns: Option<map<string, Yaml>>)
    returns (items: seq<NavbarItem>)
    ensures items == FromNavbarOrder(order, files, dropdowns)
  {
    items := [];
    for k := 0 to |order|
      invariant items == FromNavbarOrder(order[..k], files, dropdowns)
    {
      assert order[..k + 1][..k] == order[..k];
      match order[k] {
        case YString(name) =>
          if dropdowns.Some? && name in dropdowns.value {
            items := items + [Dropdown(name)];
          } else {
            match FindPage(files, name) {
              case Some(p) =>
                if p.stem != IndexStem {
                  items := items + [MarkdownFile(p.stem, p.title)];
                }
              case None =>
            }
          }
        case YMapping(pairs) =>
          match GetStr(pairs, DropdownKey) {
            case Some(name) =>
              items := items + [Dropdown(name)];
            case None =>
              var url := GetStr(pairs, UrlKey);
              var text := GetStr(pairs, TextKey);
              if url.Some? && text.Some? {
                items := items + [ExternalLink(url.value, text.value)];
              }
          }
        case _ =>
      }
    }
    assert order[..|order|] == order;
  }

  /** The `page_order` loop. */
  method ItemsFromPageOrder(order: seq<Yaml>, files: seq<Page>, hidden: set<string>) returns (items: seq<NavbarItem>)
    ensures items == FromPageOrder(order, files, hidden)
  {
    items := [];
    for k := 0 to |order|
      invariant items == FromPageOrder(order[..k], files, hidden)
    {
      assert order[..k + 1][..k] == order[..k];
      match order[k] {
        case YString(name) =>
          match FindPage(files, name) {
            case Some(p) =>
              if p.stem == IndexStem || p.stem !in hidden {
                items := items + [MarkdownFile(p.stem, p.title)];
              }
            case None =>
          }
        case YMapping(pairs) =>
          var url := GetStr(pairs, UrlKey);
          var text := GetStr(pairs, TextKey);
          if url.Some? && text.Some? {
            items := items + [ExternalLink(url.value, text.value)];
          }
        case _ =>
      }
    }
    assert order[..|order|] == order;
  }

  /** The default loop over every page. */
  method ItemsFromFiles(files: seq<Page>, hidden: set<string>) returns (items: seq<NavbarItem>)
    ensures items == FromFiles(files, hidden)
  {
    items := [];
    for k := 0 to |files|
      invariant items == FromFiles(files[..k], hidden)
    {
      assert files[..k + 1][..k] == files[..k];
      var p := files[k];
      if p.stem == IndexStem || p.stem !in hidden {
        items := items + [MarkdownFile(p.stem, p.title)];
      }
    }
    assert files[..|files|] == files;
  }

  /** The loop appending every dropdown, in key order. */
  method AppendDropdowns(prefix: seq<NavbarItem>, keys: seq<string>) returns (items: seq<NavbarItem>)
    ensures items == prefix + DropdownItems(keys)
  {
    items := prefix;
    for k := 0 to |keys|
      invariant items == prefix + DropdownItems(keys[..k])
    {
      assert DropdownItems(keys[..k + 1]) == DropdownItems(keys[..k]) + [Dropdown(keys[k])];
      items := items + [Dropdown(keys[k])];
    }
    assert keys[..|keys|] == keys;
  }

  // ---------------------------------------------------------------------
  // Properties of the navbar items
  // ---------------------------------------------------------------------

  /** Only the string items of sequence-valued dropdowns are hidden. */
  lemma {:induction false} HiddenPagesMeaning(dropdowns: Option<map<string, Yaml>>, s: string)
    ensures s in HiddenPages(dropdowns) <==>
      dropdowns.Some? &&
      exists d :: d in dropdowns.value && dropdowns.value[d].YSequence? && YString(s) in dropdowns.value[d].items
  {
    if dropdowns.Some? {
      var m := dropdowns.value;
      if s in HiddenPages(dropdowns) {
        var d, y :| d in m && m[d].YSequence? && y in m[d].items && y.YString? && y.str == s;
        assert y == YString(s);
      }
    }
  }

  /** `navbar_order` takes precedence: `page_order` then makes no difference. */
  lemma {:induction false} NavbarOrderFirst(config: Config, files: seq<Page>, keys: seq<string>, pageOrder: Option<seq<Yaml>>)
    requires config.navbarOrder.Some?
    ensures NavbarItemsSpec(config.(pageOrder := pageOrder), files, keys) == NavbarItemsSpec(config, files, keys)
    ensures NavbarItemsSpec(config, files, keys) == FromNavbarOrder(config.navbarOrder.value, files, config.dropdowns)
  {
  }

  /**
   * Under `navbar_order`, every page item names a discovered page other than
   * `index`; under `page_order` or by default, every page item names a
   * discovered page that is `index` or is not hidden. Unknown stems give no
   * item at all.
   */
  lemma {:induction false} PageItemsFromFiles(config: Config, files: seq<Page>, keys: seq<string>, k: nat)
    requires k < |NavbarItemsSpec(config, files, keys)| && NavbarItemsSpec(config, files, keys)[k].MarkdownFile?
    ensures var item := NavbarItemsSpec(config, files, keys)[k];
      Page(item.stem, item.title) in files &&
      (config.navbarOrder.Some? ==> item.stem != IndexStem) &&
      (config.navbarOrder.None? ==> item.stem == IndexStem || item.stem !in HiddenPages(config.dropdowns))
  {
    var r := NavbarItemsSpec(config, files, keys);
    if config.navbarOrder.None? {
      var hidden := HiddenPages(config.dropdowns);
      var head := if config.pageOrder.Some? then FromPageOrder(config.pageOrder.value, files, hidden)
        else FromFiles(files, hidden);
      var tail := Trailing(config.dropdowns, keys);
      assert r == head + tail;
      assert r[k] == head[k];
    }
  }

  lemma {:induction false} FromFilesGathered(files: seq<Page>, hidden: set<string>)
    ensures FromFiles(files, hidden) == Gathered(files, FileFilter(hidden))
    decreases |files|
  {
    if |files| > 0 {
      FromFilesGathered(files[..|files| - 1], hidden);
    }
  }

  /**
   * The default items are exactly the pages that are `index` or not hidden,
   * in page order: page `k`, when shown, comes right after the shown pages
   * before it, and there is one item per shown page.
   */
  lemma {:induction false} FromFilesExact(files: seq<Page>, hidden: set<string>)
    ensures |FromFiles(files, hidden)| == Hits(files, FileFilter(hidden))
    ensures forall k :: 0 <= k < |files| && (files[k].stem == IndexStem || files[k].stem !in hidden) ==>
      Hits(files[..k], FileFilter(hidden)) < |FromFiles(files, hidden)| &&
      FromFiles(files, hidden)[Hits(files[..k], FileFilter(hidden))] == MarkdownFile(files[k].stem, files[k].title)
  {
    var f := FileFilter(hidden);
    FromFilesGathered(files, hidden);
    GatheredLength(files, f);
    forall k | 0 <= k < |files| && (files[k].stem == IndexStem || files[k].stem !in hidden)
      ensures Hits(files[..k], f) < |FromFiles(files, hidden)| &&
        FromFiles(files, hidden)[Hits(files[..k], f)] == MarkdownFile(files[k].stem, files[k].title)
    {
      assert f(files[k]) == Some(MarkdownFile(files[k].stem, files[k].title));
      GatheredAt(files, f, k);
    }
  }

  lemma {:induction false} FromNavbarOrderGathered(order: seq<Yaml>, files: seq<Page>, dropdowns: Option<map<string, Yaml>>)
    ensures FromNavbarOrder(order, files, dropdowns) == Gathered(order, NavbarOrderFilter(files, dropdowns))
    decreases |order|
  {
    if |order| > 0 {
      FromNavbarOrderGathered(order[..|order| - 1], files, dropdowns);
    }
  }

  /**
   * Under `navbar_order`, entry by entry and in order: a name of a configured
   * dropdown gives that dropdown; any other name of a discovered page other
   * than `index` gives that page; a mapping with a string `dropdown` gives
   * that dropdown; any other mapping with string `url` and `text` gives an
   * external link. Entry `k`'s item comes right after the items of the
   * entries before it, and every item comes from some entry.
   */
  lemma {:induction false} FromNavbarOrderExact(order: seq<Yaml>, files: seq<Page>, dropdowns: Option<map<string, Yaml>>)
    ensures |FromNavbarOrder(order, files, dropdowns)| == Hits(order, NavbarOrderFilter(files, dropdowns))
    ensures forall k ::
      (0 <= k < |order| && order[k].YString? && dropdowns.Some? && order[k].str in dropdowns.value) ==>
      Hits(order[..k], NavbarOrderFilter(files, dropdowns)) < |FromNavbarOrder(order, files, dropdowns)| &&
      FromNavbarOrder(order, files, dropdowns)[Hits(order[..k], NavbarOrderFilter(files, dropdowns))] ==
        Dropdown(order[k].str)
    ensures forall k ::
      (0 <= k < |order| && order[k].YString? && !(dropdowns.Some? && order[k].str in dropdowns.value) &&
       FindPage(files, order[k].str).Some? && order[k].str != IndexStem) ==>
      Hits(order[..k], NavbarOrderFilter(files, dropdowns)) < |FromNavbarOrder(order, files, dropdowns)| &&
      FromNavbarOrder(order, files, dropdowns)[Hits(order[..k], NavbarOrderFilter(files, dropdowns))] ==
        MarkdownFile(order[k].str, FindPage(files, order[k].str).value.title)
    ensures forall k ::
      (0 <= k < |order| && order[k].YMapping? && GetStr(order[k].pairs, DropdownKey).Some?) ==>
      Hits(order[..k], NavbarOrderFilter(files, dropdowns)) < |FromNavbarOrder(order, files, dropdowns)| &&
      FromNavbarOrder(order, files, dropdowns)[Hits(order[..k], NavbarOrderFilter(files, dropdowns))] ==
        Dropdown(GetStr(order[k].pairs, DropdownKey).value)
    ensures forall k ::
      (0 <= k < |order| && order[k].YMapping? && GetStr(order[k].pairs, DropdownKey).None? &&
       GetStr(order[k].pairs, UrlKey).Some? && GetStr(order[k].pairs, TextKey).Some?) ==>
      Hits(order[..k], NavbarOrderFilter(files, dropdowns)) < |FromNavbarOrder(order, files, dropdowns)| &&
      FromNavbarOrder(order, files, dropdowns)[Hits(order[..k], NavbarOrderFilter(files, dropdowns))] ==
        ExternalLink(GetStr(order[k].pairs, UrlKey).value, GetStr(order[k].pairs, TextKey).value)
    ensures forall i :: 0 <= i < |FromNavbarOrder(order, files, dropdowns)| ==>
      exists k :: 0 <= k < |order| &&
        NavbarOrderItem(order[k], files, dropdowns) == Some(FromNavbarOrder(order, files, dropdowns)[i])
  {
    var f := NavbarOrderFilter(files, dropdowns);
    var r := FromNavbarOrder(order, files, dropdowns);
    FromNavbarOrderGathered(order, files, dropdowns);
    GatheredLength(order, f);
    forall k | 0 <= k < |order| && f(order[k]).Some?
      ensures Hits(order[..k], f) < |r| && r[Hits(order[..k], f)] == NavbarOrderItem(order[k], files, dropdowns).value
    {
      GatheredAt(order, f, k);
    }
    forall i | 0 <= i < |r| ensures exists k :: 0 <= k < |order| && NavbarOrderItem(order[k], files, dropdowns) == Some(r[i]) {
      var k := GatheredFrom(order, f, i);
      assert NavbarOrderItem(order[k], files, dropdowns) == Some(r[i]);
    }
  }

  lemma {:induction false} FromPageOrderGathered(order: seq<Yaml>, files: seq<Page>, hidden: set<string>)
    ensures FromPageOrder(order, files, hidden) == Gathered(order, PageOrderFilter(files, hidden))
    decreases |order|
  {
    if |order| > 0 {
      FromPageOrderGathered(order[..|order| - 1], files, hidden);
    }
  }

  /**
   * Entry by entry, in order: a name of a discovered page that is `index` or
   * not hidden gives that page, a mapping with string `url` and `text` gives
   * an external link, and every item comes from some entry. Entry `k`'s item
   * comes right after the items of the entries before it.
   */
  lemma {:induction false} FromPageOrderExact(order: seq<Yaml>, files: seq<Page>, hidden: set<string>)
    ensures |FromPageOrder(order, files, hidden)| == Hits(order, PageOrderFilter(files, hidden))
    ensures forall k ::
      (0 <= k < |order| && order[k].YString? && FindPage(files, order[k].str).Some? &&
       (order[k].str == IndexStem || order[k].str !in hidden)) ==>
      Hits(order[..k], PageOrderFilter(files, hidden)) < |FromPageOrder(order, files, hidden)| &&
      FromPageOrder(order, files, hidden)[Hits(order[..k], PageOrderFilter(files, hidden))] ==
        MarkdownFile(order[k].str, FindPage(files, order[k].str).value.title)
    ensures forall k ::
      (0 <= k < |order| && order[k].YMapping? &&
       GetStr(order[k].pairs, UrlKey).Some? && GetStr(order[k].pairs, TextKey).Some?) ==>
      Hits(order[..k], PageOrderFilter(files, hidden)) < |FromPageOrder(order, files, hidden)| &&
      FromPageOrder(order, files, hidden)[Hits(order[..k], PageOrderFilter(files, hidden))] ==
        ExternalLink(GetStr(order[k].pairs, UrlKey).value, GetStr(order[k].pairs, TextKey).value)
    ensures forall i :: 0 <= i < |FromPageOrder(order, files, hidden)| ==>
      exists k :: 0 <= k < |order| && PageOrderItem(order[k], files, hidden) == Some(FromPageOrder(order, files, hidden)[i])
  {
    var f := PageOrderFilter(files, hidden);
    var r := FromPageOrder(order, files, hidden);
    FromPageOrderGathered(order, files, hidden);
    GatheredLength(order, f);
    forall k | 0 <= k < |order| && order[k].YString? && FindPage(files, order[k].str).Some? &&
      (order[k].str == IndexStem || order[k].str !in hidden)
      ensures Hits(order[..k], f) < |r| && r[Hits(order[..k], f)] == MarkdownFile(order[k].str, FindPage(files, order[k].str).value.title)
    {
      assert f(order[k]) == Some(MarkdownFile(order[k].str, FindPage(files, order[k].str).value.title));
      GatheredAt(order, f, k);
    }
    forall k | 0 <= k < |order| && order[k].YMapping? &&
      GetStr(order[k].pairs, UrlKey).Some? && GetStr(order[k].pairs, TextKey).Some?
      ensures Hits(order[..k], f) < |r| &&
        r[Hits(order[..k], f)] == ExternalLink(GetStr(order[k].pairs, UrlKey).value, GetStr(order[k].pairs, TextKey).value)
    {
      assert f(order[k]) == LinkItem(order[k].pairs);
      GatheredAt(order, f, k);
    }
    forall i | 0 <= i < |r| ensures exists k :: 0 <= k < |order| && PageOrderItem(order[k], files, hidden) == Some(r[i]) {
      var k := GatheredFrom(order, f, i);
      assert PageOrderItem(order[k], files, hidden) == Some(r[i]);
    }
  }

  /**
   * By default, a page is listed unless a sequence dropdown names it: a page
   * that only a mapping dropdown names still gets its own item.
   */
  lemma {:induction false} DefaultListsPage(config: Config, files: seq<Page>, keys: seq<string>, k: nat)
    requires config.navbarOrder.None? && config.pageOrder.None? && k < |files|
    requires config.dropdowns.Some? ==> forall d :: d in config.dropdowns.value && config.dropdowns.value[d].YSequence? ==>
      YString(files[k].stem) !in config.dropdowns.value[d].items
    ensures MarkdownFile(files[k].stem, files[k].title) in NavbarItemsSpec(config, files, keys)
  {
    var hidden := HiddenPages(config.dropdowns);
    HiddenPagesMeaning(config.dropdowns, files[k].stem);
    FromFilesExact(files, hidden);
    var head := FromFiles(files, hidden);
    assert head[Hits(files[..k], FileFilter(hidden))] == MarkdownFile(files[k].stem, files[k].title);
    assert NavbarItemsSpec(config, files, keys) == head + Trailing(config.dropdowns, keys);
  }

  /** Each entry's item, if any, is among the items of the whole list. */
  lemma {:induction false} NavbarOrderEntryKept(order: seq<Yaml>, files: seq<Page>, dropdowns: Option<map<string, Yaml>>, k: nat)
    requires k < |order| && NavbarOrderItem(order[k], files, dropdowns).Some?
    ensures NavbarOrderItem(order[k], files, dropdowns).value in FromNavbarOrder(order, files, dropdowns)
    decreases |order|
  {
    var n := |order|;
    if k < n - 1 {
      NavbarOrderEntryKept(order[..n - 1], files, dropdowns, k);
      assert order[..n - 1][k] == order[k];
    }
  }

  /**
   * Under `navbar_order`, a name that is a dropdown gives that dropdown even
   * when a page has the same stem, and a page named there is listed even
   * when a sequence dropdown hides it.
   */
  lemma {:induction false} NavbarOrderNames(config: Config, files: seq<Page>, keys: seq<string>, k: nat, name: string)
    requires config.navbarOrder.Some? && k < |config.navbarOrder.value| && config.navbarOrder.value[k] == YString(name)
    ensures config.dropdowns.Some? && name in config.dropdowns.value ==>
      Dropdown(name) in NavbarItemsSpec(config, files, keys)
    ensures !(config.dropdowns.Some? && name in config.dropdowns.value) && FindPage(files, name).Some? && name != IndexStem ==>
      MarkdownFile(name, FindPage(files, name).value.title) in NavbarItemsSpec(config, files, keys)
  {
    var order := config.navbarOrder.value;
    if NavbarOrderItem(order[k], files, config.dropdowns).Some? {
      NavbarOrderEntryKept(order, files, config.dropdowns, k);
    }
  }

  /** The dropdown map's keys, each exactly once. */
  predicate Enumerates(keys: seq<string>, m: map<string, Yaml>) {
    (forall i, j :: 0 <= i < j < |keys| ==> keys[i] != keys[j]) &&
    m.Keys == set k | k in keys
  }

  /**
   * Without `navbar_order`, the dropdowns come last, every dropdown of the
   * map once and nothing else: the page and link items hold none.
   */
  lemma {:induction false} DropdownsLast(config: Config, files: seq<Page>, keys: seq<string>)
    requires config.navbarOrder.None?
    requires config.dropdowns.Some? ==> Enumerates(keys, config.dropdowns.value)
    ensures var r := NavbarItemsSpec(config, files, keys);
      var t := if config.dropdowns.Some? then |keys| else 0;
      t <= |r| &&
      (forall i :: 0 <= i < |r| ==> (r[i].Dropdown? <==> i >= |r| - t)) &&
      (forall i, j :: 0 <= i < j < |r| && r[i].Dropdown? ==> r[i] != r[j]) &&
      (forall n :: Dropdown(n) in r <==> config.dropdowns.Some? && n in config.dropdowns.value)
  {
    var r := NavbarItemsSpec(config, files, keys);
    var hidden := HiddenPages(config.dropdowns);
    var head := if config.pageOrder.Some? then FromPageOrder(config.pageOrder.value, files, hidden)
      else FromFiles(files, hidden);
    assert forall i :: 0 <= i < |head| ==> !head[i].Dropdown?;
    if config.dropdowns.Some? {
      assert r == head + DropdownItems(keys);
      DropdownTail(head, keys, config.dropdowns.value, r);
    } else {
      assert r == head;
    }
  }

  /** Items without dropdowns, then the dropdowns of an enumeration of `m`. */
  lemma {:induction false} DropdownTail(head: seq<NavbarItem>, keys: seq<string>, m: map<string, Yaml>, r: seq<NavbarItem>)
    requires forall i :: 0 <= i < |head| ==> !head[i].Dropdown?
    requires Enumerates(keys, m)
    requires r == head + DropdownItems(keys)
    ensures |keys| <= |r|
    ensures forall i :: 0 <= i < |r| ==> (r[i].Dropdown? <==> i >= |r| - |keys|)
    ensures forall i, j :: 0 <= i < j < |r| && r[i].Dropdown? ==> r[i] != r[j]
    ensures forall n :: Dropdown(n) in r <==> n in m
  {
    var tail := DropdownItems(keys);
    forall n ensures Dropdown(n) in r <==> n in m {
      if Dropdown(n) in r {
        var i :| 0 <= i < |r| && r[i] == Dropdown(n);
        assert i >= |head| && r[i] == tail[i - |head|];
      }
      if n in m {
        var j :| 0 <= j < |keys| && keys[j] == n;
        assert r[|head| + j] == Dropdown(n);
      }
    }
  }
}
