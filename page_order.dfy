/**
 * The order of the discovered pages. With a `page_order` list, the `index`
 * page is taken out and put first, and the others are sorted by their
 * position in the list, listed pages before unlisted ones and unlisted pages
 * by name. Without one, all pages are sorted by name with `index` first.
 *
 * `sort_by` is a stable sort; it is modelled by a stable insertion sort over
 * the same comparator.
 */
module PageOrder {
  import opened Strings
  import opened Site

  /** `std::cmp::Ordering`. */
  datatype Cmp = Less | Equal | Greater

  function Flip(c: Cmp): Cmp {
    match c
    case Less => Greater
    case Equal => Equal
    case Greater => Less
  }

  /** `usize::cmp`. */
  function NatCmp(a: nat, b: nat): (c: Cmp)
    ensures c == Less <==> a < b
    ensures c == Equal <==> a == b
  {
    if a < b then Less else if a == b then Equal else Greater
  }

  /** `str::cmp`: lexicographic by character, a proper prefix first (the order of the UTF-8 bytes). */
  function StrCmp(a: string, b: string): Cmp
    decreases |a|
  {
    if |a| == 0 then (if |b| == 0 then Equal else Less)
    else if |b| == 0 then Greater
    else if a[0] < b[0] then Less
    else if b[0] < a[0] then Greater
    else StrCmp(a[1..], b[1..])
  }

  /** Two names compare equal exactly when they are the same name. */
  lemma {:induction false} StrCmpEqual(a: string, b: string)
    ensures StrCmp(a, b) == Equal <==> a == b
    decreases |a|
  {
    if |a| > 0 && |b| > 0 && a[0] == b[0] {
      StrCmpEqual(a[1..], b[1..]);
      assert a == [a[0]] + a[1..];
      assert b == [b[0]] + b[1..];
    }
  }

  /** Comparing the other way round gives the opposite answer. */
  lemma {:induction false} StrCmpFlip(a: string, b: string)
    ensures StrCmp(b, a) == Flip(StrCmp(a, b))
    decreases |a|
  {
    if |a| > 0 && |b| > 0 && a[0] == b[0] {
      StrCmpFlip(a[1..], b[1..]);
    }
  }

  lemma {:induction false} StrCmpTransitive(a: string, b: string, c: string)
    requires StrCmp(a, b) == Less && StrCmp(b, c) == Less
    ensures StrCmp(a, c) == Less
    decreases |a|
  {
    if |a| > 0 && a[0] == b[0] && b[0] == c[0] {
      StrCmpTransitive(a[1..], b[1..], c[1..]);
    }
  }

  /** `order.iter().position(|x| x.as_str() == Some(name))`. */
  function Position(order: seq<Yaml>, name: string): (r: Option<nat>)
    ensures r.Some? ==> r.value < |order| && order[r.value] == YString(name)
    ensures r.Some? ==> forall k :: 0 <= k < r.value ==> order[k] != YString(name)
    ensures r.None? ==> forall k :: 0 <= k < |order| ==> order[k] != YString(name)
  {
    if |order| == 0 then None
    else if order[0] == YString(name) then Some(0)
    else match Position(order[1..], name)
      case None => None
      case Some(k) => Some(k + 1)
  }

  /** Which comparator sorts the pages. */
  datatype Ordering = ByPageOrder(order: seq<Yaml>) | ByName

  /** The two `sort_by` comparators. */
  function Compare(ord: Ordering, a: Page, b: Page): Cmp {
    match ord
    case ByPageOrder(order) =>
      (match (Position(order, a.stem), Position(order, b.stem))
       case (Some(i), Some(j)) => NatCmp(i, j)
       case (Some(_), None) => Less
       case (None, Some(_)) => Greater
       case (None, None) => StrCmp(a.stem, b.stem))
    case ByName =>
      var ai := a.stem == IndexStem;
      var bi := b.stem == IndexStem;
      if ai && !bi then Less
      else if !ai && bi then Greater
      else StrCmp(a.stem, b.stem)
  }

  /**
   * Both comparators are total orders on stems: they are antisymmetric,
   * transitive, and call two pages equal only when their stems are equal.
   */
  lemma {:induction false} CompareFlip(ord: Ordering, a: Page, b: Page)
    ensures Compare(ord, b, a) == Flip(Compare(ord, a, b))
  {
    StrCmpFlip(a.stem, b.stem);
  }

  lemma {:induction false} CompareEqual(ord: Ordering, a: Page, b: Page)
    ensures Compare(ord, a, b) == Equal <==> a.stem == b.stem
  {
    StrCmpEqual(a.stem, b.stem);
    if ord.ByPageOrder? {
      var pa := Position(ord.order, a.stem);
      var pb := Position(ord.order, b.stem);
      if pa.Some? && pb.Some? && pa.value == pb.value {
        assert YString(a.stem) == YString(b.stem);
      }
    }
  }

  lemma {:induction false} CompareTransitive(ord: Ordering, a: Page, b: Page, c: Page)
    requires Compare(ord, a, b) == Less && Compare(ord, b, c) == Less
    ensures Compare(ord, a, c) == Less
  {
    if ord.ByPageOrder? {
      if Position(ord.order, a.stem).None? {
        StrCmpTransitive(a.stem, b.stem, c.stem);
      }
    } else if StrCmp(a.stem, b.stem) == Less && StrCmp(b.stem, c.stem) == Less {
      StrCmpTransitive(a.stem, b.stem, c.stem);
    }
  }

  // ---------------------------------------------------------------------
  // Stable sorting
  // ---------------------------------------------------------------------

  /** No page is greater than a later one. */
  predicate Sorted(ord: Ordering, s: seq<Page>) {
    forall i, j :: 0 <= i < j < |s| ==> Compare(ord, s[i], s[j]) != Greater
  }

  /** Inserting `x` into sorted `s` after every page not greater than it. */
  function Insert(ord: Ordering, x: Page, s: seq<Page>): seq<Page> {
    if |s| == 0 || Compare(ord, x, s[0]) == Less then [x] + s
    else [s[0]] + Insert(ord, x, s[1..])
  }

  /** `sort_by`, stable: each page goes after the earlier pages that are not greater than it. */
  function SortBy(ord: Ordering, s: seq<Page>): seq<Page> {
    if |s| == 0 then []
    else Insert(ord, s[|s| - 1], SortBy(ord, s[..|s| - 1]))
  }

  /** Inserting adds `x` and nothing else. */
  lemma {:induction false} InsertPermutes(ord: Ordering, x: Page, s: seq<Page>)
    ensures multiset(Insert(ord, x, s)) == multiset(s) + multiset{x}
    decreases |s|
  {
    if |s| > 0 && Compare(ord, x, s[0]) != Less {
      InsertPermutes(ord, x, s[1..]);
      assert s == [s[0]] + s[1..];
    }
  }

  /** Sorting neither loses nor adds a page. */
  lemma {:induction false} SortByPermutes(ord: Ordering, s: seq<Page>)
    ensures multiset(SortBy(ord, s)) == multiset(s)
    decreases |s|
  {
    if |s| > 0 {
      var init, x := s[..|s| - 1], s[|s| - 1];
      assert s == init + [x];
      assert multiset(s) == multiset(init) + multiset{x};
      SortByPermutes(ord, init);
      InsertPermutes(ord, x, SortBy(ord, init));
    }
  }

  lemma {:induction false} InsertSorted(ord: Ordering, x: Page, s: seq<Page>)
    requires Sorted(ord, s)
    ensures Sorted(ord, Insert(ord, x, s))
    decreases |s|
  {
    if |s| == 0 || Compare(ord, x, s[0]) == Less {
      forall k | 0 <= k < |s| ensures Compare(ord, x, s[k]) != Greater {
        if k > 0 {
          InsertAhead(ord, x, s, k);
        }
      }
      ConsSorted(ord, x, s);
    } else {
      InsertSorted(ord, x, s[1..]);
      var tail := Insert(ord, x, s[1..]);
      InsertPermutes(ord, x, s[1..]);
      forall k | 0 <= k < |tail| ensures Compare(ord, s[0], tail[k]) != Greater {
        assert tail[k] in multiset(tail);
        HeadNotGreater(ord, x, s, tail[k]);
      }
      ConsSorted(ord, s[0], tail);
    }
  }

  /** A page not greater than any page of sorted `t` can go in front of it. */
  lemma {:induction false} ConsSorted(ord: Ordering, h: Page, t: seq<Page>)
    requires Sorted(ord, t)
    requires forall k :: 0 <= k < |t| ==> Compare(ord, h, t[k]) != Greater
    ensures Sorted(ord, [h] + t)
  {
    var r := [h] + t;
    forall i, j | 0 <= i < j < |r| ensures Compare(ord, r[i], r[j]) != Greater {
      if i == 0 {
        assert r[j] == t[j - 1];
      } else {
        assert r[i] == t[i - 1] && r[j] == t[j - 1];
      }
    }
  }

  /** A page placed before `s[0]` is below every page of sorted `s`. */
  lemma {:induction false} InsertAhead(ord: Ordering, x: Page, s: seq<Page>, k: nat)
    requires Sorted(ord, s) && 0 < k < |s| && Compare(ord, x, s[0]) == Less
    ensures Compare(ord, x, s[k]) != Greater
  {
    if Compare(ord, x, s[k]) == Greater {
      CompareFlip(ord, x, s[k]);
      CompareTransitive(ord, s[k], x, s[0]);
      CompareFlip(ord, s[0], s[k]);
    }
  }

  /** The head of sorted `s`, when `x` is not below it, is below everything that follows it after inserting `x`. */
  lemma {:induction false} HeadNotGreater(ord: Ordering, x: Page, s: seq<Page>, y: Page)
    requires Sorted(ord, s) && |s| > 0 && Compare(ord, x, s[0]) != Less
    requires y == x || y in multiset(s[1..])
    ensures Compare(ord, s[0], y) != Greater
  {
    if y == x {
      CompareFlip(ord, x, s[0]);
    } else {
      var k :| 0 <= k < |s[1..]| && s[1..][k] == y;
      assert s[k + 1] == y;
    }
  }

  /** The sort's result is sorted. */
  lemma {:induction false} SortBySorted(ord: Ordering, s: seq<Page>)
    ensures Sorted(ord, SortBy(ord, s))
    decreases |s|
  {
    if |s| > 0 {
      SortBySorted(ord, s[..|s| - 1]);
      InsertSorted(ord, s[|s| - 1], SortBy(ord, s[..|s| - 1]));
    }
  }

  // ---------------------------------------------------------------------
  // Ordering the discovered pages
  // ---------------------------------------------------------------------

  /** The loop that takes `index` out: the last `index` page seen, and the other pages in order. */
  function Partition(files: seq<Page>): (r: (Option<Page>, seq<Page>))
    ensures r.0.Some? ==> r.0.value in files && r.0.value.stem == IndexStem
    ensures r.0.None? ==> forall k :: 0 <= k < |files| ==> files[k].stem != IndexStem
    ensures forall k :: 0 <= k < |r.1| ==> r.1[k].stem != IndexStem
  {
    if |files| == 0 then (None, [])
    else
      var last := files[|files| - 1];
      var (index, others) := Partition(files[..|files| - 1]);
      if last.stem == IndexStem then (Some(last), others) else (index, others + [last])
  }

  /** The index page, if there is one, as a list. */
  function OptionSeq(p: Option<Page>): seq<Page> {
    if p.Some? then [p.value] else []
  }

  /** The page list `main` goes on with. */
  function OrderPagesSpec(files: seq<Page>, pageOrder: Option<seq<Yaml>>): seq<Page> {
    match pageOrder
    case Some(order) =>
      var (index, others) := Partition(files);
      OptionSeq(index) + SortBy(ByPageOrder(order), others)
    case None => SortBy(ByName, files)
  }

  /** The ordering section of `main`. */
  method OrderPages(files: seq<Page>, pageOrder: Option<seq<Yaml>>) returns (sorted: seq<Page>)
    ensures sorted == OrderPagesSpec(files, pageOrder)
  {
    if pageOrder.Some? {
      var indexFile: Option<Page> := None;
      var otherFiles: seq<Page> := [];
      for k := 0 to |files|
        invariant (indexFile, otherFiles) == Partition(files[..k])
      {
        assert files[..k + 1][..k] == files[..k];
        if files[k].stem == IndexStem {
          indexFile := Some(files[k]);
        } else {
          otherFiles := otherFiles + [files[k]];
        }
      }
      assert files[..|files|] == files;
      otherFiles := SortBy(ByPageOrder(pageOrder.value), otherFiles);
      sorted := [];
      if indexFile.Some? {
        sorted := sorted + [indexFile.value];
      }
      sorted := sorted + otherFiles;
    } else {
      sorted := SortBy(ByName, files);
    }
  }

  // ---------------------------------------------------------------------
  // Properties of the page order
  // ---------------------------------------------------------------------

  /** At most one page is the index page. */
  predicate OneIndex(files: seq<Page>) {
    forall i, j :: 0 <= i < j < |files| && files[i].stem == IndexStem ==> files[j].stem != IndexStem
  }

  /** Taking the index page out loses no page when there is at most one. */
  lemma {:induction false} PartitionKeepsPages(files: seq<Page>)
    requires OneIndex(files)
    ensures multiset(OptionSeq(Partition(files).0)) + multiset(Partition(files).1) == multiset(files)
    decreases |files|
  {
    var n := |files|;
    if n > 0 {
      var init, x := files[..n - 1], files[n - 1];
      assert files == init + [x];
      assert multiset(files) == multiset(init) + multiset{x};
      assert OneIndex(init);
      PartitionKeepsPages(init);
      PartitionSnoc(init, x);
      var (index, others) := Partition(init);
      if x.stem == IndexStem {
        forall k | 0 <= k < |init| ensures init[k].stem != IndexStem {
          assert files[k] == init[k];
        }
        assert index.None?;
      } else {
        assert multiset(others + [x]) == multiset(others) + multiset{x};
      }
    }
  }

  /** Ordering is a permutation of the discovered pages, given that at most one of them is `index`. */
  lemma {:induction false} OrderIsPermutation(files: seq<Page>, pageOrder: Option<seq<Yaml>>)
    requires OneIndex(files)
    ensures multiset(OrderPagesSpec(files, pageOrder)) == multiset(files)
  {
    if pageOrder.Some? {
      PartitionKeepsPages(files);
      SortByPermutes(ByPageOrder(pageOrder.value), Partition(files).1);
    } else {
      SortByPermutes(ByName, files);
    }
  }

  /** When there is an index page, it comes first. */
  lemma {:induction false} IndexFirst(files: seq<Page>, pageOrder: Option<seq<Yaml>>, k: nat)
    requires k < |files| && files[k].stem == IndexStem
    ensures var sorted := OrderPagesSpec(files, pageOrder);
      |sorted| > 0 && sorted[0].stem == IndexStem
  {
    if pageOrder.None? {
      var sorted := SortBy(ByName, files);
      SortBySorted(ByName, files);
      SortByPermutes(ByName, files);
      assert files[k] in multiset(sorted);
      var m :| 0 <= m < |sorted| && sorted[m] == files[k];
    }
  }

  /**
   * Under `page_order`, after the index page: listed pages come before
   * unlisted ones, listed pages in the order of their first listing, and
   * unlisted pages by name.
   */
  lemma {:induction false} PageOrderHonoured(files: seq<Page>, order: seq<Yaml>, sorted: seq<Page>, i: nat, j: nat)
    requires sorted == OrderPagesSpec(files, Some(order))
    requires i < j < |sorted| && sorted[i].stem != IndexStem && sorted[j].stem != IndexStem
    ensures ListedOrder(order, sorted[i], sorted[j])
  {
    var others := Partition(files).1;
    var d := |OptionSeq(Partition(files).0)|;
    SortedPart(files, order, sorted, i);
    SortedPart(files, order, sorted, j);
    SortedListed(order, others, i - d, j - d, sorted[i], sorted[j]);
  }

  /** A page after the index prefix is a page of the sorted non-index part. */
  lemma {:induction false} SortedPart(files: seq<Page>, order: seq<Yaml>, sorted: seq<Page>, i: nat)
    requires sorted == OrderPagesSpec(files, Some(order))
    requires i < |sorted| && sorted[i].stem != IndexStem
    ensures var d := |OptionSeq(Partition(files).0)|;
      var rest := SortBy(ByPageOrder(order), Partition(files).1);
      d <= i && i - d < |rest| && sorted[i] == rest[i - d]
  {
    var d := |OptionSeq(Partition(files).0)|;
    var rest := SortBy(ByPageOrder(order), Partition(files).1);
    OrderPagesSpecSome(files, order);
    assert sorted[d..] == rest;
    if d == 1 {
      assert i != 0;
      assert sorted[d..][i - d] == sorted[i];
    }
  }

  /** Two positions of the pages sorted by `page_order`. */
  lemma {:induction false} SortedListed(order: seq<Yaml>, s: seq<Page>, a: nat, b: nat, x: Page, y: Page)
    requires a < b < |SortBy(ByPageOrder(order), s)|
    requires x == SortBy(ByPageOrder(order), s)[a] && y == SortBy(ByPageOrder(order), s)[b]
    ensures ListedOrder(order, x, y)
  {
    SortBySorted(ByPageOrder(order), s);
    ListedCompare(order, x, y);
  }

  /**
   * `x` may precede `y` under `page_order`: a listed page is never preceded
   * by an unlisted one, listed pages keep the order of their first listing,
   * and unlisted pages go by name.
   */
  predicate ListedOrder(order: seq<Yaml>, x: Page, y: Page) {
    var px := Position(order, x.stem);
    var py := Position(order, y.stem);
    (py.Some? ==> px.Some?) &&
    (px.Some? && py.Some? ==> px.value <= py.value) &&
    (px.None? && py.None? ==> StrCmp(x.stem, y.stem) != Greater)
  }

  /** What `page_order`'s comparator not ranking `x` above `y` means. */
  lemma {:induction false} ListedCompare(order: seq<Yaml>, x: Page, y: Page)
    requires Compare(ByPageOrder(order), x, y) != Greater
    ensures ListedOrder(order, x, y)
  {
  }

  /** Without `page_order`, the pages after `index` are in name order. */
  lemma {:induction false} DefaultByName(files: seq<Page>, i: nat, j: nat)
    requires var sorted := OrderPagesSpec(files, None);
      i < j < |sorted| && sorted[i].stem != IndexStem && sorted[j].stem != IndexStem
    ensures var sorted := OrderPagesSpec(files, None);
      StrCmp(sorted[i].stem, sorted[j].stem) != Greater
  {
    SortBySorted(ByName, files);
  }

  /**
   * `page_order: [b, a]` over the pages `a`, `b`, `c` and `index` (found in
   * that order) gives `index, b, a, c`.
   */
  lemma {:induction false} PageOrderExample(a: string, b: string, c: string, ta: string, tb: string, tc: string, ti: string)
    requires a != b && a != c && b != c
    requires a != IndexStem && b != IndexStem && c != IndexStem
    ensures var files := [Page(a, ta), Page(b, tb), Page(c, tc), Page(IndexStem, ti)];
      OrderPagesSpec(files, Some([YString(b), YString(a)])) == [Page(IndexStem, ti), Page(b, tb), Page(a, ta), Page(c, tc)]
  {
    var pa, pb, pc, pi := Page(a, ta), Page(b, tb), Page(c, tc), Page(IndexStem, ti);
    var order := [YString(b), YString(a)];
    var ord := ByPageOrder(order);
    assert Position(order, b) == Some(0);
    assert Position(order, a) == Some(1);
    assert Position(order, c) == None;
    assert [] + [pa] == [pa] && [pa] + [pb] == [pa, pb] && [pa, pb] + [pc] == [pa, pb, pc];
    assert [pa, pb, pc] + [pi] == [pa, pb, pc, pi];
    PartitionSnoc([], pa);
    PartitionSnoc([pa], pb);
    PartitionSnoc([pa, pb], pc);
    PartitionSnoc([pa, pb, pc], pi);
    assert Partition([pa, pb, pc, pi]) == (Some(pi), [pa, pb, pc]);
    SortBySnoc(ord, [], pa);
    SortBySnoc(ord, [pa], pb);
    SortBySnoc(ord, [pa, pb], pc);
    assert Compare(ord, pb, pa) == Less;
    assert Compare(ord, pc, pb) == Greater && Compare(ord, pc, pa) == Greater;
    InsertExample(ord, pa, pb, pc);
    assert SortBy(ord, [pa, pb]) == [pb, pa];
    assert SortBy(ord, [pa, pb, pc]) == [pb, pa, pc];
    OrderPagesSpecSome([pa, pb, pc, pi], order);
    IndexPrepended(pi, pb, pa, pc);
  }

  lemma {:induction false} IndexPrepended(pi: Page, p1: Page, p2: Page, p3: Page)
    ensures OptionSeq(Some(pi)) + [p1, p2, p3] == [pi, p1, p2, p3]
  {
  }

  /** The two insertions of the example above. */
  lemma {:induction false} InsertExample(ord: Ordering, pa: Page, pb: Page, pc: Page)
    requires Compare(ord, pb, pa) == Less
    requires Compare(ord, pc, pb) != Less && Compare(ord, pc, pa) != Less
    ensures Insert(ord, pb, Insert(ord, pa, [])) == [pb, pa]
    ensures Insert(ord, pc, [pb, pa]) == [pb, pa, pc]
  {
    assert [pb, pa][1..] == [pa];
    assert Insert(ord, pc, [pa]) == [pa, pc];
  }

  lemma {:induction false} OrderPagesSpecSome(files: seq<Page>, order: seq<Yaml>)
    ensures OrderPagesSpec(files, Some(order)) ==
      OptionSeq(Partition(files).0) + SortBy(ByPageOrder(order), Partition(files).1)
  {
  }

  lemma {:induction false} PartitionSnoc(files: seq<Page>, x: Page)
    ensures x.stem == IndexStem ==> Partition(files + [x]) == (Some(x), Partition(files).1)
    ensures x.stem != IndexStem ==> Partition(files + [x]) == (Partition(files).0, Partition(files).1 + [x])
  {
    assert (files + [x])[..|files|] == files;
  }

  lemma {:induction false} SortBySnoc(ord: Ordering, s: seq<Page>, x: Page)
    ensures SortBy(ord, s + [x]) == Insert(ord, x, SortBy(ord, s))
  {
    assert (s + [x])[..|s|] == s;
  }
}
