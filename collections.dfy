/**
 * The list logic of vite-rsc/src/collections.ts over abstract content entries:
 * sidebar titles, hidden entries, the pre-order flattening of the entry tree,
 * breadcrumbs, previous/next siblings, the directory and file lookups.
 * The content-collection library (titles of entries, file and directory
 * lookups, whether an entry is external) is given as values and functions.
 */
module Collections {
  import opened Wrappers
  import opened Strings

  // ---------------------------------------------------------------------------
  // Titles

  /** The frontmatter fields the sidebar reads; `None` is a field left out. */
  datatype Frontmatter = Frontmatter(navTitle: Option<string>, title: Option<string>)

  /** `getTitle`: `navTitle`, then `title` when `includeTitle` is set, then the
      title the collection gives the entry. */
  function Title(entryTitle: string, fm: Frontmatter, includeTitle: bool): (r: string)
    ensures fm.navTitle.Some? ==> r == fm.navTitle.value
    ensures fm.navTitle.None? && includeTitle && fm.title.Some? ==> r == fm.title.value
    ensures fm.navTitle.None? && (!includeTitle || fm.title.None?) ==> r == entryTitle
  {
    if includeTitle then
      (if fm.navTitle.Some? then fm.navTitle.value else if fm.title.Some? then fm.title.value else entryTitle)
    else
      (if fm.navTitle.Some? then fm.navTitle.value else entryTitle)
  }

  /** Without `includeTitle`, `title` is never consulted. */
  lemma TitleIgnoresTitle(entryTitle: string, fm: Frontmatter, other: Option<string>)
    ensures Title(entryTitle, fm, false) == Title(entryTitle, fm.(title := other), false)
  {
  }

  // ---------------------------------------------------------------------------
  // Entries and hidden entries

  /** A file-system entry: its base name, its pathname segments, and for a
      directory its children in the order the collection lists them. */
  datatype Entry =
    | File(baseName: string, segments: seq<string>)
    | Directory(baseName: string, segments: seq<string>, children: seq<Entry>)

  /** `isHidden`: the base name starts with "_". */
  predicate Hidden(e: Entry): (r: bool)
    ensures r <==> |e.baseName| >= 1 && e.baseName[0] == '_'
  {
    StartsWith(e.baseName, "_")
  }

  /** The serialisable form of an entry that breadcrumbs and siblings work on. */
  datatype Page = Page(title: string, segments: seq<string>, rawPathname: string)

  /** `isHiddenTransformed`: the last segment starts with "_". Reading the last
      segment of an empty list throws, so the segments must not be empty. */
  predicate HiddenPage(p: Page): (r: bool)
    requires |p.segments| >= 1
    ensures r <==> |p.segments[|p.segments| - 1]| >= 1 && p.segments[|p.segments| - 1][0] == '_'
  {
    StartsWith(p.segments[|p.segments| - 1], "_")
  }

  // ---------------------------------------------------------------------------
  // flattenEntries

  /** The entry followed by the flattening of each child, in child order; a
      hidden entry contributes nothing, and neither does anything below it. */
  function Flattened(e: Entry): seq<Entry>
    decreases e, 1
  {
    if Hidden(e) then []
    else if e.Directory? then [e] + FlattenedAll(e.children)
    else [e]
  }

  /** The flattenings of a list of entries, one after the other. */
  function FlattenedAll(es: seq<Entry>): seq<Entry>
    decreases es, 0
  {
    if |es| == 0 then []
    else
      var n := |es| - 1;
      assert es[n] in es;
      FlattenedAll(es[..n]) + Flattened(es[n])
  }

  lemma FlattenedAllNext(es: seq<Entry>, i: int)
    requires 0 <= i < |es|
    ensures FlattenedAll(es[..i + 1]) == FlattenedAll(es[..i]) + Flattened(es[i])
  {
    assert es[..i + 1][..i] == es[..i];
  }

  /** `flattenEntries`: the entry, then the entries of each child pushed in turn. */
  method FlattenEntries(entry: Entry) returns (entries: seq<Entry>)
    ensures entries == Flattened(entry)
    decreases entry
  {
    if Hidden(entry) {
      return [];
    }
    entries := [entry];
    if entry.Directory? {
      var children := entry.children;
      for i := 0 to |children|
        invariant entries == [entry] + FlattenedAll(children[..i])
      {
        assert children[i] in entry.children;
        var childEntries := FlattenEntries(children[i]);
        FlattenedAllNext(children, i);
        entries := entries + childEntries;
      }
      assert children[..|children|] == children;
    }
  }

  /** Flattening a concatenation flattens each part. */
  lemma {:induction false} FlattenedAllConcat(a: seq<Entry>, b: seq<Entry>)
    ensures FlattenedAll(a + b) == FlattenedAll(a) + FlattenedAll(b)
    decreases |b|
  {
    if |b| > 0 {
      var n := |b| - 1;
      assert (a + b)[..|a| + n] == a + b[..n];
      assert (a + b)[|a| + n] == b[n];
      FlattenedAllConcat(a, b[..n]);
    } else {
      assert a + b == a;
    }
  }

  /** Nothing hidden is listed, and a visible entry is listed first. */
  lemma {:induction false} FlattenedVisible(e: Entry)
    ensures forall x :: x in Flattened(e) ==> !Hidden(x)
    ensures !Hidden(e) ==> |Flattened(e)| >= 1 && Flattened(e)[0] == e
    ensures Hidden(e) ==> Flattened(e) == []
    decreases e, 1
  {
    if !Hidden(e) && e.Directory? {
      FlattenedAllVisible(e.children);
    }
  }

  lemma {:induction false} FlattenedAllVisible(es: seq<Entry>)
    ensures forall x :: x in FlattenedAll(es) ==> !Hidden(x)
    decreases es, 0
  {
    if |es| > 0 {
      var n := |es| - 1;
      assert es[n] in es;
      FlattenedAllVisible(es[..n]);
      FlattenedVisible(es[n]);
    }
  }

  /** An entry below a hidden directory is never listed: the hidden directory
      prunes its whole subtree, even its visible descendants. */
  lemma HiddenPrunes(name: string, segments: seq<string>, children: seq<Entry>)
    requires StartsWith(name, "_")
    ensures Flattened(Directory(name, segments, children)) == []
  {
  }

  /** Pre-order: a visible directory is listed before the listing of its first
      child, which is followed by those of the others. */
  lemma PreOrder(e: Entry, c: Entry, rest: seq<Entry>)
    requires !Hidden(e) && e.Directory? && e.children == [c] + rest
    ensures Flattened(e) == [e] + Flattened(c) + FlattenedAll(rest)
  {
    FlattenedAllConcat([c], rest);
    var none: seq<Entry> := [];
    assert [c][..0] == none;
  }

  // ---------------------------------------------------------------------------
  // transformedEntries

  /** Whether a collection is kept for the group: its first segment is the group,
      or no group (or the empty one) is given. An empty segment list has no first
      segment, so it belongs to no group. */
  predicate OfGroup(x: Entry, group: Option<string>) {
    group.None? || group.value == "" || (|x.segments| >= 1 && x.segments[0] == group.value)
  }

  /** The top-level collections kept for a group, in order. */
  function InGroup(collections: seq<Entry>, group: Option<string>): (r: seq<Entry>)
    ensures forall x :: x in r <==> x in collections && OfGroup(x, group)
    ensures group.None? || group.value == "" ==> r == collections
  {
    if |collections| == 0 then []
    else
      var n := |collections| - 1;
      var c := collections[n];
      assert collections == collections[..n] + [c];
      InGroup(collections[..n], group)
        + (if OfGroup(c, group) then [c] else [])
  }

  /** Keeping from a concatenation keeps from each part: the kept collections stay
      in their order. */
  lemma {:induction false} InGroupConcat(a: seq<Entry>, b: seq<Entry>, group: Option<string>)
    ensures InGroup(a + b, group) == InGroup(a, group) + InGroup(b, group)
    decreases |b|
  {
    if |b| > 0 {
      var n := |b| - 1;
      assert (a + b)[..|a| + n] == a + b[..n];
      assert (a + b)[|a| + n] == b[n];
      InGroupConcat(a, b[..n], group);
      assert InGroup(a + b, group) == InGroup(a + b[..n], group) + (if OfGroup(b[n], group) then [b[n]] else []);
      assert InGroup(b, group) == InGroup(b[..n], group) + (if OfGroup(b[n], group) then [b[n]] else []);
    } else {
      assert a + b == a;
    }
  }

  /** One collection is kept exactly when its first segment is the group, or when
      no group is given. */
  lemma InGroupOne(c: Entry, group: Option<string>)
    ensures InGroup([c], group) ==
      if OfGroup(c, group) then [c] else []
  {
    assert [c][..0] == [];
  }

  /** `transformedEntries`: the flattening of every collection of the group, in
      order, each entry transformed by `transform` (`getTransformedEntry`). */
  method TransformedEntries(collections: seq<Entry>, group: Option<string>, transform: Entry -> Page)
    returns (pages: seq<Page>)
    ensures |pages| == |FlattenedAll(InGroup(collections, group))|
    ensures forall i :: 0 <= i < |pages| ==> pages[i] == transform(FlattenedAll(InGroup(collections, group))[i])
  {
    var kept := InGroup(collections, group);
    var allEntries: seq<Entry> := [];
    for i := 0 to |kept|
      invariant allEntries == FlattenedAll(kept[..i])
    {
      var flattened := FlattenEntries(kept[i]);
      FlattenedAllNext(kept, i);
      allEntries := allEntries + flattened;
    }
    assert kept[..|kept|] == kept;
    pages := seq(|allEntries|, i requires 0 <= i < |allEntries| => transform(allEntries[i]));
  }

  // ---------------------------------------------------------------------------
  // removeFromArray

  /** The items of `xs` that `drop` does not list, in order. */
  function Without(xs: seq<string>, drop: seq<string>): (r: seq<string>)
    ensures forall x :: x in r <==> x in xs && x !in drop
    ensures |r| <= |xs|
    ensures (forall x :: x in xs ==> x !in drop) ==> r == xs
  {
    if |xs| == 0 then []
    else
      var n := |xs| - 1;
      assert xs == xs[..n] + [xs[n]];
      Without(xs[..n], drop) + (if xs[n] in drop then [] else [xs[n]])
  }

  /** Nothing to drop keeps the list. */
  lemma {:induction false} WithoutNothing(xs: seq<string>)
    ensures Without(xs, []) == xs
  {
    if |xs| > 0 {
      var n := |xs| - 1;
      WithoutNothing(xs[..n]);
      assert xs == xs[..n] + [xs[n]];
    }
  }

  /** Dropping from a concatenation drops from each part: the kept items stay in
      their order. */
  lemma {:induction false} WithoutConcat(a: seq<string>, b: seq<string>, drop: seq<string>)
    ensures Without(a + b, drop) == Without(a, drop) + Without(b, drop)
    decreases |b|
  {
    if |b| > 0 {
      var n := |b| - 1;
      assert (a + b)[..|a| + n] == a + b[..n];
      assert (a + b)[|a| + n] == b[n];
      WithoutConcat(a, b[..n], drop);
    } else {
      assert a + b == a;
    }
  }

  /** One item is kept exactly when it is not listed. */
  lemma WithoutOne(x: string, drop: seq<string>)
    ensures Without([x], drop) == if x in drop then [] else [x]
  {
    assert [x][..0] == [];
  }

  // ---------------------------------------------------------------------------
  // getBreadcrumbItems

  /** A breadcrumb: the title of a page and its segments. */
  datatype Crumb = Crumb(title: string, path: seq<string>)

  /** `"/" + prefix.join("/")`, the raw pathname a prefix of the slug is looked up by. */
  function PathOf(prefix: seq<string>): string {
    "/" + Join(prefix, "/")
  }

  /** The index of the first page whose raw pathname is `raw`, or -1 (`find`,
      `findIndex`). */
  function FindPage(pages: seq<Page>, raw: string): (i: int)
    ensures -1 <= i < |pages|
    ensures i == -1 <==> forall j :: 0 <= j < |pages| ==> pages[j].rawPathname != raw
    ensures i >= 0 ==> pages[i].rawPathname == raw && forall j :: 0 <= j < i ==> pages[j].rawPathname != raw
  {
    if |pages| == 0 then -1
    else if pages[0].rawPathname == raw then 0
    else
      var j := FindPage(pages[1..], raw);
      if j == -1 then -1 else j + 1
  }

  /** The crumb of one prefix: the first page with its pathname, if any. */
  function CrumbOf(pages: seq<Page>, prefix: seq<string>): Option<Crumb> {
    var i := FindPage(pages, PathOf(prefix));
    if i == -1 then None else Some(Crumb(pages[i].title, pages[i].segments))
  }

  function OptionList<T>(o: Option<T>): seq<T> {
    if o.Some? then [o.value] else []
  }

  /** The crumbs of the first `n` prefixes of the cleaned slug, shortest first. */
  function CrumbsUpTo(pages: seq<Page>, cleaned: seq<string>, n: nat): (r: seq<Crumb>)
    requires n <= |cleaned|
    ensures |r| <= n
  {
    if n == 0 then []
    else CrumbsUpTo(pages, cleaned, n - 1) + OptionList(CrumbOf(pages, cleaned[..n]))
  }

  /** The slug without its "index" elements. */
  function CleanedSlug(slug: seq<string>): (r: seq<string>)
    ensures forall x :: x in r <==> x in slug && x != "index"
    ensures "index" !in slug ==> r == slug
  {
    Without(slug, ["index"])
  }

  /** Cleaning keeps the other elements in their order: the cleaned slug of
      `a + b` is that of `a` followed by that of `b`, and one element is kept
      exactly when it is not "index". */
  lemma CleanedSlugInOrder(a: seq<string>, b: seq<string>, x: string)
    ensures CleanedSlug(a + b) == CleanedSlug(a) + CleanedSlug(b)
    ensures CleanedSlug([x]) == if x == "index" then [] else [x]
  {
    WithoutConcat(a, b, ["index"]);
    WithoutOne(x, ["index"]);
  }

  /** What `getBreadcrumbItems(slug)` returns, given the transformed entries of the
      slug's first segment. */
  function Breadcrumbs(pages: seq<Page>, slug: seq<string>): seq<Crumb> {
    var cleaned := CleanedSlug(slug);
    CrumbsUpTo(pages, cleaned, |cleaned|)
  }

  /** `find`/`findIndex` on the raw pathname: a scan from the front. */
  method FindFirstPage(pages: seq<Page>, raw: string) returns (k: int)
    ensures k == FindPage(pages, raw)
  {
    k := 0;
    while k < |pages| && pages[k].rawPathname != raw
      invariant 0 <= k <= |pages|
      invariant forall j :: 0 <= j < k ==> pages[j].rawPathname != raw
    {
      k := k + 1;
    }
    if k == |pages| {
      k := -1;
    }
  }

  /** `getBreadcrumbItems`: one lookup per prefix of the cleaned slug, in order of
      length, pushing a crumb for each match and skipping the others. */
  method BreadcrumbItems(slug: seq<string>, pages: seq<Page>) returns (items: seq<Crumb>)
    ensures items == Breadcrumbs(pages, slug)
  {
    var cleanedSlug := Without(slug, ["index"]);
    items := [];
    for index := 0 to |cleanedSlug|
      invariant items == CrumbsUpTo(pages, cleanedSlug, index)
    {
      var currentPageSegment := cleanedSlug[..index + 1];
      var k := FindFirstPage(pages, "/" + Join(currentPageSegment, "/"));
      if k == -1 {
        continue;
      }
      items := items + [Crumb(pages[k].title, pages[k].segments)];
    }
  }

  /** Each crumb is the crumb of one prefix, and the `j`-th crumb comes from a
      prefix at least `j + 1` long. */
  lemma {:induction false} CrumbsFromPrefixes(pages: seq<Page>, cleaned: seq<string>, n: nat)
    requires n <= |cleaned|
    ensures forall j :: 0 <= j < |CrumbsUpTo(pages, cleaned, n)| ==>
      exists m :: j < m <= n && CrumbOf(pages, cleaned[..m]) == Some(CrumbsUpTo(pages, cleaned, n)[j])
  {
    if n > 0 {
      var prev := CrumbsUpTo(pages, cleaned, n - 1);
      var r := CrumbsUpTo(pages, cleaned, n);
      CrumbsFromPrefixes(pages, cleaned, n - 1);
      forall j | 0 <= j < |r| ensures exists m :: j < m <= n && CrumbOf(pages, cleaned[..m]) == Some(r[j]) {
        if j < |prev| {
          assert r[j] == prev[j];
          assert exists m :: j < m <= n - 1 && CrumbOf(pages, cleaned[..m]) == Some(prev[j]);
          var m :| j < m <= n - 1 && CrumbOf(pages, cleaned[..m]) == Some(prev[j]);
          assert j < m <= n && CrumbOf(pages, cleaned[..m]) == Some(r[j]);
        } else {
          assert CrumbOf(pages, cleaned[..n]) == Some(r[j]);
        }
      }
      assert r == CrumbsUpTo(pages, cleaned, n);
    } else {
      assert CrumbsUpTo(pages, cleaned, n) == [];
    }
  }

  /** Crumbs keep the order of their prefixes: the crumbs of the first `k`
      prefixes come first, unchanged, among those of the first `n`. */
  lemma {:induction false} CrumbsPrefix(pages: seq<Page>, cleaned: seq<string>, k: nat, n: nat)
    requires k <= n <= |cleaned|
    ensures |CrumbsUpTo(pages, cleaned, k)| <= |CrumbsUpTo(pages, cleaned, n)|
    ensures CrumbsUpTo(pages, cleaned, n)[..|CrumbsUpTo(pages, cleaned, k)|] == CrumbsUpTo(pages, cleaned, k)
  {
    if k < n {
      CrumbsPrefix(pages, cleaned, k, n - 1);
    }
  }

  /** When every prefix has a page, there is one crumb per prefix, in order. */
  lemma {:induction false} CrumbsAllFound(pages: seq<Page>, cleaned: seq<string>, n: nat)
    requires n <= |cleaned|
    requires forall m :: 1 <= m <= n ==> CrumbOf(pages, cleaned[..m]).Some?
    ensures var r := CrumbsUpTo(pages, cleaned, n);
      |r| == n && forall j :: 0 <= j < n ==> Some(r[j]) == CrumbOf(pages, cleaned[..j + 1])
  {
    if n > 0 {
      CrumbsAllFound(pages, cleaned, n - 1);
      assert CrumbOf(pages, cleaned[..n]).Some?;
    }
  }

  /** A page listed as "/index" is never used: "index" is dropped from the slug. */
  lemma BreadcrumbsSkipIndex(pages: seq<Page>, slug: seq<string>)
    ensures Breadcrumbs(pages, slug) == Breadcrumbs(pages, Without(slug, ["index"]))
  {
    var cleaned := CleanedSlug(slug);
    WithoutAgain(slug, ["index"]);
  }

  /** Dropping the same items twice drops them once. */
  lemma {:induction false} WithoutAgain(xs: seq<string>, drop: seq<string>)
    ensures Without(Without(xs, drop), drop) == Without(xs, drop)
  {
    if |xs| > 0 {
      var n := |xs| - 1;
      var init := Without(xs[..n], drop);
      WithoutAgain(xs[..n], drop);
      WithoutSnoc(init, xs[n], drop);
    }
  }

  lemma WithoutSnoc(xs: seq<string>, x: string, drop: seq<string>)
    ensures Without(xs + (if x in drop then [] else [x]), drop)
         == Without(xs, drop) + (if x in drop then [] else [x])
  {
    if x !in drop {
      assert (xs + [x])[..|xs|] == xs;
    } else {
      assert xs + [] == xs;
    }
  }

  // ---------------------------------------------------------------------------
  // getSiblings

  /** The raw pathnames of the pages, in order. */
  function Raws(ps: seq<Page>): (r: seq<string>)
    ensures |r| == |ps|
    ensures forall i :: 0 <= i < |ps| ==> r[i] == ps[i].rawPathname
  {
    seq(|ps|, i requires 0 <= i < |ps| => ps[i].rawPathname)
  }

  /** Pages whose segments are all non-empty lists, as the hidden check needs. */
  predicate HasSegments(ps: seq<Page>) {
    forall i :: 0 <= i < |ps| ==> |ps[i].segments| >= 1
  }

  /** The pages neither hidden nor external, in order. */
  function Visible(all: seq<Page>, external: Page -> bool): (r: seq<Page>)
    requires HasSegments(all)
    ensures forall p :: p in r <==> p in all && !HiddenPage(p) && !external(p)
  {
    if |all| == 0 then []
    else
      var n := |all| - 1;
      var p := all[n];
      assert all == all[..n] + [p];
      Visible(all[..n], external) + (if HiddenPage(p) || external(p) then [] else [p])
  }

  /** Filtering a concatenation filters each part: the visible pages keep the
      order the collection lists them in. */
  lemma {:induction false} VisibleConcat(a: seq<Page>, b: seq<Page>, external: Page -> bool)
    requires HasSegments(a) && HasSegments(b)
    ensures HasSegments(a + b)
    ensures Visible(a + b, external) == Visible(a, external) + Visible(b, external)
    decreases |b|
  {
    if |b| > 0 {
      var n := |b| - 1;
      assert (a + b)[..|a| + n] == a + b[..n];
      assert (a + b)[|a| + n] == b[n];
      VisibleConcat(a, b[..n], external);
    } else {
      assert a + b == a;
    }
  }

  /** One page is kept exactly when it is neither hidden nor external. */
  lemma VisibleOne(p: Page, external: Page -> bool)
    requires |p.segments| >= 1
    ensures Visible([p], external) == if HiddenPage(p) || external(p) then [] else [p]
  {
    assert [p][..0] == [];
  }

  /** The first page of each raw pathname not in `seen`, in order. */
  function Deduped(ps: seq<Page>, seen: set<string>): (r: seq<Page>)
    decreases |ps|
  {
    if |ps| == 0 then []
    else if ps[0].rawPathname in seen then Deduped(ps[1..], seen)
    else [ps[0]] + Deduped(ps[1..], seen + {ps[0].rawPathname})
  }

  /** No two pages share a raw pathname. */
  predicate UniqueRaws(ps: seq<Page>) {
    forall i, j :: 0 <= i < j < |ps| ==> ps[i].rawPathname != ps[j].rawPathname
  }

  /** One step of `Deduped`. */
  lemma DedupedStep(ps: seq<Page>, i: int, seen: set<string>)
    requires 0 <= i < |ps|
    ensures Deduped(ps[i..], seen) ==
      if ps[i].rawPathname in seen then Deduped(ps[i + 1..], seen)
      else [ps[i]] + Deduped(ps[i + 1..], seen + {ps[i].rawPathname})
  {
    assert ps[i..][0] == ps[i] && ps[i..][1..] == ps[i + 1..];
  }

  /** Every kept page comes from the list and has a raw pathname not seen before. */
  lemma {:induction false} DedupedSound(ps: seq<Page>, seen: set<string>)
    ensures forall p :: p in Deduped(ps, seen) ==> p in ps && p.rawPathname !in seen
    decreases |ps|
  {
    if |ps| > 0 {
      var seen' := if ps[0].rawPathname in seen then seen else seen + {ps[0].rawPathname};
      DedupedSound(ps[1..], seen');
      assert forall p :: p in ps[1..] ==> p in ps;
    }
  }

  /** No two kept pages share a raw pathname. */
  lemma {:induction false} DedupedUnique(ps: seq<Page>, seen: set<string>)
    ensures UniqueRaws(Deduped(ps, seen))
    decreases |ps|
  {
    if |ps| > 0 && ps[0].rawPathname !in seen {
      var p := ps[0];
      var seen' := seen + {p.rawPathname};
      var rest := Deduped(ps[1..], seen');
      DedupedUnique(ps[1..], seen');
      DedupedSound(ps[1..], seen');
      var r := [p] + rest;
      forall i, j | 0 <= i < j < |r| ensures r[i].rawPathname != r[j].rawPathname {
        assert r[j] == rest[j - 1];
        if i == 0 {
          assert rest[j - 1] in rest;
        } else {
          assert r[i] == rest[i - 1];
        }
      }
    } else if |ps| > 0 {
      DedupedUnique(ps[1..], seen);
    }
  }

  /** Every raw pathname of the list not seen before is kept. */
  lemma {:induction false} DedupedComplete(ps: seq<Page>, seen: set<string>, i: int)
    requires 0 <= i < |ps| && ps[i].rawPathname !in seen
    ensures ps[i].rawPathname in Raws(Deduped(ps, seen))
    decreases |ps|
  {
    var p := ps[0];
    var seen' := if p.rawPathname in seen then seen else seen + {p.rawPathname};
    var rest := Deduped(ps[1..], seen');
    if i == 0 {
      assert Raws(Deduped(ps, seen))[0] == p.rawPathname;
    } else if ps[i].rawPathname == p.rawPathname {
      assert Raws(Deduped(ps, seen))[0] == p.rawPathname;
    } else {
      assert ps[1..][i - 1] == ps[i];
      DedupedComplete(ps[1..], seen', i - 1);
      var k :| 0 <= k < |rest| && Raws(rest)[k] == ps[i].rawPathname;
      if p.rawPathname in seen {
        assert Raws(Deduped(ps, seen))[k] == ps[i].rawPathname;
      } else {
        assert Deduped(ps, seen)[k + 1] == rest[k];
        assert Raws(Deduped(ps, seen))[k + 1] == ps[i].rawPathname;
      }
    }
  }

  /** The deduplicated list has unique raw pathnames none of which was seen, and
      holds a page of every raw pathname not seen before. */
  lemma DedupedFacts(ps: seq<Page>, seen: set<string>)
    ensures var r := Deduped(ps, seen);
      && UniqueRaws(r)
      && (forall p :: p in r ==> p in ps && p.rawPathname !in seen)
      && (forall i :: 0 <= i < |ps| && ps[i].rawPathname !in seen ==> ps[i].rawPathname in Raws(r))
  {
    DedupedUnique(ps, seen);
    DedupedSound(ps, seen);
    forall i | 0 <= i < |ps| && ps[i].rawPathname !in seen ensures ps[i].rawPathname in Raws(Deduped(ps, seen)) {
      DedupedComplete(ps, seen, i);
    }
  }

  /** A page is kept exactly when it is the first of its raw pathname (the order
      they are kept in is `DedupedOrder`). */
  lemma {:induction false} DedupedFirst(ps: seq<Page>, seen: set<string>, p: Page)
    ensures p in Deduped(ps, seen) <==>
      p.rawPathname !in seen && exists i :: 0 <= i < |ps| && ps[i] == p && FirstOf(ps, i)
    decreases |ps|
  {
    if |ps| > 0 {
      var q := ps[0];
      var seen' := if q.rawPathname in seen then seen else seen + {q.rawPathname};
      DedupedFirst(ps[1..], seen', p);
      FirstShift(ps);
      DedupedFacts(ps[1..], seen');
      if p in Deduped(ps, seen) && p != q {
        assert p in Deduped(ps[1..], seen');
        var i :| 0 <= i < |ps[1..]| && ps[1..][i] == p && FirstOf(ps[1..], i);
        assert ps[i + 1] == p;
      }
      if p.rawPathname !in seen && (exists i :: 0 <= i < |ps| && ps[i] == p && FirstOf(ps, i)) {
        var i :| 0 <= i < |ps| && ps[i] == p && FirstOf(ps, i);
        if i > 0 {
          assert ps[1..][i - 1] == p;
          assert q.rawPathname != p.rawPathname;
        }
      }
    }
  }

  /** Each page of `r` is the page at the first index of its raw pathname in
      `ps`, and those indices increase along `r`: `r` lists first occurrences of
      `ps` in the order `ps` lists them. */
  predicate FirstsInOrder(ps: seq<Page>, r: seq<Page>) {
    && (forall a :: 0 <= a < |r| ==> 0 <= FindPage(ps, r[a].rawPathname) && r[a] == ps[FindPage(ps, r[a].rawPathname)])
    && (forall a, b :: 0 <= a < b < |r| ==> FindPage(ps, r[a].rawPathname) < FindPage(ps, r[b].rawPathname))
  }

  /** The kept pages are first occurrences taken in list order. */
  lemma {:induction false} DedupedOrder(ps: seq<Page>, seen: set<string>)
    ensures FirstsInOrder(ps, Deduped(ps, seen))
    decreases |ps|
  {
    if |ps| > 0 {
      var q := ps[0];
      var seen' := if q.rawPathname in seen then seen else seen + {q.rawPathname};
      DedupedOrder(ps[1..], seen');
      DedupedSound(ps[1..], seen');
      if q.rawPathname in seen {
        FirstsShift(ps, Deduped(ps[1..], seen'));
      } else {
        FirstsCons(ps, Deduped(ps[1..], seen'));
      }
    }
  }

  /** A raw pathname the head does not have is found one place further on in
      the whole list than in its tail. */
  lemma FindPageTail(ps: seq<Page>, raw: string)
    requires |ps| > 0 && ps[0].rawPathname != raw && FindPage(ps[1..], raw) >= 0
    ensures FindPage(ps, raw) == FindPage(ps[1..], raw) + 1
  {
  }

  /** First occurrences in the tail, none sharing the head's raw pathname, are
      first occurrences in the whole list. */
  lemma FirstsShift(ps: seq<Page>, rest: seq<Page>)
    requires |ps| > 0 && FirstsInOrder(ps[1..], rest)
    requires forall p :: p in rest ==> p.rawPathname != ps[0].rawPathname
    ensures FirstsInOrder(ps, rest)
  {
    forall a | 0 <= a < |rest|
      ensures FindPage(ps, rest[a].rawPathname) == FindPage(ps[1..], rest[a].rawPathname) + 1
    {
      assert rest[a] in rest;
      FindPageTail(ps, rest[a].rawPathname);
    }
  }

  /** ... and with the head put in front of them. */
  lemma FirstsCons(ps: seq<Page>, rest: seq<Page>)
    requires |ps| > 0 && FirstsInOrder(ps[1..], rest)
    requires forall p :: p in rest ==> p.rawPathname != ps[0].rawPathname
    ensures FirstsInOrder(ps, [ps[0]] + rest)
  {
    FirstsShift(ps, rest);
    var r := [ps[0]] + rest;
    assert FindPage(ps, ps[0].rawPathname) == 0;
    forall a | 0 <= a < |r|
      ensures 0 <= FindPage(ps, r[a].rawPathname) && r[a] == ps[FindPage(ps, r[a].rawPathname)]
    {
      if a > 0 {
        assert r[a] == rest[a - 1];
      }
    }
    forall a, b | 0 <= a < b < |r|
      ensures FindPage(ps, r[a].rawPathname) < FindPage(ps, r[b].rawPathname)
    {
      assert r[b] == rest[b - 1];
      assert 0 < FindPage(ps, rest[b - 1].rawPathname);
      if a > 0 {
        assert r[a] == rest[a - 1];
      }
    }
  }

  /** Page `i` is the first with its raw pathname. */
  predicate FirstOf(ps: seq<Page>, i: int)
    requires 0 <= i < |ps|
  {
    forall j :: 0 <= j < i ==> ps[j].rawPathname != ps[i].rawPathname
  }

  lemma FirstShift(ps: seq<Page>)
    requires |ps| > 0
    ensures forall i :: 1 <= i < |ps| ==> (FirstOf(ps, i) <==> ps[0].rawPathname != ps[i].rawPathname && FirstOf(ps[1..], i - 1))
  {
    forall i | 1 <= i < |ps| ensures FirstOf(ps, i) <==> ps[0].rawPathname != ps[i].rawPathname && FirstOf(ps[1..], i - 1) {
      assert forall j :: 1 <= j < i ==> ps[j] == ps[1..][j - 1];
      if ps[0].rawPathname != ps[i].rawPathname && FirstOf(ps[1..], i - 1) {
        forall j | 0 <= j < i ensures ps[j].rawPathname != ps[i].rawPathname {
          if j > 0 {
            assert ps[1..][j - 1] == ps[j];
          }
        }
      }
    }
  }

  /** The unique pages getSiblings walks over. */
  function UniquePages(all: seq<Page>, external: Page -> bool): seq<Page>
    requires HasSegments(all)
  {
    Deduped(Visible(all, external), {})
  }

  /** The pages before and after the first one with raw pathname `raw`; neither
      when there is no such page. */
  function Neighbors(unique: seq<Page>, raw: string): (Option<Page>, Option<Page>) {
    var i := FindPage(unique, raw);
    if i == -1 then (None, None)
    else
      (if i > 0 then Some(unique[i - 1]) else None,
       if i < |unique| - 1 then Some(unique[i + 1]) else None)
  }

  /** What `getSiblings(source)` returns: the neighbours of the source among the
      unique visible pages. */
  function Siblings(source: Page, all: seq<Page>, external: Page -> bool): (Option<Page>, Option<Page>)
    requires HasSegments(all)
  {
    Neighbors(UniquePages(all, external), source.rawPathname)
  }

  /** The loop that drops hidden and external pages. */
  method VisibleEntries(allEntries: seq<Page>, external: Page -> bool) returns (visibleEntries: seq<Page>)
    requires HasSegments(allEntries)
    ensures visibleEntries == Visible(allEntries, external)
  {
    visibleEntries := [];
    for i := 0 to |allEntries|
      invariant visibleEntries == Visible(allEntries[..i], external)
    {
      var entry := allEntries[i];
      assert allEntries[..i + 1][..i] == allEntries[..i];
      if HiddenPage(entry) || external(entry) {
        continue;
      }
      visibleEntries := visibleEntries + [entry];
    }
    assert allEntries[..|allEntries|] == allEntries;
  }

  /** The loop that keeps the first page of each raw pathname, remembering the
      raw pathnames seen so far in a set. */
  method UniqueEntries(visibleEntries: seq<Page>) returns (uniqueEntries: seq<Page>)
    ensures uniqueEntries == Deduped(visibleEntries, {})
  {
    var seenPaths: set<string> := {};
    uniqueEntries := [];
    for i := 0 to |visibleEntries|
      invariant uniqueEntries + Deduped(visibleEntries[i..], seenPaths) == Deduped(visibleEntries, {})
    {
      var entry := visibleEntries[i];
      DedupedStep(visibleEntries, i, seenPaths);
      if entry.rawPathname in seenPaths {
        continue;
      }
      Associative(uniqueEntries, [entry], Deduped(visibleEntries[i + 1..], seenPaths + {entry.rawPathname}));
      seenPaths := seenPaths + {entry.rawPathname};
      uniqueEntries := uniqueEntries + [entry];
    }
    assert visibleEntries[|visibleEntries|..] == [];
  }

  /** `getSiblings`: the visible pages collected, deduplicated, and the
      neighbours of the source picked by index. */
  method GetSiblings(source: Page, allEntries: seq<Page>, external: Page -> bool)
    returns (previous: Option<Page>, next: Option<Page>)
    requires HasSegments(allEntries)
    ensures (previous, next) == Siblings(source, allEntries, external)
  {
    var visibleEntries := VisibleEntries(allEntries, external);
    var uniqueEntries := UniqueEntries(visibleEntries);
    var currentIndex := FindFirstPage(uniqueEntries, source.rawPathname);
    if currentIndex == -1 {
      return None, None;
    }
    previous := if currentIndex > 0 then Some(uniqueEntries[currentIndex - 1]) else None;
    next := if currentIndex < |uniqueEntries| - 1 then Some(uniqueEntries[currentIndex + 1]) else None;
  }

  /** Neighbours are pages of the list, with raw pathnames differing from `raw`
      and from each other when the raw pathnames of the list are unique. */
  lemma NeighborsIn(unique: seq<Page>, raw: string)
    requires UniqueRaws(unique)
    ensures var (prev, next) := Neighbors(unique, raw);
      && (prev.Some? ==> prev.value in unique && prev.value.rawPathname != raw)
      && (next.Some? ==> next.value in unique && next.value.rawPathname != raw)
      && (prev.Some? && next.Some? ==> prev.value.rawPathname != next.value.rawPathname)
  {
    var i := FindPage(unique, raw);
    if i > 0 {
      assert unique[i - 1] in unique;
    }
    if i != -1 && i < |unique| - 1 {
      assert unique[i + 1] in unique;
    }
  }

  /** The siblings are distinct visible pages, neither of them with the source's
      raw pathname nor with each other's. */
  lemma SiblingsVisible(source: Page, all: seq<Page>, external: Page -> bool)
    requires HasSegments(all)
    ensures var (prev, next) := Siblings(source, all, external);
      && (prev.Some? ==> prev.value in all && !HiddenPage(prev.value) && !external(prev.value)
                         && prev.value.rawPathname != source.rawPathname)
      && (next.Some? ==> next.value in all && !HiddenPage(next.value) && !external(next.value)
                         && next.value.rawPathname != source.rawPathname)
      && (prev.Some? && next.Some? ==> prev.value.rawPathname != next.value.rawPathname)
  {
    var visible := Visible(all, external);
    DedupedSound(visible, {});
    DedupedUnique(visible, {});
    NeighborsIn(Deduped(visible, {}), source.rawPathname);
  }

  /** Among pages with unique raw pathnames, the page at index `i` has the page at
      `i - 1` before it (none at 0) and the page at `i + 1` after it (none at the
      last index). */
  lemma NeighborsAt(unique: seq<Page>, i: int)
    requires UniqueRaws(unique) && 0 <= i < |unique|
    ensures Neighbors(unique, unique[i].rawPathname)
         == (if i > 0 then Some(unique[i - 1]) else None, if i < |unique| - 1 then Some(unique[i + 1]) else None)
  {
    assert FindPage(unique, unique[i].rawPathname) == i;
  }

  /** Among pages with unique raw pathnames, the next page's previous page is the
      page of `raw`. */
  lemma NeighborsSymmetric(unique: seq<Page>, raw: string)
    requires UniqueRaws(unique)
    requires Neighbors(unique, raw).1.Some?
    ensures var back := Neighbors(unique, Neighbors(unique, raw).1.value.rawPathname).0;
      back.Some? && back.value.rawPathname == raw
  {
    var i := FindPage(unique, raw);
    var n := unique[i + 1];
    assert FindPage(unique, n.rawPathname) == i + 1;
  }

  /** Stepping forward then back returns to a page with the source's raw pathname:
      the next page's previous page is the source's own entry. */
  lemma SiblingsSymmetric(source: Page, all: seq<Page>, external: Page -> bool)
    requires HasSegments(all)
    requires Siblings(source, all, external).1.Some?
    ensures var n := Siblings(source, all, external).1.value;
      var back := Siblings(n, all, external).0;
      back.Some? && back.value.rawPathname == source.rawPathname
  {
    DedupedUnique(Visible(all, external), {});
    NeighborsSymmetric(UniquePages(all, external), source.rawPathname);
  }

  /** A source whose raw pathname no visible page has gets no siblings. */
  lemma SiblingsAbsent(source: Page, all: seq<Page>, external: Page -> bool)
    requires HasSegments(all)
    requires forall p :: p in Visible(all, external) ==> p.rawPathname != source.rawPathname
    ensures Siblings(source, all, external) == (None, None)
  {
    var unique := UniquePages(all, external);
    DedupedSound(Visible(all, external), {});
    forall k | 0 <= k < |unique| ensures unique[k].rawPathname != source.rawPathname {
      assert unique[k] in unique;
    }
  }

  // ---------------------------------------------------------------------------
  // getDirectory and getFileContent

  /** The segments `getDirectory` looks up: "docs" dropped when the second segment
      is "examples", the segments as they are otherwise. */
  function DirectorySegments(segments: seq<string>): (r: seq<string>)
    ensures |segments| >= 2 && segments[1] == "examples" ==> forall x :: x in r <==> x in segments && x != "docs"
    ensures |segments| >= 2 && segments[1] == "examples" ==> r == Without(segments, ["docs"])
    ensures !(|segments| >= 2 && segments[1] == "examples") ==> r == segments
  {
    var excludeSegments := if |segments| >= 2 && segments[1] == "examples" then ["docs"] else [];
    WithoutNothing(segments);
    Without(segments, excludeSegments)
  }

  /** Under "examples", the first segment is kept unless it is "docs", then
      "examples" stays, then the rest of the segments follow in order without
      "docs": ["docs", "examples", "docs", "a"] becomes ["examples", "a"]. */
  lemma DirectorySegmentsExamples(first: string, rest: seq<string>)
    ensures DirectorySegments([first, "examples"] + rest)
         == (if first == "docs" then [] else [first]) + ["examples"] + Without(rest, ["docs"])
  {
    var segments := [first, "examples"] + rest;
    assert segments[1] == "examples";
    assert segments == [first] + ["examples"] + rest;
    var head := Without([first] + ["examples"], ["docs"]);
    WithoutConcat([first], ["examples"], ["docs"]);
    WithoutOne(first, ["docs"]);
    WithoutOne("examples", ["docs"]);
    assert head == (if first == "docs" then [] else [first]) + ["examples"];
    WithoutConcat([first] + ["examples"], rest, ["docs"]);
  }

  /** `getDirectory`: the directory the collection finds for those segments. */
  function DirectoryOf<D>(segments: seq<string>, getDirectory: seq<string> -> D): D {
    getDirectory(DirectorySegments(segments))
  }

  /** `getFileContent`: the segment file, else the `index` file of the segment
      directory, else its `readme` file, else null (`None`). A lookup that throws
      counts as not found. */
  function FileContent<F>(segments: seq<string>, getFile: seq<string> -> Option<F>): (r: Option<F>)
    ensures getFile(segments).Some? ==> r == getFile(segments)
    ensures getFile(segments).None? && getFile(segments + ["index"]).Some? ==> r == getFile(segments + ["index"])
    ensures getFile(segments).None? && getFile(segments + ["index"]).None? ==> r == getFile(segments + ["readme"])
  {
    var segmentFile := getFile(segments);
    var indexFile := getFile(segments + ["index"]);
    var readmeFile := getFile(segments + ["readme"]);
    if segmentFile.Some? then segmentFile else if indexFile.Some? then indexFile else readmeFile
  }

  /** No file is found exactly when none of the three lookups finds one. */
  lemma FileContentNone<F>(segments: seq<string>, getFile: seq<string> -> Option<F>)
    ensures FileContent(segments, getFile).None? <==>
      getFile(segments).None? && getFile(segments + ["index"]).None? && getFile(segments + ["readme"]).None?
  {
  }
}
