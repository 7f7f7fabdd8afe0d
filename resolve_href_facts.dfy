/**
 * What each step of `resolveHref` guarantees, and what the whole pipeline
 * guarantees about the record it hands to `formatUrl`.
 */
module ResolveHrefFacts {
  import opened Wrappers
  import opened Strings
  import opened Records
  import opened UrlTypes
  import opened UrlParse
  import opened PathResolve
  import opened UrlFormat
  import opened ResolveHref

  // ---------------------------------------------------------------------------
  // Relative pathnames

  /** A relative pathname becomes an absolute, normalised one with no ".." left;
      an absolute or empty pathname is kept. */
  lemma RelativeResolved(u: UrlObject, currentPath: string)
    ensures var r := Relative(u, currentPath);
      if Truthy(u.pathname) && !StartsWith(u.pathname.value, "/") then
        && r.pathname.Present?
        && |r.pathname.value| >= 1 && r.pathname.value[0] == '/'
        && (r.pathname.value == "/" || Clean(Split(r.pathname.value[1..], '/'), false))
        && ".." !in Split(r.pathname.value[1..], '/')
      else r == u
  {
    if Truthy(u.pathname) && !StartsWith(u.pathname.value, "/") {
      ResolvedPathAbsolute([CurrentDirectory(currentPath), u.pathname.value]);
    }
  }

  /** The directory of "/a/.../page" is "/a/...". */
  lemma DirectoryOf(a: seq<string>, page: string)
    requires '/' !in page
    ensures CurrentDirectory("/" + Join(a, "/") + "/" + page) == "/" + Join(a, "/")
  {
    var dir := "/" + Join(a, "/");
    assert "/" + Join(a, "/") + "/" + page == dir + ['/'] + page;
    LastIndexOfAt(dir, '/', page);
  }

  /** A relative link on page "/a/.../page" is resolved as a sibling of that page:
      its segments follow the page's directory. */
  lemma RelativeSibling(u: UrlObject, a: seq<string>, page: string, b: seq<string>)
    requires |a| >= 1 && Clean(a, false) && '/' !in page
    requires |b| >= 1 && Clean(b, false) && u.pathname == Present(Join(b, "/"))
    ensures Relative(u, "/" + Join(a, "/") + "/" + page).pathname == Present("/" + Join(a + b, "/"))
  {
    DirectoryOf(a, page);
    JoinStarts(b, "/");
    CleanSegments(b, false);
    assert b[0] != [] && b[0][0] != '/' by {
      assert CleanAt(b, 0, false);
      assert b[0][0] in b[0];
    }
    assert Join(b, "/")[0] == b[0][0];
    ResolvedPathJoin(a, b);
  }

  // ---------------------------------------------------------------------------
  // Query merging

  /** A value read from a record of normal values is normal. */
  lemma NormalGet(m: Record<Value>, k: string)
    requires forall i :: 0 <= i < |m| ==> IsNormal(m[i].1)
    ensures Get(m, k).Some? ==> IsNormal(Get(m, k).value)
  {
  }

  /** After merging, `search` is undefined and `query` is a dictionary whose keys
      are the query's keys followed by the new keys of the search, each taking
      the search's value when the search has it and the query's otherwise, and
      every value is normalised. */
  lemma MergedQueryFacts(u: UrlObject, rt: Runtime)
    requires Merged(u, rt).Some?
    ensures var r := Merged(u, rt).value;
      var raw := SearchQueryRaw(u.search, rt).value;
      var base, search := NormalizedQuery(u.query), NormalizedQuery(raw);
      && r == u.(query := r.query, search := Undefined)
      && r.query.Present? && r.query.value.QueryRecord?
      && Keys(r.query.value.entries) == Keys(base) + Fresh(Keys(search), Keys(base))
      && (forall k :: Get(r.query.value.entries, k) == if Get(search, k).Some? then Get(search, k) else Get(base, k))
      && (forall k :: Get(r.query.value.entries, k).Some? ==> IsNormal(Get(r.query.value.entries, k).value))
  {
    var raw := SearchQueryRaw(u.search, rt).value;
    var base, search := NormalizedQuery(u.query), NormalizedQuery(raw);
    AssignKeys(base, search);
    AssignGet(base, search);
    forall k ensures Get(Assign(base, search), k).Some? ==> IsNormal(Get(Assign(base, search), k).value) {
      NormalGet(base, k);
      NormalGet(search, k);
    }
  }

  /** A search that is the text after "?" of a link is parsed again with a "?" in
      front, so its query is the decoding of the search as it stands. */
  lemma SearchReparsed(s: string, rt: Runtime)
    requires s != "" && '#' !in s && s[|s| - 1] !in Whitespace
    ensures SearchQueryRaw(Present(s), rt)
         == if DecodedQuery(s, rt).None? then None else Some(Present(QueryRecord(DecodedQuery(s, rt).value)))
  {
    var t := "?" + s;
    TrimFixes(t);
    assert IndexOf(t, '#') == -1;
    assert IndexOf(t, '?') == 0;
    assert t[1..] == s;
    ParsedQueryField(t, t, true, rt);
  }

  /** With decoding the identity on "?x" and "1", "?x=1" decodes to the key "?x"
      holding "1". */
  lemma QuirkDecoded(rt: Runtime)
    requires rt.decode("?x") == Some("?x") && rt.decode("1") == Some("1")
    ensures DecodedQuery("?x=1", rt) == Some([("?x", Str("1"))])
  {
    var s := "?x=1";
    assert LastIndexOf(s, '&') == -1;
    assert Split(s, '&') == [s];
    assert DecodeParam(s, rt) == Some([("?x", "1")]) by {
      assert IndexOf(s, '=') == 2;
      assert s[..2] == "?x" && s[2..][1..] == "1";
    }
    var none: seq<string> := [];
    assert [s][..0] == none && [s][0] == s;
    assert DecodedPairs(none, rt) == Some([]);
    var pairs: seq<(string, string)> := [];
    assert pairs + [("?x", "1")] == [("?x", "1")];
    assert DecodedPairs([s], rt) == Some([("?x", "1")]);
    assert Accumulate([("?x", "1")]) == [("?x", Str("1"))];
  }

  /** The search of a parsed link keeps its "?", so parsing it again behind
      another "?" files its first parameter under a key that starts with "?":
      "?x=1" gives the key "?x". */
  lemma SearchQuirk(rt: Runtime)
    requires rt.decode("?x") == Some("?x") && rt.decode("1") == Some("1")
    ensures SearchQueryRaw(Present("?x=1"), rt) == Some(Present(QueryRecord([("?x", Str("1"))])))
  {
    SearchReparsed("?x=1", rt);
    QuirkDecoded(rt);
  }

  // ---------------------------------------------------------------------------
  // Locale prefix

  /** When the locale applies the pathname starts with "/" + locale; otherwise the
      record is kept. Nothing but the pathname changes. */
  lemma LocalizedPrefix(u: UrlObject, o: Options)
    ensures var r := Localized(u, o);
      && r == u.(pathname := r.pathname)
      && (LocaleApplies(o) ==> FieldStartsWith(r.pathname, "/" + o.locale.value))
      && (!LocaleApplies(o) ==> r == u)
  {
  }

  /** A pathname that already carries the prefix is not prefixed twice, so
      localising is idempotent. */
  lemma LocalizedIdempotent(u: UrlObject, o: Options)
    ensures Localized(Localized(u, o), o) == Localized(u, o)
  {
    if LocaleApplies(o) {
      var prefix := "/" + o.locale.value;
      var r := Localized(u, o);
      if !FieldStartsWith(u.pathname, prefix) {
        var rest := if u.pathname == Present("/") then "" else Interpolate(u.pathname);
        assert r.pathname.value == prefix + rest;
        assert r.pathname.value[..|prefix|] == prefix;
      }
    }
  }

  /** The root "/" becomes "/" + locale; a pathname that is some other text gets the
      prefix in front; a null or undefined pathname ends up as "/" + locale + "null"
      or "/" + locale + "undefined". */
  lemma LocalizedCases(u: UrlObject, o: Options)
    requires LocaleApplies(o) && !FieldStartsWith(u.pathname, "/" + o.locale.value)
    ensures var p := Localized(u, o).pathname;
      match u.pathname
      case Null => p == Present("/" + o.locale.value + "null")
      case Undefined => p == Present("/" + o.locale.value + "undefined")
      case Present(s) => p == Present("/" + o.locale.value + (if s == "/" then "" else s))
  {
  }

  // ---------------------------------------------------------------------------
  // Base path, leading slash and fragment-only links

  /** With a base path set, the pathname is the base path without its trailing
      "/", then one "/" and the old pathname without its leading "/" (a missing
      pathname counts as empty); without one the record is kept. */
  lemma BasePrefixedJoin(u: UrlObject, o: Options)
    ensures var r := BasePrefixed(u, o);
      && r == u.(pathname := r.pathname)
      && if o.basePath.Some? && o.basePath.value != "" then
           var p := OrEmpty(u.pathname);
           var tail := if StartsWith(p, "/") then p[1..] else p;
           && r.pathname == Present(CleanedBase(o.basePath.value) + "/" + tail)
           && (o.basePath.value == CleanedBase(o.basePath.value)
               || o.basePath.value == CleanedBase(o.basePath.value) + "/")
         else r == u
  {
    if o.basePath.Some? && o.basePath.value != "" {
      var p := OrEmpty(u.pathname);
      var c := CleanedBase(o.basePath.value);
      if StartsWith(p, "/") {
        assert p == "/" + p[1..];
        Associative(c, "/", p[1..]);
      } else {
        Associative(c, "/", p);
      }
    }
  }

  /** A base path that already ends in "/" and one that does not give the same
      pathname. */
  lemma BaseTrailingSlash(u: UrlObject, o: Options, base: string)
    requires base != "" && !EndsWith(base, "/")
    ensures BasePrefixed(u, o.(basePath := Some(base + "/"))) == BasePrefixed(u, o.(basePath := Some(base)))
  {
    assert (base + "/")[..|base|] == base;
  }

  /** A non-empty pathname ends up starting with "/", one that did is kept, and
      repairing twice is repairing once. */
  lemma SlashRepairedFacts(u: UrlObject)
    ensures var r := SlashRepaired(u);
      && r == u.(pathname := r.pathname)
      && (Truthy(r.pathname) <==> Truthy(u.pathname))
      && (Truthy(r.pathname) ==> StartsWith(r.pathname.value, "/"))
      && (FieldStartsWith(u.pathname, "/") || !Truthy(u.pathname) ==> r == u)
      && SlashRepaired(r) == r
  {
  }

  /** A fragment-only link takes the current path up to its first "#". */
  lemma HashFallbackPath(u: UrlObject, currentPath: string)
    requires !Truthy(u.pathname) && Truthy(u.hash)
    ensures var p := HashFallback(u, currentPath).pathname;
      var k := IndexOf(currentPath, '#');
      && p == Present(if k == -1 then currentPath else currentPath[..k])
      && '#' !in p.value
  {
    SplitHead(currentPath, '#');
  }

  // ---------------------------------------------------------------------------
  // The whole pipeline

  /** The record handed to `formatUrl` has no search, a dictionary as its query,
      the hash and the remaining address fields of the starting record, and a
      pathname that, when not empty, starts with "/" unless it is the current
      path cut at its first "#". */
  lemma PreparedFields(href: Href, o: Options, rt: Runtime)
    requires Prepared(href, o, rt).Some?
    ensures var u0 := Initial(href, rt).value;
      var r := Prepared(href, o, rt).value;
      && r == u0.(pathname := r.pathname, query := r.query, search := Undefined)
      && r.query.Present? && r.query.value.QueryRecord?
      && (Truthy(r.pathname) ==> StartsWith(r.pathname.value, "/") || r.pathname.value == Split(CurrentPath(o), '#')[0])
  {
    var u0 := Initial(href, rt).value;
    var u1 := Merged(Relative(u0, CurrentPath(o)), rt).value;
    MergedQueryFacts(Relative(u0, CurrentPath(o)), rt);
    var u2 := BasePrefixed(Localized(u1, o), o);
    SlashRepairedFacts(u2);
  }

  /** With the current path absolute (its default "/" is), every non-empty pathname
      handed to `formatUrl` starts with "/". */
  lemma PreparedAbsolute(href: Href, o: Options, rt: Runtime)
    requires Prepared(href, o, rt).Some?
    requires StartsWith(CurrentPath(o), "/")
    ensures var r := Prepared(href, o, rt).value;
      Truthy(r.pathname) ==> StartsWith(r.pathname.value, "/")
  {
    PreparedFields(href, o, rt);
    HeadKeepsSlash(CurrentPath(o));
  }

  /** The current path cut at its first "#" still starts with "/", unless it is empty. */
  lemma HeadKeepsSlash(cp: string)
    requires StartsWith(cp, "/")
    ensures var h := Split(cp, '#')[0];
      h == "" || StartsWith(h, "/")
  {
    SplitHead(cp, '#');
    var k := IndexOf(cp, '#');
    if k != -1 && k != 0 {
      assert cp[..k][0] == cp[0];
    }
  }

  /** `resolveHref` fails exactly when parsing the link, or its search again, makes
      decoding throw, or when `formatUrl` does. */
  lemma ResolvedHrefFails(href: Href, o: Options, rt: Runtime)
    ensures ResolvedHref(href, o, rt).None? <==>
      || Initial(href, rt).None?
      || Merged(Relative(Initial(href, rt).value, CurrentPath(o)), rt).None?
      || Formatted(Prepared(href, o, rt).value, rt).None?
  {
  }
}
