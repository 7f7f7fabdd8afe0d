/**
 * `resolveHref` of next/src/lib/resolve-href.ts: a link target, given as a
 * string or as a `UrlObject`, is parsed, its relative pathname resolved
 * against the current path, its query normalised and merged with the one its
 * search holds, prefixed with the locale and the base path, repaired to start
 * with "/", and serialised by `formatUrl`.
 */
module ResolveHref {
  import opened Wrappers
  import opened Strings
  import opened Records
  import opened UrlTypes
  import opened UrlParse
  import opened UrlFormat
  import opened PathResolve

  datatype Href = HrefText(text: string) | HrefObject(url: UrlObject)

  /** `ResolveHrefOptions`; `None` is a field left undefined. */
  datatype Options = Options(
    currentPath: Option<string>,
    locale: Option<string>,
    defaultLocale: Option<string>,
    locales: Option<seq<string>>,
    basePath: Option<string>)

  /** `currentPath` with its default "/". */
  function CurrentPath(o: Options): string {
    if o.currentPath.Some? then o.currentPath.value else "/"
  }

  // ---------------------------------------------------------------------------
  // normalizeQuery

  /** The scalar items of a list, in order (`v.filter(...)`). */
  function Scalars(items: seq<Value>): (r: seq<Value>)
    ensures forall i :: 0 <= i < |r| ==> IsScalar(r[i])
    ensures forall x :: x in r <==> x in items && IsScalar(x)
    ensures |r| <= |items|
  {
    if |items| == 0 then []
    else
      var init := items[..|items| - 1];
      var last := items[|items| - 1];
      assert items == init + [last];
      Scalars(init) + (if IsScalar(last) then [last] else [])
  }

  /** A list of scalars is kept whole. */
  lemma {:induction false} ScalarsKeep(items: seq<Value>)
    requires forall i :: 0 <= i < |items| ==> IsScalar(items[i])
    ensures Scalars(items) == items
  {
    if |items| > 0 {
      var init := items[..|items| - 1];
      ScalarsKeep(init);
      assert items == init + [items[|items| - 1]];
    }
  }

  /** The values `normalizeQuery` lets through. */
  predicate IsNormal(v: Value) {
    IsScalar(v) || IsNullish(v) || (v.List? && forall i :: 0 <= i < |v.items| ==> IsScalar(v.items[i]))
  }

  /** One value as `normalizeQuery` stores it: scalars, null and undefined as they
      are, a list without its non-scalar items, anything else as its string. */
  function NormalizeValue(v: Value): (r: Value)
    ensures IsNormal(r)
    ensures v.List? ==> r.List? && forall x :: x in r.items <==> x in v.items && IsScalar(x)
    ensures v.Other? ==> r == Str(Stringify(v))
  {
    if IsScalar(v) || IsNullish(v) then v
    else if v.List? then List(Scalars(v.items))
    else Str(Stringify(v))
  }

  /** A normal value is left as it is, so normalising twice is normalising once. */
  lemma NormalizeValueFixes(v: Value)
    requires IsNormal(v)
    ensures NormalizeValue(v) == v
  {
    if v.List? && !IsScalar(v) && !IsNullish(v) {
      ScalarsKeep(v.items);
    }
  }

  /** The entries with their values normalised, key by key in the same order. */
  function NormalizedEntries(e: seq<(string, Value)>): (r: seq<(string, Value)>)
    ensures Keys(r) == Keys(e)
    ensures forall i :: 0 <= i < |r| ==> r[i].1 == NormalizeValue(e[i].1)
  {
    if |e| == 0 then []
    else
      var n := |e| - 1;
      NormalizedEntries(e[..n]) + [(e[n].0, NormalizeValue(e[n].1))]
  }

  lemma NormalizedEntriesNext(e: seq<(string, Value)>, i: int)
    requires 0 <= i < |e|
    ensures NormalizedEntries(e[..i + 1]) == NormalizedEntries(e[..i]) + [(e[i].0, NormalizeValue(e[i].1))]
  {
    assert e[..i + 1][..i] == e[..i];
  }

  /** What `normalizeQuery(q)` returns: `{}` unless `q` is a dictionary. */
  function NormalizedQuery(q: Nullable<Query>): (r: Record<Value>)
    ensures forall i :: 0 <= i < |r| ==> IsNormal(r[i].1)
    ensures !(q.Present? && q.value.QueryRecord?) ==> r == []
  {
    if q.Present? && q.value.QueryRecord? then
      var r := NormalizedEntries(q.value.entries);
      assert forall i :: 0 <= i < |r| ==> Keys(r)[i] == r[i].0;
      r
    else []
  }

  /** A key of the dictionary keeps its place and gets its value normalised; a key
      it lacks stays missing. */
  lemma NormalizedQueryGet(e: Record<Value>, k: string)
    ensures Keys(NormalizedQuery(Present(QueryRecord(e)))) == Keys(e)
    ensures Get(NormalizedQuery(Present(QueryRecord(e))), k)
         == if Get(e, k).Some? then Some(NormalizeValue(Get(e, k).value)) else None
  {
    var r := NormalizedQuery(Present(QueryRecord(e)));
    if k in Keys(e) {
      var i :| 0 <= i < |e| && Keys(e)[i] == k;
      GetAt(e, i);
      assert Keys(r)[i] == k;
      GetAt(r, i);
    } else {
      GetMissing(e, k);
      GetMissing(r, k);
    }
  }

  /** `normalizeQuery`: one pass over `Object.entries(q)`, each value stored under its key. */
  method NormalizeQuery(q: Nullable<Query>) returns (result: Record<Value>)
    ensures result == NormalizedQuery(q)
  {
    if !(q.Present? && q.value.QueryRecord?) {
      return [];
    }
    var entries := q.value.entries;
    result := [];
    for i := 0 to |entries|
      invariant result == NormalizedEntries(entries[..i])
    {
      var (k, v) := entries[i];
      var value: Value;
      if IsScalar(v) || IsNullish(v) {
        value := v;
      } else if v.List? {
        value := List(Scalars(v.items));
      } else {
        value := Str(Stringify(v));
      }
      KeyFresh(entries, i);
      PutAppends(result, k, value);
      NormalizedEntriesNext(entries, i);
      result := Put(result, k, value);
    }
    assert entries[..|entries|] == entries;
  }

  // ---------------------------------------------------------------------------
  // The steps of resolveHref, as functions on the URL record

  /** `currentPath.substring(0, currentPath.lastIndexOf("/"))`: up to the last "/",
      or "" (a negative end counts as 0) when there is none. */
  function CurrentDirectory(currentPath: string): string {
    var k := LastIndexOf(currentPath, '/');
    if k == -1 then "" else currentPath[..k]
  }

  /** A relative pathname resolved against the current directory. */
  function Relative(u: UrlObject, currentPath: string): (r: UrlObject)
    ensures r == u.(pathname := r.pathname)
  {
    if Truthy(u.pathname) && !StartsWith(u.pathname.value, "/") then
      u.(pathname := Present(ResolvedPath([CurrentDirectory(currentPath), u.pathname.value])))
    else u
  }

  /** The `query` field `parseUrl("?" + search, true)` gives; `None` when decoding throws. */
  function SearchQueryRaw(search: Nullable<string>, rt: Runtime): Option<Nullable<Query>> {
    if Truthy(search) then
      var p :- Parsed("?" + search.value, true, rt);
      Some(p.query)
    else Some(Null)
  }

  /** The merged query: the entries of the search override those of the query. */
  function MergedQuery(u: UrlObject, raw: Nullable<Query>): Record<Value> {
    Assign(NormalizedQuery(u.query), NormalizedQuery(raw))
  }

  /** `query` replaced by the merged query and `search` cleared. */
  function Merged(u: UrlObject, rt: Runtime): (r: Option<UrlObject>)
    ensures r.None? <==> SearchQueryRaw(u.search, rt).None?
  {
    var raw :- SearchQueryRaw(u.search, rt);
    Some(u.(query := Present(QueryRecord(MergedQuery(u, raw))), search := Undefined))
  }

  /** The locale is set, listed, and not the default one. */
  predicate LocaleApplies(o: Options) {
    o.locale.Some? && o.locale.value != "" && o.locales.Some? && o.locale.value in o.locales.value
    && o.locale != o.defaultLocale
  }

  /** The locale prefix, unless the pathname already starts with it; the pathname
      "/" gives just the prefix, and a null or undefined one is printed as
      "null" or "undefined" by the template literal. */
  function Localized(u: UrlObject, o: Options): (r: UrlObject)
    ensures r == u.(pathname := r.pathname)
  {
    if LocaleApplies(o) then
      var prefix := "/" + o.locale.value;
      if FieldStartsWith(u.pathname, prefix) then u
      else u.(pathname := Present(prefix + (if u.pathname == Present("/") then "" else Interpolate(u.pathname))))
    else u
  }

  /** The base path without one trailing "/". */
  function CleanedBase(basePath: string): (r: string)
    ensures basePath == r || basePath == r + "/"
  {
    if EndsWith(basePath, "/") then
      assert basePath == basePath[..|basePath| - 1] + "/";
      basePath[..|basePath| - 1]
    else basePath
  }

  /** The base path put in front of the pathname, with a "/" between them. */
  function BasePrefixed(u: UrlObject, o: Options): (r: UrlObject)
    ensures r == u.(pathname := r.pathname)
  {
    if o.basePath.Some? && o.basePath.value != "" then
      var cleanedPathname := if FieldStartsWith(u.pathname, "/") then u.pathname.value else "/" + OrEmpty(u.pathname);
      u.(pathname := Present(CleanedBase(o.basePath.value) + cleanedPathname))
    else u
  }

  /** A non-empty pathname made to start with "/". */
  function SlashRepaired(u: UrlObject): (r: UrlObject)
    ensures r == u.(pathname := r.pathname)
  {
    if Truthy(u.pathname) && !StartsWith(u.pathname.value, "/") then u.(pathname := Present("/" + u.pathname.value))
    else u
  }

  /** A link that is only a fragment gets the current path, up to its first "#". */
  function HashFallback(u: UrlObject, currentPath: string): (r: UrlObject)
    ensures r == u.(pathname := r.pathname)
  {
    if !Truthy(u.pathname) && Truthy(u.hash) then u.(pathname := Present(Split(currentPath, '#')[0]))
    else u
  }

  /** The record `resolveHref` starts from. */
  function Initial(href: Href, rt: Runtime): Option<UrlObject> {
    match href
    case HrefText(s) => Parsed(s, true, rt)
    case HrefObject(u) => Some(u)
  }

  /** The record `resolveHref` hands to `formatUrl`; `None` when decoding throws. */
  function Prepared(href: Href, o: Options, rt: Runtime): Option<UrlObject> {
    var u0 :- Initial(href, rt);
    var u1 :- Merged(Relative(u0, CurrentPath(o)), rt);
    Some(HashFallback(SlashRepaired(BasePrefixed(Localized(u1, o), o)), CurrentPath(o)))
  }

  /** What `resolveHref(href, options)` returns; `None` when a URIError is thrown. */
  function ResolvedHref(href: Href, o: Options, rt: Runtime): Option<string> {
    var u :- Prepared(href, o, rt);
    Formatted(u, rt)
  }

  /** `resolveHref`: the fields of `parsedHref` reassigned step by step, then `formatUrl`. */
  method ResolveHref(href: Href, options: Options, rt: Runtime) returns (r: Option<string>)
    ensures r == ResolvedHref(href, options, rt)
  {
    var currentPath := if options.currentPath.Some? then options.currentPath.value else "/";
    var parsedHref: UrlObject;
    match href {
      case HrefText(s) =>
        var p := ParseUrl(s, true, rt);
        if p.None? {
          return None;
        }
        parsedHref := p.value;
      case HrefObject(u) =>
        parsedHref := u;
    }
    parsedHref := ResolveRelative(parsedHref, currentPath);
    var merged := MergeQuery(parsedHref, rt);
    if merged.None? {
      return None;
    }
    parsedHref := merged.value;
    parsedHref := PrefixLocale(parsedHref, options);
    parsedHref := PrefixBasePath(parsedHref, options);
    parsedHref := RepairSlash(parsedHref);
    parsedHref := FallBackToCurrentPath(parsedHref, currentPath);
    r := FormatUrl(parsedHref, rt);
  }

  method ResolveRelative(u: UrlObject, currentPath: string) returns (parsedHref: UrlObject)
    ensures parsedHref == Relative(u, currentPath)
  {
    parsedHref := u;
    if Truthy(parsedHref.pathname) && !StartsWith(parsedHref.pathname.value, "/") {
      var k := LastIndexOf(currentPath, '/');
      var currentDirectory := if k == -1 then "" else currentPath[..k];
      var resolved := ResolvePath([currentDirectory, parsedHref.pathname.value]);
      parsedHref := parsedHref.(pathname := Present(resolved));
    }
  }

  method MergeQuery(u: UrlObject, rt: Runtime) returns (r: Option<UrlObject>)
    ensures r == Merged(u, rt)
  {
    var parsedHref := u;
    var baseQuery := NormalizeQuery(parsedHref.query);
    var searchQueryRaw: Nullable<Query> := Null;
    if Truthy(parsedHref.search) {
      var p := ParseUrl("?" + parsedHref.search.value, true, rt);
      if p.None? {
        return None;
      }
      searchQueryRaw := p.value.query;
    }
    var searchQuery := NormalizeQuery(searchQueryRaw);
    var combinedQuery := Assign(baseQuery, searchQuery);
    parsedHref := parsedHref.(query := Present(QueryRecord(combinedQuery)));
    parsedHref := parsedHref.(search := Undefined);
    return Some(parsedHref);
  }

  method PrefixLocale(u: UrlObject, options: Options) returns (parsedHref: UrlObject)
    ensures parsedHref == Localized(u, options)
  {
    parsedHref := u;
    if options.locale.Some? && options.locale.value != "" && options.locales.Some?
       && options.locale.value in options.locales.value && options.locale != options.defaultLocale {
      var localePrefix := "/" + options.locale.value;
      if !FieldStartsWith(parsedHref.pathname, localePrefix) {
        var rest := if parsedHref.pathname == Present("/") then "" else Interpolate(parsedHref.pathname);
        parsedHref := parsedHref.(pathname := Present(localePrefix + rest));
      }
    }
  }

  method PrefixBasePath(u: UrlObject, options: Options) returns (parsedHref: UrlObject)
    ensures parsedHref == BasePrefixed(u, options)
  {
    parsedHref := u;
    if options.basePath.Some? && options.basePath.value != "" {
      var basePath := options.basePath.value;
      var cleanedBasePath := if EndsWith(basePath, "/") then basePath[..|basePath| - 1] else basePath;
      var cleanedPathname := if FieldStartsWith(parsedHref.pathname, "/") then parsedHref.pathname.value
                             else "/" + OrEmpty(parsedHref.pathname);
      parsedHref := parsedHref.(pathname := Present(cleanedBasePath + cleanedPathname));
    }
  }

  method RepairSlash(u: UrlObject) returns (parsedHref: UrlObject)
    ensures parsedHref == SlashRepaired(u)
  {
    parsedHref := u;
    if Truthy(parsedHref.pathname) && !StartsWith(parsedHref.pathname.value, "/") {
      parsedHref := parsedHref.(pathname := Present("/" + parsedHref.pathname.value));
    }
  }

  method FallBackToCurrentPath(u: UrlObject, currentPath: string) returns (parsedHref: UrlObject)
    ensures parsedHref == HashFallback(u, currentPath)
  {
    parsedHref := u;
    if !Truthy(parsedHref.pathname) && Truthy(parsedHref.hash) {
      parsedHref := parsedHref.(pathname := Present(Split(currentPath, '#')[0]));
    }
  }
}
