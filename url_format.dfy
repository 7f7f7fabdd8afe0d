/**
 * `formatUrl` of next/src/lib/resolve-href.ts: the parts of a `UrlObject`
 * written in the order protocol, auth, host, pathname, query or search, hash;
 * the method `FormatUrl` that appends them to a result string; and the round
 * trip with `parseUrl`.
 */
module UrlFormat {
  import opened Wrappers
  import opened Strings
  import opened Records
  import opened UrlTypes
  import opened UrlParse

  /** `s` with `c` put in front unless it already starts with it. */
  function Prefixed(s: string, c: char): (r: string)
    ensures |r| >= 1 && r[0] == c
    ensures r == s || r == [c] + s
    ensures |s| >= 1 && s[0] == c ==> r == s
  {
    if StartsWith(s, [c]) then s else [c] + s
  }

  /** Adding the character twice is the same as adding it once. */
  lemma PrefixedIdempotent(s: string, c: char)
    ensures Prefixed(Prefixed(s, c), c) == Prefixed(s, c)
    ensures Prefixed([c] + s, c) == [c] + s
  {
  }

  /** The protocol, followed by "://" when `slashes` is set or the protocol is a
      scheme name, and by ":" otherwise. */
  function ProtocolPart(u: UrlObject): string {
    if Truthy(u.protocol) then
      u.protocol.value + (if u.slashes == Present(true) || IsSchemeName(u.protocol.value) then "://" else ":")
    else ""
  }

  function AuthPart(u: UrlObject): string {
    if Truthy(u.auth) then u.auth.value + "@" else ""
  }

  /** The host when set; otherwise the hostname and, when set, ":" and the port. */
  function HostPart(u: UrlObject): string {
    if Truthy(u.host) then u.host.value
    else if Truthy(u.hostname) then
      u.hostname.value + (if PortTruthy(u.port) then ":" + PortString(u.port.value) else "")
    else ""
  }

  function PathnamePart(u: UrlObject): string {
    if Truthy(u.pathname) then u.pathname.value else ""
  }

  /** The parameters of one array value: `key=value` for each item, in order. */
  function ItemParams(encodedKey: string, items: seq<Value>, rt: Runtime): Option<seq<string>> {
    if |items| == 0 then Some([])
    else
      var init :- ItemParams(encodedKey, items[..|items| - 1], rt);
      var v :- rt.encode(Stringify(items[|items| - 1]));
      Some(init + [encodedKey + "=" + v])
  }

  /** The parameters of one entry: none for null and undefined, one per item for
      an array, one otherwise; the key is encoded once per entry. */
  function EntryParams(key: string, value: Value, rt: Runtime): Option<seq<string>> {
    if IsNullish(value) then Some([])
    else
      var encodedKey :- rt.encode(key);
      if value.List? then ItemParams(encodedKey, value.items, rt)
      else
        var v :- rt.encode(Stringify(value));
        Some([encodedKey + "=" + v])
  }

  /** The parameters of all entries, in entry order; `None` when an encoding throws. */
  function Params(entries: seq<(string, Value)>, rt: Runtime): Option<seq<string>> {
    if |entries| == 0 then Some([])
    else
      var init :- Params(entries[..|entries| - 1], rt);
      var last :- EntryParams(entries[|entries| - 1].0, entries[|entries| - 1].1, rt);
      Some(init + last)
  }

  /** The query string: from a query record, "?" and its parameters joined with "&"
      (nothing when there are none); otherwise the search, with "?" added if missing. */
  function QueryPart(u: UrlObject, rt: Runtime): (r: Option<string>)
    ensures r.Some? ==> r.value == "" || r.value[0] == '?'
    ensures r.None? ==> u.query.Present? && u.query.value.QueryRecord?
  {
    if u.query.Present? && u.query.value.QueryRecord? then
      var params :- Params(u.query.value.entries, rt);
      Some(if |params| > 0 then "?" + Join(params, "&") else "")
    else Some(if Truthy(u.search) then Prefixed(u.search.value, '?') else "")
  }

  function HashPart(u: UrlObject): (r: string)
    ensures r == "" || r[0] == '#'
  {
    if Truthy(u.hash) then Prefixed(u.hash.value, '#') else ""
  }

  /** What `formatUrl(u)` returns; `None` when encodeURIComponent throws. */
  function Formatted(u: UrlObject, rt: Runtime): Option<string> {
    var q :- QueryPart(u, rt);
    Some(ProtocolPart(u) + AuthPart(u) + HostPart(u) + PathnamePart(u) + q + HashPart(u))
  }

  // ---------------------------------------------------------------------------
  // The method

  /** `formatUrl`: the parts appended to `result` one after the other. */
  method FormatUrl(u: UrlObject, rt: Runtime) returns (r: Option<string>)
    ensures r == Formatted(u, rt)
  {
    var result := FormatAddress(u);
    ghost var address := result;
    if u.query.Present? && u.query.value.QueryRecord? {
      var params := CollectParams(u.query.value.entries, rt);
      if params.None? {
        return None;
      }
      if |params.value| > 0 {
        result := result + "?" + Join(params.value, "&");
      }
    } else if Truthy(u.search) {
      result := result + (if StartsWith(u.search.value, "?") then u.search.value else "?" + u.search.value);
    }
    assert result == address + QueryPart(u, rt).value;
    if Truthy(u.hash) {
      result := result + (if StartsWith(u.hash.value, "#") then u.hash.value else "#" + u.hash.value);
    }
    assert result == address + QueryPart(u, rt).value + HashPart(u);
    return Some(result);
  }

  /** The protocol, auth, host and pathname blocks of `formatUrl`. */
  method FormatAddress(u: UrlObject) returns (result: string)
    ensures result == ProtocolPart(u) + AuthPart(u) + HostPart(u) + PathnamePart(u)
  {
    result := "";
    if Truthy(u.protocol) {
      result := result + u.protocol.value;
      if u.slashes == Present(true) || IsSchemeName(u.protocol.value) {
        result := result + "://";
      } else {
        result := result + ":";
      }
    }
    assert result == ProtocolPart(u);
    if Truthy(u.auth) {
      result := result + u.auth.value + "@";
    }
    assert result == ProtocolPart(u) + AuthPart(u);
    ghost var before := result;
    if Truthy(u.host) {
      result := result + u.host.value;
    } else if Truthy(u.hostname) {
      result := result + u.hostname.value;
      if PortTruthy(u.port) {
        result := result + ":" + PortString(u.port.value);
        Associative(before, u.hostname.value, ":" + PortString(u.port.value));
      }
    }
    assert result == before + HostPart(u);
    if Truthy(u.pathname) {
      result := result + u.pathname.value;
    }
  }

  /** Once an encoding has thrown, more entries cannot recover. */
  lemma {:induction false} ParamsFailureSticks(entries: seq<(string, Value)>, j: nat, rt: Runtime)
    requires j <= |entries|
    requires Params(entries[..j], rt).None?
    ensures Params(entries, rt).None?
    decreases |entries| - j
  {
    if j < |entries| {
      assert entries[..j + 1][..j] == entries[..j];
      ParamsFailureSticks(entries, j + 1, rt);
    } else {
      assert entries[..j] == entries;
    }
  }

  lemma {:induction false} ItemFailureSticks(encodedKey: string, items: seq<Value>, j: nat, rt: Runtime)
    requires j <= |items|
    requires ItemParams(encodedKey, items[..j], rt).None?
    ensures ItemParams(encodedKey, items, rt).None?
    decreases |items| - j
  {
    if j < |items| {
      assert items[..j + 1][..j] == items[..j];
      ItemFailureSticks(encodedKey, items, j + 1, rt);
    } else {
      assert items[..j] == items;
    }
  }

  /** The `for ... of Object.entries(query)` loop pushing onto `params`. */
  method CollectParams(entries: seq<(string, Value)>, rt: Runtime) returns (r: Option<seq<string>>)
    ensures r == Params(entries, rt)
  {
    var params: seq<string> := [];
    var i := 0;
    while i < |entries|
      invariant 0 <= i <= |entries|
      invariant Params(entries[..i], rt) == Some(params)
    {
      var entry := EntryParamsOf(entries[i].0, entries[i].1, rt);
      assert entries[..i + 1][..i] == entries[..i];
      if entry.None? {
        ParamsFailureSticks(entries, i + 1, rt);
        return None;
      }
      params := params + entry.value;
      i := i + 1;
    }
    assert entries[..|entries|] == entries;
    return Some(params);
  }

  /** The body of that loop for one entry. */
  method EntryParamsOf(key: string, value: Value, rt: Runtime) returns (r: Option<seq<string>>)
    ensures r == EntryParams(key, value, rt)
  {
    if value.NullValue? || value.UndefinedValue? {
      return Some([]);
    }
    var encodedKey := rt.encode(key);
    if encodedKey.None? {
      return None;
    }
    if value.List? {
      r := PushItems(encodedKey.value, value.items, rt);
    } else {
      var v := rt.encode(Stringify(value));
      if v.None? {
        return None;
      }
      r := Some([encodedKey.value + "=" + v.value]);
    }
  }

  /** The `forEach` over an array value. */
  method PushItems(encodedKey: string, items: seq<Value>, rt: Runtime) returns (r: Option<seq<string>>)
    ensures r == ItemParams(encodedKey, items, rt)
  {
    var params: seq<string> := [];
    var i := 0;
    while i < |items|
      invariant 0 <= i <= |items|
      invariant ItemParams(encodedKey, items[..i], rt) == Some(params)
    {
      var v := rt.encode(Stringify(items[i]));
      assert items[..i + 1][..i] == items[..i];
      if v.None? {
        ItemFailureSticks(encodedKey, items, i + 1, rt);
        return None;
      }
      params := params + [encodedKey + "=" + v.value];
      i := i + 1;
    }
    assert items[..|items|] == items;
    return Some(params);
  }

  // ---------------------------------------------------------------------------
  // What formatting promises

  /** An array value yields one `key=value` parameter per item, in item order. */
  lemma {:induction false} ItemParamsShape(encodedKey: string, items: seq<Value>, rt: Runtime)
    ensures var r := ItemParams(encodedKey, items, rt);
      r.Some? ==>
        && |r.value| == |items|
        && forall i :: 0 <= i < |items| ==>
          rt.encode(Stringify(items[i])).Some? && r.value[i] == encodedKey + "=" + rt.encode(Stringify(items[i])).value
  {
    if |items| > 0 {
      var init := items[..|items| - 1];
      ItemParamsShape(encodedKey, init, rt);
      var r := ItemParams(encodedKey, items, rt);
      if r.Some? {
        var p := ItemParams(encodedKey, init, rt).value;
        assert r.value == p + [encodedKey + "=" + rt.encode(Stringify(items[|items| - 1])).value];
        forall i | 0 <= i < |items|
          ensures rt.encode(Stringify(items[i])).Some? && r.value[i] == encodedKey + "=" + rt.encode(Stringify(items[i])).value
        {
          if i < |init| {
            assert items[i] == init[i];
          }
        }
      }
    }
  }

  /** The parameters of consecutive entries are the parameters of each part in order. */
  lemma {:induction false} ParamsConcat(a: seq<(string, Value)>, b: seq<(string, Value)>, rt: Runtime)
    ensures Params(a + b, rt) ==
      (var pa :- Params(a, rt); var pb :- Params(b, rt); Some(pa + pb))
    decreases |b|
  {
    if |b| == 0 {
      assert a + b == a;
      var none: seq<string> := [];
      if Params(a, rt).Some? {
        assert Params(a, rt).value + none == Params(a, rt).value;
      }
    } else {
      var b0 := b[..|b| - 1];
      var last := b[|b| - 1];
      assert (a + b)[..|a + b| - 1] == a + b0;
      assert (a + b)[|a + b| - 1] == last;
      ParamsConcat(a, b0, rt);
      var pa := Params(a, rt);
      var pb0 := Params(b0, rt);
      var pl := EntryParams(last.0, last.1, rt);
      if pa.Some? && pb0.Some? && pl.Some? {
        Associative(pa.value, pb0.value, pl.value);
      }
    }
  }

  /** An entry whose value is null or undefined contributes nothing, wherever it is. */
  lemma NullishSkipped(a: seq<(string, Value)>, key: string, value: Value, b: seq<(string, Value)>, rt: Runtime)
    requires IsNullish(value)
    ensures Params(a + [(key, value)] + b, rt) == Params(a + b, rt)
  {
    ParamsConcat(a + [(key, value)], b, rt);
    ParamsConcat(a, [(key, value)], rt);
    ParamsConcat(a, b, rt);
    assert [(key, value)][..0] == [];
    var none: seq<string> := [];
    assert none + none == none;
    if Params(a, rt).Some? {
      assert Params(a, rt).value + none == Params(a, rt).value;
    }
  }

  /** A query record takes precedence: the search is then ignored. */
  lemma QueryBeatsSearch(u: UrlObject, search: Nullable<string>, rt: Runtime)
    requires u.query.Present? && u.query.value.QueryRecord?
    ensures Formatted(u.(search := search), rt) == Formatted(u, rt)
  {
  }

  /** Without a query record the search is written, with "?" added if missing; a
      string query is ignored. */
  lemma SearchWithoutRecord(u: UrlObject, rt: Runtime)
    requires !(u.query.Present? && u.query.value.QueryRecord?)
    ensures Formatted(u, rt) == Some(ProtocolPart(u) + AuthPart(u) + HostPart(u) + PathnamePart(u)
      + (if Truthy(u.search) then Prefixed(u.search.value, '?') else "") + HashPart(u))
  {
  }

  /** A set host takes precedence: hostname and port are then ignored. */
  lemma HostBeatsHostname(u: UrlObject, hostname: Nullable<string>, port: Nullable<Port>, rt: Runtime)
    requires Truthy(u.host)
    ensures Formatted(u.(hostname := hostname, port := port), rt) == Formatted(u, rt)
  {
  }

  /** The scheme of `t`, when it starts with one followed by "://", lowercased. */
  function SchemeLowered(t: string): string {
    match MatchScheme(t)
    case Some(n) => Lower(t[..n]) + t[n..]
    case None => t
  }

  /** Parsing without decoding the query and formatting the result again gives the
      trimmed input back, with the scheme lowercased, unless the URL has an empty
      auth ("scheme://@host"), whose "@" is lost. */
  lemma FormatParsed(urlStr: string, rt: Runtime)
    ensures Parsed(urlStr, false, rt).Some?
    ensures var u := Parsed(urlStr, false, rt).value;
      u.auth != Present("") ==> Formatted(u, rt) == Some(SchemeLowered(Trim(urlStr)))
  {
    if urlStr != "" {
      FormatParsedText(Trim(urlStr), urlStr, rt);
    } else {
      assert Trim(urlStr) == "";
      assert MatchScheme("").None?;
      var u := Blank(urlStr);
      assert ProtocolPart(u) == "" && AuthPart(u) == "" && HostPart(u) == "" && PathnamePart(u) == "";
      assert QueryPart(u, rt) == Some("") && HashPart(u) == "";
      var none: string := "";
      assert none + none + none + none + none + none == none;
      assert Formatted(u, rt) == Some(none);
    }
  }

  /** The empty-auth case: the "@" right after "://" is dropped. */
  lemma FormatParsedEmptyAuth(urlStr: string, rt: Runtime)
    requires Parsed(urlStr, false, rt).Some? && Parsed(urlStr, false, rt).value.auth == Present("")
    ensures var t := Trim(urlStr);
      && MatchScheme(t).Some?
      && var n := MatchScheme(t).value;
      && n + 4 <= |t| && t[n + 3] == '@'
      && Formatted(Parsed(urlStr, false, rt).value, rt) == Some(SchemeLowered(t)[..n + 3] + t[n + 4..])
  {
    FormatParsedText(Trim(urlStr), urlStr, rt);
  }

  /** Seven pieces laid end to end, grouped from the right. */
  lemma Regroup(p: string, q: string, a: string, h: string, pn: string, se: string, hs: string)
    ensures p + q + a + h + pn + se + hs == p + (q + (a + (h + pn + se + hs)))
  {
    var r := h + pn + se + hs;
    assert p + q + a + h + pn + se + hs == (p + q + a) + r by {
      Associative(p + q + a + h + pn, se, hs);
      Associative(p + q + a + h, pn, se + hs);
      Associative(p + q + a, h, pn + (se + hs));
      Associative(h + pn, se, hs);
      Associative(h, pn, se + hs);
    }
    Associative(p + q, a, r);
    Associative(p, q, a + r);
  }

  /** The shape of the fields a parse without query decoding produces: no query,
      no empty strings, a search that starts with "?", a hash that starts with "#",
      and a hostname exactly when there is a host. */
  predicate Canonical(u: UrlObject) {
    && u.query == Null
    && u.host != Present("") && u.pathname != Present("")
    && u.search != Undefined && u.hash != Undefined && u.pathname != Undefined && u.host != Undefined
    && (u.search.Present? ==> u.search.value != "" && u.search.value[0] == '?')
    && (u.hash.Present? ==> u.hash.value != "" && u.hash.value[0] == '#')
    && (u.host.Null? <==> u.hostname.Null?)
  }

  lemma ParsedCanonical(t: string, href: string, rt: Runtime)
    ensures ParsedText(t, href, false, rt).Some?
    ensures Canonical(ParsedText(t, href, false, rt).value)
  {
    ParsedFields(t, href, false, rt);
    ParsedPath(t, href, false, rt);
    ParsedQueryField(t, href, false, rt);
    CutParts(t);
  }

  /** A canonical record is written field by field, each field as it is. */
  lemma FormattedCanonical(u: UrlObject, rt: Runtime)
    requires Canonical(u)
    ensures Formatted(u, rt) == Some(ProtocolPart(u) + AuthPart(u) + OrEmpty(u.host) + OrEmpty(u.pathname)
      + OrEmpty(u.search) + OrEmpty(u.hash))
  {
    assert QueryPart(u, rt) == Some(OrEmpty(u.search));
    assert HashPart(u) == OrEmpty(u.hash);
    assert PathnamePart(u) == OrEmpty(u.pathname);
    assert HostPart(u) == OrEmpty(u.host);
  }

  /** The string algebra of the round trip: the formatted text is the lowered
      scheme followed by the text after the scheme, with the "@" of an empty auth
      left out. */
  lemma SchemeAlgebra(t: string, n: nat, scheme: string, authIn: string, authOut: string, r: string)
    requires n <= |t| && |scheme| == n
    requires t == t[..n] + ("://" + (authIn + r))
    ensures authIn == authOut ==> scheme + t[n..] == scheme + ("://" + (authOut + r))
    ensures authIn == "@" && authOut == "" ==>
      && n + 4 <= |t| && t[n + 3] == '@'
      && (scheme + t[n..])[..n + 3] + t[n + 4..] == scheme + ("://" + (authOut + r))
  {
    var after := "://" + (authIn + r);
    assert t[n..] == after;
    if authIn == "@" && authOut == "" {
      assert after == "://@" + r;
      assert t[n..][3] == '@';
      assert t[n + 4..] == t[n..][4..];
      assert (scheme + after)[..n + 3] == scheme + "://";
      Associative(scheme, "://", r);
    }
  }

  /** The part of the formatted text after three empty parts. */
  lemma EmptyFront(p: string, q: string, a: string, h: string, pn: string, se: string, hs: string)
    requires p == "" && q == "" && a == "" && h == ""
    ensures p + q + a + h + pn + se + hs == pn + se + hs
  {
  }

  /** Both cases of the round trip at once, on the trimmed text. */
  lemma FormatParsedText(t: string, href: string, rt: Runtime)
    ensures ParsedText(t, href, false, rt).Some?
    ensures var u := ParsedText(t, href, false, rt).value;
      && (u.auth != Present("") ==> Formatted(u, rt) == Some(SchemeLowered(t)))
      && (u.auth == Present("") ==>
            && MatchScheme(t).Some?
            && var n := MatchScheme(t).value;
            && n + 4 <= |t| && t[n + 3] == '@'
            && Formatted(u, rt) == Some(SchemeLowered(t)[..n + 3] + t[n + 4..]))
  {
    ParsedCanonical(t, href, rt);
    ParsedFields(t, href, false, rt);
    ParsedJoin(t, href, false, rt);
    FormatLaidOut(ParsedText(t, href, false, rt).value, t, rt);
  }

  /** The round trip for any canonical record whose fields, laid end to end after
      the original scheme, give `t`. */
  lemma FormatLaidOut(u: UrlObject, t: string, rt: Runtime)
    requires Canonical(u)
    requires u.protocol.Present? <==> MatchScheme(t).Some?
    requires MatchScheme(t).None? ==>
      && u.auth == Null && u.host == Null
      && t == OrEmpty(u.pathname) + OrEmpty(u.search) + OrEmpty(u.hash)
    requires MatchScheme(t).Some? ==>
      && u.protocol == Present(Lower(t[..MatchScheme(t).value])) && u.slashes == Present(true)
      && t == t[..MatchScheme(t).value] + "://" + AuthPrefix(u.auth) + OrEmpty(u.host) + OrEmpty(u.pathname)
           + OrEmpty(u.search) + OrEmpty(u.hash)
    ensures u.auth != Present("") ==> Formatted(u, rt) == Some(SchemeLowered(t))
    ensures u.auth == Present("") ==>
      && MatchScheme(t).Some?
      && var n := MatchScheme(t).value;
      && n + 4 <= |t| && t[n + 3] == '@'
      && Formatted(u, rt) == Some(SchemeLowered(t)[..n + 3] + t[n + 4..])
  {
    FormattedCanonical(u, rt);
    var h, pn, se, hs := OrEmpty(u.host), OrEmpty(u.pathname), OrEmpty(u.search), OrEmpty(u.hash);
    var r := h + pn + se + hs;
    var out := ProtocolPart(u) + AuthPart(u) + h + pn + se + hs;
    assert Formatted(u, rt) == Some(out);
    var m := MatchScheme(t);
    if m.None? {
      assert ProtocolPart(u) == "" && AuthPart(u) == "" && h == "";
      EmptyFront(ProtocolPart(u), AuthPart(u), h, "", pn, se, hs);
    } else {
      var n := m.value;
      var scheme := Lower(t[..n]);
      assert ProtocolPart(u) == scheme + "://";
      Regroup(t[..n], "://", AuthPrefix(u.auth), h, pn, se, hs);
      Regroup(scheme, "://", AuthPart(u), h, pn, se, hs);
      assert SchemeLowered(t) == scheme + t[n..];
      assert AuthPart(u) == if u.auth == Present("") then "" else AuthPrefix(u.auth);
      SchemeAlgebra(t, n, scheme, AuthPrefix(u.auth), AuthPart(u), r);
    }
  }
}
