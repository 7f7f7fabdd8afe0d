/**
 * `parseUrl` of next/src/lib/resolve-href.ts: the specification `Parsed`
 * built from small cutting functions, the decoding of the query string, and
 * the method `ParseUrl` that fills the result record field by field.
 */
module UrlParse {
  import opened Wrappers
  import opened Strings
  import opened Records
  import opened UrlTypes

  /** The record parseUrl starts from: every field null, `href` the input. */
  function Blank(urlStr: string): UrlObject {
    UrlObject(Null, Null, Null, Null, Null, Null, Null, Null, Null, Null, Null, Present(urlStr))
  }

  /** `s` cut at its first `c`: the text before, and the rest from `c` on (null when `c` is absent). */
  function CutAtFirst(s: string, c: char): (r: (string, Nullable<string>))
    ensures r.1 != Undefined
    ensures r.1.Null? <==> c !in s
    ensures r.1.Null? ==> r.0 == s
    ensures r.1.Present? ==> r.1.value != "" && r.1.value[0] == c
  {
    var k := IndexOf(s, c);
    if k == -1 then (s, Null) else (s[..k], Present(s[k..]))
  }

  /** The two parts of the cut put together give `s` back, and the first holds no `c`. */
  lemma CutAtFirstJoin(s: string, c: char)
    ensures s == CutAtFirst(s, c).0 + OrEmpty(CutAtFirst(s, c).1)
    ensures c !in CutAtFirst(s, c).0
  {
    var k := IndexOf(s, c);
    IndexOfFirst(s, c);
    if k != -1 {
      assert s == s[..k] + s[k..];
    }
  }

  predicate IsLetter(ch: char) {
    'a' <= ch <= 'z' || 'A' <= ch <= 'Z'
  }

  predicate IsSchemeChar(ch: char) {
    IsLetter(ch) || '0' <= ch <= '9' || ch == '+' || ch == '.' || ch == '-'
  }

  /** `/^[a-z][a-z0-9+.-]*$/i.test(t)`. */
  predicate IsSchemeName(t: string) {
    |t| >= 1 && IsLetter(t[0]) && forall i :: 1 <= i < |t| ==> IsSchemeChar(t[i])
  }

  /** The length of the longest prefix of scheme characters. */
  function SchemeRun(s: string): (n: nat)
    ensures n <= |s|
    ensures forall i :: 0 <= i < n ==> IsSchemeChar(s[i])
    ensures n < |s| ==> !IsSchemeChar(s[n])
  {
    if |s| > 0 && IsSchemeChar(s[0]) then 1 + SchemeRun(s[1..]) else 0
  }

  /** `/^([a-z][a-z0-9+.-]*):\/\//i.exec(s)`: the length of the scheme name when
      `s` starts with a scheme name followed by "://". */
  function MatchScheme(s: string): (r: Option<nat>)
    ensures r.Some? ==> r.value + 3 <= |s| && IsSchemeName(s[..r.value]) && s[r.value..r.value + 3] == "://"
  {
    var n := SchemeRun(s);
    if n >= 1 && IsLetter(s[0]) && n + 3 <= |s| && s[n..n + 3] == "://" then Some(n) else None
  }

  /** The match is the only one: whenever a prefix of `s` is a scheme name
      followed by "://", `MatchScheme` finds exactly that prefix. */
  lemma MatchSchemeUnique(s: string, m: nat)
    requires m + 3 <= |s| && IsSchemeName(s[..m]) && s[m..m + 3] == "://"
    ensures MatchScheme(s) == Some(m)
  {
    assert s[m] == ':';
    assert forall i :: 1 <= i < m ==> s[..m][i] == s[i];
  }

  /** The `user:pass@` part, taken when an `@` comes before the first `/`. */
  function SplitAuth(rest: string): (r: (Nullable<string>, string))
    ensures r.0 != Undefined
    ensures r.0.Null? ==> r.1 == rest
  {
    var atIndex := IndexOf(rest, '@');
    var slashIndex := IndexOf(rest, '/');
    if atIndex != -1 && (slashIndex == -1 || atIndex < slashIndex) then
      (Present(rest[..atIndex]), rest[atIndex + 1..])
    else (Null, rest)
  }

  /** The auth part and "@" followed by what is left give back `rest`. */
  lemma SplitAuthJoin(rest: string)
    ensures var r := SplitAuth(rest);
      rest == (if r.0.Present? then r.0.value + "@" else "") + r.1
  {
    var atIndex := IndexOf(rest, '@');
    var slashIndex := IndexOf(rest, '/');
    if atIndex != -1 && (slashIndex == -1 || atIndex < slashIndex) {
      assert rest == rest[..atIndex] + "@" + rest[atIndex + 1..];
    }
  }

  /** Auth is taken exactly when the text before the first `/` holds an `@`, and
      it then runs up to the first `@`, with no `@` or `/` inside. */
  lemma SplitAuthTaken(rest: string)
    ensures SplitAuth(rest).0.Present? <==> '@' in CutAtFirst(rest, '/').0
    ensures SplitAuth(rest).0.Present? ==> '@' !in SplitAuth(rest).0.value && '/' !in SplitAuth(rest).0.value
  {
    var atIndex := IndexOf(rest, '@');
    var slashIndex := IndexOf(rest, '/');
    IndexOfFirst(rest, '@');
    IndexOfFirst(rest, '/');
    if atIndex != -1 && (slashIndex == -1 || atIndex < slashIndex) {
      assert slashIndex != -1 ==> rest[..slashIndex][atIndex] == '@';
      assert slashIndex != -1 ==> rest[..atIndex] == rest[..slashIndex][..atIndex];
    } else if atIndex != -1 {
      assert rest[..slashIndex] == rest[..atIndex][..slashIndex];
    }
  }

  /** The host part and what follows it: the host runs up to the first `/`, which starts the remainder. */
  function SplitHost(rest: string): (r: (string, string))
    ensures r.1 == "" || r.1[0] == '/'
  {
    var hostEnd := IndexOf(rest, '/');
    if hostEnd == -1 then (rest, "") else (rest[..hostEnd], rest[hostEnd..])
  }

  /** The host part followed by what is left gives back `rest`; the host holds no `/`. */
  lemma SplitHostJoin(rest: string)
    ensures rest == SplitHost(rest).0 + SplitHost(rest).1
    ensures '/' !in SplitHost(rest).0
  {
    var hostEnd := IndexOf(rest, '/');
    IndexOfFirst(rest, '/');
    if hostEnd != -1 {
      assert rest == rest[..hostEnd] + rest[hostEnd..];
    }
  }

  /** A host split on its last `:` into hostname and port. */
  function SplitPort(host: string): (r: (string, Nullable<Port>))
    ensures r.1 != Undefined
    ensures r.1.Null? <==> ':' !in host
    ensures r.1.Null? ==> r.0 == host
    ensures r.1.Present? ==> r.1.value.PortText?
  {
    var colonIndex := LastIndexOf(host, ':');
    if colonIndex != -1 then
      (host[..colonIndex], Present(PortText(host[colonIndex + 1..])))
    else (host, Null)
  }

  /** Hostname, ":" and port give back the host; the port holds no `:`. */
  lemma SplitPortJoin(host: string)
    ensures var r := SplitPort(host); r.1.Present? ==> host == r.0 + ":" + r.1.value.text && ':' !in r.1.value.text
  {
    var colonIndex := LastIndexOf(host, ':');
    LastIndexOfLast(host, ':');
    if colonIndex != -1 {
      assert host == host[..colonIndex] + ":" + host[colonIndex + 1..];
    }
  }

  // ---------------------------------------------------------------------------
  // Decoding the query string

  /** One `key=value` parameter: the key is the text before the first `=`, the value
      the text after it, or "" when there is no `=`; an empty key yields no pair. */
  function DecodeParam(param: string, rt: Runtime): Option<seq<(string, string)>> {
    var (key, value) := CutAtFirst(param, '=');
    if key == "" then Some([])
    else
      var k :- rt.decode(key);
      var v :- if value.Present? then rt.decode(value.value[1..]) else Some("");
      Some([(k, v)])
  }

  /** The decoded pairs of all parameters, in order; `None` if a decoding throws. */
  function DecodedPairs(params: seq<string>, rt: Runtime): Option<seq<(string, string)>> {
    if |params| == 0 then Some([])
    else
      var init :- DecodedPairs(params[..|params| - 1], rt);
      var last :- DecodeParam(params[|params| - 1], rt);
      Some(init + last)
  }

  /** Once a decoding has thrown, decoding more parameters cannot recover. */
  lemma {:induction false} DecodeFailureSticks(params: seq<string>, j: nat, rt: Runtime)
    requires j <= |params|
    requires DecodedPairs(params[..j], rt).None?
    ensures DecodedPairs(params, rt).None?
    decreases |params| - j
  {
    if j < |params| {
      assert params[..j + 1][..j] == params[..j];
      DecodeFailureSticks(params, j + 1, rt);
    } else {
      assert params[..j] == params;
    }
  }

  /** One pair added to the query: a new key gets the string, a repeated key turns
      a string into a two-element list and extends a list. */
  function AddPair(q: Record<Value>, k: string, v: string): Record<Value> {
    match Get(q, k)
    case None => Put(q, k, Str(v))
    case Some(existing) =>
      Put(q, k, if existing.List? then List(existing.items + [Str(v)]) else List([existing, Str(v)]))
  }

  function Accumulate(pairs: seq<(string, string)>): Record<Value> {
    if |pairs| == 0 then []
    else
      var n := |pairs| - 1;
      AddPair(Accumulate(pairs[..n]), pairs[n].0, pairs[n].1)
  }

  /** The query record a query string (without its `?`) decodes to. */
  function DecodedQuery(searchParams: string, rt: Runtime): Option<Record<Value>> {
    var pairs :- DecodedPairs(Split(searchParams, '&'), rt);
    Some(Accumulate(pairs))
  }

  /** The values given for key `k`, in order of appearance. */
  function ValuesOf(pairs: seq<(string, string)>, k: string): (vs: seq<string>) {
    if |pairs| == 0 then []
    else ValuesOf(pairs[..|pairs| - 1], k) + (if pairs[|pairs| - 1].0 == k then [pairs[|pairs| - 1].1] else [])
  }

  /** The keys in order of first appearance. */
  function FirstKeys(pairs: seq<(string, string)>): seq<string> {
    if |pairs| == 0 then []
    else
      var ks := FirstKeys(pairs[..|pairs| - 1]);
      ks + (if pairs[|pairs| - 1].0 in ks then [] else [pairs[|pairs| - 1].0])
  }

  /** What a key with values `vs` maps to: the string itself when given once, all
      of them in order when repeated. */
  function Collapse(vs: seq<string>): Value
    requires |vs| >= 1
  {
    if |vs| == 1 then Str(vs[0]) else List(seq(|vs|, i requires 0 <= i < |vs| => Str(vs[i])))
  }

  /** A key has a first appearance exactly when it has a value. */
  lemma {:induction false} FirstKeysValues(pairs: seq<(string, string)>)
    ensures forall k :: k in FirstKeys(pairs) <==> ValuesOf(pairs, k) != []
  {
    if |pairs| > 0 {
      FirstKeysValues(pairs[..|pairs| - 1]);
    }
  }

  /** The decoded query lists its keys in order of first appearance. */
  lemma {:induction false} AccumulateKeys(pairs: seq<(string, string)>)
    ensures Keys(Accumulate(pairs)) == FirstKeys(pairs)
  {
    if |pairs| > 0 {
      AccumulateKeys(pairs[..|pairs| - 1]);
    }
  }

  /** One more value for a key: a string becomes a pair, a list grows by one. */
  lemma CollapseAppend(vs: seq<string>, v: string)
    ensures Collapse(vs + [v]) ==
      if |vs| == 0 then Str(v)
      else if |vs| == 1 then List([Str(vs[0]), Str(v)])
      else List(Collapse(vs).items + [Str(v)])
  {
    var ws := vs + [v];
    if |vs| == 1 {
      assert seq(|ws|, i requires 0 <= i < |ws| => Str(ws[i])) == [Str(vs[0]), Str(v)];
    } else if |vs| >= 2 {
      assert seq(|ws|, i requires 0 <= i < |ws| => Str(ws[i])) ==
        seq(|vs|, i requires 0 <= i < |vs| => Str(vs[i])) + [Str(v)];
    }
  }

  /** The decoded query groups the pairs by key: each key that occurs maps to the
      `Collapse` of all its values in order, and other keys are absent. */
  lemma {:induction false} AccumulateGet(pairs: seq<(string, string)>)
    ensures forall k :: (Get(Accumulate(pairs), k) ==
      if ValuesOf(pairs, k) == [] then None else Some(Collapse(ValuesOf(pairs, k))))
  {
    if |pairs| > 0 {
      var n := |pairs| - 1;
      var init := pairs[..n];
      var (kn, vn) := pairs[n];
      AccumulateGet(init);
      var acc := Accumulate(init);
      assert Accumulate(pairs) == AddPair(acc, kn, vn);
      forall k ensures (Get(Accumulate(pairs), k) ==
        if ValuesOf(pairs, k) == [] then None else Some(Collapse(ValuesOf(pairs, k))))
      {
        var vs := ValuesOf(init, k);
        if k == kn {
          assert ValuesOf(pairs, k) == vs + [vn];
          CollapseAppend(vs, vn);
        } else {
          assert ValuesOf(pairs, k) == vs;
        }
      }
    }
  }

  /** The decoding half of the `forEach` callback: `[key, ...valueParts] =
      param.split("=")`, both parts decoded, nothing for an empty key. */
  method DecodeOne(param: string, rt: Runtime) returns (r: Option<seq<(string, string)>>)
    ensures r == DecodeParam(param, rt)
    ensures r.Some? ==> |r.value| <= 1
  {
    var parts := Split(param, '=');
    var key := parts[0];
    var valueParts := parts[1..];
    SplitHead(param, '=');
    if key == "" {
      return Some([]);
    }
    var decodedKey := rt.decode(key);
    if decodedKey.None? {
      return None;
    }
    var decodedValue := "";
    if |valueParts| > 0 {
      var d := rt.decode(Join(valueParts, "="));
      if d.None? {
        return None;
      }
      decodedValue := d.value;
    }
    var k := IndexOf(param, '=');
    assert k != -1 ==> param[k..][1..] == param[k + 1..];
    return Some([(decodedKey.value, decodedValue)]);
  }

  /** The update half of the callback: `query[decodedKey]` set, or extended when already present. */
  method StorePair(query: Record<Value>, key: string, value: string) returns (r: Record<Value>)
    ensures r == AddPair(query, key, value)
  {
    var existing := Get(query, key);
    if existing.Some? {
      r := Put(query, key,
        if existing.value.List? then List(existing.value.items + [Str(value)])
        else List([existing.value, Str(value)]));
    } else {
      r := Put(query, key, Str(value));
    }
  }

  /** The loop of the `forEach` over the parameters, in order. */
  method DecodeParams(params: seq<string>, rt: Runtime) returns (r: Option<Record<Value>>)
    ensures r == (var pairs :- DecodedPairs(params, rt); Some(Accumulate(pairs)))
  {
    var query: Record<Value> := [];
    ghost var pairs: seq<(string, string)> := [];
    var i := 0;
    while i < |params|
      invariant 0 <= i <= |params|
      invariant DecodedPairs(params[..i], rt) == Some(pairs)
      invariant query == Accumulate(pairs)
    {
      var decoded := DecodeOne(params[i], rt);
      assert params[..i + 1][..i] == params[..i];
      assert DecodedPairs(params[..i + 1], rt) ==
        if decoded.None? then None else Some(pairs + decoded.value);
      if decoded.None? {
        DecodeFailureSticks(params, i + 1, rt);
        return None;
      }
      if |decoded.value| == 1 {
        var (key, value) := decoded.value[0];
        query := StorePair(query, key, value);
        ghost var prev := pairs;
        pairs := pairs + decoded.value;
        assert pairs[..|pairs| - 1] == prev;
        assert pairs[|pairs| - 1] == (key, value);
      } else {
        assert pairs + decoded.value == pairs;
      }
      i := i + 1;
    }
    assert params[..|params|] == params;
    return Some(query);
  }

  // ---------------------------------------------------------------------------
  // The whole parse

  /** The part of an absolute URL after "scheme://". */
  datatype Authority = Authority(
    auth: Nullable<string>, host: Nullable<string>, hostname: Nullable<string>,
    port: Nullable<Port>, remainder: string)

  /** Auth, host, hostname and port taken off `rest`, and the remainder that becomes the pathname. */
  function ParsedAuthority(rest: string): (a: Authority)
    ensures a.auth != Undefined && a.host != Undefined && a.hostname != Undefined && a.port != Undefined
    ensures a.host.Null? <==> a.hostname.Null?
    ensures a.host != Present("")
  {
    var sa := SplitAuth(rest);
    var sh := SplitHost(sa.1);
    if sh.0 == "" then Authority(sa.0, Null, Null, Null, sh.1)
    else
      var sp := SplitPort(sh.0);
      Authority(sa.0, Present(sh.0), Present(sp.0), sp.1, sh.1)
  }

  /** `rest` is the auth part and "@", the host part and what is left. */
  lemma AuthHostJoin(rest: string)
    ensures var sa := SplitAuth(rest); var sh := SplitHost(sa.1);
      rest == (if sa.0.Present? then sa.0.value + "@" else "") + sh.0 + sh.1
  {
    var sa := SplitAuth(rest);
    var sh := SplitHost(sa.1);
    var authText := if sa.0.Present? then sa.0.value + "@" else "";
    SplitAuthJoin(rest);
    SplitHostJoin(sa.1);
    Associative(authText, sh.0, sh.1);
  }

  /** The pieces of the authority put back together give `rest`: auth and "@",
      the host, and a remainder that is empty or starts with "/". */
  lemma AuthorityParts(rest: string)
    ensures var a := ParsedAuthority(rest);
      && (a.remainder == "" || a.remainder[0] == '/')
      && rest == (if a.auth.Present? then a.auth.value + "@" else "") + OrEmpty(a.host) + a.remainder
  {
    AuthHostJoin(rest);
    var sa := SplitAuth(rest);
    var sh := SplitHost(sa.1);
    var a := ParsedAuthority(rest);
    assert a.auth == sa.0 && OrEmpty(a.host) == sh.0 && a.remainder == sh.1;
  }

  /** The query field: the decoded record when asked for and a search is present, null otherwise. */
  function ParsedQuery(search: Nullable<string>, parseQueryString: bool, rt: Runtime): Option<Nullable<Query>>
    requires search.Present? ==> search.value != ""
  {
    if parseQueryString && search.Present? then
      var q :- DecodedQuery(search.value[1..], rt);
      Some(Present(QueryRecord(q)))
    else Some(Null)
  }

  /** `path` set to pathname + search when either is non-empty. */
  function WithPath(u: UrlObject): (r: UrlObject)
    ensures r == u.(path := r.path)
  {
    if Truthy(u.pathname) || Truthy(u.search) then u.(path := Present(OrEmpty(u.pathname) + OrEmpty(u.search)))
    else u
  }

  /** The hash, the search and what precedes them. */
  datatype Cuts = Cuts(hash: Nullable<string>, search: Nullable<string>, rest: string)

  /** The hash is cut off at the first `#`, then the search at the first `?` before it. */
  function Cut(t: string): Cuts {
    var (beforeHash, hash) := CutAtFirst(t, '#');
    var (rest, search) := CutAtFirst(beforeHash, '?');
    Cuts(hash, search, rest)
  }

  /** What `parseUrl(urlStr, parseQueryString)` returns; `None` when decodeURIComponent throws. */
  function Parsed(urlStr: string, parseQueryString: bool, rt: Runtime): (r: Option<UrlObject>)
    ensures r.Some? ==> r.value.href == Present(urlStr)
    ensures urlStr == "" ==> r == Some(Blank(urlStr))
    ensures r.None? ==> parseQueryString
  {
    if urlStr == "" then Some(Blank(urlStr)) else ParsedText(Trim(urlStr), urlStr, parseQueryString, rt)
  }

  /** The parse of a non-empty input `href` whose trimmed text is `t`. */
  function ParsedText(t: string, href: string, parseQueryString: bool, rt: Runtime): (r: Option<UrlObject>)
    ensures r.Some? ==> r.value.href == Present(href)
    ensures r.None? ==> parseQueryString
  {
    var c := Cut(t);
    var query :- ParsedQuery(c.search, parseQueryString, rt);
    Some(WithPath(Located(Blank(href).(hash := c.hash, search := c.search, query := query), c.rest)))
  }

  /** None of the fields `Located` sets has been set yet. */
  predicate Unlocated(u: UrlObject) {
    u.protocol == Null && u.slashes == Null && u.auth == Null && u.host == Null &&
    u.port == Null && u.hostname == Null && u.pathname == Null
  }

  /** The fields taken from what precedes the search. */
  datatype Location = Location(
    protocol: Nullable<string>, slashes: Nullable<bool>, auth: Nullable<string>,
    host: Nullable<string>, hostname: Nullable<string>, port: Nullable<Port>,
    pathname: Nullable<string>)

  /** The scheme, auth, host and port of an absolute URL, then the pathname; the
      fields a relative URL lacks stay null. */
  function LocationOf(rest: string): Location {
    var m := MatchScheme(rest);
    if m.None? then
      Location(Null, Null, Null, Null, Null, Null, if rest == "" then Null else Present(rest))
    else SchemeLocation(rest, m.value)
  }

  /** The location of a text whose first `n` characters are a scheme, followed by "://". */
  function SchemeLocation(rest: string, n: nat): Location
    requires n + 3 <= |rest|
  {
    var a := ParsedAuthority(rest[n + 3..]);
    Location(Present(Lower(rest[..n])), Present(true), a.auth, a.host, a.hostname, a.port,
      if a.remainder == "" then Null else Present(a.remainder))
  }

  /** `u` with the fields of `LocationOf(rest)` filled in. */
  function Located(u: UrlObject, rest: string): UrlObject {
    var l := LocationOf(rest);
    u.(protocol := l.protocol, slashes := l.slashes, auth := l.auth, host := l.host,
      hostname := l.hostname, port := l.port, pathname := l.pathname)
  }

  /** `parseUrl`: the empty-input guard, then hash, search, query, scheme, auth,
      host and port cut off `rest` in that order, the result record updated field by field. */
  method ParseUrl(urlStr: string, parseQueryString: bool, rt: Runtime) returns (r: Option<UrlObject>)
    ensures r == Parsed(urlStr, parseQueryString, rt)
  {
    var result := Blank(urlStr);
    if urlStr == "" {
      return Some(result);
    }
    var cuts := CutHashAndSearch(Trim(urlStr));
    result := result.(hash := cuts.hash, search := cuts.search);
    if cuts.search.Present? && parseQueryString {
      var query := DecodeSearch(cuts.search.value, rt);
      if query.None? {
        return None;
      }
      result := result.(query := Present(QueryRecord(query.value)));
    }
    var rest := cuts.rest;
    result := Locate(result, rest);
    if Truthy(result.pathname) || Truthy(result.search) {
      result := result.(path := Present(OrEmpty(result.pathname) + OrEmpty(result.search)));
    }
    return Some(result);
  }

  /** The first steps of `parseUrl` on the trimmed input: the hash from the first
      `#` on, then the search from the first `?` before it. */
  method CutHashAndSearch(t: string) returns (c: Cuts)
    ensures c == Cut(t)
  {
    var rest := t;
    var hash: Nullable<string> := Null;
    var hashIndex := IndexOf(rest, '#');
    if hashIndex != -1 {
      hash := Present(rest[hashIndex..]);
      rest := rest[..hashIndex];
    }
    var search: Nullable<string> := Null;
    var queryIndex := IndexOf(rest, '?');
    if queryIndex != -1 {
      search := Present(rest[queryIndex..]);
      rest := rest[..queryIndex];
    }
    c := Cuts(hash, search, rest);
  }

  /** The query decoding of `parseUrl`: the search without its leading "?", split
      and decoded unless it is empty. */
  method DecodeSearch(search: string, rt: Runtime) returns (r: Option<Record<Value>>)
    requires search != ""
    ensures r == DecodedQuery(search[1..], rt)
  {
    var searchParams := search[1..];
    if searchParams != "" {
      r := DecodeParams(Split(searchParams, '&'), rt);
    } else {
      assert Split(searchParams, '&') == [""];
      assert DecodedPairs([""], rt) == Some([]) by {
        assert [""][..0] == [];
        assert DecodeParam("", rt) == Some([]);
        assert DecodedPairs([], rt) == Some([]);
        var none: seq<(string, string)> := [];
        assert none + none == none;
      }
      r := Some([]);
    }
  }

  /** The second half of `parseUrl`: the scheme cut off `rest`, then the
      authority, then what is left stored as the pathname. */
  method Locate(u: UrlObject, rest0: string) returns (result: UrlObject)
    requires Unlocated(u)
    ensures result == Located(u, rest0)
  {
    result := u;
    var rest := rest0;
    var protoMatch := MatchScheme(rest);
    if protoMatch.Some? {
      var n := protoMatch.value;
      result := result.(protocol := Present(Lower(rest[..n])), slashes := Present(true));
      rest := rest[n + 3..];
      var a := TakeAuthority(rest);
      result := result.(auth := a.auth, host := a.host, hostname := a.hostname, port := a.port);
      rest := a.remainder;
    }
    if rest != "" {
      result := result.(pathname := Present(rest));
    }
  }

  // ---------------------------------------------------------------------------
  // What the parse promises

  /** The text `formatUrl` writes for an auth field: the auth and "@" when set. */
  function AuthPrefix(auth: Nullable<string>): string {
    if auth.Present? then auth.value + "@" else ""
  }

  /** The hash runs from the first `#` to the end, the search from the first `?`
      before it, and what precedes them holds neither. */
  lemma CutParts(t: string)
    ensures var c := Cut(t);
      && '#' !in c.rest && '?' !in c.rest && '#' !in OrEmpty(c.search)
      && (c.hash.Null? <==> '#' !in t)
      && (c.hash.Present? ==> c.hash.value[0] == '#')
      && (c.search.Present? ==> c.search.value[0] == '?')
      && c.hash != Undefined && c.search != Undefined
  {
    var (beforeHash, hash) := CutAtFirst(t, '#');
    CutAtFirstJoin(t, '#');
    CutAtFirstJoin(beforeHash, '?');
  }

  /** What precedes the search, the search and the hash give back the text, and
      the search and the hash each start with their character. */
  lemma CutJoin(t: string)
    ensures var c := Cut(t); var tail := OrEmpty(c.search) + OrEmpty(c.hash);
      && t == c.rest + tail
      && (tail == "" || tail[0] == '?' || tail[0] == '#')
  {
    var (beforeHash, hash) := CutAtFirst(t, '#');
    CutAtFirstJoin(t, '#');
    CutAtFirstJoin(beforeHash, '?');
    var c := Cut(t);
    Associative(c.rest, OrEmpty(c.search), OrEmpty(c.hash));
  }

  /** A scheme and its "://" hold neither `?` nor `#`. */
  lemma SchemeMatchClean(t: string, n: nat)
    requires MatchScheme(t) == Some(n)
    ensures forall i :: 0 <= i < n + 3 ==> t[i] != '?' && t[i] != '#'
  {
    forall i | 0 <= i < n + 3 ensures t[i] != '?' && t[i] != '#' {
      if i < n {
        assert t[..n][i] == t[i];
      } else {
        assert t[n..n + 3][i - n] == t[i];
      }
    }
  }

  /** A scheme match of `rest + x` already lies within `rest`. */
  lemma MatchSchemeShrink(rest: string, x: string)
    requires x == "" || x[0] == '?' || x[0] == '#'
    ensures MatchScheme(rest + x).Some? ==> MatchScheme(rest) == MatchScheme(rest + x)
  {
    var t := rest + x;
    if MatchScheme(t).Some? {
      var n := MatchScheme(t).value;
      SchemeMatchClean(t, n);
      assert x != "" ==> t[|rest|] == x[0];
      assert n + 3 <= |rest|;
      assert rest[..n] == t[..n] && rest[n..n + 3] == t[n..n + 3];
      MatchSchemeUnique(rest, n);
    }
  }

  /** A scheme match is not changed by text that starts with `?` or `#`. */
  lemma MatchSchemeExtend(rest: string, x: string)
    requires x == "" || x[0] == '?' || x[0] == '#'
    ensures MatchScheme(rest + x) == MatchScheme(rest)
  {
    var t := rest + x;
    var m := MatchScheme(rest);
    if m.Some? {
      var n := m.value;
      assert t[..n] == rest[..n] && t[n..n + 3] == rest[n..n + 3];
      MatchSchemeUnique(t, n);
    } else {
      MatchSchemeShrink(rest, x);
    }
  }

  /** The fields set from what precedes the search: the scheme, lowercased, when the
      text starts with one and "://", the auth, the host and the pathname after it,
      which then starts with "/"; otherwise only the pathname, which is the whole text. */
  lemma LocationParts(rest: string)
    ensures var l := LocationOf(rest);
      && l.pathname != Undefined && l.pathname != Present("")
      && l.host != Present("") && (l.host.Null? <==> l.hostname.Null?)
      && (MatchScheme(rest).None? ==>
            && l.protocol == Null && l.slashes == Null && l.auth == Null
            && l.host == Null && l.hostname == Null && l.port == Null)
      && (MatchScheme(rest).Some? ==>
            && l.protocol == Present(Lower(rest[..MatchScheme(rest).value])) && l.slashes == Present(true)
            && (l.pathname.Present? ==> l.pathname.value[0] == '/'))
  {
    var m := MatchScheme(rest);
    if m.Some? {
      AuthorityParts(rest[m.value + 3..]);
    }
  }

  /** Scheme and "://", auth and "@", host and pathname give back the text; without
      a scheme the pathname is the whole text. */
  lemma LocationJoin(rest: string)
    ensures var l := LocationOf(rest);
      && (MatchScheme(rest).None? ==> rest == OrEmpty(l.pathname))
      && (MatchScheme(rest).Some? ==>
            rest == rest[..MatchScheme(rest).value] + "://" + AuthPrefix(l.auth) + OrEmpty(l.host) + OrEmpty(l.pathname))
  {
    var m := MatchScheme(rest);
    if m.Some? {
      var n := m.value;
      var after := rest[n + 3..];
      var l := LocationOf(rest);
      LocationAfterScheme(rest, n);
      Cut3(rest, n, n + 3);
      LocationRegroup(rest[..n] + "://", AuthPrefix(l.auth), OrEmpty(l.host), OrEmpty(l.pathname));
    }
  }

  /** After the scheme and "://" come the auth with its "@", the host and the pathname. */
  lemma LocationAfterScheme(rest: string, n: nat)
    requires MatchScheme(rest) == Some(n)
    ensures var l := LocationOf(rest);
      rest[n + 3..] == AuthPrefix(l.auth) + OrEmpty(l.host) + OrEmpty(l.pathname)
  {
    var after := rest[n + 3..];
    LocationAuthority(rest, n);
    AuthorityParts(after);
  }

  /** Behind a scheme, the location takes its auth, host and pathname from the authority. */
  lemma LocationAuthority(rest: string, n: nat)
    requires MatchScheme(rest) == Some(n)
    ensures var l, a := LocationOf(rest), ParsedAuthority(rest[n + 3..]);
      l.auth == a.auth && l.host == a.host && OrEmpty(l.pathname) == a.remainder
  {
    assert LocationOf(rest) == SchemeLocation(rest, n);
  }

  lemma LocationRegroup(scheme: string, auth: string, host: string, pathname: string)
    ensures scheme + (auth + host + pathname) == scheme + auth + host + pathname
  {
  }

  /** The host splits into hostname and port at its last `:`: with no port the
      hostname is the host, with one the host is hostname, ":" and a port free of `:`. */
  lemma HostParts(rest: string)
    ensures var a := ParsedAuthority(rest);
      a.host.Present? ==>
        && (a.port.Null? ==> a.hostname == a.host && ':' !in a.host.value)
        && (a.port.Present? ==>
              && a.port.value.PortText?
              && a.host.value == a.hostname.value + ":" + a.port.value.text
              && ':' !in a.port.value.text)
  {
    var sa := SplitAuth(rest);
    var sh := SplitHost(sa.1);
    SplitPortJoin(sh.0);
  }

  /** `path` is pathname + search exactly when either is set, and null otherwise;
      the pathname and the search are never the empty string. */
  lemma ParsedPath(t: string, href: string, parseQueryString: bool, rt: Runtime)
    requires ParsedText(t, href, parseQueryString, rt).Some?
    ensures var u := ParsedText(t, href, parseQueryString, rt).value;
      && u.pathname != Present("") && u.search != Present("")
      && u.path == if u.pathname.Present? || u.search.Present? then Present(OrEmpty(u.pathname) + OrEmpty(u.search)) else Null
  {
    var c := Cut(t);
    CutParts(t);
    var l := LocationOf(c.rest);
    LocationParts(c.rest);
    var query := ParsedQuery(c.search, parseQueryString, rt).value;
    var v := Located(Blank(href).(hash := c.hash, search := c.search, query := query), c.rest);
    assert v.pathname == l.pathname && v.search == c.search && v.path == Null;
    assert ParsedText(t, href, parseQueryString, rt).value == WithPath(v);
    assert Truthy(v.pathname) <==> v.pathname.Present?;
    assert Truthy(v.search) <==> v.search.Present?;
  }

  /** The query is decoded exactly when asked for and a search is present, from the
      search without its "?"; the parse fails exactly when that decoding throws. */
  lemma ParsedQueryField(t: string, href: string, parseQueryString: bool, rt: Runtime)
    ensures var c := Cut(t);
      var decoding := parseQueryString && c.search.Present?;
      && (ParsedText(t, href, parseQueryString, rt).None? <==> decoding && DecodedQuery(c.search.value[1..], rt).None?)
      && (ParsedText(t, href, parseQueryString, rt).Some? ==>
            ParsedText(t, href, parseQueryString, rt).value.query ==
              if decoding then Present(QueryRecord(DecodedQuery(c.search.value[1..], rt).value)) else Null)
  {
    CutParts(t);
  }

  /** The fields of the parse: the hash and the search are where `CutParts` says,
      a host comes with a hostname, and the scheme is matched on the whole text. */
  lemma ParsedFields(t: string, href: string, parseQueryString: bool, rt: Runtime)
    requires ParsedText(t, href, parseQueryString, rt).Some?
    ensures var u := ParsedText(t, href, parseQueryString, rt).value;
      && u.hash == Cut(t).hash && u.search == Cut(t).search
      && u.host != Present("") && (u.host.Null? <==> u.hostname.Null?)
      && (u.protocol.Present? <==> MatchScheme(t).Some?)
      && (MatchScheme(t).None? ==>
            u.auth == Null && u.host == Null && u.hostname == Null && u.port == Null)
      && (MatchScheme(t).Some? ==>
            u.protocol == Present(Lower(t[..MatchScheme(t).value])) && u.slashes == Present(true))
  {
    var c := Cut(t);
    CutJoin(t);
    var tail := OrEmpty(c.search) + OrEmpty(c.hash);
    MatchSchemeExtend(c.rest, tail);
    var l := LocationOf(c.rest);
    LocationParts(c.rest);
    var query := ParsedQuery(c.search, parseQueryString, rt).value;
    var v := Located(Blank(href).(hash := c.hash, search := c.search, query := query), c.rest);
    assert v.protocol == l.protocol && v.slashes == l.slashes && v.auth == l.auth && v.host == l.host;
    assert v.hostname == l.hostname && v.port == l.port;
    assert v.hash == c.hash && v.search == c.search;
    assert ParsedText(t, href, parseQueryString, rt).value == WithPath(v);
    var m := MatchScheme(c.rest);
    if m.Some? {
      PrefixOfJoin(c.rest, tail, m.value);
    }
  }

  /** Scheme and "://", auth, host, pathname, search and hash laid end to end give
      the trimmed text back; without a scheme, pathname, search and hash do. */
  lemma ParsedJoin(t: string, href: string, parseQueryString: bool, rt: Runtime)
    requires ParsedText(t, href, parseQueryString, rt).Some?
    ensures var u := ParsedText(t, href, parseQueryString, rt).value;
      && (MatchScheme(t).None? ==> t == OrEmpty(u.pathname) + OrEmpty(u.search) + OrEmpty(u.hash))
      && (MatchScheme(t).Some? ==>
            t == t[..MatchScheme(t).value] + "://" + AuthPrefix(u.auth) + OrEmpty(u.host) + OrEmpty(u.pathname)
                 + OrEmpty(u.search) + OrEmpty(u.hash))
  {
    var c := Cut(t);
    CutJoin(t);
    var tail := OrEmpty(c.search) + OrEmpty(c.hash);
    MatchSchemeExtend(c.rest, tail);
    var l := LocationOf(c.rest);
    LocationParts(c.rest);
    LocationJoin(c.rest);
    var query := ParsedQuery(c.search, parseQueryString, rt).value;
    var v := Located(Blank(href).(hash := c.hash, search := c.search, query := query), c.rest);
    assert v.auth == l.auth && v.host == l.host && v.pathname == l.pathname;
    assert v.hash == c.hash && v.search == c.search;
    assert ParsedText(t, href, parseQueryString, rt).value == WithPath(v);
    var m := MatchScheme(c.rest);
    if m.Some? {
      var n := m.value;
      var left := AuthPrefix(l.auth) + OrEmpty(l.host) + OrEmpty(l.pathname);
      assert c.rest == c.rest[..n] + "://" + left by {
        Associative(c.rest[..n] + "://", AuthPrefix(l.auth) + OrEmpty(l.host), OrEmpty(l.pathname));
        Associative(c.rest[..n] + "://", AuthPrefix(l.auth), OrEmpty(l.host));
      }
      PrefixOfJoin(c.rest, tail, n);
      Associative(c.rest, OrEmpty(c.search), OrEmpty(c.hash));
    } else {
      Associative(c.rest, OrEmpty(c.search), OrEmpty(c.hash));
    }
  }

  /** The auth and host blocks of `parseUrl`: `user:pass@` taken when an `@` comes
      before the first `/`, the host up to the next `/` and split on its last `:`. */
  method TakeAuthority(rest0: string) returns (a: Authority)
    ensures a == ParsedAuthority(rest0)
  {
    var auth, rest := TakeAuth(rest0);
    a := TakeHost(rest0, auth, rest);
  }

  /** The auth block: the text before the first `@` when it comes before the first `/`. */
  method TakeAuth(rest0: string) returns (auth: Nullable<string>, rest: string)
    ensures (auth, rest) == SplitAuth(rest0)
  {
    auth := Null;
    rest := rest0;
    var atIndex := IndexOf(rest, '@');
    var slashIndex := IndexOf(rest, '/');
    if atIndex != -1 && (slashIndex == -1 || atIndex < slashIndex) {
      auth := Present(rest[..atIndex]);
      rest := rest[atIndex + 1..];
    }
  }

  /** The host block, run on what the auth block left of `rest0`. */
  method TakeHost(ghost rest0: string, auth: Nullable<string>, rest: string) returns (a: Authority)
    requires (auth, rest) == SplitAuth(rest0)
    ensures a == ParsedAuthority(rest0)
  {
    var hostEnd := IndexOf(rest, '/');
    var hostPart := if hostEnd == -1 then rest else rest[..hostEnd];
    var remainder := if hostEnd != -1 then rest[hostEnd..] else "";
    assert hostPart == SplitHost(rest).0 && remainder == SplitHost(rest).1;
    if hostPart != "" {
      var hostname, port := TakePort(hostPart);
      a := Authority(auth, Present(hostPart), Present(hostname), port, remainder);
    } else {
      a := Authority(auth, Null, Null, Null, remainder);
    }
  }

  /** The port block: the host split on its last `:` into hostname and port. */
  method TakePort(host: string) returns (hostname: string, port: Nullable<Port>)
    ensures (hostname, port) == SplitPort(host)
  {
    hostname := host;
    port := Null;
    var colonIndex := LastIndexOf(host, ':');
    if colonIndex != -1 {
      hostname := host[..colonIndex];
      port := Present(PortText(host[colonIndex + 1..]));
    }
  }
}
