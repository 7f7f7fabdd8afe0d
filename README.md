# Documentation-site helpers, modelled in Dafny

This project models the pure and loop-based core shared by three small
documentation sites built on renoun:

- **`resolveHref`** (next/src/lib/resolve-href.ts), a stand-alone version of
  Next.js' link resolution. It covers the browser-side `parseUrl` and
  `formatUrl` (Node `url.parse`/`url.format` look-alikes), `resolvePath` with
  its segment normaliser `normalizePathSegments`, `normalizeQuery`, and the
  steps `resolveHref` applies to a link: relative resolution, query merge,
  locale prefix, base path, slash repair and the fragment-only fallback.
- **The collection helpers** of vite-rsc/src/collections.ts: titles, hidden
  entries, the pre-order flattening of the entry tree, the group filter,
  breadcrumbs, previous/next siblings, the directory lookup and the file
  lookup with its index/readme fallback.
- **The `Link` component** of waku/src/components/link-component.tsx: how an
  href is sorted into an invalid, external, anchor or internal link, the
  trailing slash of internal links, and the class names.
- **The static build loop** of vite-rsc/src/framework/plugin.ts:
  `normalizeHtmlFilePath`, the two output paths per route, and the progress
  counter.

Operations that work step by step (parsing, formatting, path resolution,
the query loops, `resolveHref`'s steps, flattening, breadcrumbs, siblings
and the build loop) are written twice. A specification function states what
each computes. A method follows the source's statements and loops, and its
`ensures` ties its result to the specification function. Operations that are
a single expression in the source (titles, hidden checks, the `Link`
classifier, the directory and file lookups, `normalizeHtmlFilePath`) are
functions only. Lemmas then prove what the source promises about the
functions: round trips, normal forms, order, idempotence, precedence and the
error cases.

The runtime's own functions are parameters:

- `decodeURIComponent`/`encodeURIComponent` are the record `Runtime`. Each is
  a function to `Option<string>`, where `None` is the `URIError` they throw.
- `cn` (class-name merge) and `path.join` are parameters.
- The renoun calls are parameters too: `getTransformedEntry` (`transform`),
  `isExternalTransformed` (`external`) and `getFile`.
- `RSC_POSTFIX` is a parameter. It is defined in shared.ts, which is not part
  of this model.

JavaScript values are modelled like this:

- A missing `UrlObject` field is `Null` or `Undefined`, kept apart. They are
  kept apart because the locale step's template literal writes "null" and
  "undefined" literally.
- Objects used as dictionaries are association lists with unique keys, in
  insertion order (`Records`).
- Query values are a small sum type of scalars, lists and "other" values.

Modules, one per file:

- `Wrappers`, `Strings`, `Records` and `UrlTypes` hold the shared
  definitions.
- `UrlParse`, `UrlFormat`, `PathResolve`, `ResolveHref` and
  `ResolveHrefFacts` model resolve-href.ts.
- `Collections`, `Link` and `SsgPlugin` model the other three files.

## Model

| member | source | states |
|---|---|---|
| Records.Put | next/src/lib/resolve-href.ts:84-92 | Assigning a key sets its value and leaves every other key alone. A new key goes to the end of the key order; an existing key keeps its place. |
| Records.AssignGet | next/src/lib/resolve-href.ts:427-430 | In an object spread `{...a, ...b}`, a key of `b` takes `b`'s value and any other key keeps `a`'s. |
| Records.AssignKeys | next/src/lib/resolve-href.ts:427-430 | The keys of the spread are `a`'s keys in order, then `b`'s keys that `a` lacks. |
| Strings.Trim | next/src/lib/resolve-href.ts:58 | `trim()` returns a contiguous slice of the input that neither starts nor ends with whitespace. |
| Strings.TrimFixes | next/src/lib/resolve-href.ts:58 | A text with no whitespace at either end is left unchanged by `trim()`. |
| Strings.Split | next/src/lib/resolve-href.ts:77-78 | `split` on one character gives at least one part, and no part contains the separator. |
| Strings.JoinSplit | next/src/lib/resolve-href.ts:77-82 | Joining the parts of a split with the separator gives the text back. This is how `valueParts.join("=")` restores a value that contains "=". |
| Strings.SplitHead | next/src/lib/resolve-href.ts:78 | The first part of a split is the text before the first separator, or the whole text when there is none. |
| UrlParse.CutAtFirst | next/src/lib/resolve-href.ts:61-71 | Cutting at the first `#` or `?`: the rest is null exactly when the character is absent; otherwise the rest starts with it. |
| UrlParse.CutAtFirstJoin | next/src/lib/resolve-href.ts:61-71 | The text before the cut plus the rest gives the input back, and the part before holds no such character. |
| UrlParse.CutParts | next/src/lib/resolve-href.ts:61-71 | The hash runs from the first `#` to the end; the search runs from the first `?` before the hash. |
| UrlParse.CutJoin | next/src/lib/resolve-href.ts:61-71 | What precedes the search, then the search, then the hash give the trimmed input back. |
| UrlParse.MatchScheme | next/src/lib/resolve-href.ts:101 | A match of `/^([a-z][a-z0-9+.-]*):\/\//i` is a scheme name at the start, followed by "://". |
| UrlParse.MatchSchemeUnique | next/src/lib/resolve-href.ts:101 | If any prefix is a scheme name followed by "://", the regex finds exactly that prefix. |
| UrlParse.MatchSchemeExtend | next/src/lib/resolve-href.ts:61-105 | Cutting off the search and hash first does not change the scheme match. |
| UrlParse.SplitAuth | next/src/lib/resolve-href.ts:108-113 | Without an auth part, the text is left unchanged. |
| UrlParse.SplitAuthTaken | next/src/lib/resolve-href.ts:108-113 | Auth is taken exactly when an `@` comes before the first `/`. The auth then contains neither `@` nor `/`. |
| UrlParse.SplitAuthJoin | next/src/lib/resolve-href.ts:108-113 | The auth and "@", followed by what is left, give the text back. |
| UrlParse.SplitHostJoin | next/src/lib/resolve-href.ts:116-133 | The host runs up to the first `/`. The host and the remainder give the text back. |
| UrlParse.SplitPort | next/src/lib/resolve-href.ts:120-126 | The port is null exactly when the host has no `:`; the hostname is then the whole host. |
| UrlParse.SplitPortJoin | next/src/lib/resolve-href.ts:120-126 | The hostname, ":" and the port give the host back, and the port holds no `:` (the host is split at its last `:`). |
| UrlParse.ParsedAuthority | next/src/lib/resolve-href.ts:108-133 | A host is set exactly when a hostname is, and an empty host is never set. |
| UrlParse.AuthorityParts | next/src/lib/resolve-href.ts:108-133 | Auth, host and pathname put back together give the text after "://". |
| UrlParse.HostParts | next/src/lib/resolve-href.ts:118-127 | Without a port the hostname is the host; with one, the host is hostname + ":" + port. |
| UrlParse.DecodeFailureSticks | next/src/lib/resolve-href.ts:77-94 | Once a `decodeURIComponent` call throws, the rest of the parameters cannot undo the failure. |
| UrlParse.FirstKeysValues | next/src/lib/resolve-href.ts:84-92 | A key appears in the query exactly when some parameter gives it a value. |
| UrlParse.AccumulateKeys | next/src/lib/resolve-href.ts:84-92 | The query lists its keys in order of first appearance. |
| UrlParse.CollapseAppend | next/src/lib/resolve-href.ts:86-89 | A repeated key turns a string into a two-item list, and a list grows by one item. |
| UrlParse.AccumulateGet | next/src/lib/resolve-href.ts:77-94 | Each key maps to its only value, or to the list of all its values in order. A key with no parameter is absent. |
| UrlParse.DecodeOne | next/src/lib/resolve-href.ts:78-83 | One parameter gives its decoded key and value; an empty key gives nothing. |
| UrlParse.StorePair | next/src/lib/resolve-href.ts:84-92 | Storing one decoded pair, as the spec function adds it. |
| UrlParse.DecodeParams | next/src/lib/resolve-href.ts:76-95 | The `forEach` loop over the parameters computes the grouped query, or fails when a decoding throws. |
| UrlParse.DecodeSearch | next/src/lib/resolve-href.ts:73-97 | The query is decoded from the search without its leading "?". |
| UrlParse.Parsed | next/src/lib/resolve-href.ts:37-56 | `href` is always the input. An empty input gives the all-null record. Only query decoding can fail. |
| UrlParse.ParsedPath | next/src/lib/resolve-href.ts:141-144 | `path` is pathname + search when either is set, and null otherwise. |
| UrlParse.ParsedQueryField | next/src/lib/resolve-href.ts:73-97 | `query` is the decoded record exactly when decoding was asked for and a search exists; otherwise it is null. |
| UrlParse.ParsedFields | next/src/lib/resolve-href.ts:37-147 | Hash and search are where the cuts put them, and a host always comes with a hostname. A scheme gives the lowercased protocol and `slashes`; without one, auth, host, hostname and port stay null. |
| UrlParse.ParsedJoin | next/src/lib/resolve-href.ts:37-147 | The parsed pieces laid end to end give the trimmed input back. |
| UrlParse.ParseUrl | next/src/lib/resolve-href.ts:37-147 | `parseUrl`, step by step, computes the spec function `Parsed`. |
| UrlParse.CutHashAndSearch | next/src/lib/resolve-href.ts:58-71 | The hash and search cuts. |
| UrlParse.Locate | next/src/lib/resolve-href.ts:100-139 | The scheme, auth, host and pathname blocks. |
| UrlParse.TakeAuthority | next/src/lib/resolve-href.ts:107-133 | The auth and host blocks. |
| UrlParse.TakeAuth | next/src/lib/resolve-href.ts:108-113 | The auth block. |
| UrlParse.TakeHost | next/src/lib/resolve-href.ts:116-133 | The host block. |
| UrlParse.TakePort | next/src/lib/resolve-href.ts:120-126 | The port block. |
| UrlFormat.Prefixed | next/src/lib/resolve-href.ts:206-215 | Adding a missing "?" or "#" gives a text that starts with it. A text that already starts with it is unchanged. |
| UrlFormat.PrefixedIdempotent | next/src/lib/resolve-href.ts:206-215 | Adding the "?" or "#" twice is the same as adding it once. |
| UrlFormat.QueryPart | next/src/lib/resolve-href.ts:187-210 | The query text is empty or starts with "?". It can fail only for a query record whose encoding throws. |
| UrlFormat.HashPart | next/src/lib/resolve-href.ts:212-215 | The hash text is empty or starts with "#". |
| UrlFormat.FormatUrl | next/src/lib/resolve-href.ts:154-218 | `formatUrl` appends the parts one after the other, as the spec function `Formatted` states. |
| UrlFormat.FormatAddress | next/src/lib/resolve-href.ts:157-185 | The protocol, auth, host and pathname blocks. |
| UrlFormat.CollectParams | next/src/lib/resolve-href.ts:189-202 | The `for ... of Object.entries` loop, as the spec function `Params` states. |
| UrlFormat.EntryParamsOf | next/src/lib/resolve-href.ts:191-201 | The loop body for one entry. |
| UrlFormat.PushItems | next/src/lib/resolve-href.ts:196-198 | The `forEach` over an array value. |
| UrlFormat.ParamsFailureSticks | next/src/lib/resolve-href.ts:189-202 | Once `encodeURIComponent` throws on an entry, later entries cannot undo the failure. |
| UrlFormat.ItemFailureSticks | next/src/lib/resolve-href.ts:196-198 | Once an item's encoding throws, later items cannot undo the failure. |
| UrlFormat.ItemParamsShape | next/src/lib/resolve-href.ts:194-198 | An array value gives one `key=value` per item, in item order. |
| UrlFormat.ParamsConcat | next/src/lib/resolve-href.ts:189-202 | The parameters of consecutive entries are each part's parameters in order. |
| UrlFormat.NullishSkipped | next/src/lib/resolve-href.ts:191-193 | An entry whose value is null or undefined contributes nothing, wherever it stands. |
| UrlFormat.QueryBeatsSearch | next/src/lib/resolve-href.ts:188-210 | With a query record, the `search` field is ignored. |
| UrlFormat.SearchWithoutRecord | next/src/lib/resolve-href.ts:206-210 | Without a query record, the search is written with "?" added if it is missing. |
| UrlFormat.HostBeatsHostname | next/src/lib/resolve-href.ts:172-180 | A set host wins: hostname and port are then ignored. |
| UrlFormat.FormatParsed | next/src/lib/resolve-href.ts:37-218 | Parsing without query decoding, then formatting, gives the trimmed input back with the scheme lowercased. The exception is an empty auth. |
| UrlFormat.FormatParsedEmptyAuth | next/src/lib/resolve-href.ts:108-170 | An empty auth ("scheme://@host") is the exception: its "@" is lost in the round trip. |
| UrlFormat.ParsedCanonical | next/src/lib/resolve-href.ts:37-147 | A parse without query decoding never fails. It has no query, no empty host or pathname, and a search or hash that starts with its "?" or "#". A host is set exactly when a hostname is. |
| UrlFormat.FormattedCanonical | next/src/lib/resolve-href.ts:154-218 | Such a record is written field by field, each field as it is. |
| UrlFormat.FormatParsedText | next/src/lib/resolve-href.ts:58-218 | The round trip on the trimmed text, in both the empty-auth and the ordinary case. |
| UrlFormat.FormatLaidOut | next/src/lib/resolve-href.ts:154-218 | The round trip for any canonical record whose fields, laid end to end, give the text. |
| PathResolve.DotCountAllDots | next/src/lib/resolve-href.ts:313-317 | The `dots` counter is the segment's length if the segment is all dots, and -1 otherwise. |
| PathResolve.DotCountSegments | next/src/lib/resolve-href.ts:269-317 | The counter is 0, 1 or 2 exactly for the segments "", "." and "..". |
| PathResolve.CleanSegments | next/src/lib/resolve-href.ts:253-320 | A normalised stack has no empty segment and no "/" inside a segment. It has no ".." unless going above the root is allowed. |
| PathResolve.CleanLeading | next/src/lib/resolve-href.ts:273-302 | In a normalised stack, every segment before a ".." is "..". |
| PathResolve.StepClean | next/src/lib/resolve-href.ts:269-312 | Applying one segment keeps the stack normalised. |
| PathResolve.ResolveClean | next/src/lib/resolve-href.ts:253-320 | Whatever the input, the resulting stack is normalised. |
| PathResolve.ResolveFixes | next/src/lib/resolve-href.ts:253-320 | A normalised stack is left unchanged. |
| PathResolve.SplitJoinSegments | next/src/lib/resolve-href.ts:253-320 | Segments free of "/", joined and split again, come back unchanged. |
| PathResolve.NormalizedClean | next/src/lib/resolve-href.ts:253-320 | The output's segments contain no "" or "."; ".." appears only as a leading run, and only when going above the root is allowed. |
| PathResolve.NormalizedIdempotent | next/src/lib/resolve-href.ts:253-320 | Normalising twice is the same as normalising once. |
| PathResolve.DotDot | next/src/lib/resolve-href.ts:272-302 | The ".." branch pops the last segment, clears `res`, or keeps ".." when allowed. It keeps `res` and `lastSegmentLength` in step with the stack. |
| PathResolve.CloseSegment | next/src/lib/resolve-href.ts:269-312 | The branch taken at a slash applies the segment since the previous slash to the stack. |
| PathResolve.NormalizePathSegments | next/src/lib/resolve-href.ts:253-320 | The character scan, with its final virtual "/", computes the segment-stack specification `Normalized`. |
| PathResolve.ResolvePath | next/src/lib/resolve-href.ts:224-248 | The right-to-left loop plus normalisation computes the spec function `ResolvedPath`. |
| PathResolve.GatherAbsolute | next/src/lib/resolve-href.ts:229-239 | The loop always ends on an absolute path, at the latest on the implicit root. |
| PathResolve.ResolvedPathAbsolute | next/src/lib/resolve-href.ts:242-247 | The result starts with "/" and is followed by a normalised path without "..". The "." fallback is never reached. |
| PathResolve.ResolvedPathSkipsEmpty | next/src/lib/resolve-href.ts:232-235 | Empty arguments are skipped. |
| PathResolve.ResolvedPathRestarts | next/src/lib/resolve-href.ts:229-239 | Everything to the left of an absolute argument is ignored. |
| PathResolve.NormalizedOfClean | next/src/lib/resolve-href.ts:253-320 | A normalised stack written between slashes normalises to itself. |
| PathResolve.ResolvedPathJoin | next/src/lib/resolve-href.ts:224-248 | A normalised relative path resolved against a normalised absolute directory is the directory's segments followed by its own. |
| ResolveHref.ScalarsKeep | next/src/lib/resolve-href.ts:407-413 | The array filter keeps a list of scalars whole. |
| ResolveHref.NormalizeValue | next/src/lib/resolve-href.ts:397-417 | Scalars, null and undefined are kept. A list keeps exactly its scalar items. Any other value becomes its `String(v)`. |
| ResolveHref.NormalizeValueFixes | next/src/lib/resolve-href.ts:397-417 | A value already normal is unchanged, so normalising twice is the same as once. |
| ResolveHref.NormalizedEntries | next/src/lib/resolve-href.ts:396-418 | Normalising keeps the keys in order and normalises each value. |
| ResolveHref.NormalizedQuery | next/src/lib/resolve-href.ts:381-420 | Every value is normal. Anything other than a query record gives `{}`. |
| ResolveHref.NormalizedQueryGet | next/src/lib/resolve-href.ts:396-418 | Each key keeps its place and gets its normalised value; other keys stay absent. |
| ResolveHref.NormalizeQuery | next/src/lib/resolve-href.ts:369-420 | The `Object.entries` loop computes the spec function `NormalizedQuery`. |
| ResolveHref.CleanedBase | next/src/lib/resolve-href.ts:451-453 | The cleaned base path is the base path itself, or the base path with one trailing "/" removed. |
| ResolveHref.Merged | next/src/lib/resolve-href.ts:422-432 | The merge fails exactly when re-parsing the search fails. |
| ResolveHref.ResolveHref | next/src/lib/resolve-href.ts:339-472 | The method, which reassigns `parsedHref` step by step, computes the spec function `ResolvedHref`. |
| ResolveHref.ResolveRelative | next/src/lib/resolve-href.ts:360-366 | The relative-path step. |
| ResolveHref.MergeQuery | next/src/lib/resolve-href.ts:422-432 | The query merge step. |
| ResolveHref.PrefixLocale | next/src/lib/resolve-href.ts:435-446 | The locale step. |
| ResolveHref.PrefixBasePath | next/src/lib/resolve-href.ts:449-458 | The base-path step. |
| ResolveHref.RepairSlash | next/src/lib/resolve-href.ts:461-463 | The leading-slash step. |
| ResolveHref.FallBackToCurrentPath | next/src/lib/resolve-href.ts:466-469 | The fragment-only step. |
| ResolveHref.Relative | next/src/lib/resolve-href.ts:360-366 | Only the pathname changes. |
| ResolveHref.Localized | next/src/lib/resolve-href.ts:435-446 | Only the pathname changes. |
| ResolveHref.BasePrefixed | next/src/lib/resolve-href.ts:449-458 | Only the pathname changes. |
| ResolveHref.SlashRepaired | next/src/lib/resolve-href.ts:461-463 | Only the pathname changes. |
| ResolveHref.HashFallback | next/src/lib/resolve-href.ts:466-469 | Only the pathname changes. |
| ResolveHrefFacts.RelativeResolved | next/src/lib/resolve-href.ts:360-366 | A relative pathname becomes absolute and normalised, with no ".." left. Any other pathname is unchanged. |
| ResolveHrefFacts.DirectoryOf | next/src/lib/resolve-href.ts:361-364 | The directory of "/a/.../page" is "/a/...". |
| ResolveHrefFacts.RelativeSibling | next/src/lib/resolve-href.ts:360-366 | A relative link `b` on page "/a/.../page" resolves to "/a/.../b", as a sibling of that page. |
| ResolveHrefFacts.NormalGet | next/src/lib/resolve-href.ts:396-418 | A value read from a normalised dictionary is normal. |
| ResolveHrefFacts.MergedQueryFacts | next/src/lib/resolve-href.ts:422-432 | After the merge, `search` is undefined and `query` is a dictionary. Its keys are the base keys followed by the new search keys. Search values override base values, and all values are normal. |
| ResolveHrefFacts.SearchReparsed | next/src/lib/resolve-href.ts:423-425 | The search is parsed again with one more "?" in front, as `parseUrl("?" + search, true).query`. |
| ResolveHrefFacts.QuirkDecoded | next/src/lib/resolve-href.ts:73-97 | "?x=1" decodes to the key "?x" with value "1". |
| ResolveHrefFacts.SearchQuirk | next/src/lib/resolve-href.ts:423-426 | Because the search keeps its own "?", a search "?x=1" merges in the key "?x", not "x". |
| ResolveHrefFacts.LocalizedPrefix | next/src/lib/resolve-href.ts:435-446 | When the locale applies, the pathname starts with "/" + locale. Otherwise the record is unchanged. |
| ResolveHrefFacts.LocalizedIdempotent | next/src/lib/resolve-href.ts:441-445 | A pathname that already carries the prefix is not prefixed again, so the step is idempotent. |
| ResolveHrefFacts.LocalizedCases | next/src/lib/resolve-href.ts:442-444 | "/" becomes "/" + locale, a text gets the prefix, and a null or undefined pathname gives "/locale" followed by "null" or "undefined". |
| ResolveHrefFacts.BasePrefixedJoin | next/src/lib/resolve-href.ts:449-458 | With a base path, the pathname is the cleaned base, "/" and the pathname without its leading "/". |
| ResolveHrefFacts.BaseTrailingSlash | next/src/lib/resolve-href.ts:451-453 | A base path with one trailing "/" gives the same result as the same base path without it. |
| ResolveHrefFacts.SlashRepairedFacts | next/src/lib/resolve-href.ts:461-463 | A non-empty pathname ends up starting with "/". One that already did, or an empty one, is unchanged. |
| ResolveHrefFacts.HashFallbackPath | next/src/lib/resolve-href.ts:466-469 | A fragment-only link takes the current path up to its first "#". |
| ResolveHrefFacts.PreparedFields | next/src/lib/resolve-href.ts:339-469 | The record passed to `formatUrl` is the parsed link with only pathname, query and search changed. Search is undefined and query is a dictionary. A set pathname starts with "/" or is the current path up to its first "#". |
| ResolveHrefFacts.PreparedAbsolute | next/src/lib/resolve-href.ts:343-469 | When the current path is absolute (its default "/" is), every non-empty pathname passed to `formatUrl` starts with "/". |
| ResolveHrefFacts.ResolvedHrefFails | next/src/lib/resolve-href.ts:339-472 | `resolveHref` throws exactly when parsing the link, parsing its search again, or encoding the merged query throws. |
| Collections.Title | vite-rsc/src/collections.ts:25-33 | `navTitle` wins. Frontmatter `title` is used only when `includeTitle` is set. Otherwise the entry's own title is used. |
| Collections.TitleIgnoresTitle | vite-rsc/src/collections.ts:30-32 | Without `includeTitle`, the frontmatter title has no effect. |
| Collections.Hidden | vite-rsc/src/collections.ts:160-162 | `isHidden`: true exactly when the base name is non-empty and its first character is "_". |
| Collections.HiddenPage | vite-rsc/src/collections.ts:170-176 | `isHiddenTransformed`: true exactly when the last segment is non-empty and starts with "_". |
| Collections.FlattenEntries | vite-rsc/src/collections.ts:39-55 | The recursive method computes the pre-order spec function `Flattened`. |
| Collections.FlattenedAllNext | vite-rsc/src/collections.ts:48-51 | Flattening one more child appends that child's flattening. |
| Collections.FlattenedAllConcat | vite-rsc/src/collections.ts:46-79 | Flattening distributes over concatenation. |
| Collections.FlattenedVisible | vite-rsc/src/collections.ts:39-55 | No hidden entry is ever listed. A visible entry comes first in its own flattening. A hidden entry gives nothing. |
| Collections.FlattenedAllVisible | vite-rsc/src/collections.ts:74-79 | No entry of the flattened collections is hidden. |
| Collections.HiddenPrunes | vite-rsc/src/collections.ts:40-42 | A directory whose name starts with "_" is dropped together with all its descendants. |
| Collections.PreOrder | vite-rsc/src/collections.ts:44-51 | A visible directory comes first, then its first child's flattening, then the rest of its children's. |
| Collections.InGroup | vite-rsc/src/collections.ts:68-72 | With a non-empty group, exactly the entries whose first segment is the group are kept. With no group or the empty one, the list is returned unchanged. |
| Collections.InGroupConcat | vite-rsc/src/collections.ts:68-72 | Filtering a concatenation filters each part, so the kept collections stay in their order. |
| Collections.InGroupOne | vite-rsc/src/collections.ts:68-72 | A single collection is kept exactly when it belongs to the group. |
| Collections.TransformedEntries | vite-rsc/src/collections.ts:62-87 | The result is the transform of each flattened entry of the group, in order. |
| Collections.Without | vite-rsc/src/collections.ts:129 | `removeFromArray` keeps exactly the items not listed. A list with nothing to drop is returned unchanged. |
| Collections.WithoutConcat | vite-rsc/src/collections.ts:129 | Removing from a concatenation removes from each part, so the kept items stay in their order. |
| Collections.WithoutOne | vite-rsc/src/collections.ts:129 | A single item is kept exactly when it is not listed. |
| Collections.WithoutNothing | vite-rsc/src/collections.ts:230-233 | Removing nothing, as for a non-examples directory, leaves the array unchanged. |
| Collections.WithoutAgain | vite-rsc/src/collections.ts:129 | Removing twice is the same as removing once. |
| Collections.FindPage | vite-rsc/src/collections.ts:138-140 | `find`/`findIndex` on the raw pathname gives the first match, or -1 exactly when there is none. |
| Collections.FindFirstPage | vite-rsc/src/collections.ts:138-140 | The scan from the front. |
| Collections.CleanedSlug | vite-rsc/src/collections.ts:128-129 | The cleaned slug holds exactly the slug elements other than "index". A slug without "index" is unchanged. |
| Collections.CleanedSlugInOrder | vite-rsc/src/collections.ts:128-129 | The other elements keep their order: cleaning `a + b` gives cleaned `a` followed by cleaned `b`, and one element is kept exactly when it is not "index". |
| Collections.CrumbsUpTo | vite-rsc/src/collections.ts:131-150 | There are at most as many crumbs as prefixes. |
| Collections.BreadcrumbItems | vite-rsc/src/collections.ts:127-153 | The loop over the prefixes computes the spec function `Breadcrumbs`. |
| Collections.CrumbsFromPrefixes | vite-rsc/src/collections.ts:131-150 | Each crumb is the title and segments of the first page whose raw pathname is "/" followed by some prefix of the cleaned slug, and crumb `j` comes from a prefix longer than `j`. |
| Collections.CrumbsPrefix | vite-rsc/src/collections.ts:131-150 | Crumbs keep the order of their prefixes: the crumbs of the first `k` prefixes are, unchanged, the first crumbs of the first `n`. |
| Collections.CrumbsAllFound | vite-rsc/src/collections.ts:131-150 | When every prefix has a page, crumb `j` is the page of the prefix of length `j+1`. |
| Collections.BreadcrumbsSkipIndex | vite-rsc/src/collections.ts:128-129 | Breadcrumbs are the same with or without "index" segments in the slug. |
| Collections.Visible | vite-rsc/src/collections.ts:272-278 | Exactly the entries that are neither hidden (last segment starts with "_") nor external are kept. |
| Collections.VisibleConcat | vite-rsc/src/collections.ts:272-278 | Filtering a concatenation filters each part, so the visible entries keep the collection's order. |
| Collections.VisibleOne | vite-rsc/src/collections.ts:272-278 | A single entry is kept exactly when it is neither hidden nor external. |
| Collections.VisibleEntries | vite-rsc/src/collections.ts:272-278 | The filter loop. |
| Collections.UniqueEntries | vite-rsc/src/collections.ts:280-291 | The `seenPaths` loop computes the spec function `Deduped`. |
| Collections.DedupedSound | vite-rsc/src/collections.ts:280-291 | Every kept entry is from the input, and its pathname was not yet seen. |
| Collections.DedupedUnique | vite-rsc/src/collections.ts:280-291 | No two kept entries share a raw pathname. |
| Collections.DedupedComplete | vite-rsc/src/collections.ts:280-291 | Every pathname that was not already seen stays represented. |
| Collections.DedupedFirst | vite-rsc/src/collections.ts:280-291 | An entry is kept exactly when it is the first with its raw pathname. |
| Collections.DedupedOrder | vite-rsc/src/collections.ts:280-291 | The kept entries keep the input order: each is the entry at the first index of its raw pathname, and those indices increase along the deduplicated list. |
| Collections.GetSiblings | vite-rsc/src/collections.ts:260-310 | The method computes the spec function `Siblings`. |
| Collections.NeighborsIn | vite-rsc/src/collections.ts:293-309 | In a list with unique raw pathnames, the previous and next entries belong to the list, and neither has the source's raw pathname. When both exist, their raw pathnames differ. Their positions are stated by `NeighborsAt`. |
| Collections.SiblingsVisible | vite-rsc/src/collections.ts:260-310 | A previous or next sibling is a visible page (not hidden, not external) with a raw pathname other than the source's. When both exist, the previous and next siblings have different raw pathnames. |
| Collections.NeighborsAt | vite-rsc/src/collections.ts:302-307 | At position `i`, the previous entry is at `i-1` unless `i` is first, and the next is at `i+1` unless it is last. |
| Collections.NeighborsSymmetric | vite-rsc/src/collections.ts:302-307 | The previous entry of the next entry is the entry itself. |
| Collections.SiblingsSymmetric | vite-rsc/src/collections.ts:260-310 | Stepping to the next sibling and back returns to the same raw pathname. |
| Collections.SiblingsAbsent | vite-rsc/src/collections.ts:298-300 | A source not among the visible entries has neither a previous nor a next sibling. |
| Collections.DirectorySegments | vite-rsc/src/collections.ts:230-233 | When the second segment is "examples", the segments are `removeFromArray(segments, ["docs"])`: every "docs" goes and the others keep their order. Otherwise they are unchanged. |
| Collections.DirectorySegmentsExamples | vite-rsc/src/collections.ts:230-233 | For `[first, "examples", ...rest]`: `first` unless it is "docs", then "examples", then `rest` without "docs", in order. |
| Collections.FileContent | vite-rsc/src/collections.ts:206-214 | The segment file is tried first, then "index", then "readme". |
| Collections.FileContentNone | vite-rsc/src/collections.ts:206-214 | There is no content exactly when none of the three files exists. |
| Link.ClassName | waku/src/components/link-component.tsx:15-17 | Without `clean`, the default classes are merged in front by `cn`. With `clean`, `props.className` is used as it is. |
| Link.WithTrailingSlash | waku/src/components/link-component.tsx:49 | The internal href ends in "/". It is the href itself, or the href with "/" added, and an href already ending in "/" is kept. |
| Link.WithTrailingSlashIdempotent | waku/src/components/link-component.tsx:49 | Adding the slash a second time changes nothing. |
| Link.Render | waku/src/components/link-component.tsx:8-58 | The invalid link to "/" is rendered exactly when the href is missing. External and anchor links keep the href; the icon shows exactly when `clean` is off. Every valid link gets the chosen class names. An internal route ends in "/" and is the href, with "/" added if missing. It shows the given children, or else its own target. |
| Link.RenderMissing | waku/src/components/link-component.tsx:18-21 | An undefined or empty href renders the invalid link to "/". |
| Link.HttpsIsHttp | waku/src/components/link-component.tsx:23-27 | The "https" test can never decide anything: the "http" test already catches it. |
| Link.RenderExternal | waku/src/components/link-component.tsx:23-39 | An "http"/"mailto" href is kept as it is, with the icon exactly when `clean` is not set. |
| Link.ExternalNotAnchor | waku/src/components/link-component.tsx:23-47 | No href is both external and an anchor. |
| Link.RenderAnchor | waku/src/components/link-component.tsx:41-47 | A "#" href is passed through unchanged as an anchor. |
| Link.RenderInternal | waku/src/components/link-component.tsx:49-57 | Every other href becomes an internal route ending in "/". It shows the given children, or its own target when there are none (`children ?? internalHref`). Rendering that target again gives the same link. |
| Link.ExactlyOneCase | waku/src/components/link-component.tsx:8-58 | Exactly one of the four cases applies, and the rendered link is of that kind. |
| SsgPlugin.HtmlFilePath | vite-rsc/src/framework/plugin.ts:133-138 | A route ending in "/" gets "index.html"; any other route gets ".html". |
| SsgPlugin.HtmlFilePathShape | vite-rsc/src/framework/plugin.ts:133-138 | The route is a prefix of its HTML path, which ends in ".html". |
| SsgPlugin.HtmlFilePathInjective | vite-rsc/src/framework/plugin.ts:133-138 | Two routes of the same kind (both ending in "/" or neither) share an HTML path only if they are the same route. |
| SsgPlugin.HtmlFilePathShared | vite-rsc/src/framework/plugin.ts:133-138 | "d/" and "d/index" are written to the same file. |
| SsgPlugin.OutputOf | vite-rsc/src/framework/plugin.ts:98-114 | Both files go under the client output directory. The HTML file is at the route plus "index.html" or ".html", and the RSC payload at the route plus the RSC suffix. |
| SsgPlugin.OutputPathsDiffer | vite-rsc/src/framework/plugin.ts:108-114 | Unless the RSC suffix ends in ".html", a route's HTML and RSC files have different paths. |
| SsgPlugin.RenderStatic | vite-rsc/src/framework/plugin.ts:96-120 | After the loop, `renderCount` is the number of routes. Route `i` is written to its HTML path and its RSC path under `baseDir`. Progress reports `(i+1, total)`, so the counter never exceeds the total. |

## Left out

- Concurrency: pMap with 30 workers, and `Promise.all` in flattening, transforming and file lookup. It is modelled as a sequential run in source order. With workers finishing out of order, the progress reports would not follow route order.
- I/O and side effects: `writeFileStream`, the spinners, `console.log`, `printTreeView`, `entry.handleSsg`, and getting the static routes. Only the paths and counter values are modelled.
- React rendering: `Link` returns a value naming what would be rendered. `children` are taken as text. The other props (`...props`) are not modelled: the source drops them on an external link and forwards them on an anchor or internal link.
- Runtime and library calls are parameters: `decodeURIComponent`, `encodeURIComponent`, `String(v)` for non-scalars, `cn`, `path.join`, and renoun's `getEntries`, `getFile`, `getTransformedEntry` and `isExternalTransformed`.
- `RSC_POSTFIX` is a parameter: shared.ts is not part of this model.
- `removeFromArray` (lib/utils) is not part of this model. It is assumed to keep the items not listed, in order (`Without`, with `WithoutConcat` and `WithoutOne`).
- JavaScript object key order for integer-like keys (which come first) and the special `__proto__` key are not modelled. Keys keep insertion order.
- UrlParse.AccumulateGet: keys that name inherited `Object.prototype` members (`toString`, `constructor`, `valueOf`, `hasOwnProperty` and the like) are not modelled. The source's `query` starts as `{}`, so `query[decodedKey]` reads the inherited function. "?toString=1" then stores `[function, "1"]`, where the model stores "1". `normalizeQuery`'s array filter later drops the function, so `resolveHref` writes the same `toString=1`.
- ResolveHrefFacts.SearchReparsed: stated only for a non-empty search that contains no "#" and does not end in whitespace. Two effects of re-parsing `?${search}` are therefore not stated by this lemma; the spec function `SearchQueryRaw` that the model uses does include both:
  - A search ending in whitespace is trimmed again. `parseUrl` can produce one: "/p?a= #h" gives "?a= ". The merged query then gets "" for "?a" rather than " ".
  - A search containing "#" loses everything from its first "#", because the re-parse cuts the hash first. A text link's search never holds "#", but an object link's can: `{ pathname: "/p", search: "?a#b" }` is re-parsed as "??a#b", so the merged query gets the key "?a" with "" and "#b" is dropped.
- `parseUrl`'s `typeof urlStr !== "string"` guard: the input is always a string here.
- An object `href` passed to `resolveHref` is copied as a plain record (`{ ...href }`). Getters and prototypes are not modelled.
- A numeric `port` in a caller's `UrlObject` is carried as its decimal text (`PortNumber`). Number arithmetic is not modelled.
- Collections.HiddenPage, Collections.Visible, Collections.Siblings, Collections.GetSiblings, Collections.VisibleEntries: require every page to have at least one segment. For an empty segment list the source reads `segments[-1]` as undefined and throws.
- ResolveHrefFacts.PreparedAbsolute: requires the current path to start with "/". A caller-supplied relative current path can give a relative pathname after the fragment-only fallback.
- ResolveHrefFacts.SearchQuirk: the source, not a claimed corrected behaviour, is followed. The search already starts with "?", so re-parsing `?${search}` gives keys that start with "?". The merged query therefore gets "?x" rather than "x".
- UrlFormat.FormatParsed: the round trip is stated only for an auth that is not empty. The empty-auth case, where "@" is lost, is stated separately in UrlFormat.FormatParsedEmptyAuth.
- `getSections`, `getMetadata` and `getTransformedEntry`'s own body depend on renoun entries and frontmatter export values. They are not modelled.
- The `DocumentationGroup` collection and `generateDirectories` (sources.ts) are not modelled. The entry tree is an input.
- `cache` memoisation of `transformedEntries` and `getFileContent` is not modelled: it does not change the values.
- The order-sensitive `Promise.all` of the three `getFile` calls is modelled as three lookups. Their `.catch(() => null)` becomes an absent file.
