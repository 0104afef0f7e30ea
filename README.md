# Code-Linker relay and browser shell, modelled in Dafny

Code-Linker is a web browser that runs inside a browser page. The page keeps a strip of tabs and
an address bar. Every page it shows is loaded through the server's relay route
`/api/proxy?url=…`. The relay fetches the target and mirrors its status. It sets framing
headers that let the page be embedded. It rewrites HTML and CSS bodies so that links,
`srcset` entries and `url(…)` references lead back through the relay, and it injects a
`<base href>` tag after the first `<head…>` tag. The server also keeps an in-memory history of
browsing sessions and an in-memory user store. A shared helper fills route placeholders such
as `/api/sessions/:id`.

This project models that core:

- `relay_rewrite.dfy` (module `Relay`): `normalizeTargetUrl`, `rewriteHtml` with its three
  passes, and `rewriteCss`. The four regular expressions are explicit left-to-right scanners.
  JavaScript's `replace` is modelled with its `$` substitution patterns.
- `relay_handler.dfy` (module `ProxyRoute`): the `/api/proxy` handler.
  - `ProxyReply` is a reference function that states the route's answer.
  - `HandleProxy` works step by step on a `ServerResponse` object, as Express does, and is
    proved to leave exactly `ProxyReply` behind.
- `session_store.dfy` (module `SessionStore`): `MemoryStorage` as a class with a list of
  sessions and an id counter. Its listing is a stable sort, proved to give the same records,
  most recent first, with ties in list order.
- `auth_store.dfy` (module `AuthStore`): `MemoryAuthStorage` as a class. Its JavaScript `Map`
  is held as a list of entries in insertion order, which is the order `getUserByEmail` sees.
- `shared_routes.dfy` (module `SharedRoutes`): `buildUrl` as a loop over the parameter
  entries, and the one URL the client builds with it.
- `address_bar.dfy` (module `AddressBar`): the submit handler's choice between an address and a
  search.
- `browser_tabs.dfy` (module `Browser`): the tab list of the browser page, the idle-tab timer
  and the theme.
  - Tabs are opened, activated, navigated and auto-cleared by building new lists.
  - Closing a tab works on an array, because the handler updates the surviving tab in place.
  - All of these are proved to keep the discipline of distinct ids and exactly one active tab.
- Support modules:
  - `JsText`: the JavaScript string built-ins used (`indexOf`, `includes`, `replace` with a
    string pattern, `trim`, `split`, `join`, and the regular-expression class `\s`).
  - `UriCoding`: `encodeURIComponent` over UTF-8, with a reference `decodeURIComponent` and
    the round trip between them.
  - `Seqs`: `filter` and `find`.
  - `Wrappers`: an option type.

Inputs that the code gets from the world become parameters:
- URL parsing and serialisation (`new URL(input, base)`) is a function `parse` that may fail.
- `fetch` is a function from target and user agent to an upstream reply or a failure.
- The clock is a `now` argument.
- Generated ids (`crypto.randomUUID`, `uuidv4`) are a `freshId`/`id` argument.
- The title and icon that the page derives from a URL are arguments.

Some behaviour of the code differs from a plain reading of its intent. The model keeps the
code's behaviour and proves each such case:
- `match.replace(value, …)` in the attribute pass replaces the FIRST occurrence of the value's
  text in the whole match. That occurrence can lie inside the attribute name: in ` src="s"` the
  `s` of `src` is rewritten and the value stays (`Relay.ValueFoundInName`). The srcset pass
  does the same: in ` srcset="s"` the `s` of `srcset` is rewritten (`Relay.SrcsetValueFoundInName`).
- A replacement string's `$` patterns are expanded, both there and in `buildUrl`. A value
  `$&` fills a placeholder with the placeholder itself (`SharedRoutes.DollarInValue`).
- `buildUrl` finds placeholders by text. The key `id` therefore also fills the front of a
  longer placeholder `:idx` (`SharedRoutes.PlaceholderPrefixOfLonger`).
- The `<base>` pass replaces the first match of `/<head([^>]*)>/i`, which is also the start of
  a `<header>` tag. It writes the tag back as lower-case `<head`, so only a lower-case tag is
  kept character for character (`Relay.InjectBaseAfterLowerCaseHead`).
- Each `srcset` entry keeps at most two tokens (`split(/\s+/, 2)`): a third token is dropped.
- The address bar treats any text that starts with `http` as having a scheme. The server
  requires `http://` or `https://`, so a host such as `http.example.com` is sent as typed and
  the server puts `https://` in front of it (`AddressBar.HttpHostPrefixed`).
- Closing the active tab throws when no other tab survives the filter, which can happen only
  when ids repeat (`Browser.CloseTabThrows`). With distinct ids it never happens
  (`Browser.CloseTabWellFormed`).
- `encodeURIComponent` leaves `'`, `(` and `)` alone, so they can appear in a proxied URL.

## Model

| member | source | states |
|---|---|---|
| Relay.NormalizeTargetUrl | server/routes.ts:12-17 | a target with an `http://` or `https://` scheme (any letter case) is kept; any other gets `https://` in front; the result always has such a scheme |
| Relay.NormalizeTargetUrlIdempotent | server/routes.ts:12-17 | normalising twice is normalising once |
| Relay.ProxiedUrl | server/routes.ts:21-29 | the relay address starts with `/api/proxy?url=` and percent-decoding the rest gives the absolute URL back; every character of it is plain (no `$`, comma, quote or whitespace) |
| Relay.RewriteAttribute | server/routes.ts:23-33 | `#`, `data:` and `mailto:` values, and values that do not resolve, are kept; any other becomes the relay address whose encoded part decodes to the value resolved against the base |
| Relay.RewriteAttributeChars | server/routes.ts:23-33 | a rewritten value holds only characters of the value or plain ones, and is non-empty when the value is |
| Relay.MatchAt | server/routes.ts:35-62 | a match of any of the four expressions starts where it was tried, and its capture group lies inside it and ends one before it |
| Relay.MatchAtMatches | server/routes.ts:35-62 | the scanner finds a span exactly when the span is a match of the expression read declaratively (both directions) |
| Relay.SrcsetIsNoAttribute | server/routes.ts:35-40 | ` srcset=` is never taken for a ` src=` attribute |
| Relay.FindFrom | server/routes.ts:36-38 | the global scan finds the leftmost match at or after the position, and none is missed before it |
| Relay.ReplaceAllCopiesGap | server/routes.ts:36-38 | text in which no match starts is copied to the output unchanged |
| Relay.ReplaceAllNoMatch | server/routes.ts:36-38 | a subject without matches comes out unchanged |
| Relay.ReplaceAllIdentity | server/routes.ts:36-38 | a replacer that returns every match unchanged leaves the subject unchanged |
| Relay.RewriteAttributeMatch | server/routes.ts:37 | the first occurrence of the value's text anywhere in the match is replaced: with a `$`-free value the rewritten value is spliced in there and the rest of the match stays; a match that does not hold the text is kept |
| Relay.AttributePass | server/routes.ts:35-38 | a document in which no attribute match starts is unchanged; `ReplaceAllCopiesGap` and `AttributeValueReplaced` say what happens around and inside a match |
| Relay.AttributeValueReplaced | server/routes.ts:36-38 | when the value's text first occurs at the value itself and has no `$`, only the value is replaced and the name and quotes stay |
| Relay.ValueFoundInName | server/routes.ts:37 | in ` src="s"` the first `s` is in the name, so the name is rewritten and the value stays |
| Relay.SrcsetEntryTokens | server/routes.ts:44-48 | a rewritten entry splits back into the rewritten URL and the entry's own descriptor, if it had one |
| Relay.RewriteSrcsetEntry | server/routes.ts:43-48 | a rewritten entry holds no comma, and no `$`, when the entry held none; `SrcsetEntryTokens` gives its tokens |
| Relay.RewriteSrcset | server/routes.ts:42-49 | a `$`-free list stays `$`-free (so the pass splices it in literally); `SrcsetEntriesPreserved` states the entries |
| Relay.SrcsetEntriesPreserved | server/routes.ts:42-49 | the rewritten list has the same number of entries in the same order; entry by entry it is the rewritten entry, led by the `, ` separator's space after the first |
| Relay.RewriteSrcsetBareUrl | server/routes.ts:42-49 | a bare URL is a list of one entry and is rewritten as an attribute value would be |
| Relay.RewriteSrcsetMatch | server/routes.ts:50 | as in the attribute pass, the first occurrence of the value's text in the match is replaced: with a `$`-free value the rewritten list is spliced in there; a match without the text is kept |
| Relay.SrcsetPass | server/routes.ts:40-51 | a document in which no srcset match starts is unchanged |
| Relay.SrcsetAttributeMatch | server/routes.ts:40 | ` srcset="s"` is a match of the srcset expression, with the value `s` |
| Relay.SrcsetValueFoundInName | server/routes.ts:50 | in ` srcset="s"` the first `s` is in the name, so the name is rewritten and the value stays |
| Relay.SplitJoin | server/routes.ts:42-49 | joining comma-free entries with `, ` and splitting on `,` gives the entries back |
| Relay.FirstHead | server/routes.ts:53-56 | the `<head…>` match used is the first one in the document, or there is none |
| Relay.InjectBase | server/routes.ts:53-56 | a document without a `<head…>` match is unchanged; with a `$`-free base, the first `<head…>` tag is rewritten as `<head` plus its attributes and `>`, followed by `<base href="base">`, and the rest of the document stays |
| Relay.InjectBaseAfterLowerCaseHead | server/routes.ts:53-56 | with a `$`-free base, a lower-case first `<head…>` tag is kept character for character and the `<base>` tag follows it |
| Relay.InjectBaseWithoutHead | server/routes.ts:53-56 | a document without `<head` in any letter case is unchanged |
| Relay.RewrittenHtml | server/routes.ts:19-57 | with a `$`-free serialised target, the output is the document after the attribute and srcset passes with `<base href="target">` placed after its first `<head…>` tag (written back as `<head`, its attributes and `>`); without such a tag it is that document itself |
| Relay.RewriteHtml | server/routes.ts:19-57 | the three passes in order, with the same end-to-end statement as `RewrittenHtml`: after the two attribute passes, only the first `<head…>` tag changes, and it gains the `<base>` tag |
| Relay.RewrittenHtmlUntouched | server/routes.ts:19-57 | a document with nothing to rewrite comes back unchanged |
| Relay.RewriteCssMatch | server/routes.ts:62-73 | empty, `data:` and `#` targets and targets that do not resolve keep the whole match; any other becomes `url("/api/proxy?url=…")` whose encoded part decodes to the resolved target |
| Relay.RewriteCss | server/routes.ts:59-74 | a stylesheet in which no `url(…)` match starts is unchanged; each match is rewritten by `RewriteCssMatch` |
| Relay.ProxiedCssUrl | server/routes.ts:69 | the rewritten `url()` opens with `url("` and the relay prefix and closes with `")`, and its middle decodes to the URL |
| Relay.CssTargetQuoted | server/routes.ts:63 | one quote at each end of a target is removed |
| Relay.CssQuoteStyles | server/routes.ts:62-73 | `url(x)`, `url('x')` and `url("x")` are rewritten alike |
| ProxyRoute.ValidationError | server/routes.ts:8-10 | the query is rejected exactly when `url` is missing, empty or not a single string |
| ProxyRoute.FetchTarget | server/routes.ts:119-127 | a valid query gives the fetch target, which always has an http(s) scheme and is the query value itself when that has one |
| ProxyRoute.ProxyReply | server/routes.ts:118-160 | a bad query gets 400 with the message and field `url`; a failed fetch gets 502 with `Proxy fetch failed`; otherwise the upstream status and the three framing headers, with the content type defaulting to `application/octet-stream` |
| ProxyRoute.ReplyBody | server/routes.ts:145-159 | the body of an upstream reply is never an error message; it is passed through byte for byte exactly when the type names neither HTML nor CSS (`ReplyBodyDispatch` states which rewrite applies) |
| ProxyRoute.ReplyBodyDispatch | server/routes.ts:141-159 | `text/html` bodies are rewritten as HTML, else `text/css` bodies as CSS, and every other body, including one without a type, is passed through byte for byte |
| ProxyRoute.DefaultTypeIsOpaque | server/routes.ts:141 | the default type names neither HTML nor CSS |
| ProxyRoute.ServerResponse.SetHeader | server/routes.ts:142-144 | sets one header and changes nothing else |
| ProxyRoute.ForwardUpstream | server/routes.ts:141-159 | after a fetch: the framing headers are added, and the status is the upstream's and the body that of `ReplyBody` |
| ProxyRoute.HandleProxy | server/routes.ts:118-160 | the handler leaves on the response exactly the status, headers and body of `ProxyReply` |
| SessionStore.MemoryStorage.constructor | server/storage.ts:54-56 | an empty list and the first id 1 |
| SessionStore.MemoryStorage.GetSessions | server/storage.ts:58-62 | exactly the user's records, most recent first (a record without a time counts as 0), records of equal recency in list order |
| SessionStore.SortByRecency | server/storage.ts:59-61 | the sort keeps the records (as a multiset); `SortByRecencySpec` adds the order and the stability |
| SessionStore.SortByRecencySpec | server/storage.ts:61 | the stable sort keeps the records, orders them by falling recency and keeps ties in order |
| SessionStore.MemoryStorage.CreateSession | server/storage.ts:64-75 | the record gets the next id, the current time, `isActive` true and `title` null unless given, and goes in front; ids stay issued in falling order |
| SessionStore.IdsUnique | server/storage.ts:64-75 | records never share an id |
| SessionStore.MemoryStorage.DeleteSession | server/storage.ts:77-79 | only the records with that id AND that owner go; the others stay in order; nothing changes when none matches |
| SessionStore.MemoryStorage.DeleteSessionsByUser | server/storage.ts:81-83 | no record of the user is left; the others stay in order |
| AuthStore.Lookup | server/replit_integrations/auth/storage.ts:69-71 | `get` finds a stored record with that id, and finds nothing exactly when no record has it |
| AuthStore.Put | server/replit_integrations/auth/storage.ts:89 | `set` of a new id appends; `set` of a stored id replaces it where it stands and leaves the others |
| AuthStore.PutLookup | server/replit_integrations/auth/storage.ts:89 | after `set`, `get` finds the new record under its id and the old answer under every other |
| AuthStore.PutDistinct | server/replit_integrations/auth/storage.ts:67 | `set` never creates a second entry for an id |
| AuthStore.Remove | server/replit_integrations/auth/storage.ts:111 | after `delete` nothing is stored under the id and every other record stays |
| AuthStore.RemoveLookup | server/replit_integrations/auth/storage.ts:111 | after `delete`, `get` finds nothing under the id and the old answer under every other |
| AuthStore.MemoryAuthStorage.constructor | server/replit_integrations/auth/storage.ts:67 | the store starts empty |
| AuthStore.MemoryAuthStorage.GetUser | server/replit_integrations/auth/storage.ts:69-71 | the record stored under the id, or none exactly when no record has it |
| AuthStore.MemoryAuthStorage.GetUserByEmail | server/replit_integrations/auth/storage.ts:73-75 | the first record in insertion order with that email, or none exactly when no record has it |
| AuthStore.MemoryAuthStorage.CreateUser | server/replit_integrations/auth/storage.ts:77-91 | the id is the given one or a fresh one; missing fields default to "", null or the current time; the record replaces any under its id and every other id is unaffected |
| AuthStore.MemoryAuthStorage.UpsertUser | server/replit_integrations/auth/storage.ts:93-108 | each field is the given value, else the stored one, else the default; the stored creation time wins; the update time is now; every other id is unaffected |
| AuthStore.MemoryAuthStorage.DeleteUser | server/replit_integrations/auth/storage.ts:110-112 | nothing is left under the id, every other id is unaffected, and the ids stay distinct |
| AuthStore.NewUser | server/replit_integrations/auth/storage.ts:78-88 | the record has the given id and the given email or ""; without given times both times are now |
| AuthStore.Upserted | server/replit_integrations/auth/storage.ts:94-105 | the record has the given id and the update time now; a stored record's creation time wins; for a new id it is the `createUser` record with the update time now |
| AuthStore.UpsertFreshIsCreate | server/replit_integrations/auth/storage.ts:93-108 | upserting a new id builds the record `createUser` would, with the update time now |
| AuthStore.UpsertTouches | server/replit_integrations/auth/storage.ts:96-105 | upserting a stored record with only its id, or with its own fields, changes only its update time |
| AuthStore.UpsertKeepsCreation | server/replit_integrations/auth/storage.ts:103 | a given creation time never overrides a stored one |
| AuthStore.UpsertIdempotent | server/replit_integrations/auth/storage.ts:93-108 | upserting the same data twice at the same time gives the first upsert's record |
| SharedRoutes.BuildUrl | shared/routes.ts:52-62 | the path with each entry applied in order; without parameters, the path itself |
| SharedRoutes.SubstituteAll | shared/routes.ts:53-60 | a path without `:` holds no placeholder and comes back unchanged whatever the entries; `SubstituteOne` gives one entry's step |
| SharedRoutes.SubstituteOne | shared/routes.ts:55-58 | the loop over a one-entry record is that entry's single substitution |
| SharedRoutes.SubstituteIsReplace | shared/routes.ts:56-57 | the `includes` guard changes nothing: `replace` already leaves a URL without the placeholder alone |
| SharedRoutes.SubstituteLiteral | shared/routes.ts:56-57 | a number, or a string without `$`, is spliced in place of the first occurrence of the placeholder |
| SharedRoutes.SubstituteAfter | shared/routes.ts:57 | when no `:` precedes the placeholder, such a value takes exactly its place |
| SharedRoutes.DecimalRoundTrip | shared/routes.ts:57 | `String(n)` of an integer reads back as `n` |
| SharedRoutes.DeleteSessionUrl | client/src/hooks/use-proxy-sessions.ts:39 | the delete URL is `/api/sessions/` followed by the id's numeral, which reads back as the id |
| SharedRoutes.PlaceholderPrefixOfLonger | shared/routes.ts:56-57 | the key `id` fills the front of a longer placeholder such as `:idx` that comes first |
| SharedRoutes.DollarInValue | shared/routes.ts:57 | a value `$&` fills the placeholder with the placeholder itself |
| AddressBar.SubmitTarget | client/src/components/ui/address-bar.tsx:19-31 | nothing is submitted exactly when the input is all whitespace; anything submitted starts with `http` |
| AddressBar.SearchCarriesInput | client/src/components/ui/address-bar.tsx:24-25 | text without a dot or with a space becomes a search whose `q` parameter decodes to exactly the input |
| AddressBar.AddressKept | client/src/components/ui/address-bar.tsx:26-28 | text with a dot and no space is kept when it starts with `http`, else gets `https://` |
| AddressBar.AddressFixed | client/src/components/ui/address-bar.tsx:26-28 | an `http…` address with a dot and no space is submitted as it is |
| AddressBar.SubmitTargetStable | client/src/components/ui/address-bar.tsx:19-31 | submitting a submitted target again gives the same target |
| AddressBar.HttpHostPrefixed | client/src/components/ui/address-bar.tsx:26 | a host `http.…` is sent as typed, and the relay puts `https://` in front of it |
| Browser.InitialWellFormed | client/src/pages/browser.tsx:57-59 | the initial single tab has a distinct id and is the one active tab |
| Browser.ActiveTab | client/src/pages/browser.tsx:80 | the first active tab, else the first tab, and none only for an empty list |
| Browser.ActiveTabIsTheActiveOne | client/src/pages/browser.tsx:80 | with one active tab, `activeTab` is that tab |
| Browser.NewTab | client/src/pages/browser.tsx:140-151 | every tab becomes inactive and a blank active tab is appended |
| Browser.NewTabWellFormed | client/src/pages/browser.tsx:140-151 | a new tab with an unused id keeps the discipline and is the tab shown |
| Browser.ActivateTab | client/src/pages/browser.tsx:174-181 | exactly the tabs with the id become active and are stamped; those with a page are loaded; nothing else changes |
| Browser.ActivateKnownTab | client/src/pages/browser.tsx:174-181 | activating a listed tab keeps the discipline and shows that tab |
| Browser.ActivateUnknownTab | client/src/pages/browser.tsx:174-181 | activating an unlisted id leaves no tab active, and the first tab is shown |
| Browser.Navigate | client/src/pages/browser.tsx:183-199 | the active tab gets the page, title and icon, is loaded and stamped; the others are untouched |
| Browser.NavigateWellFormed | client/src/pages/browser.tsx:183-199 | navigation keeps the discipline, and the tab shown is the one that navigated |
| Browser.SessionRecord | client/src/pages/browser.tsx:201-207 | the history record carries the URL, the title, `isActive` true and the user's id, or `anonymous` when there is no user or the id is empty |
| Browser.AutoClear | client/src/pages/browser.tsx:103-117 | a tick unloads exactly the loaded inactive tabs idle for longer than the setting, and only their `loaded` flag changes; with a setting of 0 or less nothing changes |
| Browser.AutoClearWellFormed | client/src/pages/browser.tsx:103-117 | a tick never touches the active tab, keeps the discipline, and a second tick at the same time changes nothing |
| Browser.Preset | client/src/pages/browser.tsx:84-89 | exactly the four named presets exist |
| Browser.AppliedTheme | client/src/pages/browser.tsx:91-93 | `custom` gives the custom colours, a known preset its own, and any other name neon |
| Browser.DefaultThemeIsNeon | client/src/pages/browser.tsx:45-51 | with the default custom colours, `custom` and every unknown preset look like neon |
| Browser.CloseTab | client/src/pages/browser.tsx:153-172 | the array left is that of the reference closing function, and the handler throws exactly where that has no result |
| Browser.ClosedTabs | client/src/pages/browser.tsx:153-171 | closing never adds tabs; with more than one tab, no tab with the closed id is left; the handler throws only when a tab with that id is active; `CloseActiveTab`, `CloseInactiveTab` and `CloseTabWellFormed` give the rest |
| Browser.CloseOnlyTab | client/src/pages/browser.tsx:154-157 | the only tab is cleared rather than closed, whatever id is given, and keeps its id and state |
| Browser.FilterOtherId | client/src/pages/browser.tsx:161 | with distinct ids the filter drops at most one tab and keeps the ids distinct |
| Browser.CloseTabWellFormed | client/src/pages/browser.tsx:153-172 | under the discipline closing never throws and keeps the discipline; the ids left are the old ones less the closed one |
| Browser.CloseActiveTab | client/src/pages/browser.tsx:160-171 | closing the active tab keeps the others in order, and the last of them becomes the only active tab |
| Browser.CloseInactiveTab | client/src/pages/browser.tsx:160-171 | closing an inactive or unlisted tab keeps the others in order, with the same tab shown |
| Browser.CloseTabThrows | client/src/pages/browser.tsx:163-164 | with two active tabs sharing the closed id, nothing is left to take over |
| UriCoding.Encode | server/routes.ts:29 | `encodeURIComponent` writes only unreserved characters and `%` |
| UriCoding.DecodeEncode | server/routes.ts:29 | decoding the encoding of any string gives the string back |
| JsText.ReplaceFirstLiteral | server/routes.ts:37 | `replace` with a `$`-free replacement splices it in place of the first occurrence, and changes nothing without one |
| JsText.ExpandOneCapture | server/routes.ts:55 | `$1` in the head template expands to the tag's captured attributes |
| JsText.Trim | client/src/components/ui/address-bar.tsx:21 | `trim` gives a slice with no whitespace at either end, empty exactly when the input is all whitespace |
| JsText.SplitOnWhitespaceTwoTokens | server/routes.ts:45 | two whitespace-free words joined by a space split back into the two words |

## Left out

- The network: `fetch` is a parameter. Redirect following, timeouts and transport errors are
  only "a fetch that fails".
- URL parsing and serialisation (`new URL`) is a parameter. The model assumes only that a URL
  `fetch` accepted also parses.
- The bodies as text and as bytes are both given with the upstream reply. Character decoding
  of `response.text()` is not modelled.
- Express's own headers: `json()` and `send()` add a content type and length, and these are
  not part of the reply.
- The `isAuthenticated` middleware and the auth routes: the route is modelled as reached by
  an authenticated caller.
- ProxyRoute.ValidationError: the messages for a missing or non-string `url` are written as
  zod words them, and query shapes beyond absent, string, array and object are not modelled.
- The database-backed stores (`DatabaseStorage`, `AuthStorage`) and the choice between them
  and the in-memory ones.
- The user type of `shared/models/auth` is not part of this model. Its fields are taken from
  the store's own code.
- `crypto.randomUUID`, `uuidv4` and `Date.now`/`new Date()` are arguments. Two
  `new Date()` calls in one `createUser` are one `now`.
- Invalid dates and a `lastAccessed` of time 0 are not distinguished from a missing time,
  as `|| 0` does not distinguish them.
- SharedRoutes.BuildUrl: parameters are a list of entries in the order `Object.entries`
  yields. JavaScript's reordering of integer-like keys is not modelled. Numbers are integers,
  so `String()` of fractions, `NaN` and infinities is not modelled.
- SessionStore.MemoryStorage.DeleteSession: the id is an integer. The `NaN` that
  `Number()` makes of a non-numeric route parameter is not modelled; it matches no record.
- AddressBar.SubmitTarget: the form event and `preventDefault` are not modelled.
- Browser: React state, rendering, JSX, `localStorage`, the auth redirect, and the drawers.
  - `formatTabTitle` and `getFaviconUrl` are arguments of `Navigate`.
  - The interval timer is one tick of `AutoClear`.
  - `autoClearMinutes` is an integer.
  - `themePresets` lookup of names such as `constructor` that JavaScript objects inherit is
    not modelled: unknown names give neon.
- Relay.InjectBase: the injected tag is stated only for a serialised base without `$`. The model
  expands a `$` pattern in the base (`$&`, `` $` ``, `$'`, `$1`) as `replace` does, but no
  lemma states the resulting tag; a serialised URL can hold `$` only in its path, query or
  fragment.
- Browser.CloseTab: `tabs.length === 1` reads the tabs of the last render, while the filter
  reads the latest state. The model uses one list for both.
- Browser.CloseTab: the handler mutates the surviving tab object, which is shared with the
  previous state. The model writes a new array and does not capture that aliasing.
- Lone UTF-16 surrogates, on which `encodeURIComponent` throws, are not representable:
  strings are sequences of Unicode scalar values.
- Relay: the rewriters are pattern-based, as in the code. HTML and CSS are not parsed, so
  comments, `<script>` text and unusual quoting are treated like any other text.
