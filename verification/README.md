# BiomioAuth browser client: the authorization flow in Dafny

BiomioAuth's browser client is a small JavaScript module that sends the
user to an OpenID Connect provider. It then takes the provider's answer
from the page's URL fragment. This is the client side of the implicit grant
(section 4.2 of RFC 6749):

- the request parameters of section 4.2.1;
- the fragment response of section 4.2.2;
- the `state` check against cross-site request forgery of section 10.12.

The repository holds two near-identical copies of the client:

- `biomio-openid-client.js` opens a popup and waits for it to close;
- `oidclient.js` opens a popup or navigates, and checks the answer in `init`.

The model keeps the flow's state in two maps:

- a cookie jar, holding `nonce` and `state`;
- local storage, holding `access_token` and `id_token`.

It also keeps the configuration record `init` fills in. Every step is a pure
function from the old state to the new one. The string-level pieces are
modelled character by character:

- the fragment parser, which is a global regular-expression scan;
- the cookie lookup, a regular expression anchored at `^` or `"; "`;
- the authorization URL, built by concatenation without encoding.

Modules:

- `Js`: `Option`, `Result`, `undefined`/`null` as text, and truthiness.
- `Text`: runs of characters outside a stop set. These are the `[^…]`
  classes of the patterns.
- `Fragment`: `parseFragment`. The regex scan is proved equal to a split
  reading, the later of two equal keys wins, and `Join` and scan round-trip.
- `Cookie`: `getCookie` and the string `setCookie` writes.
  - The name is escaped and then matched literally.
  - The leftmost match is the one read.
  - A lookup in a rendered jar finds the jar's first entry with that name.
- `AuthorizeUrl`: the URL `login` builds, what its query reads back as, and
  how an unencoded `redirect_uri` can inject a second `state`.
- `Session`: what both copies share: `init`, `logout`, `isAuth`, the token
  accessors, the first steps of `login` and the token commit.
- `BiomioClient`: `login`, `parseResponse` and the popup-closed callback of
  `biomio-openid-client.js`.
- `OidClient`: `login`, `checkResponse` and `init` of `oidclient.js`.

The same flow exists in two copies: `logout` and `isAuth` are at
`oidclient.js:47-52` and `oidclient.js:94-100`, and `init` defaults at
`oidclient.js:27-37`. Those lines are character for character the
popup client's, and `Session` models both.

Two behaviours of `oidclient.js` are modelled as written:

- `login` reads the URL's fields from `this`. Called as
  `OIDClient.login(...)`, `this` is the exported object, which has none of
  them, so every field reads "undefined" except the external token. The
  URL therefore never carries the stored `nonce` and `state`.
- `checkResponse` starts with `fragment === {}`, which compares two
  distinct objects and never holds. A fragment without `state` is
  therefore accepted whenever there is no `state` cookie.

## Model

| member | source | states |
|---|---|---|
| `Session.Init` | biomio-openid-client.js:32-42 | fails exactly when `client_id` is missing or empty; otherwise keeps `client_id` and takes each other option when truthy, else its default (`http://biom.io:5001`, `code`, `openid profile`, the current page without query or fragment); every configured value is non-empty |
| `Session.InitKeepsCompleteConfig` | biomio-openid-client.js:32-42 | a configuration whose values are all non-empty, handed back to `init` as options, is returned unchanged, whatever the page |
| `Session.IsAuth` | biomio-openid-client.js:108-114 | true exactly when either token is present in storage (presence, so an empty stored token counts) |
| `Session.AccessToken` | biomio-openid-client.js:100-102 | `getAccessToken()`: the stored `access_token`, or `undefined` when none is stored |
| `Session.IdToken` | biomio-openid-client.js:104-106 | `getIdToken()`: the stored `id_token`, or `undefined` when none is stored |
| `Session.Logout` | biomio-openid-client.js:46-51 | afterwards `nonce`, `state`, `access_token` and `id_token` are absent, and every other cookie and storage key reads as before |
| `Session.LogoutUnauthenticates` | oidclient.js:47-52 | after logout `isAuth` is false and both token accessors return `undefined` |
| `Session.LogoutIdempotent` | biomio-openid-client.js:46-51 | logging out twice gives the same state as logging out once |
| `Session.LogoutRemovesExactlyFlowKeys` | oidclient.js:47-52 | the keys left are exactly the old keys minus the four flow keys, each with its old value |
| `Session.StartLogin` | biomio-openid-client.js:56-61 | after the reset and the two `setCookie` calls no token is stored, the cookies hold exactly the drawn `nonce` and `state`, and every other key reads as before |
| `Session.CommitTokens` | biomio-openid-client.js:127-135 | a token the fragment carries with a non-empty value is stored; an absent or empty one leaves the stored value as it was; cookies and all other storage keys are untouched |
| `Session.UserAfter` | oidclient.js:135-139 | a successful profile response makes its `user` the module's user; a failed one keeps the previous user |
| `Session.UserInfoUrl` | biomio-openid-client.js:149 | the profile request: the provider URI, `/api/user?access_token=`, then the token, unencoded |
| `Session.GetCookieIsLookup` | biomio-openid-client.js:219-224 | on a `document.cookie` rendering the cookie map with storable entries and encoded values, `getCookie(name)` for a name without `=` is the map's value, or `undefined` when there is none, given that decoding undoes encoding |
| `Session.StateCookieIsGetCookie` | biomio-openid-client.js:125 | under the same conditions, the `state` cookie the response check compares against is `getCookie('state')` |
| `Fragment.MatchAt` | biomio-openid-client.js:210 | a match anchored at a position is a non-empty key free of `&` and `=`, then `=`, then a value free of `&` |
| `Fragment.FragmentText` | biomio-openid-client.js:209 | `location.hash.substring(1)`: the hash without its first character; the empty hash gives the empty text |
| `Fragment.ScanFrom` | biomio-openid-client.js:213-215 | every pair the scan yields is well formed: a non-empty key without `&` or `=`, a value without `&` |
| `Fragment.ToMap` | biomio-openid-client.js:208-216 | every decoded key of the pairs is in the mapping, and every key in the mapping is the decoded key of some pair |
| `Fragment.Parse` | biomio-openid-client.js:207-217 | an empty hash or a lone `#` gives the empty mapping; each key comes from a pair found in the text after the first character |
| `Fragment.LastWins` | biomio-openid-client.js:213-215 | a key's value is the decoded value of the last pair whose key decodes to it |
| `Fragment.EqsEnd` | biomio-openid-client.js:210 | finds the end of the run of `=` characters at a position: every character before it is `=` and the one at it is not |
| `Fragment.SkipEqs` | biomio-openid-client.js:210-215 | `=` characters at the start of a segment begin no match: the scan from before them equals the scan from after them |
| `Fragment.ScanIsSplit` | biomio-openid-client.js:209-215 | the regex scan equals the split reading: split at every `&`, drop leading `=`, key up to the first `=`, value the rest, nothing from a segment with no `=` |
| `Fragment.SegmentWithoutEqIsIgnored` | biomio-openid-client.js:210 | a segment with no `=` contributes no pair |
| `Fragment.SplitJoin` | biomio-openid-client.js:209-215 | well-formed pairs joined as `k=v&…` split back into the same pairs |
| `Fragment.ScanJoin` | biomio-openid-client.js:209-215 | scanning well-formed joined pairs returns the same pairs in order, raw |
| `Fragment.ParseJoin` | oidclient.js:195-205 | the hash `#k1=v1&…` parses to the mapping built from its pairs |
| `Fragment.ParseExample` | oidclient.js:195-205 | `#a=1&b=two` parses to {a: 1, b: two}; the empty hash to the empty mapping |
| `Cookie.EscapedNameIsLiteral` | biomio-openid-client.js:221 | the escaped name, read as a regular expression, is a literal pattern for exactly the name |
| `Cookie.EscapeName` | biomio-openid-client.js:221 | puts a backslash before each character of the source's escape class; `EscapedNameIsLiteral` states what the result means |
| `Cookie.FindFromIsLeftmost` | oidclient.js:207-210 | the search finds nothing exactly when the name begins nowhere (at the start or after `"; "`), otherwise the value at the leftmost such place, up to the next `;` |
| `Cookie.GetCookie` | oidclient.js:207-212 | `undefined` exactly when no cookie of that name begins at the start or after `"; "`; otherwise the decoded value of the leftmost one |
| `Cookie.GetCookieFromJar` | biomio-openid-client.js:219-224 | on a rendered jar of storable entries, `getCookie` returns the decoded value of the jar's first entry with that name, or `undefined` when there is none |
| `Cookie.SetCookieReadsBack` | biomio-openid-client.js:240-252 | the line `setCookie` writes, read with `getCookie`'s pattern, yields the encoded value, whatever attributes follow |
| `Cookie.SetCookieString` | biomio-openid-client.js:240-252 | `name=encode(value)` then `; key` for a `true` option or `; key=value` otherwise; `SetCookieReadsBack` states how it reads back |
| `AuthorizeUrl.ExternalTokenText` | biomio-openid-client.js:54 | a truthy external token appears as itself, a missing or empty one as `null` |
| `AuthorizeUrl.Build` | biomio-openid-client.js:63-71 | the URL as concatenated; `BuildIsEndpointAndQuery` states its shape |
| `AuthorizeUrl.BuildIsEndpointAndQuery` | biomio-openid-client.js:63-71 | the URL is the provider URI, `/user/authorize?`, then the seven parameters joined as `k=v&…` in source order, unencoded |
| `AuthorizeUrl.QueryOfBuild` | biomio-openid-client.js:63-71 | with no `?` in the provider URI, the query of the URL is the joined parameters |
| `AuthorizeUrl.QueryReadsBack` | biomio-openid-client.js:63-71 | when no value contains `&`, reading the query back gives every parameter, in order, with its raw value |
| `AuthorizeUrl.InjectedQuery` | biomio-openid-client.js:70-71 | a redirect URI `uri&state=X` puts into the query the honest parameters followed by one more pair, `state=X` |
| `AuthorizeUrl.RedirectUriCanOverrideState` | biomio-openid-client.js:70-71 | a redirect URI ending `&state=X` makes the query read `state` as X, because nothing is encoded |
| `BiomioClient.Login` | biomio-openid-client.js:53-71 | after `login` no token is stored, the cookies hold the drawn `nonce` and `state`, and other keys read as before |
| `BiomioClient.LoginUrlCarriesStoredState` | biomio-openid-client.js:54-71 | the opened URL's query carries the `nonce` and `state` equal to the stored cookies, the configured `response_type`, `client_id` and `redirect_uri`, and `external_token=null` when none was given |
| `BiomioClient.ParseResponse` | biomio-openid-client.js:119-138 | without `state` in the fragment nothing changes; on a state mismatch nothing changes; on a match the tokens are committed; cookies are never changed |
| `BiomioClient.TokensOnlyOnStateMatch` | biomio-openid-client.js:125-135 | a stored token can change only when the fragment's `state` equals the `state` cookie |
| `BiomioClient.OnPopupClosed` | biomio-openid-client.js:77-92 | the outcome is `NotCalled` exactly when `isAuth` is false; the profile load throws exactly when authenticated without a truthy access token; otherwise it requests `/api/user?access_token=` with the stored token and passes `data.user` on success, `null` on error |
| `BiomioClient.LoginThenMatchingResponse` | biomio-openid-client.js:53-92 | login, then a fragment echoing the drawn `state` with a non-empty access token, then closing the popup: the token is stored and the profile is requested with it |
| `BiomioClient.StaleStateRejected` | biomio-openid-client.js:125-135 | after login, a fragment with any other `state` changes nothing, the user stays logged out, and `done` is never called |
| `BiomioClient.SecondLoginInvalidatesFirst` | biomio-openid-client.js:56-61 | after a second login that drew a different `state`, the answer to the first login is ignored |
| `BiomioClient.EchoedFragmentAuthenticates` | biomio-openid-client.js:119-135 | the page `#state=S&access_token=T` after the login that drew `S` stores `T` |
| `OidClient.NormalizeMode` | oidclient.js:56 | the mode is redirect exactly when `type` is `'redirect'`; anything else is popup |
| `OidClient.Login` | oidclient.js:54-80 | logs out, stores the drawn `nonce` and `state` as cookies, leaves other keys alone, and opens a popup unless `type` is `'redirect'` |
| `OidClient.LoginUrlIgnoresConfigAndDraws` | oidclient.js:65-73 | the URL depends on the external token alone, not on the configuration, the mode or the drawn values |
| `OidClient.LoginUrlStateIsUndefined` | oidclient.js:65-73 | the URL's query carries `client_id`, `nonce` and `state` all as the text `undefined` |
| `OidClient.CheckResponse` | oidclient.js:102-122 | valid exactly when the fragment's `state` equals the `state` cookie, both absent included; when valid the tokens are committed; otherwise nothing changes; cookies are never changed |
| `OidClient.CheckAgreesWhenStatePresent` | oidclient.js:108 | when the fragment and the cookie both carry a `state`, the check is the popup client's state match |
| `OidClient.ForgedTokenAcceptedWithoutStateCookie` | oidclient.js:104-118 | with no `state` cookie, the page `#access_token=T` is accepted and `T` becomes the stored token |
| `OidClient.EmptyFragmentAccepted` | oidclient.js:103-106 | with no `state` cookie, a page with no fragment passes the check and changes nothing: the empty-fragment guard never fires |
| `OidClient.ReturnedStateRejected` | oidclient.js:60-73 | after a login that drew any `state` but "undefined", a provider echoing the `state` it was sent is rejected and nothing is stored |
| `OidClient.Init` | oidclient.js:27-45 | fails exactly when `client_id` is missing or empty; sets the defaults; the result of `checkResponse` on the page's fragment decides acceptance and the browser afterwards; the profile is requested exactly when the check passed and a truthy access token is stored, with that token |
| `OidClient.InitAcceptsStatelessToken` | oidclient.js:27-45 | with no `state` cookie, a page fragment carrying an access token and no `state` is accepted at `init`, the token is stored, and the profile is requested |

## Left out

- The random draw (`random(8)`) is a parameter: `Login` takes the drawn
  `nonce` and `state`. In the source, `size` is passed as the radix of
  `toString`, so the crypto path gives an octal string of varying length,
  not eight characters. Nothing in the model depends on the drawn values'
  shape.
- `makeRequest`, `XMLHttpRequest` and the `JSON.parse` fallback are network
  I/O. The profile request is the URL the model computes, and its answer is
  a `Result` parameter.
- Popup geometry involves floating-point window arithmetic. `window.open`,
  `focus`, `window.close` and `location.href` are browser primitives. Only
  which of popup and navigation is chosen, and the URL, are modelled.
- The 500 ms `setInterval` polling is modelled as a single "popup closed"
  event. A blocked popup (`window.open` returning null) never gets that
  event, and is not modelled.
- `decodeURIComponent` and `encodeURIComponent` are abstract function
  parameters. Their exact percent-coding, and decode throwing on malformed
  input, are not modelled.
- The expiry handling of `setCookie` (`Date` arithmetic) is not modelled.
  Nor is what the browser does when `document.cookie` is assigned: the
  `expires: -1` of `deleteCookie` and how the browser merges and orders
  cookies. The flow keeps the jar as a map holding each cookie's value,
  and reads `getCookie('state')` as a lookup in that map.
  `Session.GetCookieIsLookup` justifies the reading: on a
  `document.cookie` that lists every cookie of the map once or more, with
  storable names and encoded values, `getCookie` returns the map's value
  whenever decoding undoes encoding on the stored values. Cookie values
  for which it does not, and jars the browser renders some other way, are
  not modelled.
- Option values that are not strings (numbers, objects) are not modelled.
  Neither is `init` called without an options object, which throws a
  `TypeError`.
- The module-level variables are left out. Calling `login` before `init`
  would concatenate `undefined`; the model's `Login` takes the
  configuration `init` produced.
- `getUser` is left out. It returns the module's `user`, which
  `OnPopupClosed` and `UserAfter` compute.
- OidClient.Init: weaker than the source: its profile request ends
  at the URL, and the callback is `Session.UserAfter`.
- OidClient.Login: weaker than the source: the URL it navigates to is
  stated by the lemmas `LoginUrlIgnoresConfigAndDraws` and
  `LoginUrlStateIsUndefined` rather than in its own contract.
- Cookie.GetCookieFromJar: weaker than the source: it requires names
  without `=` and values without `;`, the entries a browser renders. A
  name containing `=` could match inside another entry.
- Session.IsAuth: follows the code's `!= null` test, so a stored empty
  token counts as authenticated.
- BiomioClient.OnPopupClosed: assumes `login` was given a `done`
  callback. The source calls `done(user)` and `done(null)` without
  checking, so after a `login` without one the callback throws a
  `TypeError` once the profile answer arrives (after `user` is already
  set on success). That outcome is not modelled.
- JavaScript property lookup on a plain object is modelled as a map
  lookup. Inherited properties such as `__proto__` or `constructor` as
  fragment keys are not modelled.
