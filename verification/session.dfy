/** What both copies of the client share: the configuration set by
    `init`, the browser state the flow lives in (a cookie jar holding
    `nonce` and `state`, and local storage holding `access_token` and
    `id_token`), `logout`, `isAuth`, the token accessors, and the
    token-commit step of the response handlers. */
module Session {
  import opened Js
  import opened Text
  import Cookie

  const DefaultProviderUri := "http://biom.io:5001"
  const DefaultResponseType := "code"
  const DefaultScope := "openid profile"

  const NonceKey := "nonce"
  const StateKey := "state"
  const AccessTokenKey := "access_token"
  const IdTokenKey := "id_token"

  /** The cookies a login writes and a logout deletes. */
  const FlowCookies: set<string> := {NonceKey, StateKey}

  /** The storage keys that hold the session's tokens. */
  const TokenKeys: set<string> := {AccessTokenKey, IdTokenKey}

  /** The `options` object handed to `init`; an absent property is `None`. */
  datatype Options = Options(
    providerUri: Option<string>,
    responseType: Option<string>,
    scope: Option<string>,
    clientId: Option<string>,
    redirectUri: Option<string>)

  /** The parts of `window.location` the client reads. */
  datatype PageLocation = PageLocation(protocol: string, host: string, pathname: string, hash: string)

  /** The client configuration kept in the closure after `init`. */
  datatype Config = Config(
    providerUri: string,
    responseType: string,
    scope: string,
    clientId: string,
    redirectUri: string)

  /** `init` throws 'Parameter "client_id" is required!'. */
  datatype InitError = ClientIdRequired

  /** The current page without query or fragment: the default redirect URI. */
  function CurrentPage(loc: PageLocation): string
  {
    loc.protocol + "//" + loc.host + loc.pathname
  }

  /** `init(options)`: fails unless `client_id` is truthy, otherwise fills
      every falsy option with its default. */
  function Init(o: Options, loc: PageLocation): (r: Result<Config, InitError>)
    ensures r.Err? <==> !Truthy(o.clientId)
    ensures r.Ok? ==> r.value.clientId == o.clientId.value
    ensures r.Ok? && Truthy(o.providerUri) ==> r.value.providerUri == o.providerUri.value
    ensures r.Ok? && !Truthy(o.providerUri) ==> r.value.providerUri == DefaultProviderUri
    ensures r.Ok? && Truthy(o.responseType) ==> r.value.responseType == o.responseType.value
    ensures r.Ok? && !Truthy(o.responseType) ==> r.value.responseType == DefaultResponseType
    ensures r.Ok? && Truthy(o.scope) ==> r.value.scope == o.scope.value
    ensures r.Ok? && !Truthy(o.scope) ==> r.value.scope == DefaultScope
    ensures r.Ok? && Truthy(o.redirectUri) ==> r.value.redirectUri == o.redirectUri.value
    ensures r.Ok? && !Truthy(o.redirectUri) ==> r.value.redirectUri == CurrentPage(loc)
    ensures r.Ok? ==> ConfigComplete(r.value)
  {
    if !Truthy(o.clientId) then Err(ClientIdRequired)
    else
      Ok(Config(
        OrElse(o.providerUri, DefaultProviderUri),
        OrElse(o.responseType, DefaultResponseType),
        OrElse(o.scope, DefaultScope),
        o.clientId.value,
        OrElse(o.redirectUri, CurrentPage(loc))))
  }

  /** Every configured value is a non-empty string. */
  predicate ConfigComplete(c: Config)
  {
    c.providerUri != "" && c.responseType != "" && c.scope != ""
    && c.clientId != "" && c.redirectUri != ""
  }

  /** A configuration handed back to `init` as its options. */
  function AsOptions(c: Config): Options
  {
    Options(Some(c.providerUri), Some(c.responseType), Some(c.scope), Some(c.clientId), Some(c.redirectUri))
  }

  /** `init` keeps a complete configuration as it is: initialising with
      the options of a configuration it produced gives that configuration
      back, on any page. */
  lemma InitKeepsCompleteConfig(c: Config, loc: PageLocation)
    requires ConfigComplete(c)
    ensures Init(AsOptions(c), loc) == Ok(c)
  {
  }

  /** The state the flow lives in: the cookie jar (name to the value
      `setCookie` was given) and local storage. */
  datatype Browser = Browser(cookies: map<string, string>, storage: map<string, string>)

  function StateCookie(b: Browser): Option<string> { Lookup(b.cookies, StateKey) }
  function NonceCookie(b: Browser): Option<string> { Lookup(b.cookies, NonceKey) }

  /** `getAccessToken()`: the stored access token, or `undefined`. */
  function AccessToken(b: Browser): Option<string> { Lookup(b.storage, AccessTokenKey) }

  /** `getIdToken()`: the stored identity token, or `undefined`. */
  function IdToken(b: Browser): Option<string> { Lookup(b.storage, IdTokenKey) }

  /** `isAuth()`: a token is stored (`!= null`, so an empty string counts). */
  function IsAuth(b: Browser): (r: bool)
    ensures r <==> AccessToken(b).Some? || IdToken(b).Some?
  {
    AccessTokenKey in b.storage || IdTokenKey in b.storage
  }

  /** `document.cookie` renders the cookie map: every entry is a cookie of
      the map with its value encoded, and every cookie of the map has an
      entry. */
  predicate RendersJar(jar: seq<(string, string)>, cookies: map<string, string>, encode: string -> string)
  {
    (forall i :: 0 <= i < |jar| ==> jar[i].0 in cookies && jar[i].1 == encode(cookies[jar[i].0]))
    && (forall k :: k in cookies ==> exists i :: 0 <= i < |jar| && jar[i].0 == k)
  }

  /** The cookie map stands for `getCookie`: on a `document.cookie` that
      renders the map with storable entries, `getCookie(name)` for a name
      without '=' is the map's value, or `undefined` when the map has
      none, provided decoding undoes encoding on the stored values. */
  lemma GetCookieIsLookup(b: Browser, jar: seq<(string, string)>, name: string,
                          encode: string -> string, decode: string -> string)
    requires forall i :: 0 <= i < |jar| ==> Cookie.Storable(jar[i])
    requires RendersJar(jar, b.cookies, encode)
    requires forall k :: k in b.cookies ==> decode(encode(b.cookies[k])) == b.cookies[k]
    requires Free(name, {'='})
    ensures Cookie.GetCookie(Cookie.Render(jar), name, decode) == Lookup(b.cookies, name)
  {
    Cookie.GetCookieFromJar(jar, name, decode);
    Cookie.FirstValueFound(jar, name);
    if name in b.cookies {
      var i :| 0 <= i < |jar| && jar[i].0 == name;
      assert Cookie.FirstValue(jar, name).Some?;
    }
  }

  /** In particular the `state` cookie the response handlers compare
      against is `getCookie('state')`. */
  lemma StateCookieIsGetCookie(b: Browser, jar: seq<(string, string)>,
                               encode: string -> string, decode: string -> string)
    requires forall i :: 0 <= i < |jar| ==> Cookie.Storable(jar[i])
    requires RendersJar(jar, b.cookies, encode)
    requires forall k :: k in b.cookies ==> decode(encode(b.cookies[k])) == b.cookies[k]
    ensures Cookie.GetCookie(Cookie.Render(jar), StateKey, decode) == StateCookie(b)
  {
    StateKeyHasNoEq();
    GetCookieIsLookup(b, jar, StateKey, encode, decode);
  }

  /** `state` holds no '='.
      A separate proof step: it keeps the proofs that use it cheap. */
  lemma StateKeyHasNoEq()
    ensures Free(StateKey, {'='})
  {
  }

  /** `logout()`: deletes the `nonce` and `state` cookies and removes both
      tokens from storage. */
  function Logout(b: Browser): (r: Browser)
    ensures NonceCookie(r).None? && StateCookie(r).None?
    ensures AccessToken(r).None? && IdToken(r).None?
    ensures forall k :: k !in FlowCookies ==> Lookup(r.cookies, k) == Lookup(b.cookies, k)
    ensures forall k :: k !in TokenKeys ==> Lookup(r.storage, k) == Lookup(b.storage, k)
  {
    Browser(b.cookies - FlowCookies, b.storage - TokenKeys)
  }

  /** Logging out leaves no session: both token accessors report
      `undefined` and `isAuth` is false. */
  lemma LogoutUnauthenticates(b: Browser)
    ensures !IsAuth(Logout(b))
    ensures AccessToken(Logout(b)) == None && IdToken(Logout(b)) == None
  {
  }

  /** Logging out twice is logging out once. */
  lemma LogoutIdempotent(b: Browser)
    ensures Logout(Logout(b)) == Logout(b)
  {
    var once := Logout(b);
    assert once.cookies - FlowCookies == once.cookies;
    assert once.storage - TokenKeys == once.storage;
  }

  /** Logout removes exactly the four keys: what it keeps of a jar and a
      storage is everything else, unchanged, and nothing new. */
  lemma LogoutRemovesExactlyFlowKeys(b: Browser)
    ensures Logout(b).cookies.Keys == b.cookies.Keys - {"nonce", "state"}
    ensures Logout(b).storage.Keys == b.storage.Keys - {"access_token", "id_token"}
    ensures forall k :: k in Logout(b).cookies ==> Logout(b).cookies[k] == b.cookies[k]
    ensures forall k :: k in Logout(b).storage ==> Logout(b).storage[k] == b.storage[k]
  {
  }

  /** The first steps of `login`: log out, then store the freshly drawn
      `nonce` and `state` as cookies. */
  function StartLogin(b: Browser, nonce: string, state: string): (r: Browser)
    ensures !IsAuth(r)
    ensures NonceCookie(r) == Some(nonce) && StateCookie(r) == Some(state)
    ensures forall k :: k !in FlowCookies ==> Lookup(r.cookies, k) == Lookup(b.cookies, k)
    ensures forall k :: k !in TokenKeys ==> Lookup(r.storage, k) == Lookup(b.storage, k)
  {
    var out := Logout(b);
    out.(cookies := out.cookies[NonceKey := nonce][StateKey := state])
  }

  /** The fragment's `state` matches the stored `state` cookie. A fragment
      without `state` never matches here; each copy of the client decides
      that case on its own. */
  predicate StateMatches(b: Browser, fragment: map<string, string>)
  {
    StateKey in fragment && StateCookie(b) == Some(fragment[StateKey])
  }

  /** The token writes of a validated response: each token the fragment
      carries with a truthy value is stored; a token that is absent or
      empty in the fragment leaves the stored one as it was. */
  function CommitTokens(b: Browser, fragment: map<string, string>): (r: Browser)
    ensures r.cookies == b.cookies
    ensures Truthy(Lookup(fragment, AccessTokenKey)) ==> AccessToken(r) == Some(fragment[AccessTokenKey])
    ensures !Truthy(Lookup(fragment, AccessTokenKey)) ==> AccessToken(r) == AccessToken(b)
    ensures Truthy(Lookup(fragment, IdTokenKey)) ==> IdToken(r) == Some(fragment[IdTokenKey])
    ensures !Truthy(Lookup(fragment, IdTokenKey)) ==> IdToken(r) == IdToken(b)
    ensures forall k :: k !in TokenKeys ==> Lookup(r.storage, k) == Lookup(b.storage, k)
  {
    var s1 := if Truthy(Lookup(fragment, AccessTokenKey))
              then b.storage[AccessTokenKey := fragment[AccessTokenKey]] else b.storage;
    var s2 := if Truthy(Lookup(fragment, IdTokenKey))
              then s1[IdTokenKey := fragment[IdTokenKey]] else s1;
    b.(storage := s2)
  }

  /** `provider_uri + '/api/user?access_token=' + access_token`. */
  function UserInfoUrl(providerUri: string, accessToken: string): string
  {
    providerUri + "/api/user?access_token=" + accessToken
  }

  /** The user-info callback: on success (`!err && data`) the module's
      `user` becomes `data.user`; on a failed request it keeps its value. */
  function UserAfter<U>(user: Option<U>, response: Result<U, string>): (u: Option<U>)
    ensures response.Ok? ==> u == Some(response.value)
    ensures response.Err? ==> u == user
  {
    match response
    case Ok(v) => Some(v)
    case Err(_) => user
  }
}
