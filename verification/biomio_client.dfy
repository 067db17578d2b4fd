/** The popup client: `login` opens the authorization URL in a popup, the
    popup page runs `parseResponse` on the provider's redirect, and when
    the popup closes the opener loads the user's profile. */
module BiomioClient {
  import opened Js
  import opened Session
  import opened Text
  import Fragment
  import AuthorizeUrl

  /** What `login` leaves behind: the browser state and the URL it opens. */
  datatype LoginStep = LoginStep(browser: Browser, url: string)

  /** The URL fields `login` reads: the configuration, the external token
      (or `null`) and the two drawn values. */
  function UrlFields(cfg: Config, externalToken: Option<string>, nonce: string, state: string): AuthorizeUrl.Fields
  {
    AuthorizeUrl.Fields(cfg.providerUri, cfg.responseType, AuthorizeUrl.ExternalTokenText(externalToken),
                        cfg.scope, cfg.clientId, nonce, state, cfg.redirectUri)
  }

  /** `login(external_token, done)` up to opening the popup; `nonce` and
      `state` are the two values `random(8)` drew. The session is reset and
      the drawn values are the only new cookies. */
  function Login(cfg: Config, b: Browser, externalToken: Option<string>, nonce: string, state: string): (r: LoginStep)
    ensures !IsAuth(r.browser)
    ensures NonceCookie(r.browser) == Some(nonce) && StateCookie(r.browser) == Some(state)
    ensures forall k :: k !in FlowCookies ==> Lookup(r.browser.cookies, k) == Lookup(b.cookies, k)
    ensures forall k :: k !in TokenKeys ==> Lookup(r.browser.storage, k) == Lookup(b.storage, k)
  {
    LoginStep(StartLogin(b, nonce, state), AuthorizeUrl.Build(UrlFields(cfg, externalToken, nonce, state)))
  }

  /** The URL a login opens hands the provider the very `nonce` and `state`
      it stored: read back with the client's own `k=v` reader, its query is
      the seven parameters in order, the `nonce` and `state` among them
      equal to the cookies, and `external_token=null` when none was given. */
  lemma LoginUrlCarriesStoredState(cfg: Config, b: Browser, externalToken: Option<string>, nonce: string, state: string)
    requires Free(cfg.providerUri, {'?'})
    requires AuthorizeUrl.AmpersandFree(UrlFields(cfg, externalToken, nonce, state))
    ensures var r := Login(cfg, b, externalToken, nonce, state);
      var q := Fragment.Scan(AuthorizeUrl.QueryOf(r.url));
      |q| == 7
      && q[0] == ("response_type", cfg.responseType)
      && q[3] == ("client_id", cfg.clientId)
      && Some(q[4].1) == NonceCookie(r.browser) && q[4].0 == "nonce"
      && Some(q[5].1) == StateCookie(r.browser) && q[5].0 == "state"
      && q[6] == ("redirect_uri", cfg.redirectUri)
      && (!Truthy(externalToken) ==> q[1] == ("external_token", "null"))
      && (Truthy(externalToken) ==> q[1] == ("external_token", externalToken.value))
  {
    var f := UrlFields(cfg, externalToken, nonce, state);
    var r := Login(cfg, b, externalToken, nonce, state);
    assert r.url == AuthorizeUrl.Build(f);
    assert f.externalToken == AuthorizeUrl.ExternalTokenText(externalToken);
    assert NonceCookie(r.browser) == Some(nonce) && StateCookie(r.browser) == Some(state);
    AuthorizeUrl.QueryFields(f);
  }

  /** `parseResponse()` in the popup, given the page's `location.hash`. A
      fragment without `state` changes nothing; otherwise the tokens are
      written exactly when the fragment's `state` equals the `state`
      cookie. Cookies are never touched. */
  function ParseResponse(b: Browser, hash: string, decode: string -> string): (r: Browser)
    ensures var f := Fragment.Parse(hash, decode);
      StateKey !in f ==> r == b
    ensures var f := Fragment.Parse(hash, decode);
      StateKey in f && !StateMatches(b, f) ==> r == b
    ensures var f := Fragment.Parse(hash, decode);
      StateMatches(b, f) ==> r == CommitTokens(b, f)
    ensures r.cookies == b.cookies
  {
    var fragment := Fragment.Parse(hash, decode);
    if StateKey !in fragment then b
    else if Some(fragment[StateKey]) == StateCookie(b) then CommitTokens(b, fragment)
    else b
  }

  /** The page's response can change the stored tokens only when it carries
      the `state` the browser holds. */
  lemma TokensOnlyOnStateMatch(b: Browser, hash: string, decode: string -> string)
    ensures var r := ParseResponse(b, hash, decode);
      (AccessToken(r) != AccessToken(b) || IdToken(r) != IdToken(b))
      ==> StateMatches(b, Fragment.Parse(hash, decode))
  {
    var f := Fragment.Parse(hash, decode);
    if !StateMatches(b, f) {
      assert ParseResponse(b, hash, decode) == b;
    }
  }

  /** How the wait for the popup ends, once it is closed. */
  datatype Completion<U> =
    | NotCalled                                 // not authenticated: `done` is never called
    | UserInfoThrows                            // `loadUserInfo` throws: no access token
    | Called(request: string, doneArg: Option<U>, user: Option<U>)
      // the profile request made, what `done` got, and `getUser()` afterwards

  /** The polling callback once the popup is closed. When `isAuth()` holds,
      it requests the profile with the stored access token; `response`
      stands for the answer. A successful answer's `user` becomes the
      module's `user` and is handed to `done`; a failed one hands `done`
      `null` and keeps the previous `user`. */
  function OnPopupClosed<U>(cfg: Config, b: Browser, user: Option<U>, response: Result<U, string>): (r: Completion<U>)
    ensures r.NotCalled? <==> !IsAuth(b)
    ensures r.UserInfoThrows? <==> IsAuth(b) && !Truthy(AccessToken(b))
    ensures r.Called? ==> Truthy(AccessToken(b))
    ensures r.Called? ==> r.request == UserInfoUrl(cfg.providerUri, AccessToken(b).value)
    ensures r.Called? && response.Ok? ==> r.doneArg == Some(response.value) && r.user == r.doneArg
    ensures r.Called? && response.Err? ==> r.doneArg == None && r.user == user
  {
    if !IsAuth(b) then NotCalled
    else if !Truthy(AccessToken(b)) then UserInfoThrows
    else
      Called(UserInfoUrl(cfg.providerUri, AccessToken(b).value),
             UserAfter(None, response), UserAfter(user, response))
  }

  /** The whole flow, when the provider echoes the `state` and returns a
      non-empty access token: the popup's page stores the token, and once
      the popup is closed the opener requests the profile with it. */
  lemma LoginThenMatchingResponse<U>(cfg: Config, b: Browser, externalToken: Option<string>,
                                     nonce: string, state: string,
                                     hash: string, decode: string -> string, token: string,
                                     user: Option<U>, response: Result<U, string>)
    requires var f := Fragment.Parse(hash, decode);
      StateKey in f && f[StateKey] == state
      && AccessTokenKey in f && f[AccessTokenKey] == token && token != ""
    ensures var after := ParseResponse(Login(cfg, b, externalToken, nonce, state).browser, hash, decode);
      IsAuth(after) && AccessToken(after) == Some(token)
      && OnPopupClosed(cfg, after, user, response).Called?
      && OnPopupClosed(cfg, after, user, response).request == UserInfoUrl(cfg.providerUri, token)
  {
    var f := Fragment.Parse(hash, decode);
    var started := Login(cfg, b, externalToken, nonce, state).browser;
    assert StateMatches(started, f);
  }

  /** A response carrying any `state` but the one drawn by the latest login
      is ignored: the browser stays logged out and `done` is never called. */
  lemma StaleStateRejected<U>(cfg: Config, b: Browser, externalToken: Option<string>,
                              nonce: string, state: string,
                              hash: string, decode: string -> string,
                              user: Option<U>, response: Result<U, string>)
    requires var f := Fragment.Parse(hash, decode);
      StateKey in f && f[StateKey] != state
    ensures var started := Login(cfg, b, externalToken, nonce, state).browser;
      var after := ParseResponse(started, hash, decode);
      after == started && !IsAuth(after)
      && OnPopupClosed(cfg, after, user, response) == NotCalled
  {
    var started := Login(cfg, b, externalToken, nonce, state).browser;
    assert !StateMatches(started, Fragment.Parse(hash, decode));
  }

  /** Logging in again replaces the `state`: the answer to the first login
      no longer validates. */
  lemma SecondLoginInvalidatesFirst(cfg: Config, b: Browser, externalToken: Option<string>,
                                    nonce1: string, state1: string, nonce2: string, state2: string,
                                    hash: string, decode: string -> string)
    requires state1 != state2
    requires var f := Fragment.Parse(hash, decode);
      StateKey in f && f[StateKey] == state1
    ensures var first := Login(cfg, b, externalToken, nonce1, state1).browser;
      var second := Login(cfg, first, externalToken, nonce2, state2).browser;
      ParseResponse(second, hash, decode) == second
      && !IsAuth(ParseResponse(second, hash, decode))
  {
    var first := Login(cfg, b, externalToken, nonce1, state1).browser;
    var second := Login(cfg, first, externalToken, nonce2, state2).browser;
    assert StateCookie(second) == Some(state2);
    assert !StateMatches(second, Fragment.Parse(hash, decode));
  }

  /** A concrete answer: the page `#state=S&access_token=T`, read without
      decoding, authenticates the login that drew `S` with token `T`. */
  lemma EchoedFragmentAuthenticates(cfg: Config, b: Browser, externalToken: Option<string>,
                                    nonce: string, state: string, token: string)
    requires Free(state, {'&'}) && Free(token, {'&'}) && token != ""
    ensures var hash := "#" + Fragment.Join([(StateKey, state), (AccessTokenKey, token)]);
      var after := ParseResponse(Login(cfg, b, externalToken, nonce, state).browser, hash, Fragment.Verbatim);
      AccessToken(after) == Some(token) && IsAuth(after)
  {
    var ps := [(StateKey, state), (AccessTokenKey, token)];
    assert Free(StateKey, Fragment.KeyStops);
    assert Free(AccessTokenKey, Fragment.KeyStops);
    assert Fragment.WellFormed(ps[0]) && Fragment.WellFormed(ps[1]);
    Fragment.ParseJoin(ps, Fragment.Verbatim);
    Fragment.LastWins(ps, Fragment.Verbatim, 0);
    Fragment.LastWins(ps, Fragment.Verbatim, 1);
    var f := Fragment.Parse("#" + Fragment.Join(ps), Fragment.Verbatim);
    assert f[StateKey] == state && f[AccessTokenKey] == token;
  }
}
