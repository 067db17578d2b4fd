/** The second copy of the client (`OIDClient`): `login` opens a popup or
    navigates the page, and `init` itself checks the page's fragment for
    the provider's answer. It differs from the popup client in two ways
    this module models as written: the URL is read from `this`, and the
    response check accepts a fragment without `state` when no `state`
    cookie is set. */
module OidClient {
  import opened Js
  import opened Session
  import opened Text
  import Fragment
  import AuthorizeUrl

  /** How `login` sends the user to the provider. */
  datatype Mode = Popup | Redirect

  /** `type === 'redirect' ? 'redirect' : 'popup'`. */
  function NormalizeMode(t: Option<string>): (m: Mode)
    ensures m == Redirect <==> t == Some("redirect")
  {
    if t == Some("redirect") then Redirect else Popup
  }

  /** What `login` does with the URL: `window.open` or `location.href`. */
  datatype Navigation = OpenPopup(url: string) | Navigate(url: string)

  datatype LoginStep = LoginStep(browser: Browser, navigation: Navigation)

  /** The URL fields as `login` reads them. It reads `this.provider_uri`,
      `this.nonce` and the rest, and called as `OIDClient.login(...)` the
      receiver is the exported object, which has none of those properties:
      each reads `undefined` and is concatenated as the text "undefined".
      Only the external token comes from the argument. */
  function ReceiverFields(externalToken: Option<string>): AuthorizeUrl.Fields
  {
    var u := ToStr(Undefined);
    AuthorizeUrl.Fields(u, u, AuthorizeUrl.ExternalTokenText(externalToken), u, u, u, u, u)
  }

  /** `login(external_token, type)`: log out, store the drawn `nonce` and
      `state` as cookies, then open or navigate to the authorization URL. */
  function Login(cfg: Config, b: Browser, externalToken: Option<string>, t: Option<string>,
                 nonce: string, state: string): (r: LoginStep)
    ensures !IsAuth(r.browser)
    ensures NonceCookie(r.browser) == Some(nonce) && StateCookie(r.browser) == Some(state)
    ensures forall k :: k !in FlowCookies ==> Lookup(r.browser.cookies, k) == Lookup(b.cookies, k)
    ensures forall k :: k !in TokenKeys ==> Lookup(r.browser.storage, k) == Lookup(b.storage, k)
    ensures r.navigation.OpenPopup? <==> t != Some("redirect")
  {
    var url := AuthorizeUrl.Build(ReceiverFields(externalToken));
    var nav := if NormalizeMode(t) == Popup then OpenPopup(url) else Navigate(url);
    LoginStep(StartLogin(b, nonce, state), nav)
  }

  /** The URL depends on the external token alone: not on the
      configuration, the browser, the mode or the drawn values. */
  lemma LoginUrlIgnoresConfigAndDraws(cfg1: Config, b1: Browser, t1: Option<string>, nonce1: string, state1: string,
                                      cfg2: Config, b2: Browser, t2: Option<string>, nonce2: string, state2: string,
                                      externalToken: Option<string>)
    ensures Login(cfg1, b1, externalToken, t1, nonce1, state1).navigation.url
         == Login(cfg2, b2, externalToken, t2, nonce2, state2).navigation.url
  {
    var url := AuthorizeUrl.Build(ReceiverFields(externalToken));
    assert Login(cfg1, b1, externalToken, t1, nonce1, state1).navigation.url == url;
    assert Login(cfg2, b2, externalToken, t2, nonce2, state2).navigation.url == url;
  }

  /** Read back, the URL's query hands the provider `state=undefined`,
      `nonce=undefined` and `client_id=undefined`, whatever was drawn and
      stored. */
  lemma LoginUrlStateIsUndefined(cfg: Config, b: Browser, externalToken: Option<string>, t: Option<string>,
                                 nonce: string, state: string)
    requires Free(AuthorizeUrl.ExternalTokenText(externalToken), {'&'})
    ensures var q := Fragment.Scan(AuthorizeUrl.QueryOf(Login(cfg, b, externalToken, t, nonce, state).navigation.url));
      |q| == 7
      && q[3] == ("client_id", "undefined")
      && q[4] == ("nonce", "undefined")
      && q[5] == ("state", "undefined")
  {
    var f := ReceiverFields(externalToken);
    assert Login(cfg, b, externalToken, t, nonce, state).navigation.url == AuthorizeUrl.Build(f);
    ReceiverFieldsReadable(externalToken);
    AuthorizeUrl.QueryFields(f);
  }

  /** The receiver's fields can be read back from the URL. */
  lemma ReceiverFieldsReadable(externalToken: Option<string>)
    requires Free(AuthorizeUrl.ExternalTokenText(externalToken), {'&'})
    ensures Free(ReceiverFields(externalToken).providerUri, {'?'})
    ensures AuthorizeUrl.AmpersandFree(ReceiverFields(externalToken))
  {
    var f := ReceiverFields(externalToken);
    assert Free("undefined", {'?'});
    assert Free("undefined", {'&'});
    forall kv | kv in AuthorizeUrl.Params(f)
      ensures Free(kv.1, {'&'})
    {
    }
  }

  /** The result of `checkResponse()`: the browser afterwards and the
      boolean it returns. */
  datatype Checked = Checked(browser: Browser, valid: bool)

  /** `checkResponse()` on the page's `location.hash`. Its guard
      `fragment === {}` compares two distinct objects and never holds, so
      the check is only `fragment.state === getCookie('state')`: a fragment
      without `state` passes when there is no `state` cookie. */
  function CheckResponse(b: Browser, hash: string, decode: string -> string): (r: Checked)
    ensures var f := Fragment.Parse(hash, decode);
      r.valid <==> Lookup(f, StateKey) == StateCookie(b)
    ensures var f := Fragment.Parse(hash, decode);
      r.valid ==> r.browser == CommitTokens(b, f)
    ensures !r.valid ==> r.browser == b
    ensures r.browser.cookies == b.cookies
  {
    var fragment := Fragment.Parse(hash, decode);
    if Lookup(fragment, StateKey) == StateCookie(b) then Checked(CommitTokens(b, fragment), true)
    else Checked(b, false)
  }

  /** Where both sides carry a `state`, the check is the popup client's:
      the tokens are stored exactly when the two agree. */
  lemma CheckAgreesWhenStatePresent(b: Browser, hash: string, decode: string -> string)
    requires StateKey in Fragment.Parse(hash, decode) && StateCookie(b).Some?
    ensures CheckResponse(b, hash, decode).valid <==> StateMatches(b, Fragment.Parse(hash, decode))
  {
    var f := Fragment.Parse(hash, decode);
    assert Lookup(f, StateKey) == Some(f[StateKey]);
  }

  /** The weakness of the check: with no `state` cookie, a page whose hash
      is `#access_token=T` is accepted and `T` is stored as the session's
      token, though no login was started. */
  lemma ForgedTokenAcceptedWithoutStateCookie(b: Browser, token: string)
    requires StateCookie(b) == None
    requires Free(token, {'&'}) && token != ""
    ensures var r := CheckResponse(b, "#" + Fragment.Join([(AccessTokenKey, token)]), Fragment.Verbatim);
      r.valid && IsAuth(r.browser) && AccessToken(r.browser) == Some(token)
  {
    var ps := [(AccessTokenKey, token)];
    assert Free(AccessTokenKey, Fragment.KeyStops);
    assert Fragment.WellFormed(ps[0]);
    Fragment.ParseJoin(ps, Fragment.Verbatim);
    Fragment.LastWins(ps, Fragment.Verbatim, 0);
    var f := Fragment.Parse("#" + Fragment.Join(ps), Fragment.Verbatim);
    assert f == map[AccessTokenKey := token] by {
      assert f.Keys == {AccessTokenKey};
    }
    assert Lookup(f, StateKey) == None;
  }

  /** The guard meant for an empty fragment never fires: a page with no
      fragment passes the check when there is no `state` cookie, and
      changes nothing. */
  lemma EmptyFragmentAccepted(b: Browser, decode: string -> string)
    requires StateCookie(b) == None
    ensures CheckResponse(b, "", decode) == Checked(b, true)
  {
    assert Fragment.Parse("", decode) == map[];
    assert CommitTokens(b, map[]).storage == b.storage;
  }

  /** Neither flow completes, popup or redirect: after a login that drew any
      `state` but "undefined", a provider that echoes the `state` it was
      sent (the text "undefined") is rejected and nothing is stored. */
  lemma ReturnedStateRejected(cfg: Config, b: Browser, externalToken: Option<string>, t: Option<string>,
                              nonce: string, state: string, hash: string, decode: string -> string)
    requires state != "undefined"
    requires var f := Fragment.Parse(hash, decode);
      StateKey in f && f[StateKey] == "undefined"
    ensures var started := Login(cfg, b, externalToken, t, nonce, state).browser;
      CheckResponse(started, hash, decode) == Checked(started, false)
  {
    var started := Login(cfg, b, externalToken, t, nonce, state).browser;
    assert StateCookie(started) == Some(state);
  }

  /** What `init` leaves behind: the configuration, the browser after
      `checkResponse()`, what that returned, and the profile request made,
      if any. */
  datatype Started = Started(config: Config, browser: Browser, accepted: bool, userInfoRequest: Option<string>)

  /** `init(options)` on a page: configure as the popup client does, check
      the fragment, and request the profile when the check passed and an
      access token is stored. */
  function Init(o: Options, loc: PageLocation, b: Browser, decode: string -> string): (r: Result<Started, InitError>)
    ensures r.Err? <==> !Truthy(o.clientId)
    ensures r.Ok? ==> Session.Init(o, loc) == Ok(r.value.config)
    ensures r.Ok? ==> r.value.accepted == CheckResponse(b, loc.hash, decode).valid
    ensures r.Ok? ==> r.value.browser == CheckResponse(b, loc.hash, decode).browser
    ensures r.Ok? ==> (r.value.userInfoRequest.Some? <==> r.value.accepted && Truthy(AccessToken(r.value.browser)))
    ensures r.Ok? && r.value.userInfoRequest.Some? ==>
      r.value.userInfoRequest.value == UserInfoUrl(r.value.config.providerUri, AccessToken(r.value.browser).value)
  {
    match Session.Init(o, loc)
    case Err(e) => Err(e)
    case Ok(cfg) =>
      var checked := CheckResponse(b, loc.hash, decode);
      var request :=
        if checked.valid && Truthy(AccessToken(checked.browser))
        then Some(UserInfoUrl(cfg.providerUri, AccessToken(checked.browser).value))
        else None;
      Ok(Started(cfg, checked.browser, checked.valid, request))
  }

  /** Initialising a page whose fragment carries no `state`, in a browser
      with no `state` cookie, stores the fragment's access token and
      requests the profile with it. */
  lemma InitAcceptsStatelessToken(o: Options, loc: PageLocation, b: Browser, decode: string -> string)
    requires Truthy(o.clientId)
    requires StateCookie(b) == None
    requires var f := Fragment.Parse(loc.hash, decode);
      StateKey !in f && Truthy(Lookup(f, AccessTokenKey))
    ensures Init(o, loc, b, decode).Ok?
    ensures var s := Init(o, loc, b, decode).value;
      s.accepted && AccessToken(s.browser) == Some(Fragment.Parse(loc.hash, decode)[AccessTokenKey])
      && s.userInfoRequest.Some?
  {
    var f := Fragment.Parse(loc.hash, decode);
    assert Lookup(f, StateKey) == None;
  }
}
