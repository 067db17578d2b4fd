/** The authorization-endpoint URL of section 4.2.1 of RFC 6749 as the
    client writes it: plain concatenation of the field values, in a fixed
    order, with no percent-encoding. */
module AuthorizeUrl {
  import opened Js
  import opened Text
  import Fragment

  /** The eight strings the URL is assembled from, already in string form. */
  datatype Fields = Fields(
    providerUri: string,
    responseType: string,
    externalToken: string,
    scope: string,
    clientId: string,
    nonce: string,
    state: string,
    redirectUri: string)

  /** `external_token || null`, as it ends up in the URL. */
  function ExternalTokenText(t: Option<string>): (r: string)
    ensures Truthy(t) ==> r == t.value
    ensures !Truthy(t) ==> r == "null"
  {
    ToStr(if Truthy(t) then Str(t.value) else Null)
  }

  /** The URL, concatenated exactly as the source does it. */
  function Build(f: Fields): string
  {
    f.providerUri
    + "/user/authorize"
    + "?response_type=" + f.responseType
    + "&external_token=" + f.externalToken
    + "&scope=" + f.scope
    + "&client_id=" + f.clientId
    + "&nonce=" + f.nonce
    + "&state=" + f.state
    + "&redirect_uri=" + f.redirectUri
  }

  /** The query parameters, in the order the URL lists them. */
  function Params(f: Fields): seq<(string, string)>
  {
    [ ("response_type", f.responseType),
      ("external_token", f.externalToken),
      ("scope", f.scope),
      ("client_id", f.clientId),
      ("nonce", f.nonce),
      ("state", f.state),
      ("redirect_uri", f.redirectUri) ]
  }

  /** The query string of a URL: everything after its first '?'. */
  function QueryOf(url: string): string
  {
    var i := RunEnd(url, 0, {'?'});
    if i < |url| then url[i + 1..] else ""
  }

  /** No parameter value contains '&'. */
  predicate AmpersandFree(f: Fields)
  {
    forall kv :: kv in Params(f) ==> Free(kv.1, {'&'})
  }

  /** The URL is the endpoint, '?', then the parameters joined as
      `k=v&k=v...`. */
  lemma BuildIsEndpointAndQuery(f: Fields)
    ensures Build(f) == f.providerUri + "/user/authorize?" + Fragment.Join(Params(f))
  {
    var a := f.providerUri + "/user/authorize";
    var b1 := a + "?response_type=" + f.responseType;
    var b2 := b1 + "&external_token=" + f.externalToken;
    var b3 := b2 + "&scope=" + f.scope;
    var b4 := b3 + "&client_id=" + f.clientId;
    var b5 := b4 + "&nonce=" + f.nonce;
    var b6 := b5 + "&state=" + f.state;
    var b7 := b6 + "&redirect_uri=" + f.redirectUri;
    ParamLiterals();
    FirstParam(f, a, b1);
    AppendParamAt(f, 1, a, b1, "&external_token=");
    AppendParamAt(f, 2, a, b2, "&scope=");
    AppendParamAt(f, 3, a, b3, "&client_id=");
    AppendParamAt(f, 4, a, b4, "&nonce=");
    AppendParamAt(f, 5, a, b5, "&state=");
    AppendParamAt(f, 6, a, b6, "&redirect_uri=");
    assert Params(f)[..7] == Params(f);
    assert Build(f) == b7;
    Assoc(f.providerUri, "/user/authorize", "?");
  }

  /** Each literal of the URL is '&', a parameter name and '='.
      A separate proof step: it keeps the proofs that use it cheap. */
  lemma ParamLiterals()
    ensures "&external_token=" == "&" + "external_token" + "="
    ensures "&scope=" == "&" + "scope" + "="
    ensures "&client_id=" == "&" + "client_id" + "="
    ensures "&nonce=" == "&" + "nonce" + "="
    ensures "&state=" == "&" + "state" + "="
    ensures "&redirect_uri=" == "&" + "redirect_uri" + "="
  {
  }

  /** The URL up to the first value is the endpoint, '?' and the first
      parameter. */
  lemma FirstParam(f: Fields, a: string, b1: string)
    requires b1 == a + "?response_type=" + f.responseType
    ensures b1 == a + "?" + Fragment.Join(Params(f)[..1])
  {
    assert Params(f)[..1] == [("response_type", f.responseType)];
    assert "?response_type=" == "?" + "response_type" + "=";
  }

  /** The parameter at `i` appended to the URL built from those before it. */
  lemma AppendParamAt(f: Fields, i: nat, a: string, prefix: string, lit: string)
    requires 1 <= i < 7
    requires prefix == a + "?" + Fragment.Join(Params(f)[..i])
    requires lit == "&" + Params(f)[i].0 + "="
    ensures prefix + lit + Params(f)[i].1 == a + "?" + Fragment.Join(Params(f)[..i + 1])
  {
    var ps := Params(f);
    assert ps[..i + 1] == ps[..i] + [(ps[i].0, ps[i].1)];
    AppendParam(a, ps[..i], ps[i].0, ps[i].1, lit, prefix);
  }

  /** One more `&k=v` on the URL is one more pair in its parameter list. */
  lemma AppendParam(a: string, ps: seq<(string, string)>, k: string, v: string, lit: string, prefix: string)
    requires |ps| >= 1
    requires prefix == a + "?" + Fragment.Join(ps)
    requires lit == "&" + k + "="
    ensures prefix + lit + v == a + "?" + Fragment.Join(ps + [(k, v)])
  {
    var q, j := a + "?", Fragment.Join(ps);
    JoinAppend(ps, (k, v));
    Assoc(q, j, lit);
    Assoc(q, j + lit, v);
    Assoc(j, "&", k);
    Assoc(j, "&" + k, "=");
  }

  /** Concatenation is associative.
      A separate proof step: it keeps the proofs that use it cheap. */
  lemma Assoc(x: string, y: string, z: string)
    ensures x + y + z == x + (y + z)
  {
  }

  /** With no '?' in the provider URI, the query of the URL is the joined
      parameter list. */
  lemma QueryOfBuild(f: Fields)
    requires Free(f.providerUri, {'?'})
    ensures QueryOf(Build(f)) == Fragment.Join(Params(f))
  {
    var url := Build(f);
    var head := f.providerUri + "/user/authorize";
    BuildIsEndpointAndQuery(f);
    assert url == head + "?" + Fragment.Join(Params(f));
    forall k | 0 <= k < |head|
      ensures url[k] !in {'?'}
    {
      assert url[k] == head[k];
      if k < |f.providerUri| {
        assert head[k] == f.providerUri[k];
      }
    }
    RunEndUnique(url, 0, {'?'}, |head|);
    assert url[|head| + 1..] == Fragment.Join(Params(f));
  }

  /** Every parameter is a pair the fragment reader can produce. */
  lemma ParamsWellFormed(f: Fields)
    requires AmpersandFree(f)
    ensures forall i :: 0 <= i < |Params(f)| ==> Fragment.WellFormed(Params(f)[i])
  {
    var ps := Params(f);
    forall i | 0 <= i < |ps|
      ensures Free(ps[i].1, {'&'})
    {
      assert ps[i] in ps;
    }
    ParamNamesFree();
  }

  /** The parameter names are keys the fragment reader can produce.
      A separate proof step: it keeps the proofs that use it cheap. */
  lemma ParamNamesFree()
    ensures Free("response_type", Fragment.KeyStops)
    ensures Free("external_token", Fragment.KeyStops)
    ensures Free("scope", Fragment.KeyStops)
    ensures Free("client_id", Fragment.KeyStops)
    ensures Free("nonce", Fragment.KeyStops)
    ensures Free("state", Fragment.KeyStops)
    ensures Free("redirect_uri", Fragment.KeyStops)
  {
  }

  /** Reading the query back: when the provider URI has no '?' and no value
      contains '&', scanning the query of the URL with the same `k=v`
      reader the client uses for fragments gives back every parameter, in
      order, with its raw value. */
  lemma QueryReadsBack(f: Fields)
    requires Free(f.providerUri, {'?'})
    requires AmpersandFree(f)
    ensures Fragment.Scan(QueryOf(Build(f))) == Params(f)
  {
    QueryOfBuild(f);
    ParamsWellFormed(f);
    Fragment.ScanJoin(Params(f));
  }

  /** The query read back, parameter by parameter. */
  lemma QueryFields(f: Fields)
    requires Free(f.providerUri, {'?'})
    requires AmpersandFree(f)
    ensures var q := Fragment.Scan(QueryOf(Build(f)));
      |q| == 7
      && q[0] == ("response_type", f.responseType)
      && q[1] == ("external_token", f.externalToken)
      && q[2] == ("scope", f.scope)
      && q[3] == ("client_id", f.clientId)
      && q[4] == ("nonce", f.nonce)
      && q[5] == ("state", f.state)
      && q[6] == ("redirect_uri", f.redirectUri)
  {
    QueryReadsBack(f);
    ParamsInOrder(f, Fragment.Scan(QueryOf(Build(f))));
  }

  /** The parameter list, entry by entry.
      A separate proof step: it keeps the proofs that use it cheap. */
  lemma ParamsInOrder(f: Fields, q: seq<(string, string)>)
    requires q == Params(f)
    ensures |q| == 7
      && q[0] == ("response_type", f.responseType)
      && q[1] == ("external_token", f.externalToken)
      && q[2] == ("scope", f.scope)
      && q[3] == ("client_id", f.clientId)
      && q[4] == ("nonce", f.nonce)
      && q[5] == ("state", f.state)
      && q[6] == ("redirect_uri", f.redirectUri)
  {
  }

  /** A redirect URI of the form `uri&state=X` reads, in the query, as an
      honest `redirect_uri=uri` followed by an extra `state=X` pair. */
  lemma InjectedQuery(f: Fields, uri: string, forged: string)
    requires Free(f.providerUri, {'?'})
    ensures QueryOf(Build(f.(redirectUri := uri + "&state=" + forged)))
         == Fragment.Join(Params(f.(redirectUri := uri)) + [("state", forged)])
  {
    var g := f.(redirectUri := uri + "&state=" + forged);
    var honest := f.(redirectUri := uri);
    QueryOfBuild(g);
    var p6 := Params(f)[..6];
    assert Params(g) == p6 + [("redirect_uri", uri + "&state=" + forged)];
    assert Params(honest) == p6 + [("redirect_uri", uri)];
    ParamLiterals();
    InjectedJoin(p6, "redirect_uri", uri, "state", "&state=", forged);
  }

  /** A last value `uri&k2=forged` joins to the same text as the value
      `uri` followed by the pair (k2, forged). */
  lemma InjectedJoin(ps: seq<(string, string)>, k: string, uri: string, k2: string, lit: string, forged: string)
    requires |ps| >= 1
    requires lit == "&" + k2 + "="
    ensures Fragment.Join(ps + [(k, uri + lit + forged)]) == Fragment.Join(ps + [(k, uri)] + [(k2, forged)])
  {
    var x := Fragment.Join(ps) + "&" + k + "=";
    JoinAppend(ps, (k, uri + lit + forged));
    JoinAppend(ps, (k, uri));
    JoinAppend(ps + [(k, uri)], (k2, forged));
    Assoc(x, uri + lit, forged);
    Assoc(x, uri, lit);
    Assoc(x + uri, "&" + k2, "=");
    Assoc(x + uri, "&", k2);
  }

  /** The weakness of building without encoding: a redirect URI that
      carries `&state=X` makes a reader of the query see `state` = X,
      because its pair comes after the real `state` and overwrites it. */
  lemma RedirectUriCanOverrideState(f: Fields, uri: string, forged: string)
    requires Free(f.providerUri, {'?'})
    requires AmpersandFree(f.(redirectUri := uri))
    requires Free(forged, {'&'})
    ensures var q := Fragment.Parse("#" + QueryOf(Build(f.(redirectUri := uri + "&state=" + forged))), Fragment.Verbatim);
      "state" in q && q["state"] == forged
  {
    var honest := f.(redirectUri := uri);
    var ps := Params(honest) + [("state", forged)];
    InjectedQuery(f, uri, forged);
    ParamsWellFormed(honest);
    ParamNamesFree();
    AppendWellFormed(Params(honest), ("state", forged));
    Fragment.ParseJoin(ps, Fragment.Verbatim);
    Fragment.LastWins(ps, Fragment.Verbatim, |ps| - 1);
  }

  /** Appending a well-formed pair keeps a list well formed. */
  lemma AppendWellFormed(ps: seq<(string, string)>, kv: (string, string))
    requires forall i :: 0 <= i < |ps| ==> Fragment.WellFormed(ps[i])
    requires Fragment.WellFormed(kv)
    ensures forall i :: 0 <= i < |ps + [kv]| ==> Fragment.WellFormed((ps + [kv])[i])
  {
    forall i | 0 <= i < |ps + [kv]|
      ensures Fragment.WellFormed((ps + [kv])[i])
    {
      if i < |ps| {
        assert (ps + [kv])[i] == ps[i];
      }
    }
  }

  /** Appending a pair to a non-empty list appends `&k=v` to its join. */
  lemma {:induction false} JoinAppend(ps: seq<(string, string)>, kv: (string, string))
    requires |ps| >= 1
    ensures Fragment.Join(ps + [kv]) == Fragment.Join(ps) + "&" + kv.0 + "=" + kv.1
    decreases |ps|
  {
    if |ps| > 1 {
      assert (ps + [kv])[1..] == ps[1..] + [kv];
      JoinAppend(ps[1..], kv);
    }
  }
}
