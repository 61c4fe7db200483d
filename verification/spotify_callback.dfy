/**
 * The callback of the Authorization Code grant: it checks the `code` query
 * parameter and the configuration, builds the access token request of
 * section 4.1.3 of RFC 6749, and maps the token endpoint's answer to the
 * response. The request goes out over the network; here the answer comes in
 * as a parameter, `Upstream`.
 */
module SpotifyCallback {
  import opened Wrappers
  import opened FormUrlEncoded
  import opened Json
  import opened SpotifyAuth
  import Base64
  import BasicAuth

  const TokenEndpoint: string := "https://accounts.spotify.com/api/token"
  const FormContentType: string := "application/x-www-form-urlencoded"
  const MissingCode: string := "Missing authorization code"
  const ConfigurationError: string := "Server configuration error"

  /** The fields copied from a successful token response, in this order. */
  const TokenFields: seq<string> := ["access_token", "refresh_token", "expires_in"]

  /** The POST to the token endpoint, with its two headers and its form body. */
  datatype TokenRequest = TokenRequest(
    httpMethod: string,
    url: string,
    authorization: string,
    contentType: string,
    body: string)

  /**
   * What the network gives back for the token request: a failed fetch, or a
   * status with a body that parsed as JSON (Some) or did not (None). A parsed
   * body holds one member per name, as `response.json()` delivers it.
   */
  datatype Upstream = FetchFailed | Received(status: int, body: Option<Parsed>)

  /** The exceptions the handler does not catch: each reaches the framework as a server error. */
  datatype Fault =
    | InvalidCharacter   // btoa on a credential character above U+00FF
    | NetworkError       // fetch rejected
    | BodyNotJson        // response.json() rejected
    | NullTokenPayload   // property read on a null JSON payload

  /** A `Response.json` response: status and JSON body. */
  datatype Response = Response(status: int, body: Json)

  datatype Outcome = Respond(response: Response) | Throw(fault: Fault)

  /** Before the network call: either the handler is already done, or it sends a request. */
  datatype Stage = Done(outcome: Outcome) | Send(request: TokenRequest)

  /** One invocation: the token request it sent, if any, and how it ended. */
  datatype Exchange = Exchange(sent: Option<TokenRequest>, outcome: Outcome)

  function ErrorBody(message: string): Json {
    Object([("error", String(message))])
  }

  /** `response.ok`: a status in the range 200 to 299. */
  predicate IsOk(status: int) {
    200 <= status <= 299
  }

  predicate IsConfigured(env: Env) {
    IsSet(env.clientId) && IsSet(env.clientSecret) && IsSet(env.redirectUri)
  }

  /** The body of the token request, in the order the record literal lists it. */
  function TokenForm(code: string, redirectUri: string): seq<Pair> {
    [Pair("grant_type", "authorization_code"), Pair("code", code), Pair("redirect_uri", redirectUri)]
  }

  /**
   * Everything up to the network call: the code is checked before the
   * configuration, and no request is built unless both are present.
   */
  function Prepare(query: seq<Pair>, env: Env): (s: Stage)
    ensures !IsSet(Get(query, "code")) ==> s == Done(Respond(Response(400, ErrorBody(MissingCode))))
    ensures IsSet(Get(query, "code")) && !IsConfigured(env) ==>
              s == Done(Respond(Response(500, ErrorBody(ConfigurationError))))
    ensures s.Send? <==> IsSet(Get(query, "code")) && IsConfigured(env)
                         && BasicAuth.IsLatin1(env.clientId.value + ":" + env.clientSecret.value)
    ensures s.Done? && IsSet(Get(query, "code")) && IsConfigured(env) ==> s.outcome == Throw(InvalidCharacter)
    ensures s.Send? ==>
              var id, secret := env.clientId.value, env.clientSecret.value;
              s.request.httpMethod == "POST" && s.request.url == TokenEndpoint
              && s.request.authorization == "Basic " + Base64.Encode(BasicAuth.Latin1Bytes(id + ":" + secret))
              && s.request.contentType == FormContentType
              && Parse(s.request.body) == Some(TokenForm(Get(query, "code").value, env.redirectUri.value))
  {
    var code := Get(query, "code");
    if !IsSet(code) then
      Done(Respond(Response(400, ErrorBody(MissingCode))))
    else if !IsConfigured(env) then
      Done(Respond(Response(500, ErrorBody(ConfigurationError))))
    else
      match BasicAuth.Header(env.clientId.value, env.clientSecret.value)
      case None => Done(Throw(InvalidCharacter))
      case Some(authorization) =>
        var form := TokenForm(code.value, env.redirectUri.value);
        ParseSerialize(form);
        Send(TokenRequest("POST", TokenEndpoint, authorization, FormContentType, Serialize(form)))
  }

  /** `ks` is `keys` with some entries left out, the rest kept in their order. */
  predicate InOrder(ks: seq<string>, keys: seq<string>)
    decreases |keys|
  {
    |ks| == 0 || (|keys| > 0 && if ks[0] == keys[0] then InOrder(ks[1..], keys[1..]) else InOrder(ks, keys[1..]))
  }

  /**
   * The listed members of `data` that are defined, in the order of `keys`:
   * what an object literal of those keys holds once `Response.json` has
   * left out the undefined ones.
   */
  function Project(data: Json, keys: seq<string>): (m: seq<(string, Json)>)
    requires !data.Null?
    ensures |m| <= |keys|
    ensures forall i :: 0 <= i < |m| ==> m[i].0 in keys && Property(data, m[i].0) == Some(m[i].1)
    ensures forall k :: k in keys && Property(data, k).Some? ==> (k, Property(data, k).value) in m
    ensures InOrder(Names(m), keys)
    ensures Distinct(keys) ==> Distinct(Names(m))
  {
    if |keys| == 0 then []
    else
      var rest := Project(data, keys[1..]);
      match Property(data, keys[0])
      case Some(v) => [(keys[0], v)] + rest
      case None => rest
  }

  /**
   * After the network call: a failed token request is relayed as 400 with
   * the upstream body as it came; a successful one is answered with 200 and
   * only the three token fields, each as upstream sent it.
   */
  function Conclude(upstream: Upstream): (o: Outcome)
    ensures upstream.FetchFailed? ==> o == Throw(NetworkError)
    ensures upstream.Received? && upstream.body.None? ==> o == Throw(BodyNotJson)
    ensures upstream.Received? && upstream.body.Some? && !IsOk(upstream.status) ==>
              o == Respond(Response(400, upstream.body.value))
    ensures upstream.Received? && upstream.body == Some(Null) && IsOk(upstream.status) ==>
              o == Throw(NullTokenPayload)
    ensures upstream.Received? && upstream.body.Some? && IsOk(upstream.status) && !upstream.body.value.Null? ==>
              o == Respond(Response(200, Object(Project(upstream.body.value, TokenFields))))
    ensures o.Respond? && o.response.status != 400 ==>
              var data := upstream.body.value;
              upstream.Received? && IsOk(upstream.status) && !data.Null?
              && o.response.status == 200 && o.response.body.Object?
              && (forall i :: 0 <= i < |o.response.body.members| ==>
                    o.response.body.members[i].0 in TokenFields
                    && Property(data, o.response.body.members[i].0) == Some(o.response.body.members[i].1))
              && (forall k :: k in TokenFields && Property(data, k).Some? ==>
                    (k, Property(data, k).value) in o.response.body.members)
  {
    match upstream
    case FetchFailed => Throw(NetworkError)
    case Received(status, body) =>
      match body
      case None => Throw(BodyNotJson)
      case Some(data) =>
        if !IsOk(status) then Respond(Response(400, data))
        else if data.Null? then Throw(NullTokenPayload)
        else Respond(Response(200, Object(Project(data, TokenFields))))
  }

  /**
   * The GET handler. A missing code gives 400 whatever the configuration; a
   * missing configuration value gives 500; in neither case is anything sent.
   * Otherwise exactly one POST goes to the token endpoint (when `btoa`
   * accepts the credentials) and its answer decides the outcome.
   */
  function Callback(query: seq<Pair>, env: Env, upstream: Upstream): (x: Exchange)
    ensures !IsSet(Get(query, "code")) ==>
              x == Exchange(None, Respond(Response(400, ErrorBody(MissingCode))))
    ensures IsSet(Get(query, "code")) && !IsConfigured(env) ==>
              x == Exchange(None, Respond(Response(500, ErrorBody(ConfigurationError))))
    ensures x.sent.Some? <==> IsSet(Get(query, "code")) && IsConfigured(env)
                              && BasicAuth.IsLatin1(env.clientId.value + ":" + env.clientSecret.value)
    ensures x.sent.Some? ==>
              x.sent.value.httpMethod == "POST" && x.sent.value.url == TokenEndpoint && x.outcome == Conclude(upstream)
    ensures x.sent.Some? ==> Prepare(query, env) == Send(x.sent.value)
    ensures x.sent.None? && IsSet(Get(query, "code")) && IsConfigured(env) ==> x.outcome == Throw(InvalidCharacter)
  {
    match Prepare(query, env)
    case Done(outcome) => Exchange(None, outcome)
    case Send(request) => Exchange(Some(request), Conclude(upstream))
  }

  /**
   * The Authorization header carries the client id and secret: a server
   * decoding it recovers both (client ids contain no colon, section 2 of
   * RFC 7617).
   */
  lemma CallbackCredentials(query: seq<Pair>, env: Env, upstream: Upstream)
    requires Callback(query, env, upstream).sent.Some?
    requires ':' !in env.clientId.value
    ensures BasicAuth.ParseHeader(Callback(query, env, upstream).sent.value.authorization)
            == Some((env.clientId.value, env.clientSecret.value))
  {
    BasicAuth.ParseHeaderOf(env.clientId.value, env.clientSecret.value);
  }

  /** A defined first key leads the projection. */
  lemma ProjectDefined(data: Json, keys: seq<string>, v: Json)
    requires !data.Null? && |keys| > 0 && Property(data, keys[0]) == Some(v)
    ensures Project(data, keys) == [(keys[0], v)] + Project(data, keys[1..])
  {
  }

  /** With all three token fields defined, the projection holds each of them once, in order. */
  lemma ProjectTokens(data: Json)
    requires data.Object?
    requires Property(data, "access_token").Some? && Property(data, "refresh_token").Some?
             && Property(data, "expires_in").Some?
    ensures Project(data, TokenFields) == [
              ("access_token", Property(data, "access_token").value),
              ("refresh_token", Property(data, "refresh_token").value),
              ("expires_in", Property(data, "expires_in").value)]
  {
    assert TokenFields[1..] == ["refresh_token", "expires_in"];
    assert TokenFields[1..][1..] == ["expires_in"];
    assert TokenFields[1..][1..][1..] == [];
    ProjectDefined(data, TokenFields[1..][1..], Property(data, "expires_in").value);
    ProjectDefined(data, TokenFields[1..], Property(data, "refresh_token").value);
    ProjectDefined(data, TokenFields, Property(data, "access_token").value);
  }

  /** When upstream answers 200 with all three token fields, the body is exactly those three, in order. */
  lemma TokenBody(data: Parsed)
    requires data.Object?
    requires forall k :: k in TokenFields ==> Property(data, k).Some?
    ensures Conclude(Received(200, Some(data))) == Respond(Response(200, Object([
              ("access_token", Property(data, "access_token").value),
              ("refresh_token", Property(data, "refresh_token").value),
              ("expires_in", Property(data, "expires_in").value)])))
  {
    assert "access_token" in TokenFields && "refresh_token" in TokenFields && "expires_in" in TokenFields;
    ProjectTokens(data);
  }
}
