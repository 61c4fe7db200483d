/**
 * The authorization URL builder of the Authorization Code grant
 * (section 4.1.1 of RFC 6749), with the process configuration it reads
 * passed in explicitly.
 */
module SpotifyAuth {
  import opened Wrappers
  import opened FormUrlEncoded
  import Utf8
  import opened Strings

  /**
   * The three configuration variables SPOTIFY_CLIENT_ID, SPOTIFY_CLIENT_SECRET
   * and SPOTIFY_REDIRECT_URI; None where a variable is not set.
   */
  datatype Env = Env(clientId: Option<string>, clientSecret: Option<string>, redirectUri: Option<string>)

  /** A configuration value counts only when it is set and not empty (JavaScript truthiness). */
  predicate IsSet(v: Option<string>) {
    v.Some? && v.value != ""
  }

  /** The requested permissions, in the order they are declared. */
  const Scopes: seq<string> := [
    "playlist-modify-private",
    "playlist-modify-public",
    "user-read-private",
    "user-read-recently-played",
    "user-top-read"
  ]

  const AuthorizeEndpoint: string := "https://accounts.spotify.com/authorize"

  const ClientIdRequired: string := "SPOTIFY_CLIENT_ID environment variable is required"
  const RedirectUriRequired: string := "SPOTIFY_REDIRECT_URI environment variable is required"

  /** The scope parameter: the scopes joined by single spaces (section 3.3 of RFC 6749). */
  function ScopeParam(): string {
    Join(Scopes, ' ')
  }

  /**
   * The query list built by four `set` calls on an empty URLSearchParams:
   * since the names differ, each call appends, so the list holds exactly
   * these four pairs in this order.
   */
  function AuthParams(clientId: string, redirectUri: string): (r: seq<Pair>)
    ensures r == [Pair("client_id", clientId), Pair("response_type", "code"),
                  Pair("redirect_uri", redirectUri), Pair("scope", ScopeParam())]
  {
    var p1 := Set([], "client_id", clientId);
    assert p1 == [Pair("client_id", clientId)];
    assert Absent(p1, "response_type");
    var p2 := Set(p1, "response_type", "code");
    assert p2 == p1 + [Pair("response_type", "code")];
    assert Absent(p2, "redirect_uri");
    var p3 := Set(p2, "redirect_uri", redirectUri);
    assert p3 == p2 + [Pair("redirect_uri", redirectUri)];
    assert Absent(p3, "scope");
    Set(p3, "scope", ScopeParam())
  }

  /**
   * getSpotifyAuthUrl: fails on a missing client id first, then on a missing
   * redirect URI; otherwise the authorize endpoint, `?`, and the serialized
   * query.
   */
  function AuthUrl(env: Env): (r: Result<string, string>)
    ensures !IsSet(env.clientId) ==> r == Err(ClientIdRequired)
    ensures IsSet(env.clientId) && !IsSet(env.redirectUri) ==> r == Err(RedirectUriRequired)
    ensures r.Ok? <==> IsSet(env.clientId) && IsSet(env.redirectUri)
    ensures r.Ok? ==> |r.value| > |AuthorizeEndpoint| + 1 && r.value[..|AuthorizeEndpoint| + 1] == AuthorizeEndpoint + "?"
  {
    if !IsSet(env.clientId) then Err(ClientIdRequired)
    else if !IsSet(env.redirectUri) then Err(RedirectUriRequired)
    else
      var query := Serialize(AuthParams(env.clientId.value, env.redirectUri.value));
      assert |query| > 0 by {
        assert query == SerializePair(Pair("client_id", env.clientId.value)) + "&" + Serialize(AuthParams(env.clientId.value, env.redirectUri.value)[1..]);
      }
      Ok(AuthorizeEndpoint + "?" + query)
  }

  /** The query part of a URL the builder returned. */
  function QueryOf(url: string): string
    requires |url| > |AuthorizeEndpoint| + 1
  {
    url[|AuthorizeEndpoint| + 1..]
  }

  /**
   * Parsing the query of a built URL gives exactly the four pairs, in order:
   * the configured client id and redirect URI unchanged, `response_type`
   * the literal `code`, and the scope parameter.
   */
  lemma AuthUrlQuery(env: Env)
    requires AuthUrl(env).Ok?
    ensures Parse(QueryOf(AuthUrl(env).value)) == Some([
      Pair("client_id", env.clientId.value), Pair("response_type", "code"),
      Pair("redirect_uri", env.redirectUri.value), Pair("scope", ScopeParam())])
  {
    var list := AuthParams(env.clientId.value, env.redirectUri.value);
    ParseSerialize(list);
    assert QueryOf(AuthUrl(env).value) == Serialize(list);
  }

  /** Each parameter read back with `get` is the value it was set to. */
  lemma GetAuthParams(clientId: string, redirectUri: string)
    ensures var q := AuthParams(clientId, redirectUri);
      Get(q, "client_id") == Some(clientId) && Get(q, "response_type") == Some("code")
      && Get(q, "redirect_uri") == Some(redirectUri) && Get(q, "scope") == Some(ScopeParam())
  {
    var q := [Pair("client_id", clientId), Pair("response_type", "code"),
              Pair("redirect_uri", redirectUri), Pair("scope", ScopeParam())];
    assert q[0].name != "response_type" && q[0].name != "redirect_uri" && q[0].name != "scope";
    assert q[1].name != "client_id" && q[1].name != "redirect_uri" && q[1].name != "scope";
    assert q[2].name != "client_id" && q[2].name != "response_type" && q[2].name != "scope";
    assert q[3].name != "client_id" && q[3].name != "response_type" && q[3].name != "redirect_uri";
    GetOnly(q, 0, "client_id");
    GetOnly(q, 1, "response_type");
    GetOnly(q, 2, "redirect_uri");
    GetOnly(q, 3, "scope");
  }

  /** The scope parameter splits on spaces into the five scopes, in declared order. */
  lemma ScopeWords()
    ensures Split(ScopeParam(), ' ') == Scopes
  {
    SplitJoin(Scopes, ' ');
  }

  /** Joining words by spaces and encoding writes `+` between the unchanged words. */
  lemma {:induction false} EncodeJoin(words: seq<string>)
    requires forall i, j :: 0 <= i < |words| && 0 <= j < |words[i]| ==> IsSafeByte(words[i][j] as int)
    ensures Encode(Join(words, ' ')) == Join(words, '+')
  {
    if |words| == 0 {
      assert Utf8.Encode("") == [];
    } else {
      EncodePlain(words[0]);
      assert Encode(words[0]) == words[0];
      if |words| > 1 {
        EncodeSpace(words[0], Join(words[1..], ' '));
        EncodeJoin(words[1..]);
      }
    }
  }

  /** In the serialized query the scopes stand unchanged, each space written as `+`. */
  lemma ScopeEncoding()
    ensures Encode(ScopeParam()) == Join(Scopes, '+')
  {
    EncodeJoin(Scopes);
  }
}
