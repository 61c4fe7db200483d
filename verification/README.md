# Moodify OAuth flow, modelled in Dafny

Moodify signs a user in with Spotify through the OAuth 2.0 Authorization Code
grant (RFC 6749). This project models the two halves of that flow and proves
properties about them:

- **The authorization URL builder** (`getSpotifyAuthUrl`). It validates the
  client id and the redirect URI, in that order. It then builds the
  authorization request of section 4.1.1 of RFC 6749: `client_id`,
  `response_type=code`, `redirect_uri` and `scope`. The scope is the five
  fixed scopes joined by single spaces (section 3.3 of RFC 6749), and
  `URLSearchParams` serializes the query.
- **The callback handler** (`GET` of `/api/auth/spotify/callback`). It checks
  the `code` query parameter first and the configuration second. It then
  builds the access token request of section 4.1.3 of RFC 6749 with HTTP
  Basic client authentication (section 2.3.1 of RFC 6749, section 2 of
  RFC 7617). Last, it maps the token endpoint's answer to the response.

Both are pure functions once their inputs are explicit:

- The process environment becomes an `Env` record of `Option<string>`
  values. A value counts only when it is set and not empty, which is
  JavaScript truthiness.
- The token endpoint's answer becomes an `Upstream` parameter: a failed
  fetch, or a status together with a body that either parsed as JSON or did
  not.
- Exceptions the handler does not catch become `Throw` outcomes: `btoa` on a
  non-Latin-1 credential, a failed fetch, a body that is not JSON, and a
  property read on a `null` payload.

The same `Env` always gives the same URL because `AuthUrl` is a function of
its argument and nothing else.

Modules, one per file:

| file | module | what it holds |
|---|---|---|
| wrappers.dfy | Wrappers | `Option`, `Result` |
| bytes.dfy | Bytes | The octet type shared by the byte-level encodings |
| strings.dfy | Strings | Splitting at a separator, `join`, and their round trip |
| utf8.dfy | Utf8 | UTF-8 encoding and decoding (RFC 3629) |
| form_urlencoded.dfy | FormUrlEncoded | The `URLSearchParams` list (`get`, `set`) and the application/x-www-form-urlencoded serializer and parser (section 5 of the WHATWG URL Standard) |
| base64.dfy | Base64 | Base 64 with padding (section 4 of RFC 4648) |
| basic_auth.dfy | BasicAuth | `btoa` and the `Basic` Authorization header |
| json.dfy | Json | JSON values and the JavaScript property read `data.key` |
| spotify_auth.dfy | SpotifyAuth | `lib/spotifyAuth.ts`: scopes, configuration, URL builder |
| spotify_callback.dfy | SpotifyCallback | `app/api/auth/spotify/callback/route.ts`: the callback handler |

Each encoder has a decoder as its partner, and the round trip is proved:

- `Parse(Serialize(list)) == Some(list)` for every list of name-value pairs.
- `Utf8.Decode(Utf8.Encode(s)) == Some(s)`.
- `Base64` decode and encode undo each other, in both directions.

Because of these round trips, the claims "the query carries the configured
values unchanged" and "the header carries the credentials" are stated about
what a receiver reads back, not about how the text is built.

## Model

| member | source | states |
|---|---|---|
| SpotifyAuth.AuthUrl | lib/spotifyAuth.ts:21-43 | If the client id is unset or empty, the result is the client-id error, whatever the redirect URI is. If only the redirect URI is missing, the result is the redirect-URI error. The builder succeeds exactly when both are set. A successful URL starts with `https://accounts.spotify.com/authorize?`. |
| SpotifyAuth.AuthParams | lib/spotifyAuth.ts:36-40 | Four `set` calls on an empty list leave exactly four pairs, in order: `client_id`, `response_type=code`, `redirect_uri`, `scope`. |
| SpotifyAuth.AuthUrlQuery | lib/spotifyAuth.ts:34-42 | Parsing the query of any built URL gives exactly those four pairs. The client id and the redirect URI come back unchanged, and `response_type` is `code`. |
| SpotifyAuth.GetAuthParams | lib/spotifyAuth.ts:37-40 | `get` on each of the four names returns the value it was set to. |
| Strings.SplitJoin | lib/spotifyAuth.ts:33 | Joining a non-empty list of words that do not contain the separator, then splitting the result, gives the words back. |
| SpotifyAuth.ScopeWords | lib/spotifyAuth.ts:7-33 | The scope parameter splits on single spaces into the five scopes, in declared order. |
| SpotifyAuth.EncodeJoin | lib/spotifyAuth.ts:33-42 | For words made only of alphanumerics and `*-._`, form-encoding their join by spaces leaves each word unchanged and writes `+` between them. |
| SpotifyAuth.ScopeEncoding | lib/spotifyAuth.ts:33-42 | The form encoding of the scope value, which is the text `toString` writes after `scope=`, is the five scopes joined by `+`. |
| FormUrlEncoded.Set | lib/spotifyAuth.ts:36-40 | `URLSearchParams.set`: afterwards exactly one pair has the name, and `get` returns the new value. Pairs with other names keep their values and order. If the name was absent, the pair is appended. |
| FormUrlEncoded.Get | app/api/auth/spotify/callback/route.ts:2-3 | `searchParams.get`: returns None exactly when no pair has the name. Otherwise returns the value of the first pair with that name. |
| FormUrlEncoded.GetOnly | lib/spotifyAuth.ts:37-40 | When exactly one pair has the name, `get` returns that pair's value. |
| FormUrlEncoded.Encode | lib/spotifyAuth.ts:42 | A form-encoded name or value contains only alphanumerics, `*-._`, `+` and `%`, so never `&` or `=`. |
| FormUrlEncoded.EncodeSpace | lib/spotifyAuth.ts:42 | A space is serialized as `+` between the encodings of the text around it. |
| FormUrlEncoded.EncodePlain | lib/spotifyAuth.ts:42 | Text made only of safe characters and spaces is serialized unchanged, except that each space becomes `+`. |
| FormUrlEncoded.DecodeEncode | lib/spotifyAuth.ts:37-42 | Decoding a form-encoded name or value gives it back, for every string. |
| FormUrlEncoded.ParseSerialize | lib/spotifyAuth.ts:42 | Parsing a serialized list gives the same pairs in the same order. |
| Utf8.DecodeEncode | lib/spotifyAuth.ts:42 | UTF-8 decoding undoes UTF-8 encoding, for every string. |
| Utf8.DecodeFirstEncodeChar | lib/spotifyAuth.ts:42 | The bytes of one character decode back to that character and its length, whatever bytes follow. |
| Base64.DecodeEncode | app/api/auth/spotify/callback/route.ts:24 | Decoding the base 64 encoding of any bytes gives the bytes back. |
| Base64.EncodeDecode | app/api/auth/spotify/callback/route.ts:24 | Any text that decodes is exactly the encoding of what it decodes to, so the encoding is canonical. |
| BasicAuth.Btoa | app/api/auth/spotify/callback/route.ts:24 | `btoa` succeeds exactly on Latin-1 input, and its output decodes to the input's code units. |
| BasicAuth.Header | app/api/auth/spotify/callback/route.ts:24 | The `Basic` header exists exactly when `id:secret` is Latin-1. |
| BasicAuth.ParseHeaderOf | app/api/auth/spotify/callback/route.ts:24 | A server reading the header gets the client id and the secret back, provided the id has no colon. |
| Json.Property | app/api/auth/spotify/callback/route.ts:47-51 | `data.key` on an object gives the value of a member with that key, and no later member has the key. It is undefined when no member has the key, and on any other non-null value. |
| Json.PropertyOfMember | app/api/auth/spotify/callback/route.ts:41-51 | On a value as `response.json()` delivers it, where no object repeats a member name, `data.key` gives each member's own value. |
| SpotifyCallback.Prepare | app/api/auth/spotify/callback/route.ts:1-39 | A missing or empty code gives 400 "Missing authorization code". With the code present, any missing configuration value gives 500 "Server configuration error". The request is built exactly when the code and the configuration are present and `btoa` accepts the credentials; otherwise `btoa` throws. The request is a POST to the token endpoint with `Basic` + base64(`id:secret`) and the form content type, and its body parses to `grant_type=authorization_code`, `code`, `redirect_uri`, in that order. |
| SpotifyCallback.Project | app/api/auth/spotify/callback/route.ts:47-51 | Every copied member is one of the listed keys, with the upstream value. Every listed key that upstream defines is copied. The copied names keep the order of the listed keys, and no name appears twice when the listed keys are distinct. |
| SpotifyCallback.Conclude | app/api/auth/spotify/callback/route.ts:32-51 | Failed fetch and non-JSON body throw. A status outside 200-299 gives 400 with the upstream body unchanged. A `null` payload on success throws. Any other answer with a status in 200-299 gives 200 with the projection of the token fields: only token fields, each as upstream sent it, in the order `access_token`, `refresh_token`, `expires_in`, each at most once. |
| SpotifyCallback.Callback | app/api/auth/spotify/callback/route.ts:1-52 | Missing code gives 400 whatever the configuration and the upstream, with no request sent. Missing configuration gives 500, with no request sent. A request is sent exactly when the code and the configuration are present and the credentials are Latin-1. That request is one POST to `https://accounts.spotify.com/api/token`, and it is exactly the request `Prepare` builds: the `Basic` header and the form body. Its answer decides the outcome. When the code and the configuration are present but no request is sent, `btoa` has thrown. |
| SpotifyCallback.CallbackCredentials | app/api/auth/spotify/callback/route.ts:24-37 | The Authorization header of the sent request decodes to the configured client id and secret, provided the client id has no colon. |
| SpotifyCallback.ProjectTokens | app/api/auth/spotify/callback/route.ts:47-51 | When all three token fields are defined, the projection is exactly those three members, in order. |
| SpotifyCallback.TokenBody | app/api/auth/spotify/callback/route.ts:47-51 | When upstream answers 200 with all three token fields, the body is exactly `access_token`, `refresh_token`, `expires_in`, in that order, and every other upstream field is dropped. |

## Left out

- The login route (`app/api/auth/spotify/login/route.ts`) is not modelled. It only redirects to the result of `getSpotifyAuthUrl`, so its target is `AuthUrl`'s value. The error it lets escape is `AuthUrl`'s `Err`.
- The pages `app/page.tsx` and `app/layout.tsx` are not modelled: they are static markup.
- The network call `fetch` and the parsing in `response.json()` are not modelled. Their result is the `Upstream` parameter, including a failed fetch and a body that is not JSON. A parsed body has the type `Json.Parsed`: no object in it repeats a member name, because `JSON.parse` keeps one member per name.
- The text serialization done by `Response.json` is not modelled. Responses are a status and a JSON value, and response headers are left out.
- Parsing the request URL is not modelled. The callback receives the query as a list of name-value pairs that are already decoded.
- SpotifyCallback.Project: when upstream's successful answer lacks a token field, JavaScript reads it as `undefined` and `Response.json` omits it, so the body has fewer than three fields. The model follows that code rather than promising all three fields every time.
- JSON numbers are modelled as integers, because the handler only copies them. Floating point is not modelled.
- Json.Property: property names inherited from JavaScript prototypes (`constructor`, `length` and so on) are not modelled. The three token names are not among them.
- Lone UTF-16 surrogates are not modelled. Dafny characters are Unicode scalar values, while a JavaScript string may hold a lone surrogate, which the URL serializer would replace with U+FFFD.
- FormUrlEncoded.Parse and Utf8.Decode return None on malformed input where the URL Standard substitutes U+FFFD. They serve only as partners for the serializer and are applied only to its output.
- FormUrlEncoded.Parse splits on `&` and `=` as characters, not as bytes after UTF-8 encoding. This gives the same result because no multi-byte UTF-8 sequence contains a byte below 0x80.
