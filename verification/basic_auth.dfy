/**
 * The HTTP Basic credentials of section 2 of RFC 7617, as the client
 * authentication of section 2.3.1 of RFC 6749 uses them: `btoa` of
 * "user-id:password", behind the scheme name `Basic`.
 */
module BasicAuth {
  import opened Wrappers
  import Base64
  import Strings
  import opened Bytes

  /** Every character fits in one byte (at most U+00FF), as `btoa` demands. */
  predicate IsLatin1(s: string) {
    forall i :: 0 <= i < |s| ==> s[i] as int < 256
  }

  function Latin1Bytes(s: string): (r: seq<byte>)
    requires IsLatin1(s)
    ensures |r| == |s|
    ensures forall i :: 0 <= i < |s| ==> r[i] == s[i] as int
  {
    seq(|s|, i requires 0 <= i < |s| => s[i] as int)
  }

  function Latin1String(b: seq<byte>): (s: string)
    ensures IsLatin1(s) && Latin1Bytes(s) == b
  {
    seq(|b|, i requires 0 <= i < |b| => b[i] as char)
  }

  /**
   * `btoa`: the base 64 encoding of the string's code units; None stands for
   * the InvalidCharacterError it throws on a character above U+00FF.
   */
  function Btoa(s: string): (r: Option<string>)
    ensures r.Some? <==> IsLatin1(s)
    ensures r.Some? ==> Base64.Decode(r.value) == Some(Latin1Bytes(s))
  {
    if IsLatin1(s) then
      Base64.DecodeEncode(Latin1Bytes(s));
      Some(Base64.Encode(Latin1Bytes(s)))
    else None
  }

  /** The value of the Authorization header: `Basic ` and the encoded "user-id:password". */
  function Header(userId: string, password: string): (r: Option<string>)
    ensures r.Some? <==> IsLatin1(userId + ":" + password)
  {
    match Btoa(userId + ":" + password)
    case None => None
    case Some(token) => Some("Basic " + token)
  }

  /** What a server reads back from the header: the user-id is everything before the first colon. */
  function ParseHeader(h: string): Option<(string, string)> {
    if |h| < 6 || h[..6] != "Basic " then None
    else
      match Base64.Decode(h[6..])
      case None => None
      case Some(bytes) => Some(Strings.CutAt(Latin1String(bytes), ':'))
  }

  /**
   * Round trip: the header yields the user-id and the password again, provided
   * the user-id has no colon (section 2 of RFC 7617 forbids one).
   */
  lemma ParseHeaderOf(userId: string, password: string)
    requires IsLatin1(userId + ":" + password)
    requires ':' !in userId
    ensures ParseHeader(Header(userId, password).value) == Some((userId, password))
  {
    var s := userId + ":" + password;
    var h := Header(userId, password).value;
    var token := Base64.Encode(Latin1Bytes(s));
    assert h == "Basic " + token;
    assert h[..6] == "Basic " && h[6..] == token;
    var back := Latin1String(Latin1Bytes(s));
    assert back == s;
    assert s == userId + [':'] + password;
    Strings.CutAtSep(userId, ':', password);
  }
}
