/**
 * Base 64 with the standard alphabet and `=` padding (section 4 of RFC 4648),
 * the encoding `btoa` applies to a Latin-1 string, with the decoder that
 * serves as its partner.
 */
module Base64 {
  import opened Wrappers
  import opened Bytes

  /** The alphabet of section 4 of RFC 4648: A-Z, a-z, 0-9, `+`, `/`. */
  function SextetChar(d: int): (c: char)
    requires 0 <= d < 64
    ensures c != '='
  {
    if d < 26 then ('A' as int + d) as char
    else if d < 52 then ('a' as int + d - 26) as char
    else if d < 62 then ('0' as int + d - 52) as char
    else if d == 62 then '+'
    else '/'
  }

  /** The value of an alphabet character; None for any other character, `=` included. */
  function SextetOf(c: char): (r: Option<int>)
    ensures r.Some? ==> 0 <= r.value < 64 && SextetChar(r.value) == c
  {
    if 'A' <= c <= 'Z' then Some(c as int - 'A' as int)
    else if 'a' <= c <= 'z' then Some(c as int - 'a' as int + 26)
    else if '0' <= c <= '9' then Some(c as int - '0' as int + 52)
    else if c == '+' then Some(62)
    else if c == '/' then Some(63)
    else None
  }

  lemma SextetOfChar(d: int)
    requires 0 <= d < 64
    ensures SextetOf(SextetChar(d)) == Some(d)
  {
  }

  /** Three bytes as four alphabet characters, six bits each. */
  function EncodeQuantum(x: byte, y: byte, z: byte): string {
    [SextetChar(x / 4), SextetChar(x % 4 * 16 + y / 16), SextetChar(y % 16 * 4 + z / 64), SextetChar(z % 64)]
  }

  /** Encodes three bytes at a time; a final one or two bytes are padded with `=`. */
  function Encode(b: seq<byte>): (r: string)
    ensures |r| == (|b| + 2) / 3 * 4
  {
    if |b| == 0 then ""
    else if |b| == 1 then
      [SextetChar(b[0] / 4), SextetChar(b[0] % 4 * 16), '=', '=']
    else if |b| == 2 then
      [SextetChar(b[0] / 4), SextetChar(b[0] % 4 * 16 + b[1] / 16), SextetChar(b[1] % 16 * 4), '=']
    else
      EncodeQuantum(b[0], b[1], b[2]) + Encode(b[3..])
  }

  /** Decodes one unpadded quantum of four characters into three bytes. */
  function DecodeQuantum(q: string): Option<seq<byte>>
    requires |q| == 4
  {
    match (SextetOf(q[0]), SextetOf(q[1]), SextetOf(q[2]), SextetOf(q[3]))
    case (Some(a), Some(b), Some(c), Some(d)) =>
      Some([a * 4 + b / 16, b % 16 * 16 + c / 4, c % 4 * 64 + d])
    case _ => None
  }

  /**
   * Decodes a final padded quantum (`xx==` or `xxx=`). The bits the padding
   * leaves over must be zero, so every byte string has one encoding only.
   */
  function DecodePadded(q: string): Option<seq<byte>>
    requires |q| == 4
  {
    if q[2] == '=' && q[3] == '=' then
      match (SextetOf(q[0]), SextetOf(q[1]))
      case (Some(a), Some(b)) => if b % 16 == 0 then Some([a * 4 + b / 16]) else None
      case _ => None
    else if q[3] == '=' then
      match (SextetOf(q[0]), SextetOf(q[1]), SextetOf(q[2]))
      case (Some(a), Some(b), Some(c)) =>
        if c % 4 == 0 then Some([a * 4 + b / 16, b % 16 * 16 + c / 4]) else None
      case _ => None
    else None
  }

  /** Decodes canonical padded base 64; None on anything else. */
  function Decode(s: string): (r: Option<seq<byte>>)
    decreases |s|
  {
    if |s| == 0 then Some([])
    else if |s| < 4 then None
    else if |s| == 4 && s[3] == '=' then DecodePadded(s)
    else
      match (DecodeQuantum(s[..4]), Decode(s[4..]))
      case (Some(head), Some(tail)) => Some(head + tail)
      case _ => None
  }

  /** Three bytes split into four sextets and joined again are unchanged. */
  lemma BytesToSextets(x: byte, y: byte, z: byte)
    ensures var a, b, c, d := x / 4, x % 4 * 16 + y / 16, y % 16 * 4 + z / 64, z % 64;
      a * 4 + b / 16 == x && b % 16 * 16 + c / 4 == y && c % 4 * 64 + d == z
  {
  }

  /** Four sextets joined into three bytes and split again are unchanged. */
  lemma SextetsToBytes(a: int, b: int, c: int, d: int)
    requires 0 <= a < 64 && 0 <= b < 64 && 0 <= c < 64 && 0 <= d < 64
    ensures var x, y, z := a * 4 + b / 16, b % 16 * 16 + c / 4, c % 4 * 64 + d;
      0 <= x < 256 && 0 <= y < 256 && 0 <= z < 256
      && x / 4 == a && x % 4 * 16 + y / 16 == b && y % 16 * 4 + z / 64 == c && z % 64 == d
  {
  }

  lemma DecodeQuantumOf(x: byte, y: byte, z: byte, rest: string)
    ensures DecodeQuantum((EncodeQuantum(x, y, z) + rest)[..4]) == Some([x, y, z])
  {
    var q := EncodeQuantum(x, y, z);
    assert (q + rest)[..4] == q;
    SextetOfChar(x / 4);
    SextetOfChar(x % 4 * 16 + y / 16);
    SextetOfChar(y % 16 * 4 + z / 64);
    SextetOfChar(z % 64);
    BytesToSextets(x, y, z);
  }

  lemma DecodeEncodeTwo(x: byte, y: byte)
    ensures Decode(Encode([x, y])) == Some([x, y])
  {
    var s := Encode([x, y]);
    SextetOfChar(x / 4);
    SextetOfChar(x % 4 * 16 + y / 16);
    SextetOfChar(y % 16 * 4);
    BytesToSextets(x, y, 0);
    assert s[2] != '=' && s[3] == '=';
  }

  lemma DecodeEncodeOne(x: byte)
    ensures Decode(Encode([x])) == Some([x])
  {
    SextetOfChar(x / 4);
    SextetOfChar(x % 4 * 16);
  }

  /** Round trip: decoding an encoding gives the bytes back. */
  lemma {:induction false} DecodeEncode(b: seq<byte>)
    ensures Decode(Encode(b)) == Some(b)
  {
    if |b| == 1 {
      DecodeEncodeOne(b[0]);
      assert [b[0]] == b;
    } else if |b| == 2 {
      DecodeEncodeTwo(b[0], b[1]);
      assert [b[0], b[1]] == b;
    } else if |b| >= 3 {
      var s, q, t := Encode(b), EncodeQuantum(b[0], b[1], b[2]), Encode(b[3..]);
      assert s == q + t;
      DecodeQuantumOf(b[0], b[1], b[2], t);
      assert s[..4] == q && s[4..] == t;
      assert s[3] != '=';
      DecodeEncode(b[3..]);
      assert [b[0], b[1], b[2]] + b[3..] == b;
    }
  }

  /** A padded final quantum is the encoding of what it decodes to. */
  lemma EncodeDecodePadded(q: string)
    requires |q| == 4 && DecodePadded(q).Some?
    ensures Encode(DecodePadded(q).value) == q
  {
    var a, b := SextetOf(q[0]).value, SextetOf(q[1]).value;
    if q[2] == '=' {
      SextetsToBytes(a, b, 0, 0);
      assert [q[0], q[1], '=', '='] == q;
    } else {
      var c := SextetOf(q[2]).value;
      SextetsToBytes(a, b, c, 0);
      assert [q[0], q[1], q[2], '='] == q;
    }
  }

  /** An unpadded quantum is the encoding of the three bytes it decodes to. */
  lemma EncodeDecodeQuantum(q: string, tail: seq<byte>)
    requires |q| == 4 && DecodeQuantum(q).Some?
    ensures Encode(DecodeQuantum(q).value + tail) == q + Encode(tail)
  {
    var a, b, c, d := SextetOf(q[0]).value, SextetOf(q[1]).value, SextetOf(q[2]).value, SextetOf(q[3]).value;
    SextetsToBytes(a, b, c, d);
    var bytes := DecodeQuantum(q).value + tail;
    assert bytes[3..] == tail;
    assert EncodeQuantum(bytes[0], bytes[1], bytes[2]) == q;
  }

  /** The other direction: whatever decodes is the encoding of what it decodes to. */
  lemma {:induction false} EncodeDecode(s: string)
    requires Decode(s).Some?
    ensures Encode(Decode(s).value) == s
  {
    if |s| == 4 && s[3] == '=' {
      EncodeDecodePadded(s);
    } else if |s| > 0 {
      EncodeDecode(s[4..]);
      EncodeDecodeQuantum(s[..4], Decode(s[4..]).value);
      assert s == s[..4] + s[4..];
    }
  }
}
