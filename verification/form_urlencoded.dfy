/**
 * The application/x-www-form-urlencoded format (section 5 of the WHATWG URL
 * Standard) and the name-value list behind URLSearchParams: `get`, `set`,
 * the serializer used by `toString`, and the parser, which is the partner
 * against which the serializer is proved.
 */
module FormUrlEncoded {
  import opened Wrappers
  import Utf8
  import opened Strings
  import opened Bytes

  /** One entry of a URLSearchParams list. */
  datatype Pair = Pair(name: string, value: string)

  predicate Absent(list: seq<Pair>, name: string) {
    forall i :: 0 <= i < |list| ==> list[i].name != name
  }

  // ---------------------------------------------------------------------------
  // URLSearchParams: get and set (section 6.2 of the URL Standard)
  // ---------------------------------------------------------------------------

  /** `get(name)`: the value of the first pair whose name is `name`, if any. */
  function Get(list: seq<Pair>, name: string): (r: Option<string>)
    ensures r.None? <==> Absent(list, name)
    ensures r.Some? ==> exists i :: 0 <= i < |list| && list[i] == Pair(name, r.value) && Absent(list[..i], name)
  {
    if |list| == 0 then None
    else if list[0].name == name then
      assert list[0] == Pair(name, list[0].value) && Absent(list[..0], name);
      Some(list[0].value)
    else
      var r := Get(list[1..], name);
      assert r.Some? ==> forall i :: 0 <= i < |list| - 1 && Absent(list[1..][..i], name) ==> Absent(list[..i + 1], name);
      r
  }

  /** Where exactly one pair has the name, `get` finds that pair's value. */
  lemma GetOnly(list: seq<Pair>, i: nat, name: string)
    requires i < |list| && list[i].name == name
    requires forall j :: 0 <= j < |list| && j != i ==> list[j].name != name
    ensures Get(list, name) == Some(list[i].value)
  {
  }

  /** The list without its pairs named `name`, in the original order. */
  function Drop(list: seq<Pair>, name: string): (r: seq<Pair>)
    ensures Absent(r, name)
    ensures forall p :: p in r <==> p in list && p.name != name
    ensures Absent(list, name) ==> r == list
  {
    if |list| == 0 then []
    else if list[0].name == name then Drop(list[1..], name)
    else
      assert list == [list[0]] + list[1..];
      [list[0]] + Drop(list[1..], name)
  }

  lemma {:induction false} DropAppend(a: seq<Pair>, b: seq<Pair>, name: string)
    ensures Drop(a + b, name) == Drop(a, name) + Drop(b, name)
  {
    if |a| == 0 {
      assert a + b == b;
    } else {
      assert (a + b)[0] == a[0];
      assert (a + b)[1..] == a[1..] + b;
      DropAppend(a[1..], b, name);
    }
  }

  /** Replaces the first pair named `name` and removes the later ones. */
  function Replace(list: seq<Pair>, name: string, value: string): (r: seq<Pair>)
    requires !Absent(list, name)
    ensures Get(r, name) == Some(value)
    ensures Drop(r, name) == Drop(list, name)
    ensures |r| == |Drop(list, name)| + 1
  {
    if list[0].name == name then
      [Pair(name, value)] + Drop(list[1..], name)
    else
      var rest := Replace(list[1..], name, value);
      assert ([list[0]] + rest)[1..] == rest;
      [list[0]] + rest
  }

  /**
   * `set(name, value)`: if some pair is named `name`, the first one takes the
   * new value and the others are removed; otherwise the pair is appended.
   * Either way exactly one pair is named `name` afterwards, and the pairs with
   * other names are untouched and keep their order.
   */
  function Set(list: seq<Pair>, name: string, value: string): (r: seq<Pair>)
    ensures Get(r, name) == Some(value)
    ensures Drop(r, name) == Drop(list, name)
    ensures |r| == |Drop(list, name)| + 1
    ensures Absent(list, name) ==> r == list + [Pair(name, value)]
  {
    if Absent(list, name) then
      DropAppend(list, [Pair(name, value)], name);
      assert Get([Pair(name, value)], name) == Some(value);
      list + [Pair(name, value)]
    else
      Replace(list, name, value)
  }

  // ---------------------------------------------------------------------------
  // The serializer (section 5.2 of the URL Standard)
  // ---------------------------------------------------------------------------

  /** Bytes left as they are: ASCII alphanumerics, `*`, `-`, `.` and `_`. */
  predicate IsSafeByte(b: int) {
    (0x30 <= b <= 0x39) || (0x41 <= b <= 0x5A) || (0x61 <= b <= 0x7A)
    || b == 0x2A || b == 0x2D || b == 0x2E || b == 0x5F
  }

  /** The characters a serialized name or value is made of. */
  predicate IsEncodedChar(c: char) {
    IsSafeByte(c as int) || c == '+' || c == '%'
  }

  /** An upper-case hexadecimal digit. */
  function HexDigit(d: int): (c: char)
    requires 0 <= d < 16
    ensures IsSafeByte(c as int)
  {
    if d < 10 then ('0' as int + d) as char else ('A' as int + d - 10) as char
  }

  /** One byte under the form percent-encode set, with space written as `+`. */
  function EncodeByte(b: byte): (r: string)
    ensures forall i :: 0 <= i < |r| ==> IsEncodedChar(r[i])
  {
    if b == 0x20 then "+"
    else if IsSafeByte(b) then [b as char]
    else ['%', HexDigit(b / 16), HexDigit(b % 16)]
  }

  function EncodeBytes(b: seq<byte>): (r: string)
    ensures forall i :: 0 <= i < |r| ==> IsEncodedChar(r[i])
  {
    if |b| == 0 then "" else EncodeByte(b[0]) + EncodeBytes(b[1..])
  }

  /** Percent-encode after encoding to UTF-8, space as plus: how a name or a value is written. */
  function Encode(s: string): (r: string)
    ensures forall i :: 0 <= i < |r| ==> IsEncodedChar(r[i])
    ensures '&' !in r && '=' !in r
  {
    var r := EncodeBytes(Utf8.Encode(s));
    assert forall i :: 0 <= i < |r| ==> r[i] != '&' && r[i] != '=' by {
      forall i | 0 <= i < |r| ensures r[i] != '&' && r[i] != '=' {
        assert IsEncodedChar(r[i]);
      }
    }
    r
  }

  function SerializePair(p: Pair): string {
    Encode(p.name) + "=" + Encode(p.value)
  }

  /** The serialization of a list: its pairs `name=value`, joined by `&`. */
  function Serialize(list: seq<Pair>): string {
    if |list| == 0 then ""
    else if |list| == 1 then SerializePair(list[0])
    else SerializePair(list[0]) + "&" + Serialize(list[1..])
  }

  // ---------------------------------------------------------------------------
  // The parser (section 5.1 of the URL Standard)
  // ---------------------------------------------------------------------------

  function PlusToSpace(b: seq<byte>): (r: seq<byte>)
    ensures |r| == |b|
  {
    if |b| == 0 then [] else [if b[0] == 0x2B then 0x20 else b[0]] + PlusToSpace(b[1..])
  }

  predicate IsHexByte(b: byte) {
    (0x30 <= b <= 0x39) || (0x41 <= b <= 0x46) || (0x61 <= b <= 0x66)
  }

  function HexValue(b: byte): (d: int)
    requires IsHexByte(b)
    ensures 0 <= d < 16
  {
    if b <= 0x39 then b - 0x30 else if b <= 0x46 then b - 0x41 + 10 else b - 0x61 + 10
  }

  /** Percent-decoding: `%` and two hex digits give a byte; anything else is kept. */
  function PercentDecode(b: seq<byte>): (r: seq<byte>)
    ensures |r| <= |b|
  {
    if |b| == 0 then []
    else if b[0] == 0x25 && |b| >= 3 && IsHexByte(b[1]) && IsHexByte(b[2]) then
      [HexValue(b[1]) * 16 + HexValue(b[2])] + PercentDecode(b[3..])
    else [b[0]] + PercentDecode(b[1..])
  }

  /** Decodes one name or value; None where the bytes are not UTF-8. */
  function Decode(s: string): Option<string> {
    Utf8.Decode(PercentDecode(PlusToSpace(Utf8.Encode(s))))
  }

  function ParseSegments(segs: seq<string>): Option<seq<Pair>> {
    if |segs| == 0 then Some([])
    else
      match ParseSegments(segs[1..])
      case None => None
      case Some(rest) =>
        if segs[0] == "" then Some(rest)
        else
          var (n, v) := CutAt(segs[0], '=');
          match (Decode(n), Decode(v))
          case (Some(name), Some(value)) => Some([Pair(name, value)] + rest)
          case _ => None
  }

  /** Parses a query string into its list of pairs. */
  function Parse(s: string): Option<seq<Pair>> {
    ParseSegments(Split(s, '&'))
  }

  // ---------------------------------------------------------------------------
  // Round trip: the parser undoes the serializer
  // ---------------------------------------------------------------------------

  lemma {:induction false} EncodeBytesAppend(a: seq<byte>, b: seq<byte>)
    ensures EncodeBytes(a + b) == EncodeBytes(a) + EncodeBytes(b)
  {
    if |a| == 0 {
      assert a + b == b;
    } else {
      assert (a + b)[0] == a[0];
      assert (a + b)[1..] == a[1..] + b;
      EncodeBytesAppend(a[1..], b);
    }
  }

  lemma {:induction false} PlusToSpaceAppend(a: seq<byte>, b: seq<byte>)
    ensures PlusToSpace(a + b) == PlusToSpace(a) + PlusToSpace(b)
  {
    if |a| == 0 {
      assert a + b == b;
    } else {
      assert (a + b)[0] == a[0];
      assert (a + b)[1..] == a[1..] + b;
      PlusToSpaceAppend(a[1..], b);
    }
  }

  lemma {:induction false} PlusToSpaceNoPlus(b: seq<byte>)
    requires 0x2B !in b
    ensures PlusToSpace(b) == b
  {
    if |b| > 0 {
      PlusToSpaceNoPlus(b[1..]);
      assert [b[0]] + b[1..] == b;
    }
  }

  /** The bytes the parser sees for one encoded byte decode back to that byte. */
  lemma DecodeEncodedByte(x: byte, rest: seq<byte>)
    ensures PercentDecode(PlusToSpace(Utf8.Encode(EncodeByte(x))) + rest) == [x] + PercentDecode(rest)
  {
    var e := EncodeByte(x);
    if x == 0x20 || IsSafeByte(x) {
      assert Utf8.Encode(e) == Utf8.EncodeChar(e[0]) + Utf8.Encode(e[1..]);
      assert e[1..] == [];
    } else {
      var hi, lo := HexDigit(x / 16), HexDigit(x % 16);
      assert e == ['%'] + ([hi] + [lo]);
      Utf8.EncodeAppend(['%'], [hi] + [lo]);
      Utf8.EncodeAppend([hi], [lo]);
      assert Utf8.Encode(['%']) == [0x25];
      assert Utf8.Encode([hi]) == [hi as int];
      assert Utf8.Encode([lo]) == [lo as int];
      var t := [0x25, hi as int, lo as int];
      PlusToSpaceNoPlus(t);
      assert (t + rest)[3..] == rest;
    }
  }

  lemma {:induction false} DecodeEncodeBytes(b: seq<byte>)
    ensures PercentDecode(PlusToSpace(Utf8.Encode(EncodeBytes(b)))) == b
  {
    if |b| > 0 {
      var e, tail := EncodeByte(b[0]), EncodeBytes(b[1..]);
      Utf8.EncodeAppend(e, tail);
      PlusToSpaceAppend(Utf8.Encode(e), Utf8.Encode(tail));
      DecodeEncodedByte(b[0], PlusToSpace(Utf8.Encode(tail)));
      DecodeEncodeBytes(b[1..]);
      assert [b[0]] + b[1..] == b;
    }
  }

  /** Round trip for one name or value: decoding its encoding gives it back. */
  lemma DecodeEncode(s: string)
    ensures Decode(Encode(s)) == Some(s)
  {
    DecodeEncodeBytes(Utf8.Encode(s));
    Utf8.DecodeEncode(s);
  }

  /** A serialized pair parses back to the pair. */
  lemma ParsePair(p: Pair, segs: seq<string>)
    ensures '&' !in SerializePair(p)
    ensures ParseSegments([SerializePair(p)] + segs)
         == (match ParseSegments(segs)
             case None => None
             case Some(tail) => Some([p] + tail))
  {
    var n, v := Encode(p.name), Encode(p.value);
    var seg := SerializePair(p);
    assert seg == n + ['='] + v;
    CutAtSep(n, '=', v);
    DecodeEncode(p.name);
    DecodeEncode(p.value);
    assert ([seg] + segs)[1..] == segs;
    assert seg[|n|] == '=';
  }

  /** Round trip: parsing a serialized list gives back the list, pairs and order. */
  lemma {:induction false} ParseSerialize(list: seq<Pair>)
    ensures Parse(Serialize(list)) == Some(list)
  {
    if |list| == 0 {
      assert Split("", '&') == [""];
    } else if |list| == 1 {
      ParsePair(list[0], []);
      SplitNoSep(SerializePair(list[0]), '&');
      assert [SerializePair(list[0])] + [] == [SerializePair(list[0])];
      assert [list[0]] + [] == list;
    } else {
      ParsePair(list[0], Split(Serialize(list[1..]), '&'));
      SplitAtSep(SerializePair(list[0]), '&', Serialize(list[1..]));
      ParseSerialize(list[1..]);
      assert [list[0]] + list[1..] == list;
    }
  }

  /** A space between two texts is written as `+` between their encodings. */
  lemma EncodeSpace(a: string, b: string)
    ensures Encode(a + [' '] + b) == Encode(a) + "+" + Encode(b)
  {
    Utf8.EncodeAppend(a + [' '], b);
    Utf8.EncodeAppend(a, [' ']);
    assert Utf8.Encode([' ']) == [0x20];
    EncodeBytesAppend(Utf8.Encode(a) + [0x20], Utf8.Encode(b));
    EncodeBytesAppend(Utf8.Encode(a), [0x20]);
    assert EncodeBytes([0x20]) == "+";
  }

  /** On text made only of safe characters and spaces, encoding just writes each space as `+`. */
  lemma {:induction false} EncodePlain(s: string)
    requires forall i :: 0 <= i < |s| ==> IsSafeByte(s[i] as int) || s[i] == ' '
    ensures |Encode(s)| == |s|
    ensures forall i :: 0 <= i < |s| ==> Encode(s)[i] == (if s[i] == ' ' then '+' else s[i])
  {
    if |s| > 0 {
      EncodePlain(s[1..]);
      assert s == [s[0]] + s[1..];
      Utf8.EncodeAppend([s[0]], s[1..]);
      assert Utf8.Encode([s[0]]) == [s[0] as int];
      EncodeBytesAppend([s[0] as int], Utf8.Encode(s[1..]));
    }
  }
}
