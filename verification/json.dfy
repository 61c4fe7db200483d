/**
 * JSON values as `response.json()` delivers them and `Response.json`
 * serializes them, with JavaScript's property read `data.key`.
 */
module Json {
  import opened Wrappers

  /** Numbers are kept as integers: they are only copied, never computed with. */
  datatype Json =
    | Null
    | Bool(b: bool)
    | Number(n: int)
    | String(s: string)
    | Array(items: seq<Json>)
    | Object(members: seq<(string, Json)>)

  /** No member is named `key`. */
  predicate Missing(members: seq<(string, Json)>, key: string) {
    forall i :: 0 <= i < |members| ==> members[i].0 != key
  }

  /**
   * The value of the member named `key`. On a member list with duplicate
   * names this is the last one, which is the value `JSON.parse` keeps.
   */
  function Lookup(members: seq<(string, Json)>, key: string): (r: Option<Json>)
    ensures r.None? <==> Missing(members, key)
    ensures r.Some? ==> exists i :: 0 <= i < |members| && members[i] == (key, r.value) && Missing(members[i + 1..], key)
  {
    if |members| == 0 then None
    else
      match Lookup(members[1..], key)
      case Some(v) =>
        var i :| 0 <= i < |members[1..]| && members[1..][i] == (key, v) && Missing(members[1..][i + 1..], key);
        assert members[1..][i + 1..] == members[i + 2..];
        Some(v)
      case None =>
        if members[0].0 == key then
          assert members[1..] == members[0 + 1..];
          Some(members[0].1)
        else None
  }

  /** No name is listed twice. */
  predicate Distinct(keys: seq<string>) {
    forall a, b :: 0 <= a < b < |keys| ==> keys[a] != keys[b]
  }

  /** The member names of an object, in order. */
  function Names(members: seq<(string, Json)>): (ns: seq<string>)
    ensures |ns| == |members| && forall i :: 0 <= i < |members| ==> ns[i] == members[i].0
  {
    if |members| == 0 then [] else [members[0].0] + Names(members[1..])
  }

  /** No two members of any object in `j` share a name, at any depth. */
  predicate Unique(j: Json) {
    match j
    case Array(items) => forall i :: 0 <= i < |items| ==> Unique(items[i])
    case Object(members) =>
      Distinct(Names(members)) && forall i :: 0 <= i < |members| ==> Unique(members[i].1)
    case _ => true
  }

  /**
   * A value as `JSON.parse` (and so `response.json()`) delivers it: an
   * object keeps one member per name, so no name repeats.
   */
  type Parsed = j: Json | Unique(j) witness Null

  /**
   * `data.key` on a value other than null: the member of an object, and
   * undefined (None) for a missing member and for every other kind of value.
   */
  function Property(data: Json, key: string): (r: Option<Json>)
    requires !data.Null?
    ensures r.Some? ==> data.Object? && exists i :: 0 <= i < |data.members| && data.members[i] == (key, r.value)
                                            && Missing(data.members[i + 1..], key)
    ensures r.None? && data.Object? ==> Missing(data.members, key)
  {
    if data.Object? then Lookup(data.members, key) else None
  }

  /** On a parsed object, `data.key` reads back each member's own value. */
  lemma PropertyOfMember(data: Parsed, i: nat)
    requires data.Object? && i < |data.members|
    ensures Property(data, data.members[i].0) == Some(data.members[i].1)
  {
  }
}
