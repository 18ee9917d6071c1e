/** JSON documents as the adapter stores them.

    Descriptors and payloads are Ruby values. Before they reach Redis the adapter turns them into
    JSON text (`to_json`); after reading, it parses that text back (`JSON.parse`). JSON has string
    keys only and no symbols, so the round trip changes two things: a symbol key, and a symbol
    value, each come back as the string of its name, at every depth. `Encode` is that round trip
    on values. */
module Serialization {

  /** A Ruby hash key, either a String or a Symbol. */
  datatype HashKey = StrKey(name: string) | SymKey(name: string)

  /** A Ruby value that JSON can carry (floating point numbers are not modelled). A Symbol value
      is written by `to_json` as the string of its name. */
  datatype Json =
    | Null
    | Bool(b: bool)
    | Num(n: int)
    | Text(s: string)
    | Sym(name: string)
    | List(items: seq<Json>)
    | Object(fields: map<HashKey, Json>)

  /** A task payload: a Ruby hash. */
  type Payload = map<HashKey, Json>

  /** Every key, at every depth, is a string key and no value is a symbol: what `JSON.parse`
      produces. */
  ghost predicate Plain(j: Json) {
    match j
    case Sym(_) => false
    case List(xs) => forall i :: 0 <= i < |xs| ==> Plain(xs[i])
    case Object(m) => forall k :: k in m ==> k.StrKey? && Plain(m[k])
    case _ => true
  }

  /** The string keys of a hash once its keys are written as JSON names. */
  function StringKeys(m: map<HashKey, Json>): set<HashKey> {
    set k | k in m :: StrKey(k.name)
  }

  /** `JSON.parse(x.to_json)`: every key becomes the string of its name, and every symbol value
      the string of its name. When a hash has both spellings of one name, the symbol's value is
      the one kept. */
  function Encode(j: Json): (r: Json)
    ensures Plain(r)
    ensures j.Object? <==> r.Object?
    ensures j.Object? ==> r.fields.Keys == StringKeys(j.fields)
    ensures j.List? <==> r.List?
    ensures j.List? ==> |r.items| == |j.items|
    ensures j.Sym? ==> r.Text?
  {
    match j
    case Sym(n) => Text(n)
    case List(xs) => List(seq(|xs|, i requires 0 <= i < |xs| => Encode(xs[i])))
    case Object(m) =>
      Object(map k | k in StringKeys(m) ::
        Encode(if SymKey(k.name) in m then m[SymKey(k.name)] else m[StrKey(k.name)]))
    case _ => j
  }

  /** The payload stored for a task: the hash after the JSON round trip. */
  function EncodePayload(p: Payload): (r: Payload)
    ensures r.Keys == StringKeys(p)
    ensures forall k :: k in r ==> k.StrKey? && Plain(r[k])
  {
    Encode(Object(p)).fields
  }

  /** A document that is already plain comes back from the round trip unchanged. */
  lemma {:induction false} EncodePlain(j: Json)
    requires Plain(j)
    ensures Encode(j) == j
  {
    match j
    case List(xs) =>
      forall i | 0 <= i < |xs| ensures Encode(xs[i]) == xs[i] {
        EncodePlain(xs[i]);
      }
      assert Encode(j).items == xs;
    case Object(m) =>
      var r := Encode(j).fields;
      assert StringKeys(m) == m.Keys by {
        forall k | k in m ensures StrKey(k.name) == k { }
      }
      forall k | k in m ensures r[k] == m[k] {
        assert SymKey(k.name) !in m;
        EncodePlain(m[k]);
      }
      assert r == m;
    case _ =>
  }

  /** Serialising what was parsed gives the same document again: the round trip is idempotent. */
  lemma EncodeIdempotent(j: Json)
    ensures Encode(Encode(j)) == Encode(j)
  {
    EncodePlain(Encode(j));
  }

  /** A hash whose keys are all strings, at every depth, is stored exactly as given. */
  lemma EncodePayloadPlain(p: Payload)
    requires forall k :: k in p ==> k.StrKey? && Plain(p[k])
    ensures EncodePayload(p) == p
  {
    assert Plain(Object(p));
    EncodePlain(Object(p));
  }
}
