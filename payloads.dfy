/** Payload equality used by find-or-create (`compare_payloads` and `symbolize_hash`).

    The adapter compares a payload read back from Redis with the payload a caller passes in.
    The stored one has string keys (it went through JSON); the caller's may have symbol keys.
    `ComparePayloads` is the comparison as the adapter writes it: it normalises the top-level
    keys only. `PayloadsMatch` compares both sides after the JSON round trip, which normalises
    keys at every depth; find-or-create uses it (see README, Findings). */
module Payloads {
  import opened Serialization

  /** The names of a hash's keys, whatever their type. */
  function KeyNames(h: Payload): set<string> {
    set k | k in h :: k.name
  }

  /** `symbolize_hash`: every top-level key becomes a symbol (written here as its name); nested
      values are left as they are. When both spellings of one name are present, the symbol's
      value is kept. */
  function SymbolizeHash(h: Payload): (r: map<string, Json>)
    ensures r.Keys == KeyNames(h)
    ensures forall k :: k in h && (k.SymKey? || SymKey(k.name) !in h) ==> r[k.name] == h[k]
  {
    map n | n in KeyNames(h) :: if SymKey(n) in h then h[SymKey(n)] else h[StrKey(n)]
  }

  /** `compare_payloads` as written: equal after symbolising the top-level keys. */
  predicate ComparePayloads(a: Payload, b: Payload) {
    SymbolizeHash(a) == SymbolizeHash(b)
  }

  /** The comparison find-or-create needs: equal as JSON documents, that is, equal once both
      have been through the same round trip that storing a payload performs. */
  predicate PayloadsMatch(a: Payload, b: Payload) {
    EncodePayload(a) == EncodePayload(b)
  }

  /** A payload whose values carry string keys only and no symbols, as in every payload that
      has been through JSON, and in the ones callers usually build. */
  ghost predicate NestedPlain(p: Payload) {
    forall k :: k in p ==> Plain(p[k])
  }

  /** As written, the comparison recognises a stored payload as the one it was stored from when
      only its top-level keys were symbols. */
  lemma StoredPayloadComparesEqual(p: Payload)
    requires NestedPlain(p)
    ensures ComparePayloads(EncodePayload(p), p)
  {
    EncodedIsSymbolized(p);
    SymbolizeStringKeyed(SymbolizeHash(p));
  }

  /** As written, the comparison fails on a payload with a symbol key inside a nested hash:
      `{a: {b: 1}}` is stored as `{"a" => {"b" => 1}}`, and top-level symbolising turns that
      into `{a: {"b" => 1}}`, which differs from `{a: {b: 1}}`. */
  lemma NestedSymbolKeyDefeatsComparison()
    ensures var p := map[SymKey("a") := Object(map[SymKey("b") := Num(1)])];
            !ComparePayloads(EncodePayload(p), p)
  {
    var inner := map[SymKey("b") := Num(1)];
    var p := map[SymKey("a") := Object(inner)];
    var e := EncodePayload(p);
    assert StrKey("a") in e;
    var stored := e[StrKey("a")];
    assert stored == Encode(Object(inner));
    assert StrKey("b") in stored.fields && SymKey("b") !in stored.fields;
    assert SymbolizeHash(e)["a"] == stored;
    assert SymbolizeHash(p)["a"] == Object(inner);
    assert SymKey("b") in inner;
  }

  /** As written, the comparison also fails on a symbol value: `{a: :b}` is stored as
      `{"a" => "b"}`, which symbolises to `{a: "b"}`, and the string `"b"` is not the symbol
      `:b`. */
  lemma SymbolValueDefeatsComparison()
    ensures var p := map[SymKey("a") := Sym("b")];
            !ComparePayloads(EncodePayload(p), p)
  {
    var p := map[SymKey("a") := Sym("b")];
    var e := EncodePayload(p);
    assert StrKey("a") in e && e[StrKey("a")] == Text("b");
    assert SymbolizeHash(e)["a"] == Text("b");
    assert SymbolizeHash(p)["a"] == Sym("b");
  }

  /** Corrected comparison: a stored payload always matches the payload it was stored from,
      whatever the key types at any depth. */
  lemma StoredPayloadMatches(p: Payload)
    ensures PayloadsMatch(EncodePayload(p), p)
  {
    EncodePayloadPlain(EncodePayload(p));
  }

  /** On payloads whose nested keys are strings, the corrected comparison and the written one
      agree, so the correction only changes the outcome where the written one is wrong. */
  lemma MatchAgreesWithCompare(a: Payload, b: Payload)
    requires NestedPlain(a) && NestedPlain(b)
    ensures PayloadsMatch(a, b) <==> ComparePayloads(a, b)
  {
    if ComparePayloads(a, b) {
      CompareImpliesMatch(a, b);
    }
    if PayloadsMatch(a, b) {
      MatchImpliesCompare(a, b);
    }
  }

  /** A symbolised hash written back with string keys. */
  function StringKeyed(s: map<string, Json>): (r: Payload)
    ensures forall k :: k in r <==> k.StrKey? && k.name in s
  {
    map k | k in (set n | n in s :: StrKey(n)) :: s[k.name]
  }

  /** Symbolising a hash written with string keys gives the hash back. */
  lemma SymbolizeStringKeyed(m: map<string, Json>)
    ensures SymbolizeHash(StringKeyed(m)) == m
  {
    var h := StringKeyed(m);
    assert KeyNames(h) == m.Keys by {
      forall n | n in m ensures n in KeyNames(h) {
        assert StrKey(n) in h;
      }
    }
    forall n | n in m ensures SymbolizeHash(h)[n] == m[n] {
      assert SymKey(n) !in h;
    }
  }

  lemma StringKeyedInjective(s1: map<string, Json>, s2: map<string, Json>)
    requires StringKeyed(s1) == StringKeyed(s2)
    ensures s1 == s2
  {
    var r := StringKeyed(s1);
    forall n | n in s1 ensures n in s2 && s1[n] == s2[n] {
      assert StrKey(n) in r;
    }
    forall n | n in s2 ensures n in s1 {
      assert StrKey(n) in StringKeyed(s2);
    }
  }

  lemma CompareImpliesMatch(a: Payload, b: Payload)
    requires NestedPlain(a) && NestedPlain(b)
    requires ComparePayloads(a, b)
    ensures PayloadsMatch(a, b)
  {
    EncodedIsSymbolized(a);
    EncodedIsSymbolized(b);
  }

  lemma MatchImpliesCompare(a: Payload, b: Payload)
    requires NestedPlain(a) && NestedPlain(b)
    requires PayloadsMatch(a, b)
    ensures ComparePayloads(a, b)
  {
    EncodedIsSymbolized(a);
    EncodedIsSymbolized(b);
    StringKeyedInjective(SymbolizeHash(a), SymbolizeHash(b));
  }

  /** With plain nested values, the stored payload is the symbolised one with string keys. */
  lemma EncodedIsSymbolized(p: Payload)
    requires NestedPlain(p)
    ensures EncodePayload(p) == StringKeyed(SymbolizeHash(p))
  {
    var e, r := EncodePayload(p), StringKeyed(SymbolizeHash(p));
    EncodedKeysSymbolized(p);
    forall k | k in r ensures e[k] == r[k] {
      EncodedValueSymbolized(p, k.name);
    }
  }

  lemma EncodedKeysSymbolized(p: Payload)
    ensures EncodePayload(p).Keys == StringKeyed(SymbolizeHash(p)).Keys
  {
    var e, r := EncodePayload(p), StringKeyed(SymbolizeHash(p));
    forall k | k in e ensures k in r {
      var k' :| k' in p && StrKey(k'.name) == k;
      assert k.name in KeyNames(p);
    }
    forall k | k in r ensures k in e {
      var k' :| k' in p && k'.name == k.name;
      assert StrKey(k.name) in StringKeys(p);
    }
  }

  lemma EncodedValueSymbolized(p: Payload, n: string)
    requires NestedPlain(p) && n in KeyNames(p)
    ensures StrKey(n) in EncodePayload(p) && StrKey(n) in StringKeyed(SymbolizeHash(p))
    ensures EncodePayload(p)[StrKey(n)] == StringKeyed(SymbolizeHash(p))[StrKey(n)]
  {
    var sym := SymbolizeHash(p);
    EncodePayloadAt(p, n);
    assert Plain(sym[n]) by {
      if SymKey(n) in p {
        assert sym[n] == p[SymKey(n)];
      } else {
        assert sym[n] == p[StrKey(n)];
      }
    }
    EncodePlain(sym[n]);
  }

  /** The stored value under a name is the encoded value the symbolised hash keeps for it. */
  lemma EncodePayloadAt(p: Payload, n: string)
    requires n in KeyNames(p)
    ensures StrKey(n) in EncodePayload(p)
    ensures EncodePayload(p)[StrKey(n)] == Encode(SymbolizeHash(p)[n])
  {
    var k :| k in p && k.name == n;
    assert StrKey(n) in StringKeys(p);
  }
}
