/**
 * The property mappers of `string-utils.ts`: each rebuilds an object with
 * every key converted and every value kept. An object is the sequence of
 * its entries in `Object.entries` order; when two keys convert to the same
 * key, the later entry's value is the one kept.
 */
module PropertyKeys {
  import opened Entries
  import opened StringUtils
  import opened CaseConversion
  import opened DelimiterCase

  /** `camelCaseProperties`. */
  function CamelCaseProperties<V>(es: seq<(string, V)>): (r: map<string, V>)
    ensures forall k :: k in r <==> exists i :: 0 <= i < |es| && CamelCased(es[i].0) == k
    ensures forall i :: 0 <= i < |es| && (forall j :: i < j < |es| ==> CamelCased(es[j].0) != CamelCased(es[i].0)) ==>
      CamelCased(es[i].0) in r && r[CamelCased(es[i].0)] == es[i].1
  {
    MapKeysAll(es, CamelCased);
    MapKeys(es, CamelCased)
  }

  /** `snakeCaseProperties`. */
  function SnakeCaseProperties<V>(es: seq<(string, V)>): (r: map<string, V>)
    ensures forall k :: k in r <==> exists i :: 0 <= i < |es| && SnakeCased(es[i].0) == k
    ensures forall i :: 0 <= i < |es| && (forall j :: i < j < |es| ==> SnakeCased(es[j].0) != SnakeCased(es[i].0)) ==>
      SnakeCased(es[i].0) in r && r[SnakeCased(es[i].0)] == es[i].1
  {
    MapKeysAll(es, SnakeCased);
    MapKeys(es, SnakeCased)
  }

  /** `kebabCasePropertes` (the source's spelling). */
  function KebabCaseProperties<V>(es: seq<(string, V)>): (r: map<string, V>)
    ensures forall k :: k in r <==> exists i :: 0 <= i < |es| && KebabCased(es[i].0) == k
    ensures forall i :: 0 <= i < |es| && (forall j :: i < j < |es| ==> KebabCased(es[j].0) != KebabCased(es[i].0)) ==>
      KebabCased(es[i].0) in r && r[KebabCased(es[i].0)] == es[i].1
  {
    MapKeysAll(es, KebabCased);
    MapKeys(es, KebabCased)
  }

  /** `stripPrefixProperties`: every occurrence of `prefix` is deleted from every key. */
  function StripPrefixProperties(es: seq<(string, string)>, prefix: string): (r: map<string, string>)
    ensures forall k :: k in r <==> exists i :: 0 <= i < |es| && StripPrefix(es[i].0, prefix) == k
    ensures forall i :: 0 <= i < |es| && (forall j :: i < j < |es| ==> StripPrefix(es[j].0, prefix) != StripPrefix(es[i].0, prefix)) ==>
      StripPrefix(es[i].0, prefix) in r && r[StripPrefix(es[i].0, prefix)] == es[i].1
  {
    var strip := k => StripPrefix(k, prefix);
    MapKeysAll(es, strip);
    MapKeys(es, strip)
  }

  /** The test of `camelCaseProperties`. */
  lemma CamelCasePropertiesExample()
    ensures CamelCaseProperties([("BIG_WORDS", "are cool")]) == map["bigWords" := "are cool"]
  {
    BigWordsCamel();
    MapKeysOfOne("BIG_WORDS", "are cool", CamelCased);
  }

  lemma BigWordsCamel()
    ensures CamelCased("BIG_WORDS") == "bigWords"
  {
    assert "BIG_WORDS" == "BIG" + "_" + "WORDS";
    CamelCaseExample();
    assert "big" + "Words" == "bigWords";
  }

  lemma BigWordsDashedCamel()
    ensures CamelCased("BIG-WORDS") == "bigWords"
  {
    assert "BIG-WORDS" == "BIG" + "-" + "WORDS";
    DashedCapsWords();
    CapsExampleLowered();
    assert "big" + "Words" == "bigWords";
  }

  /** The test of `snakeCaseProperties`. */
  lemma SnakeCasePropertiesExample()
    ensures SnakeCaseProperties([("bigWords", "are cool")]) == map["big_words" := "are cool"]
  {
    SnakeCaseExample();
    MapKeysOfOne("bigWords", "are cool", SnakeCased);
  }

  /** The test of `kebabCasePropertes`. */
  lemma KebabCasePropertiesExample()
    ensures KebabCaseProperties([("bigWords", "are cool")]) == map["big-words" := "are cool"]
  {
    KebabCaseBigWordsExample();
    MapKeysOfOne("bigWords", "are cool", KebabCased);
  }

  /** Two different keys that convert to the same key: the later value is kept. */
  lemma CamelCasePropertiesCollision()
    ensures CamelCaseProperties([("BIG_WORDS", "first"), ("BIG-WORDS", "second")]) == map["bigWords" := "second"]
  {
    CollisionRekeyed();
    LaterEntryWins("bigWords", "first", "second");
  }

  /** Stripping `X_` from a key deletes it wherever it occurs. */
  lemma StripPrefixPropertiesExample()
    ensures StripPrefixProperties([("X_PORT_X_", "80")], "X_") == map["PORT_" := "80"]
  {
    StripPrefixExample();
    MapKeysOfOne("X_PORT_X_", "80", k => StripPrefix(k, "X_"));
  }

  lemma CollisionRekeyed()
    ensures Rekeyed([("BIG_WORDS", "first"), ("BIG-WORDS", "second")], CamelCased)
      == [("bigWords", "first"), ("bigWords", "second")]
  {
    BigWordsCamel();
    BigWordsDashedCamel();
  }

  lemma LaterEntryWins<V>(k: string, v: V, w: V)
    ensures FromEntries([(k, v), (k, w)]) == map[k := w]
  {
    var r := [(k, v), (k, w)];
    assert r[..1] == [(k, v)];
    assert r[..1][..0] == [];
    assert FromEntries(r[..1]) == map[k := v];
  }
}
