/**
 * Objects as the sequences of entries `Object.entries` lists, and
 * `Object.fromEntries`, which folds them into a map left to right so that a
 * later entry overwrites an earlier one with the same key.
 */
module Entries {

  /** `Object.fromEntries(es)`. */
  function FromEntries<K(==), V>(es: seq<(K, V)>): map<K, V> {
    if |es| == 0 then map[]
    else FromEntries(es[..|es| - 1])[es[|es| - 1].0 := es[|es| - 1].1]
  }

  /** `k` is the key of entry `i` and of no later entry. */
  predicate LastWith<K(==), V>(es: seq<(K, V)>, k: K, i: nat) {
    i < |es| && es[i].0 == k && forall j :: i < j < |es| ==> es[j].0 != k
  }

  /** The keys of the object are exactly the keys of the entries. */
  lemma {:induction false} FromEntriesKeys<K, V>(es: seq<(K, V)>, k: K)
    ensures k in FromEntries(es) <==> exists i :: 0 <= i < |es| && es[i].0 == k
  {
    if |es| > 0 {
      var init := es[..|es| - 1];
      FromEntriesKeys(init, k);
      if k in FromEntries(es) && k != es[|es| - 1].0 {
        var i :| 0 <= i < |init| && init[i].0 == k;
        assert es[i].0 == k;
      }
      if exists i :: 0 <= i < |es| && es[i].0 == k {
        var i :| 0 <= i < |es| && es[i].0 == k;
        if i < |init| {
          assert init[i].0 == k;
        }
      }
    }
  }

  /** The value under a key is the value of the last entry with that key: a later entry wins. */
  lemma {:induction false} FromEntriesLastWins<K, V>(es: seq<(K, V)>, k: K, i: nat)
    requires LastWith(es, k, i)
    ensures k in FromEntries(es) && FromEntries(es)[k] == es[i].1
  {
    if i < |es| - 1 {
      var init := es[..|es| - 1];
      assert LastWith(init, k, i) by {
        forall j | i < j < |init| ensures init[j].0 != k {
          assert init[j] == es[j];
        }
      }
      FromEntriesLastWins(init, k, i);
    }
  }

  /** Every key of the object has a last entry with that key. */
  lemma FromEntriesHasLast<K, V>(es: seq<(K, V)>, k: K) returns (i: nat)
    requires k in FromEntries(es)
    ensures LastWith(es, k, i)
  {
    FromEntriesKeys(es, k);
    var j :| 0 <= j < |es| && es[j].0 == k;
    i := j;
    while exists l :: i < l < |es| && es[l].0 == k
      invariant i < |es| && es[i].0 == k
      decreases |es| - i
    {
      var l :| i < l < |es| && es[l].0 == k;
      i := l;
    }
  }

  /** The entries with every key converted by `convert` and every value kept. */
  function Rekeyed<V>(es: seq<(string, V)>, convert: string -> string): (r: seq<(string, V)>)
    ensures |r| == |es|
    ensures forall i :: 0 <= i < |es| ==> r[i] == (convert(es[i].0), es[i].1)
  {
    if |es| == 0 then [] else [(convert(es[0].0), es[0].1)] + Rekeyed(es[1..], convert)
  }

  /**
   * `Object.fromEntries(Object.entries(obj).map(([k, v]) => [convert(k), v]))`:
   * a new object with converted keys and the same values.
   */
  function MapKeys<V>(es: seq<(string, V)>, convert: string -> string): map<string, V> {
    FromEntries(Rekeyed(es, convert))
  }

  /** The keys of `MapKeys(es, convert)` are exactly the converted input keys. */
  lemma MapKeysKeys<V>(es: seq<(string, V)>, convert: string -> string, k: string)
    ensures k in MapKeys(es, convert) <==> exists i :: 0 <= i < |es| && convert(es[i].0) == k
  {
    var r := Rekeyed(es, convert);
    FromEntriesKeys(r, k);
    if exists i :: 0 <= i < |es| && convert(es[i].0) == k {
      var i :| 0 <= i < |es| && convert(es[i].0) == k;
      assert r[i].0 == k;
    }
  }

  /**
   * The value under a converted key is the value of the last input entry whose
   * key converts to it, unchanged.
   */
  lemma MapKeysValue<V>(es: seq<(string, V)>, convert: string -> string, i: nat)
    requires i < |es|
    requires forall j :: i < j < |es| ==> convert(es[j].0) != convert(es[i].0)
    ensures convert(es[i].0) in MapKeys(es, convert)
    ensures MapKeys(es, convert)[convert(es[i].0)] == es[i].1
  {
    var r := Rekeyed(es, convert);
    assert LastWith(r, convert(es[i].0), i);
    FromEntriesLastWins(r, convert(es[i].0), i);
  }

  /** `MapKeysKeys` and `MapKeysValue` for every key and every entry at once. */
  lemma MapKeysAll<V>(es: seq<(string, V)>, convert: string -> string)
    ensures forall k :: k in MapKeys(es, convert) <==> exists i :: 0 <= i < |es| && convert(es[i].0) == k
    ensures forall i :: 0 <= i < |es| && (forall j :: i < j < |es| ==> convert(es[j].0) != convert(es[i].0)) ==>
      convert(es[i].0) in MapKeys(es, convert) && MapKeys(es, convert)[convert(es[i].0)] == es[i].1
  {
    forall k {
      MapKeysKeys(es, convert, k);
    }
    forall i | 0 <= i < |es| && (forall j :: i < j < |es| ==> convert(es[j].0) != convert(es[i].0)) {
      MapKeysValue(es, convert, i);
    }
  }

  /** A single entry gives a single converted key. */
  lemma MapKeysOfOne<V>(k: string, v: V, convert: string -> string)
    ensures MapKeys([(k, v)], convert) == map[convert(k) := v]
  {
    var r := [(convert(k), v)];
    assert Rekeyed([(k, v)], convert) == r;
    assert r[..0] == [];
    assert FromEntries(r) == FromEntries(r[..0])[convert(k) := v];
    assert FromEntries(r[..0]) == map[];
  }
}
