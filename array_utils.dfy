/**
 * `array.ts`: `index`, which folds an array left to right into an object
 * without a prototype, storing each element (or its mapped value) under the
 * key the indexer gives it.
 */
module ArrayUtils {
  import opened Entries

  /** The assignments the fold makes, in order: the key of each element and the value stored. */
  function IndexEntries<T, R>(items: seq<T>, indexer: T -> string, mapper: T -> R): (es: seq<(string, R)>)
    ensures |es| == |items|
    ensures forall i :: 0 <= i < |items| ==> es[i] == (indexer(items[i]), mapper(items[i]))
  {
    seq(|items|, i requires 0 <= i < |items| => (indexer(items[i]), mapper(items[i])))
  }

  /** The object `index(array, indexer, mapper)` returns. */
  function Indexed<T, R>(items: seq<T>, indexer: T -> string, mapper: T -> R): map<string, R> {
    FromEntries(IndexEntries(items, indexer, mapper))
  }

  /**
   * `index(array, indexer, mapper)`: the `reduce` starts from an empty object
   * and assigns `r[indexer(t)] = mapper(t)` for each element in turn.
   */
  method IndexMapped<T, R>(items: seq<T>, indexer: T -> string, mapper: T -> R) returns (r: map<string, R>)
    ensures r == Indexed(items, indexer, mapper)
  {
    ghost var es := IndexEntries(items, indexer, mapper);
    r := map[];
    for i := 0 to |items|
      invariant r == FromEntries(es[..i])
    {
      assert es[..i + 1][..i] == es[..i];
      r := r[indexer(items[i]) := mapper(items[i])];
    }
    assert es[..|items|] == es;
  }

  /** `index(array, indexer)`: without a mapper each element is stored itself. */
  method Index<T>(items: seq<T>, indexer: T -> string) returns (r: map<string, T>)
    ensures r == Indexed(items, indexer, t => t)
  {
    r := IndexMapped(items, indexer, t => t);
  }

  /** The keys of the index are exactly the keys of the elements. */
  lemma IndexedKeys<T, R>(items: seq<T>, indexer: T -> string, mapper: T -> R, k: string)
    ensures k in Indexed(items, indexer, mapper) <==> exists i :: 0 <= i < |items| && indexer(items[i]) == k
  {
    var es := IndexEntries(items, indexer, mapper);
    FromEntriesKeys(es, k);
    if exists i :: 0 <= i < |items| && indexer(items[i]) == k {
      var i :| 0 <= i < |items| && indexer(items[i]) == k;
      assert es[i].0 == k;
    }
  }

  /**
   * The value under a key is the mapped value of the last element with that
   * key: a later element overwrites an earlier one.
   */
  lemma IndexedLastWins<T, R>(items: seq<T>, indexer: T -> string, mapper: T -> R, i: nat)
    requires i < |items|
    requires forall j :: i < j < |items| ==> indexer(items[j]) != indexer(items[i])
    ensures indexer(items[i]) in Indexed(items, indexer, mapper)
    ensures Indexed(items, indexer, mapper)[indexer(items[i])] == mapper(items[i])
  {
    var es := IndexEntries(items, indexer, mapper);
    assert LastWith(es, indexer(items[i]), i);
    FromEntriesLastWins(es, indexer(items[i]), i);
  }

  /** Every value of the index is the mapped value of some element stored under that key. */
  lemma IndexedValues<T, R>(items: seq<T>, indexer: T -> string, mapper: T -> R, k: string)
    requires k in Indexed(items, indexer, mapper)
    ensures exists i ::
      0 <= i < |items| && indexer(items[i]) == k && Indexed(items, indexer, mapper)[k] == mapper(items[i])
  {
    var es := IndexEntries(items, indexer, mapper);
    var i := FromEntriesHasLast(es, k);
    FromEntriesLastWins(es, k, i);
    assert indexer(items[i]) == k && Indexed(items, indexer, mapper)[k] == mapper(items[i]);
  }

  /** An empty array gives an empty object. */
  lemma IndexedOfEmpty<T, R>(indexer: T -> string, mapper: T -> R)
    ensures Indexed([], indexer, mapper) == map[]
  {
    assert IndexEntries([], indexer, mapper) == [];
  }

  function Parity(n: int): string {
    if n % 2 == 0 then "even" else "odd"
  }

  /** Indexing 1, 2, 3 by parity keeps the last odd and the last even number. */
  lemma IndexByParityExample()
    ensures Indexed([1, 2, 3], Parity, (n: int) => n) == map["odd" := 3, "even" := 2]
  {
    var m := Indexed([1, 2, 3], Parity, (n: int) => n);
    IndexedLastWins([1, 2, 3], Parity, (n: int) => n, 2);
    IndexedLastWins([1, 2, 3], Parity, (n: int) => n, 1);
    forall k ensures k in m <==> k == "odd" || k == "even" {
      IndexedKeys([1, 2, 3], Parity, (n: int) => n, k);
      if k in m {
        var i :| 0 <= i < 3 && Parity([1, 2, 3][i]) == k;
      }
    }
  }
}
