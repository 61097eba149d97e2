/**
  Filling a `HashMap` by iterating a list and calling `insert` for the items
  that yield an entry: later inserts overwrite earlier ones under the same key.
  Both the schema map and the field map of a telemetry record are built this way.
 */
module LastWins {
  import opened Wrappers

  /** The keys the items of `items` insert. */
  function Produced<T, K, V>(items: seq<T>, entry: T -> Option<(K, V)>): set<K> {
    set i | 0 <= i < |items| && entry(items[i]).Some? :: entry(items[i]).value.0
  }

  /** Item `i` inserts `k` and no later item inserts `k` again. */
  predicate LastToInsert<T, K(==), V>(items: seq<T>, entry: T -> Option<(K, V)>, i: int, k: K) {
    && 0 <= i < |items|
    && entry(items[i]).Some? && entry(items[i]).value.0 == k
    && forall j :: i < j < |items| ==> entry(items[j]).None? || entry(items[j]).value.0 != k
  }

  lemma ProducedSnoc<T, K, V>(items: seq<T>, entry: T -> Option<(K, V)>)
    requires |items| > 0
    ensures var last := entry(items[|items| - 1]);
            var front := Produced(items[..|items| - 1], entry);
            Produced(items, entry) == if last.Some? then front + {last.value.0} else front
  {
    var front := items[..|items| - 1];
    forall i | 0 <= i < |front|
      ensures front[i] == items[i]
    {
    }
  }

  /** One `insert`, when there is an entry to insert. */
  function Put<K, V>(m: map<K, V>, e: Option<(K, V)>): map<K, V> {
    match e
    case None => m
    case Some(kv) => m[kv.0 := kv.1]
  }

  /** `base` after inserting, in order, the entry of every item that yields one. */
  function InsertAll<T, K, V>(base: map<K, V>, items: seq<T>, entry: T -> Option<(K, V)>): (m: map<K, V>)
    ensures m.Keys == base.Keys + Produced(items, entry)
    decreases |items|
  {
    if items == [] then base
    else
      ProducedSnoc(items, entry);
      Put(InsertAll(base, items[..|items| - 1], entry), entry(items[|items| - 1]))
  }

  /** A key no item inserts keeps its value from `base`. */
  lemma {:induction false} InsertAllKeepsUntouched<T, K, V>(base: map<K, V>, items: seq<T>, entry: T -> Option<(K, V)>, k: K)
    requires k in base && k !in Produced(items, entry)
    ensures InsertAll(base, items, entry)[k] == base[k]
    decreases |items|
  {
    if items != [] {
      ProducedSnoc(items, entry);
      InsertAllKeepsUntouched(base, items[..|items| - 1], entry, k);
    }
  }

  /** The value under an inserted key is the one the last item inserting it carries. */
  lemma {:induction false} InsertAllLastWins<T, K, V>(base: map<K, V>, items: seq<T>, entry: T -> Option<(K, V)>, i: int, k: K)
    requires LastToInsert(items, entry, i, k)
    ensures InsertAll(base, items, entry)[k] == entry(items[i]).value.1
    decreases |items|
  {
    var n := |items| - 1;
    var front := items[..n];
    assert InsertAll(base, items, entry) == Put(InsertAll(base, front, entry), entry(items[n]));
    if i < n {
      assert LastToInsert(front, entry, i, k) by {
        forall j | i < j < |front|
          ensures entry(front[j]).None? || entry(front[j]).value.0 != k
        {
          assert front[j] == items[j];
        }
      }
      InsertAllLastWins(base, front, entry, i, k);
    }
  }

  /** Inserting from a concatenation is inserting from each part in turn. */
  lemma {:induction false} InsertAllAppend<T, K, V>(base: map<K, V>, a: seq<T>, b: seq<T>, entry: T -> Option<(K, V)>)
    ensures InsertAll(base, a + b, entry) == InsertAll(InsertAll(base, a, entry), b, entry)
    decreases |b|
  {
    if b == [] {
      assert a + b == a;
    } else {
      var n := |b| - 1;
      assert (a + b)[..|a + b| - 1] == a + b[..n];
      assert (a + b)[|a + b| - 1] == b[n];
      InsertAllAppend(base, a, b[..n], entry);
    }
  }

  /** An item that yields no entry can be dropped without changing the result. */
  lemma SkipItemWithoutEntry<T, K, V>(base: map<K, V>, items: seq<T>, entry: T -> Option<(K, V)>, i: int)
    requires 0 <= i < |items| && entry(items[i]).None?
    ensures InsertAll(base, items, entry) == InsertAll(base, items[..i] + items[i + 1..], entry)
  {
    var front, middle, back := items[..i], [items[i]], items[i + 1..];
    assert items == (front + middle) + back;
    InsertAllAppend(base, front + middle, back, entry);
    InsertAllAppend(base, front, middle, entry);
    assert middle[..0] == [];
    InsertAllAppend(base, front, back, entry);
  }
}
