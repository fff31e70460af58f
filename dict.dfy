/** Option, the result of a lookup that may miss. */
module Wrappers {
  datatype Option<+T> = None | Some(value: T)
}

/**
 An insertion-ordered dictionary with string keys, as Python's `dict`:
 a sequence of (key, value) pairs. Assigning to a present key replaces its
 value where it stands; assigning to a new key appends it at the end.
 */
module Dict {
  import opened Wrappers

  type Dict<V> = seq<(string, V)>

  /** The keys, in insertion order. */
  function Keys<V>(d: Dict<V>): (ks: seq<string>)
    ensures |ks| == |d|
    ensures forall i :: 0 <= i < |d| ==> ks[i] == d[i].0
  {
    if d == [] then [] else [d[0].0] + Keys(d[1..])
  }

  /** No key occurs twice: what every Python dict guarantees. */
  predicate UniqueKeys<V>(d: Dict<V>) {
    forall i, j :: 0 <= i < j < |d| ==> d[i].0 != d[j].0
  }

  predicate HasKey<V>(d: Dict<V>, k: string) {
    exists i :: 0 <= i < |d| && d[i].0 == k
  }

  /** `d.get(k)`: the value of the first pair whose key is `k`. */
  function Get<V>(d: Dict<V>, k: string): (r: Option<V>)
    ensures r.None? <==> !HasKey(d, k)
    ensures r.Some? ==> exists i :: 0 <= i < |d| && d[i] == (k, r.value)
  {
    if d == [] then None
    else if d[0].0 == k then Some(d[0].1)
    else
      var rest := Get(d[1..], k);
      assert forall i :: 0 <= i < |d[1..]| ==> d[1..][i] == d[i + 1];
      rest
  }

  /** `d[k] = v`. */
  function Put<V>(d: Dict<V>, k: string, v: V): (r: Dict<V>)
  {
    if d == [] then [(k, v)]
    else if d[0].0 == k then [(k, v)] + d[1..]
    else [d[0]] + Put(d[1..], k, v)
  }

  lemma GetUnique<V>(d: Dict<V>, i: nat)
    requires UniqueKeys(d) && i < |d|
    ensures Get(d, d[i].0) == Some(d[i].1)
  {
    if i > 0 {
      GetUnique(d[1..], i - 1);
    }
  }

  /** Assignment keeps the key order: a present key stays where it was. */
  lemma {:induction false} PutKeys<V>(d: Dict<V>, k: string, v: V)
    ensures Keys(Put(d, k, v)) == if HasKey(d, k) then Keys(d) else Keys(d) + [k]
  {
    if d != [] && d[0].0 != k {
      PutKeys(d[1..], k, v);
      assert HasKey(d, k) <==> HasKey(d[1..], k) by {
        if HasKey(d, k) {
          var i :| 0 <= i < |d| && d[i].0 == k;
          assert d[1..][i - 1].0 == k;
        }
        if HasKey(d[1..], k) {
          var i :| 0 <= i < |d[1..]| && d[1..][i].0 == k;
          assert d[i + 1].0 == k;
        }
      }
    } else if d != [] {
      assert d[0].0 == k;
      assert HasKey(d, k);
    }
  }

  /** After `d[k] = v`, `k` maps to `v` and every other key keeps its value. */
  lemma {:induction false} PutGet<V>(d: Dict<V>, k: string, v: V, j: string)
    ensures Get(Put(d, k, v), j) == if j == k then Some(v) else Get(d, j)
  {
    if d != [] && d[0].0 != k {
      PutGet(d[1..], k, v, j);
    }
  }

  lemma {:induction false} PutUnique<V>(d: Dict<V>, k: string, v: V)
    requires UniqueKeys(d)
    ensures UniqueKeys(Put(d, k, v))
  {
    if d != [] && d[0].0 != k {
      var tail := Put(d[1..], k, v);
      PutUnique(d[1..], k, v);
      PutElems(d[1..], k, v);
      forall i | 0 <= i < |tail| ensures tail[i].0 != d[0].0 {
        assert tail[i] in tail;
        if tail[i] in d[1..] {
          var j :| 0 <= j < |d[1..]| && d[1..][j] == tail[i];
          assert d[j + 1] == tail[i];
        }
      }
    }
  }

  /** Two assignments to the same key: the second wins, as if the first never happened. */
  lemma {:induction false} PutPut<V>(d: Dict<V>, k: string, a: V, b: V)
    ensures Put(Put(d, k, a), k, b) == Put(d, k, b)
  {
    if d != [] && d[0].0 != k {
      PutPut(d[1..], k, a, b);
    }
  }

  /** Every pair of `Put(d, k, v)` is a pair of `d` or the new pair. */
  lemma {:induction false} PutElems<V>(d: Dict<V>, k: string, v: V)
    ensures forall p :: p in Put(d, k, v) ==> p in d || p == (k, v)
  {
    if d != [] && d[0].0 != k {
      PutElems(d[1..], k, v);
    }
  }

  lemma InKeys<V>(d: Dict<V>, k: string)
    ensures k in Keys(d) <==> HasKey(d, k)
  {
    if HasKey(d, k) {
      var i :| 0 <= i < |d| && d[i].0 == k;
      assert Keys(d)[i] == k;
    }
  }

  /** Lookup in a dict with one more pair at the end: an earlier key hides it. */
  lemma {:induction false} GetSnoc<V>(d: Dict<V>, k: string, v: V, j: string)
    ensures Get(d + [(k, v)], j) == if HasKey(d, j) then Get(d, j) else if j == k then Some(v) else None
  {
    if d != [] {
      assert (d + [(k, v)])[1..] == d[1..] + [(k, v)];
      GetSnoc(d[1..], k, v, j);
      if d[0].0 != j {
        assert HasKey(d, j) <==> HasKey(d[1..], j) by {
          if HasKey(d, j) {
            var i :| 0 <= i < |d| && d[i].0 == j;
            assert d[1..][i - 1].0 == j;
          }
          if HasKey(d[1..], j) {
            var i :| 0 <= i < |d[1..]| && d[1..][i].0 == j;
            assert d[i + 1].0 == j;
          }
        }
      }
    }
  }
}
