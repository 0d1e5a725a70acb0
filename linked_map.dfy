/** Insertion-ordered maps as `java.util.LinkedHashMap` keeps them: a sequence of
    (key, value) entries, oldest first. `put` on a present key overwrites its value
    and keeps its position; `put` on a new key appends an entry. */
module LinkedMap {
  import opened Wrappers

  /** No key occurs in two entries (the invariant every LinkedHashMap keeps). */
  ghost predicate NoDuplicateKeys<K, V>(m: seq<(K, V)>) {
    forall i, j :: 0 <= i < j < |m| ==> m[i].0 != m[j].0
  }

  /** The keys in iteration order. */
  function Keys<K, V>(m: seq<(K, V)>): seq<K> {
    seq(|m|, i requires 0 <= i < |m| => m[i].0)
  }

  /** `get(k)`: the value stored for k, or None when k has no entry. */
  function Get<K(==), V>(m: seq<(K, V)>, k: K): Option<V> {
    if m == [] then None
    else if m[0].0 == k then Some(m[0].1)
    else Get(m[1..], k)
  }

  /** `put(k, v)`: overwrite the entry of k where it stands, or append a new one. */
  function Put<K(==), V>(m: seq<(K, V)>, k: K, v: V): seq<(K, V)> {
    if m == [] then [(k, v)]
    else if m[0].0 == k then [(k, v)] + m[1..]
    else [m[0]] + Put(m[1..], k, v)
  }

  /** `get` finds a key exactly when it has an entry, and then returns that entry's value. */
  lemma {:induction false} GetSpec<K, V>(m: seq<(K, V)>, k: K)
    requires NoDuplicateKeys(m)
    ensures Get(m, k).None? <==> k !in Keys(m)
    ensures forall i :: 0 <= i < |m| && m[i].0 == k ==> Get(m, k) == Some(m[i].1)
  {
    if m != [] {
      assert NoDuplicateKeys(m[1..]) by {
        forall i, j | 0 <= i < j < |m[1..]| ensures m[1..][i].0 != m[1..][j].0 {
          assert m[1..][i] == m[i + 1] && m[1..][j] == m[j + 1];
        }
      }
      GetSpec(m[1..], k);
      assert Keys(m) == [m[0].0] + Keys(m[1..]);
      forall i | 0 <= i < |m| && m[i].0 == k ensures Get(m, k) == Some(m[i].1) {
        if i > 0 {
          assert m[1..][i - 1] == m[i];
        }
      }
    }
  }

  /** `put` changes only the entry of k (in place) or appends it at the end;
      every other entry keeps its key, value and position. */
  lemma {:induction false} PutSpec<K, V>(m: seq<(K, V)>, k: K, v: V)
    requires NoDuplicateKeys(m)
    ensures k in Keys(m) ==> |Put(m, k, v)| == |m|
    ensures k !in Keys(m) ==> Put(m, k, v) == m + [(k, v)]
    ensures forall i :: 0 <= i < |m| ==> Put(m, k, v)[i] == if m[i].0 == k then (k, v) else m[i]
    ensures Keys(Put(m, k, v)) == if k in Keys(m) then Keys(m) else Keys(m) + [k]
    ensures NoDuplicateKeys(Put(m, k, v))
  {
    if m != [] {
      var tail := m[1..];
      assert NoDuplicateKeys(tail) by {
        forall i, j | 0 <= i < j < |tail| ensures tail[i].0 != tail[j].0 {
          assert tail[i] == m[i + 1] && tail[j] == m[j + 1];
        }
      }
      assert Keys(m) == [m[0].0] + Keys(tail);
      if m[0].0 == k {
        assert k !in Keys(tail) by {
          forall i | 0 <= i < |tail| ensures tail[i].0 != k {
            assert tail[i] == m[i + 1];
          }
        }
        assert Keys(Put(m, k, v)) == [k] + Keys(tail);
      } else {
        PutSpec(tail, k, v);
        var p := Put(m, k, v);
        assert p == [m[0]] + Put(tail, k, v);
        assert Keys(p) == [m[0].0] + Keys(Put(tail, k, v));
        forall i | 0 <= i < |m| ensures p[i] == if m[i].0 == k then (k, v) else m[i] {
          if i > 0 {
            assert p[i] == Put(tail, k, v)[i - 1] && tail[i - 1] == m[i];
          }
        }
        assert m[0].0 !in Keys(Put(tail, k, v)) by {
          forall i | 0 <= i < |tail| ensures tail[i].0 != m[0].0 {
            assert tail[i] == m[i + 1];
          }
        }
        forall i, j | 0 <= i < j < |p| ensures p[i].0 != p[j].0 {
          if i > 0 {
            assert p[i] == Put(tail, k, v)[i - 1] && p[j] == Put(tail, k, v)[j - 1];
          } else {
            assert p[j].0 == Keys(Put(tail, k, v))[j - 1];
          }
        }
      }
    }
  }

  /** After `put(k, v)`, `get(k)` returns v. */
  lemma {:induction false} PutThenGet<K, V>(m: seq<(K, V)>, k: K, v: V)
    ensures Get(Put(m, k, v), k) == Some(v)
  {
    if m != [] && m[0].0 != k {
      PutThenGet(m[1..], k, v);
    }
  }

  /** After `put(k, v)`, `get` of any other key is what it was before. */
  lemma {:induction false} PutThenGetOther<K, V>(m: seq<(K, V)>, k: K, v: V, other: K)
    requires other != k
    ensures Get(Put(m, k, v), other) == Get(m, other)
  {
    if m != [] && m[0].0 != k && m[0].0 != other {
      PutThenGetOther(m[1..], k, v, other);
    }
  }
}
