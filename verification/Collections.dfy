/** Facts about sequences and maps that the models share. */
module Collections {

  lemma Assoc<T>(a: seq<T>, b: seq<T>, c: seq<T>)
    ensures a + (b + c) == a + b + c
  {
  }

  lemma InAppend<T>(q: seq<T>, x: T)
    ensures forall y :: y in q + [x] <==> y in q || y == x
  {
    assert (q + [x])[|q|] == x;
  }

  /** Positions in a sequence of n, in order, each once. */
  ghost predicate Positions(at: seq<nat>, n: nat) {
    && (forall k :: 0 <= k < |at| ==> at[k] < n)
    && (forall j, k :: 0 <= j < k < |at| ==> at[j] < at[k])
  }

  lemma NextPosition(at: seq<nat>, n: nat)
    requires Positions(at, n)
    ensures Positions(at, n + 1) && Positions(at + [n], n + 1) && n !in at
    ensures forall i :: i in at + [n] <==> i in at || i == n
  {
    InAppend(at, n);
  }

  /** How writing or removing one key changes the size of a map. */
  lemma KeysSize<K, V>(m: map<K, V>, k: K, v: V)
    ensures |m[k := v]| == |m| + if k in m then 0 else 1
    ensures k in m ==> |m - {k}| == |m| - 1
  {
    assert m[k := v].Keys == m.Keys + {k} && (m - {k}).Keys == m.Keys - {k};
    assert |m[k := v].Keys| == |m[k := v]| && |m.Keys| == |m| && |(m - {k}).Keys| == |m - {k}|;
  }

  lemma UpdateOneKey<K, V>(m: map<K, V>, k: K, v: V)
    ensures m[k := v] - {k} == m - {k} && (k !in m ==> m - {k} == m)
  {
  }

  /** A subset is no larger. */
  lemma {:induction false} SubsetSize<T>(x: set<T>, y: set<T>)
    requires x <= y
    ensures |x| <= |y|
    decreases x
  {
    if x != {} {
      var e :| e in x;
      SubsetSize(x - {e}, y - {e});
    }
  }

  lemma AtMostOneMore<T>(x: set<T>, y: set<T>, e: T)
    requires x <= y + {e}
    ensures |x| <= |y| + 1
  {
    SubsetSize(x, y + {e});
  }

  // ---------- Maps whose values are lists ----------

  /** Go's zero-value map read: a missing key reads as the empty list. */
  function Get<K, V>(m: map<K, seq<V>>, k: K): seq<V> {
    if k in m then m[k] else []
  }

  lemma GetUpdate<K, V>(m: map<K, seq<V>>, k: K, list: seq<V>)
    ensures forall x {:trigger Get(m[k := list], x)} :: Get(m[k := list], x) == if x == k then list else Get(m, x)
  {
  }

  /** The total length of all the lists in a map. */
  ghost function Total<K, V>(m: map<K, seq<V>>): nat {
    if m == map[] then 0
    else
      var k :| k in m;
      |m[k]| + Total(m - {k})
  }

  /** The total does not depend on the key it starts from. */
  lemma {:induction false} TotalPick<K, V>(m: map<K, seq<V>>, k: K)
    requires k in m
    ensures Total(m) == |m[k]| + Total(m - {k})
    decreases m
  {
    var j :| j in m && Total(m) == |m[j]| + Total(m - {j});
    if j != k {
      TotalPick(m - {j}, k);
      TotalPick(m - {k}, j);
      assert m - {j} - {k} == m - {k} - {j};
    }
  }

  /** Appending to one list adds what was appended. */
  lemma TotalAppend<K, V>(m: map<K, seq<V>>, k: K, more: seq<V>)
    ensures Total(m[k := Get(m, k) + more]) == Total(m) + |more|
  {
    var m' := m[k := Get(m, k) + more];
    TotalPick(m', k);
    assert m' - {k} == m - {k};
    if k in m {
      TotalPick(m, k);
    } else {
      assert m - {k} == m;
    }
  }

  /** Keys with empty lists do not change the total. */
  lemma {:induction false} TotalIgnoresEmpty<K, V>(m: map<K, seq<V>>, n: map<K, seq<V>>)
    requires m.Keys <= n.Keys
    requires forall k :: k in n ==> n[k] == Get(m, k)
    ensures Total(n) == Total(m)
    decreases n
  {
    if n != map[] {
      var k :| k in n;
      TotalIgnoresEmpty(m - {k}, n - {k});
      TotalPick(n, k);
      if k in m {
        TotalPick(m, k);
      } else {
        assert m - {k} == m;
      }
    }
  }
}
