/**
 * JavaScript objects with string keys, as the editor uses them: an
 * insertion-ordered association list. Assigning to a present key keeps its
 * position; assigning to a new key appends it; `delete` removes it.
 * (Integer-like keys, which JavaScript enumerates first, are not modelled.)
 */
module Assoc {
  import opened Wrappers

  /** The keys, in enumeration order (`Object.keys`). */
  function Keys<V>(m: seq<(string, V)>): (ks: seq<string>)
    ensures |ks| == |m|
    ensures forall i :: 0 <= i < |m| ==> ks[i] == m[i].0
  {
    if m == [] then [] else [m[0].0] + Keys(m[1..])
  }

  /** No key occurs twice: the invariant every JavaScript object keeps. */
  predicate UniqueKeys<V>(m: seq<(string, V)>) {
    forall i, j :: 0 <= i < j < |m| ==> m[i].0 != m[j].0
  }

  /** `m[k]`, `undefined` being `None`. */
  function Get<V>(m: seq<(string, V)>, k: string): (r: Option<V>)
    ensures r.None? <==> k !in Keys(m)
    ensures r.Some? ==> (k, r.value) in m
  {
    if m == [] then None
    else if m[0].0 == k then Some(m[0].1)
    else Get(m[1..], k)
  }

  /** In an object, the value stored under a key is the one its entry carries. */
  lemma {:induction false} GetUnique<V>(m: seq<(string, V)>, i: int)
    requires UniqueKeys(m) && 0 <= i < |m|
    ensures Get(m, m[i].0) == Some(m[i].1)
  {
    if i > 0 {
      GetUnique(m[1..], i - 1);
    }
  }

  /** `m[k] = v`: overwrite in place when `k` is present, append otherwise. */
  function Put<V>(m: seq<(string, V)>, k: string, v: V): (r: seq<(string, V)>)
    ensures k !in Keys(m) ==> r == m + [(k, v)]
    ensures k in Keys(m) ==> Keys(r) == Keys(m)
  {
    if m == [] then [(k, v)]
    else if m[0].0 == k then [(k, v)] + m[1..]
    else [m[0]] + Put(m[1..], k, v)
  }

  /** After `m[k] = v`, reading `k` gives `v` and every other key reads as before. */
  lemma {:induction false} PutGet<V>(m: seq<(string, V)>, k: string, v: V, k': string)
    ensures Get(Put(m, k, v), k') == if k' == k then Some(v) else Get(m, k')
  {
    if m != [] && m[0].0 != k {
      PutGet(m[1..], k, v, k');
    }
  }

  /** Every entry after `m[k] = v` was already there or is the new `(k, v)`. */
  lemma {:induction false} PutMembers<V>(m: seq<(string, V)>, k: string, v: V)
    ensures forall i :: 0 <= i < |Put(m, k, v)| ==> Put(m, k, v)[i] in m || Put(m, k, v)[i] == (k, v)
  {
    if m != [] && m[0].0 != k {
      PutMembers(m[1..], k, v);
      var r := Put(m, k, v);
      forall i | 0 <= i < |r| ensures r[i] in m || r[i] == (k, v) {
        if i > 0 {
          assert r[i] == Put(m[1..], k, v)[i - 1];
        }
      }
    }
  }

  /** Assignment keeps an object's keys unique. */
  lemma {:induction false} PutUnique<V>(m: seq<(string, V)>, k: string, v: V)
    ensures UniqueKeys(m) ==> UniqueKeys(Put(m, k, v))
  {
    var r := Put(m, k, v);
    if UniqueKeys(m) && k in Keys(m) {
      assert Keys(r) == Keys(m);
      forall i, j | 0 <= i < j < |r| ensures r[i].0 != r[j].0 {
        assert r[i].0 == Keys(r)[i] && r[j].0 == Keys(r)[j];
      }
    }
  }

  /** `delete m[k]`: the entry for `k` goes, every other entry stays in order. */
  function Delete<V>(m: seq<(string, V)>, k: string): (r: seq<(string, V)>)
    ensures k !in Keys(r)
    ensures k !in Keys(m) ==> r == m
  {
    if m == [] then []
    else if m[0].0 == k then Delete(m[1..], k)
    else [m[0]] + Delete(m[1..], k)
  }

  lemma DeleteHead<V>(m: seq<(string, V)>)
    requires m != [] && m[0].0 !in Keys(m[1..])
    ensures Delete(m, m[0].0) == m[1..]
  {
  }

  lemma DeleteOther<V>(m: seq<(string, V)>, k: string)
    requires m != [] && m[0].0 != k
    ensures Delete(m, k) == [m[0]] + Delete(m[1..], k)
  {
  }

  /** In an object, deleting a present key removes exactly its one entry. */
  lemma {:induction false} DeleteUnique<V>(m: seq<(string, V)>, i: int)
    requires UniqueKeys(m) && 0 <= i < |m|
    ensures Delete(m, m[i].0) == m[..i] + m[i + 1..]
  {
    UniqueTail(m);
    if i == 0 {
      DeleteHead(m);
      DropFirst(m);
    } else {
      var k := m[i].0;
      assert m[1..][i - 1] == m[i];
      DeleteOther(m, k);
      DeleteUnique(m[1..], i - 1);
      ConsSplit(m, i);
    }
  }

  /** Deleting one key leaves every other key reading as before. */
  lemma {:induction false} DeleteGet<V>(m: seq<(string, V)>, k: string, k': string)
    requires k' != k
    ensures Get(Delete(m, k), k') == Get(m, k')
  {
    if m != [] {
      DeleteGet(m[1..], k, k');
    }
  }

  lemma DropFirst<T>(m: seq<T>)
    requires m != []
    ensures m[..0] + m[1..] == m[1..]
  {
  }

  lemma ConsSplit<T>(m: seq<T>, i: int)
    requires 0 < i < |m|
    ensures [m[0]] + (m[1..][..i - 1] + m[1..][i..]) == m[..i] + m[i + 1..]
  {
    assert m[1..][..i - 1] == m[1..i];
    assert m[1..][i..] == m[i + 1..];
    assert [m[0]] + m[1..i] == m[..i];
  }

  /** Reading a key appended after entries that lack it gives the appended value. */
  lemma {:induction false} GetLast<V>(m: seq<(string, V)>, k: string, x: V)
    requires k !in Keys(m)
    ensures Get(m + [(k, x)], k) == Some(x)
    decreases |m|
  {
    if m != [] {
      assert m[0].0 == Keys(m)[0];
      assert (m + [(k, x)])[1..] == m[1..] + [(k, x)];
      KeysTail(m);
      GetLast(m[1..], k, x);
    }
  }

  /** Overwriting the last entry's key replaces that entry in place. */
  lemma {:induction false} PutLast<V>(m: seq<(string, V)>, k: string, x: V, y: V)
    requires k !in Keys(m)
    ensures Put(m + [(k, x)], k, y) == m + [(k, y)]
    decreases |m|
  {
    var mm := m + [(k, x)];
    if m == [] {
      assert mm == [(k, x)];
    } else {
      var t := m[1..];
      KeysTail(m);
      assert m[0].0 != k && k !in Keys(t);
      assert mm[0] == m[0] && mm[1..] == t + [(k, x)];
      PutStep(mm, k, y);
      PutLast(t, k, x, y);
      assert [m[0]] + (t + [(k, y)]) == m + [(k, y)];
    }
  }

  lemma PutStep<V>(m: seq<(string, V)>, k: string, v: V)
    requires m != [] && m[0].0 != k
    ensures Put(m, k, v) == [m[0]] + Put(m[1..], k, v)
  {
  }

  lemma KeysTail<V>(m: seq<(string, V)>)
    requires m != []
    ensures Keys(m) == [m[0].0] + Keys(m[1..])
  {
  }

  /** Whether keys repeat depends on the keys alone. */
  lemma UniqueSameKeys<V, W>(a: seq<(string, V)>, b: seq<(string, W)>)
    requires Keys(a) == Keys(b) && UniqueKeys(a)
    ensures UniqueKeys(b)
  {
    forall i, j | 0 <= i < j < |b| ensures b[i].0 != b[j].0 {
      assert Keys(b)[i] == a[i].0 && Keys(b)[j] == a[j].0;
    }
  }

  /** After `m[k] = v` the keys are the old ones and `k`. */
  lemma KeysPut<V>(m: seq<(string, V)>, k: string, v: V)
    ensures forall k' :: k' in Keys(Put(m, k, v)) <==> k' in Keys(m) || k' == k
  {
    if k !in Keys(m) {
      KeysAppend(m, (k, v));
    }
  }

  /** Writes every entry of `es` into `m`, left to right. */
  function PutAll<V>(m: seq<(string, V)>, es: seq<(string, V)>): seq<(string, V)>
    decreases |es|
  {
    if es == [] then m else PutAll(Put(m, es[0].0, es[0].1), es[1..])
  }

  lemma {:induction false} PutAllConcat<V>(m: seq<(string, V)>, a: seq<(string, V)>, b: seq<(string, V)>)
    ensures PutAll(m, a + b) == PutAll(PutAll(m, a), b)
    decreases |a|
  {
    if a != [] {
      assert (a + b)[0] == a[0];
      assert (a + b)[1..] == a[1..] + b;
      PutAllConcat(Put(m, a[0].0, a[0].1), a[1..], b);
    } else {
      assert a + b == b;
    }
  }

  lemma UniqueTail<V>(m: seq<(string, V)>)
    requires UniqueKeys(m) && m != []
    ensures UniqueKeys(m[1..])
    ensures m[0].0 !in Keys(m[1..])
  {
    var t := m[1..];
    forall a, b | 0 <= a < b < |t| ensures t[a].0 != t[b].0 {
      assert t[a] == m[a + 1] && t[b] == m[b + 1];
    }
    forall j | 0 <= j < |t| ensures Keys(t)[j] != m[0].0 {
      assert t[j] == m[j + 1];
    }
  }

  lemma KeysAppend<V>(m: seq<(string, V)>, e: (string, V))
    ensures Keys(m + [e]) == Keys(m) + [e.0]
  {
    var l, r := Keys(m + [e]), Keys(m) + [e.0];
    assert |l| == |r|;
    forall i | 0 <= i < |l| ensures l[i] == r[i] {
      if i < |m| { assert (m + [e])[i] == m[i]; }
    }
  }

  lemma SnocConcat<T>(m: seq<T>, es: seq<T>)
    requires es != []
    ensures (m + [es[0]]) + es[1..] == m + es
  {
    assert es == [es[0]] + es[1..];
  }

  /** Writing entries whose keys are new and pairwise distinct just appends them. */
  lemma {:induction false} PutAllFresh<V>(m: seq<(string, V)>, es: seq<(string, V)>)
    requires UniqueKeys(es)
    requires forall i :: 0 <= i < |es| ==> es[i].0 !in Keys(m)
    ensures PutAll(m, es) == m + es
    decreases |es|
  {
    if es != [] {
      var e, t := es[0], es[1..];
      assert e.0 !in Keys(m);
      var m' := m + [e];
      assert Put(m, e.0, e.1) == m';
      KeysAppend(m, e);
      UniqueTail(es);
      forall i | 0 <= i < |t|
        ensures t[i].0 !in Keys(m')
      {
        assert t[i] == es[i + 1];
        assert t[i].0 != e.0;
      }
      PutAllFresh(m', t);
      SnocConcat(m, es);
    }
  }
}
