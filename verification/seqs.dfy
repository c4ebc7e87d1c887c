/**
 * The array operations the editor applies to its key order: `indexOf`,
 * `splice`, `map` for renaming, `filter` for deleting, and the swap of two
 * neighbouring rows.
 */
module Seqs {
  import opened Wrappers

  /** `xs.indexOf(x)`: the first position holding `x`, `None` for -1. */
  function IndexOf<T(==)>(xs: seq<T>, x: T): (r: Option<nat>)
    ensures r.None? <==> x !in xs
    ensures r.Some? ==> r.value < |xs| && xs[r.value] == x && x !in xs[..r.value]
  {
    if xs == [] then None
    else if xs[0] == x then Some(0)
    else
      var t := IndexOf(xs[1..], x);
      if t.None? then None
      else
        assert xs[..t.value + 1] == [xs[0]] + xs[1..][..t.value];
        Some(t.value + 1)
  }

  /** `xs.splice(i, 0, x)`: `x` placed at position `i`. */
  function InsertAt<T>(xs: seq<T>, i: nat, x: T): (r: seq<T>)
    requires i <= |xs|
    ensures |r| == |xs| + 1 && r[i] == x
    ensures forall j :: 0 <= j < i ==> r[j] == xs[j]
    ensures forall j :: i <= j < |xs| ==> r[j + 1] == xs[j]
  {
    xs[..i] + [x] + xs[i..]
  }

  /** The element at position `i` taken out. */
  function RemoveAt<T>(xs: seq<T>, i: nat): (r: seq<T>)
    requires i < |xs|
    ensures |r| == |xs| - 1
    ensures forall j :: 0 <= j < i ==> r[j] == xs[j]
    ensures forall j :: i <= j < |r| ==> r[j] == xs[j + 1]
  {
    xs[..i] + xs[i + 1..]
  }

  /** Splicing an element in and taking it out again gives back the sequence. */
  lemma RemoveInsert<T>(xs: seq<T>, i: nat, x: T)
    requires i <= |xs|
    ensures RemoveAt(InsertAt(xs, i, x), i) == xs
  {
  }

  /** Where `x` first occurs in `xs`; `|xs|` when it does not occur. */
  function FirstPos<T(==)>(xs: seq<T>, x: T): nat {
    IndexOf(xs, x).GetOr(|xs|)
  }

  /**
   * Positions `lo` up to `hi` of `r` hold elements of `ks`, in the order of
   * their first occurrence in `ks`.
   */
  predicate FirstSeenOrder<T(==)>(r: seq<T>, lo: nat, hi: nat, ks: seq<T>)
    requires lo <= hi <= |r|
  {
    && (forall i :: lo <= i < hi ==> r[i] in ks)
    && (forall i, j :: lo <= i < j < hi ==> FirstPos(ks, r[i]) < FirstPos(ks, r[j]))
  }

  /** Past a different head, the first occurrence is one further on than in the tail. */
  lemma IndexOfTail<T>(ks: seq<T>, x: T)
    requires ks != [] && x != ks[0] && x in ks
    ensures x in ks[1..] && FirstPos(ks, x) == FirstPos(ks[1..], x) + 1
  {
    assert ks == [ks[0]] + ks[1..];
  }

  /** In `a + b`, an element of `a` is found where it is in `a`; any other element of `b` is found `|a|` further on. */
  lemma IndexOfConcat<T>(a: seq<T>, b: seq<T>, x: T)
    ensures x in a ==> FirstPos(a + b, x) == FirstPos(a, x) < |a|
    ensures x !in a && x in b ==> FirstPos(a + b, x) == |a| + FirstPos(b, x)
  {
    var p := IndexOf(a + b, x);
    if x in a {
      var q := IndexOf(a, x).value;
      assert (a + b)[q] == x;
      assert forall k | 0 <= k < p.value :: (a + b)[..p.value][k] == (a + b)[k];
      assert forall k | 0 <= k < q :: a[..q][k] == a[k] == (a + b)[k];
    } else if x in b {
      var q := IndexOf(b, x).value;
      assert (a + b)[|a| + q] == x;
      assert forall k | 0 <= k < p.value :: (a + b)[..p.value][k] == (a + b)[k];
      assert forall k | 0 <= k < |a| :: (a + b)[k] == a[k];
      assert forall k | 0 <= k < q :: b[..q][k] == b[k] == (a + b)[|a| + k];
    }
  }

  /** Two ordered segments, the first drawn from `a` and the second from `b` but not `a`, are ordered in `a + b`. */
  lemma FirstSeenConcat<T>(r: seq<T>, lo: nat, mid: nat, hi: nat, a: seq<T>, b: seq<T>)
    requires lo <= mid <= hi <= |r|
    requires FirstSeenOrder(r, lo, mid, a) && FirstSeenOrder(r, mid, hi, b)
    requires forall i :: mid <= i < hi ==> r[i] !in a
    ensures FirstSeenOrder(r, lo, hi, a + b)
  {
    forall i | lo <= i < hi
      ensures r[i] in a + b
      ensures i < mid ==> FirstPos(a + b, r[i]) == FirstPos(a, r[i]) < |a|
      ensures mid <= i ==> FirstPos(a + b, r[i]) == |a| + FirstPos(b, r[i])
    {
      IndexOfConcat(a, b, r[i]);
    }
  }

  /**
   * An ordered segment drawn from `ks[1..]` stays ordered in `ks` when it
   * avoids `ks[0]`, also with `ks[0]` put in front of it.
   */
  lemma FirstSeenCons<T>(r: seq<T>, lo: nat, mid: nat, ks: seq<T>)
    requires ks != [] && lo <= mid <= |r| && (mid == lo || (mid == lo + 1 && r[lo] == ks[0]))
    requires FirstSeenOrder(r, mid, |r|, ks[1..])
    requires forall i :: mid <= i < |r| ==> r[i] != ks[0]
    ensures FirstSeenOrder(r, lo, |r|, ks)
  {
    forall i | mid <= i < |r| ensures r[i] in ks && FirstPos(ks, r[i]) == FirstPos(ks[1..], r[i]) + 1 {
      IndexOfTail(ks, r[i]);
    }
    if mid == lo + 1 {
      assert FirstPos(ks, r[lo]) == 0;
    }
  }

  /** `xs.map(k => k === a ? b : k)`. */
  function Replace<T(==)>(xs: seq<T>, a: T, b: T): (r: seq<T>)
    ensures |r| == |xs|
    ensures forall j :: 0 <= j < |xs| ==> r[j] == if xs[j] == a then b else xs[j]
  {
    seq(|xs|, j requires 0 <= j < |xs| => if xs[j] == a then b else xs[j])
  }

  /** Renaming to a name that was not in use can be undone by renaming back. */
  lemma ReplaceBack<T>(xs: seq<T>, a: T, b: T)
    requires b !in xs
    ensures Replace(Replace(xs, a, b), b, a) == xs
  {
  }

  /** After renaming, the old name is gone and the new one is wherever the old one was. */
  lemma ReplaceGone<T>(xs: seq<T>, a: T, b: T)
    requires a != b
    ensures a !in Replace(xs, a, b)
    ensures a in xs ==> b in Replace(xs, a, b)
    ensures multiset(Replace(xs, a, b))[b] == multiset(xs)[a] + multiset(xs)[b]
    decreases |xs|
  {
    if xs != [] {
      ReplaceGone(xs[1..], a, b);
      assert Replace(xs, a, b) == [Replace(xs, a, b)[0]] + Replace(xs[1..], a, b);
      assert xs == [xs[0]] + xs[1..];
    }
  }

  /** `xs.filter(k => k !== x)`. */
  function Remove<T(==)>(xs: seq<T>, x: T): (r: seq<T>)
    ensures multiset(r) == multiset(xs)[x := 0]
    decreases |xs|
  {
    if xs == [] then []
    else
      assert xs == [xs[0]] + xs[1..];
      if xs[0] == x then Remove(xs[1..], x) else [xs[0]] + Remove(xs[1..], x)
  }

  /** Filtering out an element that does not occur changes nothing. */
  lemma {:induction false} RemoveAbsent<T>(xs: seq<T>, x: T)
    requires x !in xs
    ensures Remove(xs, x) == xs
    decreases |xs|
  {
    if xs != [] {
      RemoveAbsent(xs[1..], x);
      assert xs == [xs[0]] + xs[1..];
    }
  }

  /** Filtering keeps the relative order: it distributes over concatenation. */
  lemma {:induction false} RemoveConcat<T>(a: seq<T>, b: seq<T>, x: T)
    ensures Remove(a + b, x) == Remove(a, x) + Remove(b, x)
    decreases |a|
  {
    if a == [] {
      assert a + b == b;
    } else {
      assert (a + b)[0] == a[0] && (a + b)[1..] == a[1..] + b;
      RemoveConcat(a[1..], b, x);
    }
  }

  /** Filtering out an element that occurs once takes out that one occurrence and keeps the rest in order. */
  lemma RemoveOne<T>(a: seq<T>, b: seq<T>, x: T)
    requires x !in a && x !in b
    ensures Remove(a + [x] + b, x) == a + b
  {
    var ax := a + [x];
    RemoveConcat(a, [x], x);
    RemoveAbsent(a, x);
    assert Remove([x], x) == [] by {
      assert [x][0] == x && [x][1..] == [];
    }
    assert Remove(ax, x) == a;
    RemoveConcat(ax, b, x);
    RemoveAbsent(b, x);
  }

  /** Elements at positions `i` and `i + 1` exchanged. */
  function SwapNext<T>(xs: seq<T>, i: nat): (r: seq<T>)
    requires i + 1 < |xs|
    ensures |r| == |xs| && r[i] == xs[i + 1] && r[i + 1] == xs[i]
    ensures forall j :: 0 <= j < |xs| && j != i && j != i + 1 ==> r[j] == xs[j]
  {
    xs[i := xs[i + 1]][i + 1 := xs[i]]
  }

  /** Swapping is its own inverse and never loses or duplicates an element. */
  lemma SwapNextTwice<T>(xs: seq<T>, i: nat)
    requires i + 1 < |xs|
    ensures SwapNext(SwapNext(xs, i), i) == xs
    ensures multiset(SwapNext(xs, i)) == multiset(xs)
  {
    var r := SwapNext(xs, i);
    assert xs == xs[..i] + [xs[i], xs[i + 1]] + xs[i + 2..];
    assert r == xs[..i] + [xs[i + 1], xs[i]] + xs[i + 2..];
  }
}
