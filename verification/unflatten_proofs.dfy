/**
 * What `unflatten` builds: where it writes, what it leaves alone, and which
 * leaves end up in its result.
 */
module UnflattenProofs {
  import opened Wrappers
  import opened Assoc
  import opened Text
  import opened JsonValue
  import opened KeyPath
  import opened FlattenProofs

  // ---------------------------------------------------------------------------
  // Paths

  lemma PrefixTail(p: Path, q: Path)
    requires |p| >= 1 && |q| >= 1 && p[0] == q[0]
    ensures IsPrefix(p[1..], q[1..]) <==> IsPrefix(p, q)
    ensures ProperPrefix(p[1..], q[1..]) <==> ProperPrefix(p, q)
  {
    assert p == [p[0]] + p[1..];
    if |p| <= |q| {
      assert q[..|p|] == [q[0]] + q[1..][..|p| - 1];
    }
  }

  lemma PrefixHead(p: Path, q: Path)
    requires |p| >= 1 && IsPrefix(p, q)
    ensures p[0] == q[0]
  {
    assert q[..|p|][0] == q[0];
  }

  // ---------------------------------------------------------------------------
  // Reading after one insertion

  /** A value inserted along a clear path is found there. */
  lemma {:induction false} InsertAtSelf(f: seq<(string, Json)>, p: Path, v: Json)
    requires |p| >= 1 && Clear(f, p)
    ensures At(Insert(f, p, v), p) == Some(v)
    decreases |p|
  {
    if |p| == 1 {
      PutGet(f, p[0], v, p[0]);
    } else {
      match Get(f, p[0])
      case None =>
        InsertAtSelf([], p[1..], v);
        PutGet(f, p[0], JObj(Insert([], p[1..], v)), p[0]);
      case Some(c) =>
        InsertAtSelf(c.fields, p[1..], v);
        PutGet(f, p[0], JObj(Insert(c.fields, p[1..], v)), p[0]);
    }
  }

  /** Inserting along `p` leaves every path that is neither above nor below `p` as it was. */
  lemma {:induction false} InsertAtOther(f: seq<(string, Json)>, p: Path, v: Json, q: Path)
    requires |p| >= 1 && |q| >= 1
    requires !IsPrefix(p, q) && !IsPrefix(q, p)
    ensures At(Insert(f, p, v), q) == At(f, q)
    decreases |p|
  {
    var g := Insert(f, p, v);
    if p[0] != q[0] {
      if |p| == 1 {
        PutGet(f, p[0], v, q[0]);
      } else {
        match Get(f, p[0])
        case None => PutGet(f, p[0], JObj(Insert([], p[1..], v)), q[0]);
        case Some(c) =>
          if c.JObj? { PutGet(f, p[0], JObj(Insert(c.fields, p[1..], v)), q[0]); }
      }
      AtSameHead(g, f, q);
    } else {
      assert |p| > 1 && |q| > 1 by {
        assert [p[0]] == p[..1] && [q[0]] == q[..1];
      }
      PrefixTail(p, q);
      PrefixTail(q, p);
      match Get(f, p[0])
      case None =>
        var w := Insert([], p[1..], v);
        PutGet(f, p[0], JObj(w), q[0]);
        InsertAtOther([], p[1..], v, q[1..]);
      case Some(c) =>
        if c.JObj? {
          PutGet(f, p[0], JObj(Insert(c.fields, p[1..], v)), q[0]);
          InsertAtOther(c.fields, p[1..], v, q[1..]);
        }
    }
  }

  /** After inserting along a clear path, every proper prefix of it holds an object. */
  lemma {:induction false} InsertAtAbove(f: seq<(string, Json)>, p: Path, v: Json, q: Path)
    requires |p| >= 1 && Clear(f, p) && |q| >= 1 && ProperPrefix(q, p)
    ensures At(Insert(f, p, v), q).Some? && At(Insert(f, p, v), q).value.JObj?
    decreases |q|
  {
    PrefixHead(q, p);
    var w := match Get(f, p[0]) case None => [] case Some(c) => c.fields;
    PutGet(f, p[0], JObj(Insert(w, p[1..], v)), p[0]);
    if |q| > 1 {
      PrefixTail(q, p);
      InsertAtAbove(w, p[1..], v, q[1..]);
    }
  }

  /** Nothing lies below a leaf. */
  lemma {:induction false} AtBelowLeaf(f: seq<(string, Json)>, p: Path, q: Path)
    requires |p| >= 1 && LeafAt(f, p) && ProperPrefix(p, q)
    ensures At(f, q) == None
    decreases |p|
  {
    PrefixHead(p, q);
    if |p| > 1 {
      PrefixTail(p, q);
      AtBelowLeaf(Get(f, p[0]).value.fields, p[1..], q[1..]);
    }
  }

  /** A path is clear when no proper prefix of it ends at a leaf. */
  lemma {:induction false} ClearFromNoLeaf(f: seq<(string, Json)>, p: Path)
    requires |p| >= 1
    requires forall d :: 1 <= d < |p| ==> !LeafAt(f, p[..d])
    ensures Clear(f, p)
    decreases |p|
  {
    if |p| > 1 && Get(f, p[0]).Some? {
      assert !LeafAt(f, p[..1]);
      assert p[..1] == [p[0]];
      var g := Get(f, p[0]).value.fields;
      forall d | 1 <= d < |p| - 1 ensures !LeafAt(g, p[1..][..d]) {
        assert !LeafAt(f, p[..d + 1]);
        assert p[..d + 1][0] == p[0] && p[..d + 1][1..] == p[1..][..d];
      }
      ClearFromNoLeaf(g, p[1..]);
    }
  }

  // ---------------------------------------------------------------------------
  // Building key by key

  lemma {:induction false} InsertAllSnoc(acc: seq<(string, Json)>, es: seq<(Path, Json)>, e: (Path, Json))
    requires PathsNonEmpty(es) && |e.0| >= 1
    ensures PathsNonEmpty(es + [e])
    ensures InsertAll(acc, es + [e]) == Insert(InsertAll(acc, es), e.0, e.1)
    decreases |es|
  {
    if es == [] {
      assert es + [e] == [e];
    } else {
      assert (es + [e])[1..] == es[1..] + [e];
      InsertAllSnoc(Insert(acc, es[0].0, es[0].1), es[1..], e);
    }
  }

  /** `unflatten` of a non-empty flat object is the last key inserted into `unflatten` of the others. */
  lemma BuildSnoc(m: Flat)
    requires |m| >= 1
    ensures Build(m) == Insert(Build(m[..|m| - 1]), Split(m[|m| - 1].0), m[|m| - 1].1)
  {
    var n := |m| - 1;
    assert SplitKeys(m) == SplitKeys(m[..n]) + [(Split(m[n].0), m[n].1)];
    InsertAllSnoc([], SplitKeys(m[..n]), (Split(m[n].0), m[n].1));
  }

  lemma NoPrefixBeforeInit(m: Flat, n: int)
    requires NoPrefixBefore(m) && 0 <= n <= |m|
    ensures NoPrefixBefore(m[..n])
  {
    forall i, j | 0 <= i < j < n ensures !ProperPrefix(Split(m[..n][i].0), Split(m[..n][j].0)) {
      assert m[..n][i] == m[i] && m[..n][j] == m[j];
    }
  }

  lemma PrefixFreeInit(m: Flat, n: int)
    requires PrefixFree(m) && 0 <= n <= |m|
    ensures PrefixFree(m[..n])
  {
    forall i, j | 0 <= i < n && 0 <= j < n && i != j ensures !IsPrefix(Split(m[..n][i].0), Split(m[..n][j].0)) {
      assert m[..n][i] == m[i] && m[..n][j] == m[j];
    }
  }

  /**
   * Under `unflatten`'s precondition, each key's path is clear in the
   * object built from the keys before it: JavaScript's `acc[part] || {}`
   * never meets a leaf.
   */
  lemma {:induction false} BuildClear(m: Flat)
    requires NoPrefixBefore(m) && |m| >= 1
    ensures Clear(Build(m[..|m| - 1]), Split(m[|m| - 1].0))
    decreases |m|, 0
  {
    var n := |m| - 1;
    var b, p := Build(m[..n]), Split(m[n].0);
    NoPrefixBeforeInit(m, n);
    forall d | 1 <= d < |p| ensures !LeafAt(b, p[..d]) {
      if LeafAt(b, p[..d]) {
        var i := LeafOrigin(m[..n], p[..d]);
        assert m[..n][i] == m[i];
        assert ProperPrefix(Split(m[i].0), p);
        assert false;
      }
    }
    ClearFromNoLeaf(b, p);
  }

  /** Every leaf of `unflatten`'s result lies at or below the path of some key. */
  lemma {:induction false} LeafOrigin(m: Flat, q: Path) returns (i: int)
    requires NoPrefixBefore(m) && |q| >= 1 && LeafAt(Build(m), q)
    ensures 0 <= i < |m| && IsPrefix(Split(m[i].0), q)
    decreases |m|, 1
  {
    if m == [] {
      assert false;
    }
    var n := |m| - 1;
    var b, p := Build(m[..n]), Split(m[n].0);
    BuildSnoc(m);
    BuildClear(m);
    if IsPrefix(p, q) {
      i := n;
    } else if IsPrefix(q, p) {
      InsertAtAbove(b, p, m[n].1, q);
      assert false;
    } else {
      InsertAtOther(b, p, m[n].1, q);
      NoPrefixBeforeInit(m, n);
      i := LeafOrigin(m[..n], q);
      assert m[..n][i] == m[i];
    }
  }

  /** With prefix-free keys, every key's value is found along its path. */
  lemma {:induction false} BuildReads(m: Flat, i: int)
    requires PrefixFree(m) && 0 <= i < |m|
    ensures At(Build(m), Split(m[i].0)) == Some(m[i].1)
    decreases |m|
  {
    var n := |m| - 1;
    var b, p := Build(m[..n]), Split(m[n].0);
    BuildSnoc(m);
    BuildClear(m);
    if i == n {
      InsertAtSelf(b, p, m[n].1);
    } else {
      PrefixFreeInit(m, n);
      BuildReads(m[..n], i);
      assert m[..n][i] == m[i];
      InsertAtOther(b, p, m[n].1, Split(m[i].0));
    }
  }

  /** With prefix-free keys and leaf values, the leaves of `unflatten`'s result are exactly the keys' values at the keys' paths. */
  lemma BuildLeaves(m: Flat, q: Path) returns (i: int)
    requires PrefixFree(m) && LeafValued(m) && |q| >= 1 && LeafAt(Build(m), q)
    ensures 0 <= i < |m| && q == Split(m[i].0) && At(Build(m), q) == Some(m[i].1)
  {
    i := LeafOrigin(m, q);
    var p := Split(m[i].0);
    BuildReads(m, i);
    if p != q {
      assert LeafAt(Build(m), p);
      AtBelowLeaf(Build(m), p, q);
    }
  }

  // ---------------------------------------------------------------------------
  // Unique names at every depth

  lemma PutWellKeyed(f: seq<(string, Json)>, k: string, w: Json)
    requires WellKeyed(f) && WellKeyedField((k, w))
    ensures WellKeyed(Put(f, k, w))
  {
    PutUnique(f, k, w);
    PutMembers(f, k, w);
    var r := Put(f, k, w);
    forall i | 0 <= i < |r| ensures WellKeyedField(r[i]) {
      if r[i] != (k, w) {
        var j :| 0 <= j < |f| && f[j] == r[i];
      }
    }
  }

  /** Inserting never duplicates a name, at any depth. */
  lemma {:induction false} InsertWellKeyed(f: seq<(string, Json)>, p: Path, v: Json)
    requires |p| >= 1 && WellKeyed(f) && WellKeyedField(("", v))
    ensures WellKeyed(Insert(f, p, v))
    decreases |p|
  {
    if |p| == 1 {
      PutWellKeyed(f, p[0], v);
    } else {
      match Get(f, p[0])
      case None =>
        InsertWellKeyed([], p[1..], v);
        PutWellKeyed(f, p[0], JObj(Insert([], p[1..], v)));
      case Some(c) =>
        if c.JObj? {
          var j :| 0 <= j < |f| && f[j] == (p[0], c);
          assert WellKeyedField(f[j]);
          InsertWellKeyed(c.fields, p[1..], v);
          PutWellKeyed(f, p[0], JObj(Insert(c.fields, p[1..], v)));
        }
    }
  }

  lemma {:induction false} BuildWellKeyed(m: Flat)
    requires LeafValued(m)
    ensures WellKeyed(Build(m))
    decreases |m|
  {
    if m == [] {
      assert Build(m) == [];
    } else {
      var n := |m| - 1;
      BuildSnoc(m);
      assert m[..n][..] == m[..n];
      assert LeafValued(m[..n]) by {
        forall i | 0 <= i < n ensures !m[..n][i].1.JObj? { assert m[..n][i] == m[i]; }
      }
      BuildWellKeyed(m[..n]);
      InsertWellKeyed(Build(m[..n]), Split(m[n].0), m[n].1);
    }
  }

  // ---------------------------------------------------------------------------
  // `unflatten` on its domain

  lemma BuildFacts(m: Flat)
    ensures LeafValued(m) ==> WellKeyed(Build(m))
    ensures PrefixFree(m) ==> forall i :: 0 <= i < |m| ==> At(Build(m), Split(m[i].0)) == Some(m[i].1)
  {
    if LeafValued(m) {
      BuildWellKeyed(m);
    }
    if PrefixFree(m) {
      forall i | 0 <= i < |m| ensures At(Build(m), Split(m[i].0)) == Some(m[i].1) {
        BuildReads(m, i);
      }
    }
  }

  /**
   * `unflatten(obj)`. Inputs where a leaf written for one key lies on the
   * path of a later key are excluded: there JavaScript's `unflatten`
   * replaces a falsy leaf by `{}`, writes into an array leaf as if it were
   * an object, and drops or throws on a write into a truthy primitive.
   */
  function Unflatten(m: Flat): (r: seq<(string, Json)>)
    requires NoPrefixBefore(m)
    ensures LeafValued(m) ==> WellKeyed(r)
    ensures PrefixFree(m) ==> forall i :: 0 <= i < |m| ==> At(r, Split(m[i].0)) == Some(m[i].1)
  {
    BuildFacts(m);
    Build(m)
  }
}
