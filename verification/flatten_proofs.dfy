/**
 * What `flatten` computes, described by leaf paths: it writes the key of
 * every leaf path in depth-first order, and the leaf paths of an object are
 * exactly the paths that lead to a leaf.
 */
module FlattenProofs {
  import opened Wrappers
  import opened Assoc
  import opened Text
  import opened JsonValue
  import opened KeyPath

  lemma KeyedConcat(prefix: string, a: seq<(Path, Json)>, b: seq<(Path, Json)>)
    ensures Keyed(prefix, a + b) == Keyed(prefix, a) + Keyed(prefix, b)
  {
    var l, r := Keyed(prefix, a + b), Keyed(prefix, a) + Keyed(prefix, b);
    assert |l| == |r|;
    forall i | 0 <= i < |l| ensures l[i] == r[i] {
      if i < |a| { assert (a + b)[i] == a[i]; } else { assert (a + b)[i] == b[i - |a|]; }
    }
  }

  lemma KeyedUnder(prefix: string, k: string, es: seq<(Path, Json)>)
    ensures Keyed(prefix, Under(k, es)) == Keyed(Step(prefix, k), es)
  {
    var l, r := Keyed(prefix, Under(k, es)), Keyed(Step(prefix, k), es);
    forall i | 0 <= i < |l| ensures l[i] == r[i] {
      var p := [k] + es[i].0;
      assert p[0] == k && p[1..] == es[i].0;
    }
  }

  lemma PutAllOne(res: Flat, key: string, v: Json)
    ensures PutAll(res, [(key, v)]) == Put(res, key, v)
  {
  }

  /**
   * `flatten` writes, in depth-first property order, the key of every leaf
   * path: `prefix.name` below a non-empty prefix, the bare name at the top.
   */
  lemma {:induction false} FlattenIntoPaths(res: Flat, f: seq<(string, Json)>, prefix: string)
    ensures FlattenInto(res, f, prefix) == PutAll(res, Keyed(prefix, LeafPaths(f)))
    decreases f, 1
  {
    if f == [] {
      assert Keyed(prefix, LeafPaths(f)) == [];
    } else {
      var a: seq<(Path, Json)>, b: seq<(Path, Json)> := FieldLeafPaths(f[0]), LeafPaths(f[1..]);
      FlattenFieldPaths(res, f[0], prefix);
      var res' := FlattenField(res, f[0], prefix);
      FlattenIntoPaths(res', f[1..], prefix);
      KeyedConcat(prefix, a, b);
      PutAllConcat(res, Keyed(prefix, a), Keyed(prefix, b));
    }
  }

  lemma {:induction false} FlattenFieldPaths(res: Flat, kv: (string, Json), prefix: string)
    ensures FlattenField(res, kv, prefix) == PutAll(res, Keyed(prefix, FieldLeafPaths(kv)))
    decreases kv, 0
  {
    var key := Step(prefix, kv.0);
    if kv.1.JObj? {
      FlattenIntoPaths(res, kv.1.fields, key);
      KeyedUnder(prefix, kv.0, LeafPaths(kv.1.fields));
    } else {
      var p: Path := [kv.0];
      assert KeyOf(prefix, p) == KeyOf(key, p[1..]) == key;
      assert Keyed(prefix, FieldLeafPaths(kv)) == [(key, kv.1)];
      PutAllOne(res, key, kv.1);
    }
  }

  /** `Flatten` is the keys of the leaf paths written one after another. */
  lemma FlattenPaths(f: seq<(string, Json)>)
    ensures Flatten(f) == PutAll([], Keyed("", LeafPaths(f)))
  {
    FlattenIntoPaths([], f, "");
  }

  // ---------------------------------------------------------------------------
  // Leaf paths and the paths that lead to leaves

  /** The value below `v` along `p`, `v` itself for the empty path. */
  function Below(v: Json, p: Path): Option<Json> {
    if p == [] then Some(v) else if v.JObj? then At(v.fields, p) else None
  }

  lemma AtStep(f: seq<(string, Json)>, p: Path)
    requires |p| >= 1 && Get(f, p[0]).Some?
    ensures At(f, p) == Below(Get(f, p[0]).value, p[1..])
  {
  }

  lemma AtSameHead(f: seq<(string, Json)>, g: seq<(string, Json)>, p: Path)
    requires |p| >= 1 && Get(f, p[0]) == Get(g, p[0])
    ensures At(f, p) == At(g, p)
  {
  }

  /** A property of the object that is not the first one is read from the rest. */
  lemma GetTail(f: seq<(string, Json)>, k: string)
    requires f != [] && f[0].0 != k
    ensures Get(f, k) == Get(f[1..], k)
  {
  }

  /** Every leaf path starts with one of the object's own property names. */
  lemma {:induction false} LeafPathHeads(f: seq<(string, Json)>)
    ensures forall n :: 0 <= n < |LeafPaths(f)| ==> LeafPaths(f)[n].0[0] in Keys(f)
    decreases |f|
  {
    if f != [] {
      LeafPathHeads(f[1..]);
      var a: seq<(Path, Json)>, b: seq<(Path, Json)> := FieldLeafPaths(f[0]), LeafPaths(f[1..]);
      forall n | 0 <= n < |a + b| ensures (a + b)[n].0[0] in Keys(f) {
        if n < |a| {
          assert (a + b)[n] == a[n];
          assert a[n].0[0] == f[0].0;
          assert Keys(f)[0] == f[0].0;
        } else {
          assert (a + b)[n] == b[n - |a|];
          var k := b[n - |a|].0[0];
          var j :| 0 <= j < |f[1..]| && Keys(f[1..])[j] == k;
          assert Keys(f)[j + 1] == k;
        }
      }
    }
  }

  /** Each leaf path leads, in the object, to its leaf. */
  lemma {:induction false} LeafPathsSound(f: seq<(string, Json)>, n: int)
    requires WellKeyed(f) && 0 <= n < |LeafPaths(f)|
    ensures At(f, LeafPaths(f)[n].0) == Some(LeafPaths(f)[n].1)
    ensures !LeafPaths(f)[n].1.JObj?
    decreases f, 1
  {
    var a: seq<(Path, Json)>, b: seq<(Path, Json)> := FieldLeafPaths(f[0]), LeafPaths(f[1..]);
    var e := (a + b)[n];
    assert WellKeyedField(f[0]);
    if n < |a| {
      assert e == a[n];
      FieldLeafPathsSound(f[0], n);
      GetUnique(f, 0);
      AtStep(f, e.0);
    } else {
      assert e == b[n - |a|];
      UniqueTail(f);
      assert WellKeyed(f[1..]) by {
        forall i | 0 <= i < |f[1..]| ensures WellKeyedField(f[1..][i]) {
          assert f[1..][i] == f[i + 1];
        }
      }
      LeafPathsSound(f[1..], n - |a|);
      LeafPathHeads(f[1..]);
      GetTail(f, e.0[0]);
      AtSameHead(f, f[1..], e.0);
    }
  }

  lemma {:induction false} FieldLeafPathsSound(kv: (string, Json), n: int)
    requires WellKeyedField(kv) && 0 <= n < |FieldLeafPaths(kv)|
    ensures FieldLeafPaths(kv)[n].0[0] == kv.0
    ensures Below(kv.1, FieldLeafPaths(kv)[n].0[1..]) == Some(FieldLeafPaths(kv)[n].1)
    ensures !FieldLeafPaths(kv)[n].1.JObj?
    decreases kv, 0
  {
    var e := FieldLeafPaths(kv)[n];
    if kv.1.JObj? {
      var g := kv.1.fields;
      LeafPathsSound(g, n);
      assert e.0 == [kv.0] + LeafPaths(g)[n].0;
      assert e.0[1..] == LeafPaths(g)[n].0;
    } else {
      assert e.0[1..] == [];
    }
  }

  /** Every path that leads to a leaf is a leaf path. */
  lemma {:induction false} LeafPathsComplete(f: seq<(string, Json)>, p: Path)
    requires WellKeyed(f) && |p| >= 1 && LeafAt(f, p)
    ensures (p, At(f, p).value) in LeafPaths(f)
    decreases f, 1
  {
    var a: seq<(Path, Json)>, b: seq<(Path, Json)> := FieldLeafPaths(f[0]), LeafPaths(f[1..]);
    assert WellKeyedField(f[0]);
    if p[0] == f[0].0 {
      AtStep(f, p);
      FieldLeafPathsComplete(f[0], p[1..]);
      assert [p[0]] + p[1..] == p;
      assert (p, At(f, p).value) in a + b;
    } else {
      GetTail(f, p[0]);
      AtSameHead(f, f[1..], p);
      UniqueTail(f);
      assert WellKeyed(f[1..]) by {
        forall i | 0 <= i < |f[1..]| ensures WellKeyedField(f[1..][i]) {
          assert f[1..][i] == f[i + 1];
        }
      }
      LeafPathsComplete(f[1..], p);
      assert (p, At(f, p).value) in a + b;
    }
  }

  lemma {:induction false} FieldLeafPathsComplete(kv: (string, Json), q: Path)
    requires WellKeyedField(kv)
    requires Below(kv.1, q).Some? && !Below(kv.1, q).value.JObj?
    ensures ([kv.0] + q, Below(kv.1, q).value) in FieldLeafPaths(kv)
    decreases kv, 0
  {
    if q == [] {
      assert [kv.0] + q == [kv.0];
    } else {
      var g := kv.1.fields;
      LeafPathsComplete(g, q);
      var n :| 0 <= n < |LeafPaths(g)| && LeafPaths(g)[n] == (q, At(g, q).value);
      assert FieldLeafPaths(kv)[n] == ([kv.0] + q, At(g, q).value);
    }
  }

  // ---------------------------------------------------------------------------
  // Shape of the leaf paths

  lemma ConsPrefix(k: string, p: Path, q: Path)
    ensures IsPrefix([k] + p, [k] + q) ==> IsPrefix(p, q)
  {
    if IsPrefix([k] + p, [k] + q) {
      assert q[..|p|] == ([k] + q)[..|p| + 1][1..];
    }
  }

  lemma UnderIndependent(k: string, es: seq<(Path, Json)>)
    requires Independent(es)
    ensures Independent(Under(k, es))
  {
    var u := Under(k, es);
    forall a, b | 0 <= a < |u| && 0 <= b < |u| && a != b ensures !IsPrefix(u[a].0, u[b].0) {
      assert u[a].0 == [k] + es[a].0 && u[b].0 == [k] + es[b].0;
      ConsPrefix(k, es[a].0, es[b].0);
    }
  }

  lemma IndependentConcat(x: seq<(Path, Json)>, y: seq<(Path, Json)>)
    requires Independent(x) && Independent(y) && PathsNonEmpty(x) && PathsNonEmpty(y)
    requires forall a, b :: 0 <= a < |x| && 0 <= b < |y| ==> x[a].0[0] != y[b].0[0]
    ensures Independent(x + y)
  {
    var z := x + y;
    forall a, b | 0 <= a < |z| && 0 <= b < |z| && a != b ensures !IsPrefix(z[a].0, z[b].0) {
      if a < |x| && b >= |x| {
        assert z[a] == x[a] && z[b] == y[b - |x|];
      } else if a >= |x| && b < |x| {
        assert z[a] == y[a - |x|] && z[b] == x[b];
      } else if a < |x| {
        assert z[a] == x[a] && z[b] == x[b];
      } else {
        assert z[a] == y[a - |x|] && z[b] == y[b - |x|];
      }
    }
  }

  /** In an object with unique names, no leaf path is a prefix of another. */
  lemma {:induction false} LeafPathsIndependent(f: seq<(string, Json)>)
    requires WellKeyed(f)
    ensures Independent(LeafPaths(f))
    decreases f, 1
  {
    if f != [] {
      var a: seq<(Path, Json)>, b: seq<(Path, Json)> := FieldLeafPaths(f[0]), LeafPaths(f[1..]);
      assert WellKeyedField(f[0]);
      FieldLeafPathsIndependent(f[0]);
      UniqueTail(f);
      assert WellKeyed(f[1..]) by {
        forall i | 0 <= i < |f[1..]| ensures WellKeyedField(f[1..][i]) {
          assert f[1..][i] == f[i + 1];
        }
      }
      LeafPathsIndependent(f[1..]);
      LeafPathHeads(f[1..]);
      forall i, j | 0 <= i < |a| && 0 <= j < |b| ensures a[i].0[0] != b[j].0[0] {
        FieldLeafPathsSound(f[0], i);
      }
      IndependentConcat(a, b);
    }
  }

  lemma {:induction false} FieldLeafPathsIndependent(kv: (string, Json))
    requires WellKeyedField(kv)
    ensures Independent(FieldLeafPaths(kv))
    decreases kv, 0
  {
    if kv.1.JObj? {
      LeafPathsIndependent(kv.1.fields);
      UnderIndependent(kv.0, LeafPaths(kv.1.fields));
    }
  }

  /** Regular objects are well keyed. */
  lemma {:induction false} RegularWellKeyed(f: seq<(string, Json)>)
    requires Regular(f)
    ensures WellKeyed(f)
    decreases f, 1
  {
    forall i | 0 <= i < |f| ensures WellKeyedField(f[i]) {
      RegularFieldWellKeyed(f[i]);
    }
  }

  lemma {:induction false} RegularFieldWellKeyed(kv: (string, Json))
    requires RegularField(kv)
    ensures WellKeyedField(kv)
    decreases kv, 0
  {
    if kv.1.JObj? {
      RegularWellKeyed(kv.1.fields);
    }
  }

  /** In a regular object every name on every leaf path is free of `.`. */
  lemma {:induction false} LeafPathsDotFree(f: seq<(string, Json)>)
    requires Regular(f)
    ensures forall n, s :: 0 <= n < |LeafPaths(f)| && 0 <= s < |LeafPaths(f)[n].0| ==> '.' !in LeafPaths(f)[n].0[s]
    decreases f, 1
  {
    if f != [] {
      var a: seq<(Path, Json)>, b: seq<(Path, Json)> := FieldLeafPaths(f[0]), LeafPaths(f[1..]);
      assert RegularField(f[0]);
      FieldLeafPathsDotFree(f[0]);
      assert Regular(f[1..]) by {
        UniqueTail(f);
        forall i | 0 <= i < |f[1..]| ensures RegularField(f[1..][i]) {
          assert f[1..][i] == f[i + 1];
        }
      }
      LeafPathsDotFree(f[1..]);
      forall n, s | 0 <= n < |a + b| && 0 <= s < |(a + b)[n].0| ensures '.' !in (a + b)[n].0[s] {
        if n < |a| { assert (a + b)[n] == a[n]; } else { assert (a + b)[n] == b[n - |a|]; }
      }
    }
  }

  lemma {:induction false} FieldLeafPathsDotFree(kv: (string, Json))
    requires RegularField(kv)
    ensures forall n, s :: 0 <= n < |FieldLeafPaths(kv)| && 0 <= s < |FieldLeafPaths(kv)[n].0| ==> '.' !in FieldLeafPaths(kv)[n].0[s]
    decreases kv, 0
  {
    if kv.1.JObj? {
      var g := kv.1.fields;
      LeafPathsDotFree(g);
      forall n, s | 0 <= n < |FieldLeafPaths(kv)| && 0 <= s < |FieldLeafPaths(kv)[n].0|
        ensures '.' !in FieldLeafPaths(kv)[n].0[s]
      {
        var p := LeafPaths(g)[n].0;
        assert FieldLeafPaths(kv)[n].0 == [kv.0] + p;
        if s > 0 { assert ([kv.0] + p)[s] == p[s - 1]; }
      }
    }
  }

  /** A non-empty regular object has at least one leaf. */
  lemma {:induction false} FieldLeafPathsExist(kv: (string, Json))
    requires RegularField(kv)
    ensures FieldLeafPaths(kv) != []
    decreases kv, 0
  {
    if kv.1.JObj? {
      var g := kv.1.fields;
      assert RegularField(g[0]);
      FieldLeafPathsExist(g[0]);
      assert LeafPaths(g) == FieldLeafPaths(g[0]) + LeafPaths(g[1..]);
    }
  }
}
