/**
 * `flatten` and `unflatten` undo each other: saving a file rebuilds the
 * nesting it was loaded from, and loading a saved file gives back the flat
 * keys it was saved from.
 */
module RoundTrip {
  import opened Wrappers
  import opened Assoc
  import opened Text
  import opened JsonValue
  import opened KeyPath
  import opened FlattenProofs
  import opened UnflattenProofs

  // ---------------------------------------------------------------------------
  // Keys and paths

  lemma {:induction false} KeyOfJoin(prefix: string, p: Path)
    requires prefix != ""
    ensures KeyOf(prefix, p) == Join([prefix] + p)
    decreases |p|
  {
    if p != [] {
      KeyOfJoin(prefix + "." + p[0], p[1..]);
      assert ([prefix] + p)[1..] == p;
      assert [prefix + "." + p[0]] + p[1..] == [prefix + "." + p[0]] + p[1..];
      if |p| > 1 {
        assert ([prefix + "." + p[0]] + p[1..])[1..] == p[1..];
      }
    }
  }

  /** Below the top level, the key `flatten` writes for a path is its names joined with `.`. */
  lemma KeyOfTop(p: Path)
    requires |p| >= 1 && p[0] != ""
    ensures KeyOf("", p) == Join(p)
  {
    KeyOfJoin(p[0], p[1..]);
    assert [p[0]] + p[1..] == p;
  }

  // ---------------------------------------------------------------------------
  // Rebuilding an object from its leaf paths

  lemma {:induction false} InsertAllConcat(acc: seq<(string, Json)>, a: seq<(Path, Json)>, b: seq<(Path, Json)>)
    requires PathsNonEmpty(a) && PathsNonEmpty(b)
    ensures PathsNonEmpty(a + b)
    ensures InsertAll(acc, a + b) == InsertAll(InsertAll(acc, a), b)
    decreases |a|
  {
    if a == [] {
      assert a + b == b;
    } else {
      assert (a + b)[0] == a[0];
      assert (a + b)[1..] == a[1..] + b;
      InsertAllConcat(Insert(acc, a[0].0, a[0].1), a[1..], b);
    }
  }

  /** Paths under a property that was just written fill in that property's object. */
  lemma {:induction false} Descend(acc: seq<(string, Json)>, k: string, c: seq<(string, Json)>, es: seq<(Path, Json)>)
    requires k !in Keys(acc) && PathsNonEmpty(es)
    ensures InsertAll(acc + [(k, JObj(c))], Under(k, es)) == acc + [(k, JObj(InsertAll(c, es)))]
    decreases |es|
  {
    if es != [] {
      var u := Under(k, es);
      var p, v := es[0].0, es[0].1;
      assert u[0] == ([k] + p, v);
      assert ([k] + p)[0] == k && ([k] + p)[1..] == p;
      GetLast(acc, k, JObj(c));
      PutLast(acc, k, JObj(c), JObj(Insert(c, p, v)));
      assert Insert(acc + [(k, JObj(c))], [k] + p, v) == acc + [(k, JObj(Insert(c, p, v)))];
      assert u[1..] == Under(k, es[1..]);
      Descend(acc, k, Insert(c, p, v), es[1..]);
    }
  }

  /** The first path under a new property creates its object; the rest fill it in. */
  lemma DescendFresh(acc: seq<(string, Json)>, k: string, es: seq<(Path, Json)>)
    requires k !in Keys(acc) && es != [] && PathsNonEmpty(es)
    ensures InsertAll(acc, Under(k, es)) == acc + [(k, JObj(InsertAll([], es)))]
  {
    var u := Under(k, es);
    var p, v := es[0].0, es[0].1;
    assert u[0] == ([k] + p, v);
    assert ([k] + p)[0] == k && ([k] + p)[1..] == p;
    assert Insert(acc, [k] + p, v) == acc + [(k, JObj(Insert([], p, v)))];
    assert u[1..] == Under(k, es[1..]);
    Descend(acc, k, Insert([], p, v), es[1..]);
  }

  /** Inserting a regular object's leaf paths after entries with other names appends the object. */
  lemma {:induction false} InsertAllFields(acc: seq<(string, Json)>, f: seq<(string, Json)>)
    requires Regular(f)
    requires forall i :: 0 <= i < |f| ==> f[i].0 !in Keys(acc)
    ensures InsertAll(acc, LeafPaths(f)) == acc + f
    decreases f, 1
  {
    if f != [] {
      var t := f[1..];
      var a, b := FieldLeafPaths(f[0]), LeafPaths(t);
      assert LeafPaths(f) == a + b;
      assert RegularField(f[0]);
      InsertAllField(acc, f[0]);
      InsertAllConcat(acc, a, b);
      RestFresh(acc, f);
      InsertAllFields(acc + [f[0]], t);
      SnocConcat(acc, f);
    }
  }

  lemma RestFresh(acc: seq<(string, Json)>, f: seq<(string, Json)>)
    requires Regular(f) && f != []
    requires forall i :: 0 <= i < |f| ==> f[i].0 !in Keys(acc)
    ensures Regular(f[1..])
    ensures forall i :: 0 <= i < |f[1..]| ==> f[1..][i].0 !in Keys(acc + [f[0]])
  {
    var t := f[1..];
    UniqueTail(f);
    KeysAppend(acc, f[0]);
    forall i | 0 <= i < |t| ensures RegularField(t[i]) && t[i].0 !in Keys(acc + [f[0]]) {
      assert t[i] == f[i + 1];
    }
  }

  lemma {:induction false} InsertAllField(acc: seq<(string, Json)>, kv: (string, Json))
    requires RegularField(kv) && kv.0 !in Keys(acc)
    ensures InsertAll(acc, FieldLeafPaths(kv)) == acc + [kv]
    decreases kv, 0
  {
    if kv.1.JObj? {
      var g := kv.1.fields;
      assert RegularField(g[0]);
      FieldLeafPathsExist(g[0]);
      assert LeafPaths(g) == FieldLeafPaths(g[0]) + LeafPaths(g[1..]);
      DescendFresh(acc, kv.0, LeafPaths(g));
      InsertAllFields([], g);
      assert [] + g == g;
    } else {
      var es := FieldLeafPaths(kv);
      assert es[1..] == [];
    }
  }

  // ---------------------------------------------------------------------------
  // The two round trips

  /** Flattening a regular object writes each leaf path once, as its names joined with `.`. */
  lemma FlattenKeyed(f: seq<(string, Json)>) returns (ks: Flat)
    requires Regular(f)
    requires forall i :: 0 <= i < |f| ==> f[i].0 != ""
    ensures WellKeyed(f)
    ensures ks == Keyed("", LeafPaths(f)) && Flatten(f) == ks
    ensures forall n :: 0 <= n < |ks| ==> Split(ks[n].0) == LeafPaths(f)[n].0
  {
    var l := LeafPaths(f);
    ks := Keyed("", l);
    RegularWellKeyed(f);
    LeafPathsIndependent(f);
    LeafPathsDotFree(f);
    LeafPathHeads(f);
    forall n | 0 <= n < |l| ensures Split(ks[n].0) == l[n].0 {
      var j :| 0 <= j < |f| && f[j].0 == l[n].0[0];
      KeyOfTop(l[n].0);
      SplitJoin(l[n].0);
    }
    assert UniqueKeys(ks);
    FlattenPaths(f);
    PutAllFresh([], ks);
    assert [] + ks == ks;
  }

  /**
   * Saving after loading gives back the nesting: `unflatten(flatten(f))`
   * equals `f` when names are unique and dot-free at every depth, nested
   * objects are non-empty and top-level names are non-empty.
   */
  lemma UnflattenFlatten(f: seq<(string, Json)>)
    requires Regular(f)
    requires forall i :: 0 <= i < |f| ==> f[i].0 != ""
    ensures NoPrefixBefore(Flatten(f)) && Unflatten(Flatten(f)) == f
  {
    var l := LeafPaths(f);
    var ks := FlattenKeyed(f);
    assert SplitKeys(ks) == l;
    assert PrefixFree(ks) by {
      LeafPathsIndependent(f);
      forall a, b | 0 <= a < |ks| && 0 <= b < |ks| && a != b ensures !IsPrefix(Split(ks[a].0), Split(ks[b].0)) {
      }
    }
    InsertAllFields([], f);
    assert [] + f == f;
  }

  /** The leaf paths of `unflatten`'s result are the keys' paths with their values. */
  lemma LeafEntry(m: Flat, n: int) returns (i: int)
    requires PrefixFree(m) && LeafValued(m)
    requires 0 <= n < |LeafPaths(Build(m))|
    ensures 0 <= i < |m| && LeafPaths(Build(m))[n] == (Split(m[i].0), m[i].1)
  {
    var b := Build(m);
    BuildWellKeyed(m);
    LeafPathsSound(b, n);
    i := BuildLeaves(m, LeafPaths(b)[n].0);
  }

  /**
   * Loading after saving gives back the flat keys: `flatten(unflatten(m))`
   * holds exactly the entries of `m`, each key once, when no key's path is
   * a prefix of another's, no value is an object and no key starts with `.`.
   * Only the order may differ: keys sharing a first name come out together.
   */
  lemma FlattenUnflatten(m: Flat)
    requires UniqueKeys(m) && LeafValued(m) && PrefixFree(m)
    requires forall i :: 0 <= i < |m| ==> Split(m[i].0)[0] != ""
    ensures NoPrefixBefore(m)
    ensures UniqueKeys(Flatten(Unflatten(m)))
    ensures forall e :: e in Flatten(Unflatten(m)) <==> e in m
  {
    var b := Build(m);
    var l := LeafPaths(b);
    var ks := Keyed("", l);
    FreeBefore(m);
    EntriesFlattened(m);
    BuildWellKeyed(m);
    LeafPathsIndependent(b);
    forall n | 0 <= n < |ks| ensures ks[n] in m {
      var i := FlattenedEntry(m, n);
    }
    forall x, y | 0 <= x < y < |ks| ensures ks[x].0 != ks[y].0 {
      var i := FlattenedEntry(m, x);
      var j := FlattenedEntry(m, y);
      if ks[x].0 == ks[y].0 {
        assert false;
      }
    }
    FlattenPaths(b);
    PutAllFresh([], ks);
    assert [] + ks == ks;
  }

  lemma FreeBefore(m: Flat)
    requires PrefixFree(m)
    ensures NoPrefixBefore(m)
  {
    forall i, j | 0 <= i < j < |m| ensures !ProperPrefix(Split(m[i].0), Split(m[j].0)) {
      assert !IsPrefix(Split(m[i].0), Split(m[j].0));
    }
  }

  /** Each flattened entry is an entry of `m`, found at its key's path. */
  lemma FlattenedEntry(m: Flat, n: int) returns (i: int)
    requires LeafValued(m) && PrefixFree(m)
    requires forall i :: 0 <= i < |m| ==> Split(m[i].0)[0] != ""
    requires 0 <= n < |LeafPaths(Build(m))|
    ensures 0 <= i < |m| && Keyed("", LeafPaths(Build(m)))[n] == m[i]
    ensures LeafPaths(Build(m))[n].0 == Split(m[i].0)
  {
    i := LeafEntry(m, n);
    KeyOfTop(Split(m[i].0));
  }

  /** Every entry of `m` is flattened. */
  lemma EntriesFlattened(m: Flat)
    requires LeafValued(m) && PrefixFree(m)
    requires forall i :: 0 <= i < |m| ==> Split(m[i].0)[0] != ""
    ensures forall i :: 0 <= i < |m| ==> m[i] in Keyed("", LeafPaths(Build(m)))
  {
    var b := Build(m);
    var l := LeafPaths(b);
    var ks := Keyed("", l);
    BuildWellKeyed(m);
    forall i | 0 <= i < |m| ensures m[i] in ks {
      var p := Split(m[i].0);
      BuildReads(m, i);
      LeafPathsComplete(b, p);
      var n :| 0 <= n < |l| && l[n] == (p, m[i].1);
      KeyOfTop(p);
      assert ks[n] == m[i];
    }
  }
}
