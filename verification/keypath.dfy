/**
 * The key-path codec: `flatten` turns a nested JSON object into one flat
 * object from dotted key paths to leaf values, and `unflatten` rebuilds the
 * nesting from the dots.
 */
module KeyPath {
  import opened Wrappers
  import opened Assoc
  import opened Text
  import opened JsonValue

  /** One file's flat object: dotted key path to leaf value. */
  type Flat = seq<(string, Json)>

  /** A key path as its list of property names. */
  type Path = seq<string>

  /** No value is a plain object: arrays, `null` and scalars are all leaves. */
  predicate LeafValued(m: seq<(string, Json)>) {
    forall i :: 0 <= i < |m| ==> !m[i].1.JObj?
  }

  /** The key of property `k` under `prefix`: `prefix.k`, or bare `k` when `prefix` is empty. */
  function Step(prefix: string, k: string): string {
    if prefix != "" then prefix + "." + k else k
  }

  /**
   * `flatten(obj, prefix, res)`: every property whose value is a plain object
   * is descended into under the extended prefix; every other property is
   * written into `res` under its key.
   */
  function FlattenInto(res: Flat, f: seq<(string, Json)>, prefix: string): (r: Flat)
    ensures LeafValued(res) ==> LeafValued(r)
    ensures UniqueKeys(res) ==> UniqueKeys(r)
    decreases f, 1
  {
    if f == [] then res else FlattenInto(FlattenField(res, f[0], prefix), f[1..], prefix)
  }

  /** One iteration of `flatten`'s loop, for the property `kv`. */
  function FlattenField(res: Flat, kv: (string, Json), prefix: string): (r: Flat)
    ensures LeafValued(res) ==> LeafValued(r)
    ensures UniqueKeys(res) ==> UniqueKeys(r)
    decreases kv, 0
  {
    var key := Step(prefix, kv.0);
    if kv.1.JObj? then FlattenInto(res, kv.1.fields, key)
    else
      PutMembers(res, key, kv.1);
      PutUnique(res, key, kv.1);
      Put(res, key, kv.1)
  }

  /** `flatten(obj)`: a flat object whose values are all leaves. */
  function Flatten(f: seq<(string, Json)>): (r: Flat)
    ensures LeafValued(r) && UniqueKeys(r)
  {
    FlattenInto([], f, "")
  }

  // ---------------------------------------------------------------------------
  // Reading and writing along a key path

  /** The value reached by following `p` down from the object `f`, if any. */
  function At(f: seq<(string, Json)>, p: Path): Option<Json>
    requires |p| >= 1
    decreases |p|
  {
    var c := Get(f, p[0]);
    if |p| == 1 then c
    else if c.Some? && c.value.JObj? then At(c.value.fields, p[1..])
    else None
  }

  /** There is a leaf (a value that is not a plain object) at `p`. */
  predicate LeafAt(f: seq<(string, Json)>, p: Path)
    requires |p| >= 1
  {
    At(f, p).Some? && !At(f, p).value.JObj?
  }

  /** Walking `p` down from `f` meets only absent properties and plain objects before its last name. */
  predicate Clear(f: seq<(string, Json)>, p: Path)
    requires |p| >= 1
    decreases |p|
  {
    |p| == 1 ||
      match Get(f, p[0])
      case None => true
      case Some(c) => c.JObj? && Clear(c.fields, p[1..])
  }

  /**
   * One step of `unflatten`'s `reduce` over the names of `p`: intermediate
   * names get a fresh `{}` when absent and are descended into when they hold
   * an object; the last name receives `v`. A leaf met on the way leaves the
   * object as it was; `Unflatten`'s precondition keeps that branch out of
   * reach.
   */
  function Insert(f: seq<(string, Json)>, p: Path, v: Json): seq<(string, Json)>
    requires |p| >= 1
    decreases |p|
  {
    if |p| == 1 then Put(f, p[0], v)
    else
      match Get(f, p[0])
      case None => Put(f, p[0], JObj(Insert([], p[1..], v)))
      case Some(c) =>
        if c.JObj? then Put(f, p[0], JObj(Insert(c.fields, p[1..], v))) else f
  }

  /** All key paths are non-empty. */
  predicate PathsNonEmpty(es: seq<(Path, Json)>) {
    forall i :: 0 <= i < |es| ==> |es[i].0| >= 1
  }

  /** Inserts every (path, value) of `es` into `acc`, left to right. */
  function InsertAll(acc: seq<(string, Json)>, es: seq<(Path, Json)>): seq<(string, Json)>
    requires PathsNonEmpty(es)
    decreases |es|
  {
    if es == [] then acc else InsertAll(Insert(acc, es[0].0, es[0].1), es[1..])
  }

  /** Each key of `m` split on `.`, with its value. */
  function SplitKeys(m: Flat): (es: seq<(Path, Json)>)
    ensures |es| == |m| && PathsNonEmpty(es)
    ensures forall i :: 0 <= i < |m| ==> es[i] == (Split(m[i].0), m[i].1)
  {
    seq(|m|, i requires 0 <= i < |m| => (Split(m[i].0), m[i].1))
  }

  /** `p` is `q` cut short: a proper prefix. */
  predicate ProperPrefix(p: Path, q: Path) {
    |p| < |q| && q[..|p|] == p
  }

  /** `p` is a prefix of `q`, possibly all of it. */
  predicate IsPrefix(p: Path, q: Path) {
    |p| <= |q| && q[..|p|] == p
  }

  /** No path of `es` is a prefix of (or equal to) another one's. */
  predicate Independent(es: seq<(Path, Json)>) {
    forall a, b :: 0 <= a < |es| && 0 <= b < |es| && a != b ==> !IsPrefix(es[a].0, es[b].0)
  }

  /**
   * No key's path is a proper prefix of a LATER key's path: the keys for
   * which `unflatten` never has to walk through a leaf it wrote earlier.
   */
  predicate NoPrefixBefore(m: Flat) {
    forall i, j :: 0 <= i < j < |m| ==> !ProperPrefix(Split(m[i].0), Split(m[j].0))
  }

  /** No key's path is a prefix of (or equal to) another key's path. */
  predicate PrefixFree(m: Flat) {
    forall i, j :: 0 <= i < |m| && 0 <= j < |m| && i != j ==> !IsPrefix(Split(m[i].0), Split(m[j].0))
  }

  /** `unflatten` without its domain restriction. */
  function Build(m: Flat): seq<(string, Json)> {
    InsertAll([], SplitKeys(m))
  }

  /**
   * The objects `flatten` and `unflatten` undo each other on: at every depth
   * property names are unique and free of `.`, and no nested object is empty.
   */
  predicate Regular(f: seq<(string, Json)>)
    decreases f, 1
  {
    UniqueKeys(f) && forall i :: 0 <= i < |f| ==> RegularField(f[i])
  }

  predicate RegularField(kv: (string, Json))
    decreases kv, 0
  {
    '.' !in kv.0 && (kv.1.JObj? ==> kv.1.fields != [] && Regular(kv.1.fields))
  }

  // ---------------------------------------------------------------------------
  // Flattening described by paths

  /** The key `flatten` writes for the path `p` below `prefix`. */
  function KeyOf(prefix: string, p: Path): string
    decreases |p|
  {
    if p == [] then prefix else KeyOf(Step(prefix, p[0]), p[1..])
  }

  /** `es` with `k` put in front of every path. */
  function Under(k: string, es: seq<(Path, Json)>): (r: seq<(Path, Json)>)
    ensures |r| == |es|
    ensures forall i :: 0 <= i < |es| ==> r[i] == ([k] + es[i].0, es[i].1)
  {
    seq(|es|, i requires 0 <= i < |es| => ([k] + es[i].0, es[i].1))
  }

  /**
   * The leaves of an object with their full paths, depth first in property
   * order: a reference description of what flattening visits.
   */
  function LeafPaths(f: seq<(string, Json)>): (r: seq<(Path, Json)>)
    ensures PathsNonEmpty(r)
    decreases f, 1
  {
    if f == [] then [] else FieldLeafPaths(f[0]) + LeafPaths(f[1..])
  }

  function FieldLeafPaths(kv: (string, Json)): (r: seq<(Path, Json)>)
    ensures PathsNonEmpty(r)
    decreases kv, 0
  {
    if kv.1.JObj? then Under(kv.0, LeafPaths(kv.1.fields)) else [([kv.0], kv.1)]
  }

  /** Each path of `es` turned into its key below `prefix`. */
  function Keyed(prefix: string, es: seq<(Path, Json)>): (r: Flat)
    ensures |r| == |es|
    ensures forall i :: 0 <= i < |es| ==> r[i] == (KeyOf(prefix, es[i].0), es[i].1)
  {
    seq(|es|, i requires 0 <= i < |es| => (KeyOf(prefix, es[i].0), es[i].1))
  }
}
