/**
 * `saveAll`: each file's flat map is rebuilt from the rows on screen and
 * arranged in key order; the document written is `unflatten` of it.
 */
module Saving {
  import opened Wrappers
  import opened Assoc
  import opened Text
  import opened JsonValue
  import opened KeyPath
  import opened Seqs
  import opened Store

  /** The last row whose key is `k`: the one whose cells a save keeps. */
  function LastWith(rows: seq<Row>, k: string): (r: Option<nat>)
    ensures r.None? <==> forall j :: 0 <= j < |rows| ==> RowKey(rows[j]) != k
    ensures r.Some? ==> r.value < |rows| && RowKey(rows[r.value]) == k
    ensures r.Some? ==> forall j :: r.value < j < |rows| ==> RowKey(rows[j]) != k
    decreases |rows|
  {
    if rows == [] then None
    else
      var t := LastWith(rows[1..], k);
      assert forall j :: 0 < j < |rows| ==> rows[j] == rows[1..][j - 1];
      if t.Some? then Some(t.value + 1)
      else if RowKey(rows[0]) == k then Some(0)
      else None
  }

  /** Every row that has a key has a cell for column `c`. */
  predicate HasColumn(rows: seq<Row>, c: nat) {
    forall j :: 0 <= j < |rows| && RowKey(rows[j]) != "" ==> c < |rows[j].cells|
  }

  lemma HasColumnTail(rows: seq<Row>, c: nat)
    requires rows != [] && HasColumn(rows, c)
    ensures HasColumn(rows[1..], c)
  {
    forall j | 0 <= j < |rows[1..]| ensures rows[1..][j] == rows[j + 1] {}
  }

  /** One row's turn for the file in column `c`: a row with a key writes its trimmed cell under it. */
  function Write(acc: Flat, row: Row, c: nat): (r: Flat)
    requires RowKey(row) != "" ==> c < |row.cells|
    ensures UniqueKeys(acc) ==> UniqueKeys(r)
  {
    if RowKey(row) == "" then acc
    else
      PutUnique(acc, RowKey(row), JStr(Trim(row.cells[c])));
      Put(acc, RowKey(row), JStr(Trim(row.cells[c])))
  }

  /**
   * `filesData[fname]` for the file in column `c`, built row by row on top
   * of `acc`; a later row with the same key overwrites an earlier one.
   */
  function CollectInto(acc: Flat, rows: seq<Row>, c: nat): (r: Flat)
    requires HasColumn(rows, c)
    ensures UniqueKeys(acc) ==> UniqueKeys(r)
    decreases |rows|
  {
    if rows == [] then acc
    else
      HasColumnTail(rows, c);
      CollectInto(Write(acc, rows[0], c), rows[1..], c)
  }

  function Collect(rows: seq<Row>, c: nat): (r: Flat)
    requires HasColumn(rows, c)
    ensures UniqueKeys(r)
  {
    CollectInto([], rows, c)
  }

  /** The collected value of a key is the trimmed cell of the last row carrying it. */
  lemma {:induction false} CollectIntoGet(acc: Flat, rows: seq<Row>, c: nat, k: string)
    requires HasColumn(rows, c) && k != ""
    ensures Get(CollectInto(acc, rows, c), k) ==
      match LastWith(rows, k)
      case None => Get(acc, k)
      case Some(j) => Some(JStr(Trim(rows[j].cells[c])))
    decreases |rows|
  {
    if rows != [] {
      HasColumnTail(rows, c);
      var k0 := RowKey(rows[0]);
      CollectIntoGet(Write(acc, rows[0], c), rows[1..], c, k);
      if k0 != "" {
        PutGet(acc, k0, JStr(Trim(rows[0].cells[c])), k);
      }
      assert forall j :: 0 <= j < |rows[1..]| ==> rows[1..][j] == rows[j + 1];
    }
  }

  lemma {:induction false} CollectIntoNoEmpty(acc: Flat, rows: seq<Row>, c: nat)
    requires HasColumn(rows, c) && "" !in Keys(acc)
    ensures "" !in Keys(CollectInto(acc, rows, c))
    decreases |rows|
  {
    if rows != [] {
      HasColumnTail(rows, c);
      var k0 := RowKey(rows[0]);
      if k0 != "" {
        PutGet(acc, k0, JStr(Trim(rows[0].cells[c])), "");
      }
      CollectIntoNoEmpty(Write(acc, rows[0], c), rows[1..], c);
    }
  }

  /**
   * What the rows give column `c`: a key that is not empty has a value
   * exactly when some row carries it, and it is the trimmed cell of the last
   * such row; the empty key never has one.
   */
  lemma CollectGet(rows: seq<Row>, c: nat, k: string)
    requires HasColumn(rows, c)
    ensures k == "" ==> Get(Collect(rows, c), k) == None
    ensures k != "" ==> (Get(Collect(rows, c), k) ==
      match LastWith(rows, k)
      case None => None
      case Some(j) => Some(JStr(Trim(rows[j].cells[c]))))
  {
    if k == "" {
      CollectIntoNoEmpty([], rows, c);
    } else {
      CollectIntoGet([], rows, c, k);
    }
  }

  /**
   * The loop over `keyOrder` from position `p` on, `acc` holding what was
   * written for the positions before: every key that has a collected value
   * is written with it.
   */
  function ArrangeFrom(order: seq<string>, p: nat, col: Flat, acc: Flat): (r: Flat)
    requires p <= |order|
    decreases |order| - p
  {
    if p == |order| then acc
    else
      var k := order[p];
      ArrangeFrom(order, p + 1, col, if k in Keys(col) then Put(acc, k, Get(col, k).value) else acc)
  }

  /** The file written for the collected map `col`: its keys arranged in key order. */
  function Arrange(order: seq<string>, col: Flat): Flat {
    ArrangeFrom(order, 0, col, [])
  }

  /** The keys of `f` in the order of their first occurrence in `order`. */
  predicate InOrder(f: Flat, order: seq<string>) {
    forall a, b :: 0 <= a < b < |f| ==>
      f[a].0 in order && f[b].0 in order && IndexOf(order, f[a].0).value < IndexOf(order, f[b].0).value
  }

  lemma FirstBefore(order: seq<string>, p: nat, x: string)
    requires p <= |order| && x in order[..p]
    ensures IndexOf(order, x).Some? && IndexOf(order, x).value < p
  {
    var q :| 0 <= q < p && order[..p][q] == x;
    assert order[q] == x;
  }

  /** What the loop over the key order keeps, having passed position `p`. */
  predicate ArrangeInv(order: seq<string>, p: nat, col: Flat, acc: Flat)
    requires p <= |order|
  {
    UniqueKeys(acc) && InOrder(acc, order) &&
    (forall a :: 0 <= a < |acc| ==> acc[a].0 in order[..p]) && Agrees(acc, col) &&
    (forall q :: 0 <= q < p && order[q] in Keys(col) ==> order[q] in Keys(acc))
  }

  /** The step for a key with no collected value changes nothing. */
  lemma ArrangeSkip(order: seq<string>, p: nat, col: Flat, acc: Flat)
    requires p < |order| && ArrangeInv(order, p, col, acc) && order[p] !in Keys(col)
    ensures ArrangeInv(order, p + 1, col, acc)
  {
    assert order[..p + 1] == order[..p] + [order[p]];
  }

  lemma PutInPlace<V>(m: seq<(string, V)>, k: string, v: V)
    requires k in Keys(m)
    ensures |Put(m, k, v)| == |m|
    ensures forall a :: 0 <= a < |m| ==> Put(m, k, v)[a].0 == m[a].0
  {
    var r := Put(m, k, v);
    assert |Keys(r)| == |Keys(m)|;
    forall a | 0 <= a < |m| ensures r[a].0 == m[a].0 {
      assert Keys(r)[a] == Keys(m)[a];
    }
  }

  /** The step for a key already written overwrites it in place. */
  lemma ArrangeAgain(order: seq<string>, p: nat, col: Flat, acc: Flat)
    requires p < |order| && ArrangeInv(order, p, col, acc) && order[p] in Keys(col) && order[p] in Keys(acc)
    ensures ArrangeInv(order, p + 1, col, Put(acc, order[p], Get(col, order[p]).value))
  {
    var k, v := order[p], Get(col, order[p]).value;
    var acc' := Put(acc, k, v);
    PutUnique(acc, k, v);
    PutInPlace(acc, k, v);
    SamePlaces(acc, acc', order, p);
    PutAgrees(acc, col, k, v);
    Covered(order, p, col, acc, k, v);
  }

  /** Every key written so far reads as in the collected map. */
  predicate Agrees(acc: Flat, col: Flat) {
    forall a :: 0 <= a < |acc| ==> Get(acc, acc[a].0) == Get(col, acc[a].0)
  }

  /** Writing a collected value keeps every written key agreeing with the collected map. */
  lemma PutAgrees(acc: Flat, col: Flat, k: string, v: Json)
    requires Get(col, k) == Some(v) && Agrees(acc, col)
    ensures Agrees(Put(acc, k, v), col)
  {
    var acc' := Put(acc, k, v);
    if k in Keys(acc) {
      PutInPlace(acc, k, v);
      forall a | 0 <= a < |acc'| ensures Get(acc', acc'[a].0) == Get(col, acc'[a].0) {
        assert acc'[a].0 == acc[a].0;
        PutGet(acc, k, v, acc[a].0);
      }
    } else {
      PutFresh(acc, k, v);
      forall a | 0 <= a < |acc'| ensures Get(acc', acc'[a].0) == Get(col, acc'[a].0) {
        PutGet(acc, k, v, acc'[a].0);
        if a < |acc| {
          assert acc'[a] == acc[a];
        }
      }
    }
  }

  lemma PutFresh<V>(m: seq<(string, V)>, k: string, v: V)
    requires k !in Keys(m)
    ensures Put(m, k, v) == m + [(k, v)]
  {
  }

  lemma SamePlaces(acc: Flat, acc': Flat, order: seq<string>, p: nat)
    requires p < |order| && |acc'| == |acc| && forall a :: 0 <= a < |acc| ==> acc'[a].0 == acc[a].0
    requires InOrder(acc, order) && forall a :: 0 <= a < |acc| ==> acc[a].0 in order[..p]
    ensures InOrder(acc', order) && forall a :: 0 <= a < |acc'| ==> acc'[a].0 in order[..p + 1]
  {
    assert order[..p + 1] == order[..p] + [order[p]];
  }

  lemma Covered(order: seq<string>, p: nat, col: Flat, acc: Flat, k: string, v: Json)
    requires p < |order| && k == order[p]
    requires forall q :: 0 <= q < p && order[q] in Keys(col) ==> order[q] in Keys(acc)
    ensures forall q :: 0 <= q < p + 1 && order[q] in Keys(col) ==> order[q] in Keys(Put(acc, k, v))
  {
    KeysPut(acc, k, v);
  }

  lemma AppendInOrder(acc: Flat, order: seq<string>, p: nat, v: Json)
    requires p < |order| && order[p] !in order[..p]
    requires InOrder(acc, order) && forall a :: 0 <= a < |acc| ==> acc[a].0 in order[..p]
    ensures InOrder(acc + [(order[p], v)], order)
    ensures forall a :: 0 <= a < |acc| + 1 ==> (acc + [(order[p], v)])[a].0 in order[..p + 1]
  {
    var k := order[p];
    var acc' := acc + [(k, v)];
    assert order[..p + 1] == order[..p] + [k];
    assert IndexOf(order, k) == Some(p);
    forall a | 0 <= a < |acc| ensures IndexOf(order, acc[a].0).value < p {
      FirstBefore(order, p, acc[a].0);
    }
    forall a, b | 0 <= a < b < |acc'|
      ensures acc'[a].0 in order && acc'[b].0 in order && IndexOf(order, acc'[a].0).value < IndexOf(order, acc'[b].0).value
    {
      assert acc'[a] == acc[a];
      if b < |acc| { assert acc'[b] == acc[b]; }
    }
  }

  /** The step for a key met the first time appends it, after every key written so far. */
  lemma ArrangeNew(order: seq<string>, p: nat, col: Flat, acc: Flat)
    requires p < |order| && ArrangeInv(order, p, col, acc) && order[p] in Keys(col) && order[p] !in Keys(acc)
    ensures ArrangeInv(order, p + 1, col, Put(acc, order[p], Get(col, order[p]).value))
  {
    var k, v := order[p], Get(col, order[p]).value;
    var acc' := Put(acc, k, v);
    assert acc' == acc + [(k, v)];
    PutUnique(acc, k, v);
    assert k !in order[..p];
    AppendInOrder(acc, order, p, v);
    PutAgrees(acc, col, k, v);
    Covered(order, p, col, acc, k, v);
  }

  lemma {:induction false} ArrangeFromSpec(order: seq<string>, p: nat, col: Flat, acc: Flat)
    requires p <= |order| && ArrangeInv(order, p, col, acc)
    ensures ArrangeInv(order, |order|, col, ArrangeFrom(order, p, col, acc))
    decreases |order| - p
  {
    if p < |order| {
      var k := order[p];
      if k !in Keys(col) {
        ArrangeSkip(order, p, col, acc);
        ArrangeFromSpec(order, p + 1, col, acc);
      } else if k in Keys(acc) {
        ArrangeAgain(order, p, col, acc);
        ArrangeFromSpec(order, p + 1, col, Put(acc, k, Get(col, k).value));
      } else {
        ArrangeNew(order, p, col, acc);
        ArrangeFromSpec(order, p + 1, col, Put(acc, k, Get(col, k).value));
      }
    }
  }

  /**
   * The arranged file holds each key that is both in the key order and
   * collected, once, in key-order sequence, with its collected value.
   */
  lemma ArrangeSpec(order: seq<string>, col: Flat)
    ensures UniqueKeys(Arrange(order, col)) && InOrder(Arrange(order, col), order)
    ensures forall k :: k in Keys(Arrange(order, col)) <==> k in order && k in Keys(col)
    ensures forall k :: k in Keys(Arrange(order, col)) ==> Get(Arrange(order, col), k) == Get(col, k)
  {
    ArrangeFromSpec(order, 0, col, []);
    var r := Arrange(order, col);
    assert order[..|order|] == order;
    forall k | k in Keys(r) ensures Get(r, k) == Get(col, k) {
      var a :| 0 <= a < |r| && Keys(r)[a] == k;
    }
    forall k | k in order && k in Keys(col) ensures k in Keys(r) {
      var q :| 0 <= q < |order| && order[q] == k;
    }
  }

  /** No keyed row lacks a cell: reading `cells[i + 1]` never fails. */
  predicate CellsPresent(s: Session) {
    forall c :: 0 <= c < |s.languages| ==> HasColumn(s.rows, c)
  }

  /**
   * `saveAll`'s flat maps, one per loaded file in file order, or `None`
   * when a keyed row lacks a cell and the save throws before writing.
   */
  function Save(s: Session): (r: Option<seq<(string, Flat)>>)
    ensures r.Some? <==> CellsPresent(s)
    ensures r.Some? ==> Keys(r.value) == Keys(s.languages)
    ensures r.Some? ==> forall c :: 0 <= c < |r.value| ==> r.value[c].1 == Arrange(s.keyOrder, Collect(s.rows, c))
  {
    if !CellsPresent(s) then None
    else
      var files := seq(|s.languages|, c requires 0 <= c < |s.languages| => (s.languages[c].0, Arrange(s.keyOrder, Collect(s.rows, c))));
      assert forall c :: 0 <= c < |files| ==> Keys(files)[c] == Keys(s.languages)[c];
      Some(files)
  }

  /**
   * What a save writes for file `c`: the keys of the key order that some row
   * carries, each once and in key-order sequence, each with the trimmed cell
   * of the last row carrying it.
   */
  lemma SaveSpec(s: Session, c: nat, k: string)
    requires CellsPresent(s) && c < |s.languages|
    ensures HasColumn(s.rows, c)
    ensures var f := Save(s).value[c].1;
      UniqueKeys(f) && InOrder(f, s.keyOrder) &&
      (k in Keys(f) <==> k != "" && k in s.keyOrder && LastWith(s.rows, k).Some?) &&
      (k in Keys(f) ==> Get(f, k) == Some(JStr(Trim(s.rows[LastWith(s.rows, k).value].cells[c]))))
  {
    var col := Collect(s.rows, c);
    ArrangeSpec(s.keyOrder, col);
    CollectGet(s.rows, c, k);
  }

  /** Consistent sessions always save. */
  lemma ConsistentSaves(s: Session)
    requires Consistent(s)
    ensures Save(s).Some?
  {
  }
}
