/**
 * The editor's state and every change the user can make to it: which files
 * are loaded (`languages`), the order keys are shown and saved in
 * (`keyOrder`), and the table rows the user edits.
 */
module Store {
  import opened Wrappers
  import opened Assoc
  import opened Text
  import opened JsonValue
  import opened KeyPath
  import opened Seqs

  // ---------------------------------------------------------------------------
  // State

  datatype EntryKind = FileEntry | DirectoryEntry

  /** One entry of the chosen directory, with its contents parsed when they are valid JSON. */
  datatype DirEntry = DirEntry(name: string, kind: EntryKind, parsed: Option<Json>)

  /**
   * One table row: the key it is bound to (`tr.dataset.key`), the text of
   * its key cell, the text of its language cells, and whether the key cell
   * carries the listener `addKey` installs.
   */
  datatype Row = Row(boundKey: string, keyText: string, cells: seq<string>, tracksEdits: bool)

  /** The loaded files (file name to flat map), the key order, and the rows on screen. */
  datatype Session = Session(languages: seq<(string, Flat)>, keyOrder: seq<string>, rows: seq<Row>)

  /** The key a row stands for: `tr.dataset.key || keyCell.textContent.trim()`. */
  function RowKey(r: Row): string {
    if r.boundKey != "" then r.boundKey else Trim(r.keyText)
  }

  /** The keys of all rows, top to bottom. */
  function RowKeys(rows: seq<Row>): (ks: seq<string>)
    ensures |ks| == |rows|
    ensures forall j :: 0 <= j < |rows| ==> ks[j] == RowKey(rows[j])
  {
    seq(|rows|, j requires 0 <= j < |rows| => RowKey(rows[j]))
  }

  /** Every row has one cell per loaded file. */
  predicate CellsMatch(s: Session) {
    forall j :: 0 <= j < |s.rows| ==> |s.rows[j].cells| == |s.languages|
  }

  /** What every reachable session keeps: file names are unique and every row has one cell per file. */
  predicate Consistent(s: Session) {
    UniqueKeys(s.languages) && CellsMatch(s)
  }

  // ---------------------------------------------------------------------------
  // Loading a folder

  predicate IsJsonFile(e: DirEntry) {
    e.kind == FileEntry && EndsWith(e.name, ".json")
  }

  /**
   * The flat map an entry contributes: `None` for entries that are not
   * `.json` files, whose text does not parse, or that parse to `null`
   * (where `flatten` throws and the error is logged).
   */
  function Loaded(e: DirEntry): (r: Option<Flat>)
    ensures r.Some? ==> IsJsonFile(e) && e.parsed.Some? && !e.parsed.value.JNull?
    ensures r.Some? ==> LeafValued(r.value) && UniqueKeys(r.value)
    ensures IsJsonFile(e) && e.parsed.Some? && !e.parsed.value.JNull? ==> r == Some(Flatten(Entries(e.parsed.value).value))
    ensures e.parsed.Some? && e.parsed.value.JObj? && IsJsonFile(e) ==> r == Some(Flatten(e.parsed.value.fields))
  {
    if !IsJsonFile(e) || e.parsed.None? then None
    else
      match Entries(e.parsed.value)
      case None => None
      case Some(fields) => Some(Flatten(fields))
  }

  /**
   * Every `.json` file whose text parses to something other than `null`
   * contributes: `flatten` of the value's entries, which for an array or a
   * string are its indices and for a number or a boolean are none.
   */
  lemma LoadedValue(e: DirEntry)
    ensures Loaded(e).Some? <==> IsJsonFile(e) && e.parsed.Some? && !e.parsed.value.JNull?
    ensures IsJsonFile(e) && e.parsed.Some? && !e.parsed.value.JNull? ==>
      Loaded(e) == Some(Flatten(Entries(e.parsed.value).value))
  {
  }

  /** Some entry named `k` contributes a flat map. */
  predicate Loadable(es: seq<DirEntry>, k: string) {
    exists i :: 0 <= i < |es| && es[i].name == k && Loaded(es[i]).Some?
  }

  /** `loadLanguages`' loop from the entry `es[0]` on, the files read so far being `acc`. */
  function LoadInto(acc: seq<(string, Flat)>, es: seq<DirEntry>): (r: seq<(string, Flat)>)
    ensures UniqueKeys(acc) ==> UniqueKeys(r)
    decreases |es|
  {
    if es == [] then acc
    else
      var acc' := match Loaded(es[0]) case None => acc case Some(m) => Put(acc, es[0].name, m);
      PutUnique(acc, es[0].name, Loaded(es[0]).GetOr([]));
      LoadInto(acc', es[1..])
  }

  /** `loadLanguages`: one flat map per loadable `.json` entry, in listing order. */
  function Load(es: seq<DirEntry>): (r: seq<(string, Flat)>)
    ensures UniqueKeys(r)
  {
    LoadInto([], es)
  }

  lemma {:induction false} LoadIntoKeys(acc: seq<(string, Flat)>, es: seq<DirEntry>)
    ensures forall k :: k in Keys(LoadInto(acc, es)) <==> k in Keys(acc) || Loadable(es, k)
    decreases |es|
  {
    if es != [] {
      var acc' := match Loaded(es[0]) case None => acc case Some(m) => Put(acc, es[0].name, m);
      if Loaded(es[0]).Some? { KeysPut(acc, es[0].name, Loaded(es[0]).value); }
      LoadIntoKeys(acc', es[1..]);
      forall k ensures Loadable(es, k) <==> (Loaded(es[0]).Some? && es[0].name == k) || Loadable(es[1..], k) {
        if Loadable(es[1..], k) {
          var i :| 0 <= i < |es[1..]| && es[1..][i].name == k && Loaded(es[1..][i]).Some?;
          assert es[1..][i] == es[i + 1];
        }
        if Loadable(es, k) && !(Loaded(es[0]).Some? && es[0].name == k) {
          var i :| 0 <= i < |es| && es[i].name == k && Loaded(es[i]).Some?;
          assert es[1..][i - 1] == es[i];
        }
      }
    }
  }

  /** Exactly the names of loadable entries are loaded. */
  lemma LoadKeys(es: seq<DirEntry>)
    ensures forall k :: k in Keys(Load(es)) <==> Loadable(es, k)
  {
    LoadIntoKeys([], es);
  }

  /** The names of the entries that contribute a flat map, in listing order, repeats included. */
  function LoadableNames(es: seq<DirEntry>): (ns: seq<string>)
    decreases |es|
  {
    if es == [] then []
    else (if Loaded(es[0]).Some? then [es[0].name] else []) + LoadableNames(es[1..])
  }

  lemma {:induction false} LoadIntoNames(acc: seq<(string, Flat)>, es: seq<DirEntry>)
    ensures Keys(LoadInto(acc, es)) == AppendNew(Keys(acc), LoadableNames(es))
    decreases |es|
  {
    if es != [] {
      var ns := LoadableNames(es);
      var acc' := match Loaded(es[0]) case None => acc case Some(m) => Put(acc, es[0].name, m);
      assert LoadInto(acc, es) == LoadInto(acc', es[1..]);
      LoadIntoNames(acc', es[1..]);
      if Loaded(es[0]).Some? {
        var n := es[0].name;
        assert ns == [n] + LoadableNames(es[1..]) && ns[1..] == LoadableNames(es[1..]);
        if n !in Keys(acc) {
          KeysAppend(acc, (n, Loaded(es[0]).value));
        }
        assert Keys(acc') == if n in Keys(acc) then Keys(acc) else Keys(acc) + [n];
      } else {
        assert ns == LoadableNames(es[1..]);
      }
    }
  }

  /**
   * The loaded file names, in order: each name that contributes a flat map,
   * once, at the place of its first contributing entry.
   */
  lemma LoadNames(es: seq<DirEntry>)
    ensures Keys(Load(es)) == AppendNew([], LoadableNames(es))
    ensures FirstSeenOrder(Keys(Load(es)), 0, |Load(es)|, LoadableNames(es))
  {
    LoadIntoNames([], es);
    AppendNewOrder([], LoadableNames(es));
  }

  /** One turn of `loadLanguages`' loop: the entry's flat map, if any, stored under its name. */
  function LoadStep(acc: seq<(string, Flat)>, e: DirEntry): seq<(string, Flat)> {
    if Loaded(e).Some? then Put(acc, e.name, Loaded(e).value) else acc
  }

  lemma LoadIntoStep(acc: seq<(string, Flat)>, es: seq<DirEntry>)
    requires es != []
    ensures LoadInto(acc, es) == LoadInto(LoadStep(acc, es[0]), es[1..])
  {
  }

  lemma LoadStepGet(acc: seq<(string, Flat)>, e: DirEntry, n: string)
    ensures Get(LoadStep(acc, e), n) == if e.name == n && Loaded(e).Some? then Loaded(e) else Get(acc, n)
  {
    if Loaded(e).Some? {
      PutGet(acc, e.name, Loaded(e).value, n);
    }
  }

  /** Entries named `n` that come later than the read files change nothing under `n`. */
  lemma {:induction false} LoadIntoSkip(acc: seq<(string, Flat)>, es: seq<DirEntry>, n: string)
    requires forall e :: e in es && e.name == n ==> Loaded(e).None?
    ensures Get(LoadInto(acc, es), n) == Get(acc, n)
    decreases |es|
  {
    if es != [] {
      LoadIntoStep(acc, es);
      LoadStepGet(acc, es[0], n);
      LoadIntoSkip(LoadStep(acc, es[0]), es[1..], n);
    }
  }

  lemma LoadIntoGetFirst(acc: seq<(string, Flat)>, es: seq<DirEntry>, n: string)
    requires es != [] && es[0].name == n && Loaded(es[0]).Some?
    requires forall e :: e in es[1..] && e.name == n ==> Loaded(e).None?
    ensures Get(LoadInto(acc, es), n) == Loaded(es[0])
  {
    var acc' := LoadStep(acc, es[0]);
    LoadIntoStep(acc, es);
    LoadStepGet(acc, es[0], n);
    LoadIntoSkip(acc', es[1..], n);
  }

  lemma {:induction false} LoadIntoGet(acc: seq<(string, Flat)>, es: seq<DirEntry>, n: string, j: nat)
    requires j < |es| && es[j].name == n && Loaded(es[j]).Some?
    requires forall e :: e in es[j + 1..] && e.name == n ==> Loaded(e).None?
    ensures Get(LoadInto(acc, es), n) == Loaded(es[j])
    decreases |es|
  {
    if j == 0 {
      LoadIntoGetFirst(acc, es, n);
    } else {
      var acc' := LoadStep(acc, es[0]);
      LoadIntoStep(acc, es);
      assert es[1..][j - 1] == es[j] && es[1..][j..] == es[j + 1..];
      LoadIntoGet(acc', es[1..], n, j - 1);
    }
  }

  /**
   * The flat map loaded under a name is the one from the last entry of that
   * name that contributes one: a later file of the same name overwrites.
   */
  lemma LoadGet(es: seq<DirEntry>, n: string, j: nat)
    requires j < |es| && es[j].name == n && Loaded(es[j]).Some?
    requires forall k :: j < k < |es| && es[k].name == n ==> Loaded(es[k]).None?
    ensures Get(Load(es), n) == Loaded(es[j])
  {
    forall e | e in es[j + 1..] && e.name == n ensures Loaded(e).None? {
      var k :| 0 <= k < |es[j + 1..]| && es[j + 1..][k] == e;
      assert es[j + 1 + k] == e;
    }
    LoadIntoGet([], es, n, j);
  }

  // ---------------------------------------------------------------------------
  // Rendering

  /** Some file has the key `k`. */
  predicate InSomeFile(langs: seq<(string, Flat)>, k: string) {
    exists i :: 0 <= i < |langs| && k in Keys(langs[i].1)
  }

  /** The gathering loop for one file: each of `ks` not yet in `order` is pushed, in turn. */
  function AppendNew(order: seq<string>, ks: seq<string>): (r: seq<string>)
    ensures |order| <= |r| && r[..|order|] == order
    ensures forall k :: k in r <==> k in order || k in ks
    ensures forall i, j :: |order| <= i < j < |r| ==> r[i] != r[j]
    ensures forall i :: |order| <= i < |r| ==> r[i] !in order
    decreases |ks|
  {
    if ks == [] then order
    else
      var order' := if ks[0] in order then order else order + [ks[0]];
      assert ks == [ks[0]] + ks[1..];
      AppendNew(order', ks[1..])
  }

  /**
   * The key gathering at the start of `renderTable`: the old order is kept
   * and every key of every file that is not in it yet is pushed once, file
   * by file, in each file's key order.
   */
  function Reconcile(order: seq<string>, langs: seq<(string, Flat)>): (r: seq<string>)
    ensures |order| <= |r| && r[..|order|] == order
    decreases |langs|
  {
    if langs == [] then order
    else
      var order' := AppendNew(order, Keys(langs[0].1));
      var r := Reconcile(order', langs[1..]);
      PrefixOfPrefix(r, order', order);
      r
  }

  lemma PrefixOfPrefix(r: seq<string>, a: seq<string>, b: seq<string>)
    requires |a| <= |r| && r[..|a|] == a && |b| <= |a| && a[..|b|] == b
    ensures |b| <= |r| && r[..|b|] == b
  {
    assert r[..|b|] == r[..|a|][..|b|];
  }

  /** `r` extends `order`, and what it adds is distinct and new. */
  predicate Fresh(order: seq<string>, r: seq<string>) {
    && |order| <= |r| && r[..|order|] == order
    && (forall i, j :: |order| <= i < j < |r| ==> r[i] != r[j])
    && (forall i :: |order| <= i < |r| ==> r[i] !in order)
  }

  lemma PrefixMembers(a: seq<string>, b: seq<string>)
    requires |a| <= |b| && b[..|a|] == a
    ensures forall x :: x in a ==> x in b
    ensures forall i :: 0 <= i < |a| ==> b[i] == a[i]
  {
    forall i | 0 <= i < |a| ensures b[i] == a[i] {
      assert b[..|a|][i] == b[i];
    }
  }

  lemma FreshTrans(a: seq<string>, b: seq<string>, c: seq<string>)
    requires Fresh(a, b) && Fresh(b, c)
    ensures Fresh(a, c)
  {
    PrefixMembers(a, b);
    PrefixMembers(b, c);
    PrefixOfPrefix(c, b, a);
    forall i | |a| <= i < |c| ensures c[i] !in a {
      if i < |b| { assert c[i] == b[i]; }
    }
    forall i, j | |a| <= i < j < |c| ensures c[i] != c[j] {
      if j < |b| {
        assert c[i] == b[i] && c[j] == b[j];
      } else if i < |b| {
        assert c[i] == b[i];
        assert c[i] in b;
      }
    }
  }

  /** The keys gathering pushes are distinct and were not in the old order. */
  lemma {:induction false} ReconcileFresh(order: seq<string>, langs: seq<(string, Flat)>)
    ensures Fresh(order, Reconcile(order, langs))
    decreases |langs|
  {
    if langs == [] {
      assert order[..|order|] == order;
    } else {
      var order' := AppendNew(order, Keys(langs[0].1));
      ReconcileFresh(order', langs[1..]);
      FreshTrans(order, order', Reconcile(order', langs[1..]));
    }
  }

  /** The files' key lists one after another: the order `renderTable` visits keys in. */
  function AllKeys(langs: seq<(string, Flat)>): (ks: seq<string>)
    decreases |langs|
  {
    if langs == [] then [] else Keys(langs[0].1) + AllKeys(langs[1..])
  }

  /** A key is visited exactly when some file has it. */
  lemma {:induction false} AllKeysIn(langs: seq<(string, Flat)>)
    ensures forall k :: k in AllKeys(langs) <==> InSomeFile(langs, k)
    decreases |langs|
  {
    if langs != [] {
      AllKeysIn(langs[1..]);
      forall k ensures InSomeFile(langs, k) <==> k in Keys(langs[0].1) || InSomeFile(langs[1..], k) {
        if InSomeFile(langs[1..], k) {
          var i :| 0 <= i < |langs[1..]| && k in Keys(langs[1..][i].1);
          assert langs[1..][i] == langs[i + 1];
        }
        if InSomeFile(langs, k) && k !in Keys(langs[0].1) {
          var i :| 0 <= i < |langs| && k in Keys(langs[i].1);
          assert langs[1..][i - 1] == langs[i];
        }
      }
    }
  }

  /** The keys one file's loop pushes come in the order they first occur in the file. */
  lemma {:induction false} AppendNewOrder(order: seq<string>, ks: seq<string>)
    ensures FirstSeenOrder(AppendNew(order, ks), |order|, |AppendNew(order, ks)|, ks)
    decreases |ks|
  {
    var r := AppendNew(order, ks);
    if ks != [] {
      var order' := if ks[0] in order then order else order + [ks[0]];
      assert r == AppendNew(order', ks[1..]);
      AppendNewOrder(order', ks[1..]);
      assert ks[0] in order';
      if ks[0] !in order {
        PrefixMembers(order', r);
        assert r[|order|] == ks[0];
      }
      FirstSeenCons(r, |order|, |order'|, ks);
    }
  }

  /**
   * Gathering pushes new keys in the order first encountered: file by file,
   * and within a file in its key order.
   */
  lemma {:induction false} ReconcileOrder(order: seq<string>, langs: seq<(string, Flat)>)
    ensures FirstSeenOrder(Reconcile(order, langs), |order|, |Reconcile(order, langs)|, AllKeys(langs))
    decreases |langs|
  {
    var r := Reconcile(order, langs);
    if langs != [] {
      var ks := Keys(langs[0].1);
      var order' := AppendNew(order, ks);
      assert r == Reconcile(order', langs[1..]);
      ReconcileOrder(order', langs[1..]);
      ReconcileFresh(order', langs[1..]);
      AppendNewOrder(order, ks);
      PrefixMembers(order', r);
      assert FirstSeenOrder(r, |order|, |order'|, ks);
      FirstSeenConcat(r, |order|, |order'|, |r|, ks, AllKeys(langs[1..]));
    }
  }

  /** After gathering, the key order holds exactly its old keys and the keys of the files. */
  lemma {:induction false} ReconcileKeys(order: seq<string>, langs: seq<(string, Flat)>)
    ensures forall k :: k in Reconcile(order, langs) <==> k in order || InSomeFile(langs, k)
    decreases |langs|
  {
    if langs != [] {
      var order' := AppendNew(order, Keys(langs[0].1));
      ReconcileKeys(order', langs[1..]);
      forall k ensures InSomeFile(langs, k) <==> k in Keys(langs[0].1) || InSomeFile(langs[1..], k) {
        if InSomeFile(langs[1..], k) {
          var i :| 0 <= i < |langs[1..]| && k in Keys(langs[1..][i].1);
          assert langs[1..][i] == langs[i + 1];
        }
        if InSomeFile(langs, k) && k !in Keys(langs[0].1) {
          var i :| 0 <= i < |langs| && k in Keys(langs[i].1);
          assert langs[1..][i - 1] == langs[i];
        }
      }
    }
  }

  /**
   * How a value shows in a cell: `String(v)` for what is present, with
   * `null` and a missing key both showing as empty (`?? ""`). Numbers are
   * printed by `numText`, JavaScript's number-to-string conversion.
   */
  function ValueText(v: Json, numText: real -> string): string
    decreases v, 0
  {
    match v
    case JNull => ""
    case JBool(b) => if b then "true" else "false"
    case JNum(n) => numText(n)
    case JStr(s) => s
    case JArr(items) => ItemsText(items, numText)
    case JObj(_) => "[object Object]"
  }

  /** `Array.prototype.join(",")`: elements' texts with commas between, `null` elements empty. */
  function ItemsText(items: seq<Json>, numText: real -> string): string
    decreases items, 1
  {
    if items == [] then ""
    else if |items| == 1 then ValueText(items[0], numText)
    else ValueText(items[0], numText) + "," + ItemsText(items[1..], numText)
  }

  /** The text `renderTable` puts in the cell of file `flat` for key `k`. */
  function CellText(flat: Flat, k: string, numText: real -> string): (r: string)
    ensures k !in Keys(flat) ==> r == ""
  {
    match Get(flat, k)
    case None => ""
    case Some(v) => ValueText(v, numText)
  }

  /** In a file, the cell for one of its keys shows the text of the value stored there. */
  lemma CellTextEntry(flat: Flat, i: nat, numText: real -> string)
    requires UniqueKeys(flat) && i < |flat|
    ensures CellText(flat, flat[i].0, numText) == ValueText(flat[i].1, numText)
  {
    GetUnique(flat, i);
  }

  /** `join(",")` of two non-empty parts is the join of each, with a comma between. */
  lemma {:induction false} ItemsTextConcat(a: seq<Json>, b: seq<Json>, numText: real -> string)
    requires a != [] && b != []
    ensures ItemsText(a + b, numText) == ItemsText(a, numText) + "," + ItemsText(b, numText)
    decreases |a|
  {
    assert (a + b)[0] == a[0] && (a + b)[1..] == a[1..] + b;
    if |a| > 1 {
      ItemsTextConcat(a[1..], b, numText);
    }
  }

  /** The row `renderTable` builds for key `k`: bound to `k`, showing `k`, one cell per file. */
  function RenderRow(langs: seq<(string, Flat)>, k: string, numText: real -> string): (r: Row)
    ensures r.boundKey == k && r.keyText == k && !r.tracksEdits && |r.cells| == |langs|
    ensures forall j :: 0 <= j < |langs| ==> r.cells[j] == CellText(langs[j].1, k, numText)
  {
    Row(k, k, seq(|langs|, j requires 0 <= j < |langs| => CellText(langs[j].1, k, numText)), false)
  }

  /**
   * `renderTable`: gathers the keys, then rebuilds every row from the files,
   * one per entry of the key order. Unsaved cell edits are discarded.
   */
  function Render(s: Session, numText: real -> string): (r: Session)
    ensures r.languages == s.languages
    ensures r.keyOrder == Reconcile(s.keyOrder, s.languages)
    ensures |r.rows| == |r.keyOrder| && RowKeys(r.rows) == r.keyOrder
    ensures forall j :: 0 <= j < |r.rows| ==> r.rows[j] == RenderRow(s.languages, r.keyOrder[j], numText)
    ensures UniqueKeys(s.languages) ==> Consistent(r)
  {
    var order := Reconcile(s.keyOrder, s.languages);
    var rows := seq(|order|, j requires 0 <= j < |order| => RenderRow(s.languages, order[j], numText));
    assert forall j :: 0 <= j < |rows| ==> RowKey(rows[j]) == order[j] by {
      forall j | 0 <= j < |rows| ensures RowKey(rows[j]) == order[j] {
        if order[j] == "" { TrimEmpty(); }
      }
    }
    Session(s.languages, order, rows)
  }

  lemma TrimEmpty()
    ensures Trim("") == ""
  {
    TrimFixpoint("");
  }

  /**
   * `openFolder`: the files of the chosen folder are loaded, the key order
   * is reset, and the table is rendered; nothing of the previous session
   * survives.
   */
  function OpenFolder(es: seq<DirEntry>, numText: real -> string): (r: Session)
    ensures r.languages == Load(es) && Consistent(r)
    ensures forall k :: k in Keys(r.languages) <==> Loadable(es, k)
    ensures forall i, j :: 0 <= i < j < |r.keyOrder| ==> r.keyOrder[i] != r.keyOrder[j]
    ensures forall k :: k in r.keyOrder <==> InSomeFile(r.languages, k)
    ensures FirstSeenOrder(r.keyOrder, 0, |r.keyOrder|, AllKeys(r.languages))
  {
    var langs := Load(es);
    LoadKeys(es);
    ReconcileKeys([], langs);
    ReconcileFresh([], langs);
    ReconcileOrder([], langs);
    var r := Render(Session(langs, [], []), numText);
    assert r.keyOrder == Reconcile([], langs);
    r
  }

  // ---------------------------------------------------------------------------
  // Adding keys

  /**
   * Where `addKey` is asked to put the new row: at the end (no argument),
   * after a given row, or — when the toolbar button calls it with its click
   * event — with an argument that is no row at all.
   */
  datatype Anchor = AtEnd | AfterRow(index: nat) | FromButton

  /** The empty row `addKey` creates, listening to edits of its key cell. */
  function NewRow(s: Session): (r: Row)
    ensures r.boundKey == "" && r.keyText == "" && r.tracksEdits
    ensures |r.cells| == |s.languages| && forall j :: 0 <= j < |r.cells| ==> r.cells[j] == ""
  {
    Row("", "", seq(|s.languages|, _ => ""), true)
  }

  /**
   * `addKey(insertAfter)`. After a row, the new row goes right below it and
   * a `""` placeholder goes right after the first occurrence of that row's
   * bound key in the key order, if there is one. At the end, both are
   * appended. From the button, the click event is truthy but has no
   * `dataset`: the row is appended (the event has no `nextSibling`), then
   * reading `insertAfter.dataset.key` throws, so the key order is left as it
   * was.
   */
  function AddKey(s: Session, a: Anchor): (r: Session)
    requires a.AfterRow? ==> a.index < |s.rows|
    ensures r.languages == s.languages && |r.rows| == |s.rows| + 1
    ensures a.AtEnd? ==> r.rows == s.rows + [NewRow(s)] && r.keyOrder == s.keyOrder + [""]
    ensures a.FromButton? ==> r.rows == s.rows + [NewRow(s)] && r.keyOrder == s.keyOrder
    ensures a.AfterRow? ==> r.rows == InsertAt(s.rows, a.index + 1, NewRow(s))
    ensures a.AfterRow? && s.rows[a.index].boundKey !in s.keyOrder ==> r.keyOrder == s.keyOrder
    ensures a.AfterRow? && s.rows[a.index].boundKey in s.keyOrder ==>
      r.keyOrder == InsertAt(s.keyOrder, IndexOf(s.keyOrder, s.rows[a.index].boundKey).value + 1, "")
  {
    var row := NewRow(s);
    match a
    case AtEnd => Session(s.languages, s.keyOrder + [""], s.rows + [row])
    case FromButton => Session(s.languages, s.keyOrder, s.rows + [row])
    case AfterRow(n) =>
      var idx := IndexOf(s.keyOrder, s.rows[n].boundKey);
      var order := if idx.None? then s.keyOrder else InsertAt(s.keyOrder, idx.value + 1, "");
      Session(s.languages, order, InsertAt(s.rows, n + 1, row))
  }

  /**
   * Right-click on a language cell of row `i`: in the top half the new row
   * goes after the previous row, or at the end when row `i` is the first;
   * in the bottom half it goes after row `i`.
   */
  function ContextInsert(s: Session, i: nat, topHalf: bool): (r: Session)
    requires i < |s.rows|
    ensures r.languages == s.languages && |r.rows| == |s.rows| + 1
    ensures !topHalf ==> r.rows == InsertAt(s.rows, i + 1, NewRow(s))
    ensures topHalf && i > 0 ==> r.rows == InsertAt(s.rows, i, NewRow(s))
    ensures topHalf && i == 0 ==> r.rows == s.rows + [NewRow(s)] && r.keyOrder == s.keyOrder + [""]
    ensures !(topHalf && i == 0) ==>
      var k := s.rows[if topHalf then i - 1 else i].boundKey;
      r.keyOrder == if k in s.keyOrder then InsertAt(s.keyOrder, IndexOf(s.keyOrder, k).value + 1, "") else s.keyOrder
  {
    AddKey(s, if !topHalf then AfterRow(i) else if i == 0 then AtEnd else AfterRow(i - 1))
  }

  // ---------------------------------------------------------------------------
  // Editing

  /**
   * The user changes the text of row `i`'s key cell to `text`. Rows made by
   * `addKey` react: with a bound key that differs from the trimmed text,
   * every occurrence of the bound key in the key order is renamed; with no
   * bound key and a non-empty text, the text is pushed at the end of the
   * key order; the trimmed text becomes the bound key. Rows made by
   * `renderTable` only change their text.
   */
  function EditKey(s: Session, i: nat, text: string): (r: Session)
    requires i < |s.rows|
    ensures r.languages == s.languages && |r.rows| == |s.rows|
    ensures r.rows[i].keyText == text && r.rows[i].cells == s.rows[i].cells
    ensures r.rows[i].tracksEdits == s.rows[i].tracksEdits
    ensures forall j :: 0 <= j < |s.rows| && j != i ==> r.rows[j] == s.rows[j]
    ensures !s.rows[i].tracksEdits ==> r.keyOrder == s.keyOrder && r.rows[i].boundKey == s.rows[i].boundKey
    ensures s.rows[i].tracksEdits ==> r.rows[i].boundKey == Trim(text)
    ensures s.rows[i].tracksEdits && s.rows[i].boundKey != "" && s.rows[i].boundKey != Trim(text) ==>
      |r.keyOrder| == |s.keyOrder| && s.rows[i].boundKey !in r.keyOrder &&
      forall j :: 0 <= j < |s.keyOrder| ==> r.keyOrder[j] == if s.keyOrder[j] == s.rows[i].boundKey then Trim(text) else s.keyOrder[j]
    ensures s.rows[i].tracksEdits && s.rows[i].boundKey == "" && Trim(text) != "" ==> r.keyOrder == s.keyOrder + [Trim(text)]
    ensures s.rows[i].tracksEdits && s.rows[i].boundKey == Trim(text) ==> r.keyOrder == s.keyOrder
  {
    var row := s.rows[i];
    if !row.tracksEdits then
      Session(s.languages, s.keyOrder, s.rows[i := row.(keyText := text)])
    else
      var key := Trim(text);
      Session(s.languages, Rekey(s.keyOrder, row.boundKey, key), s.rows[i := row.(keyText := text, boundKey := key)])
  }

  /**
   * The listener's update of the key order when a row bound to `was` is
   * edited to read `now`: a rename of every occurrence, a push of a first
   * key, or nothing.
   */
  function Rekey(order: seq<string>, was: string, now: string): (r: seq<string>)
    ensures was != "" && was != now ==>
      |r| == |order| && was !in r &&
      forall j :: 0 <= j < |order| ==> r[j] == if order[j] == was then now else order[j]
    ensures was == "" && now != "" ==> r == order + [now]
    ensures was == now ==> r == order
  {
    if was != "" && was != now then
      ReplaceGone(order, was, now);
      Replace(order, was, now)
    else if was == "" && now != "" then order + [now]
    else order
  }

  /**
   * The key a save or a move reads from row `i` after its key cell is
   * edited: the trimmed new text for a row made by `addKey` or one with no
   * bound key, and the unchanged bound key otherwise.
   */
  lemma EditedRowKey(s: Session, i: nat, text: string)
    requires i < |s.rows|
    ensures s.rows[i].tracksEdits || s.rows[i].boundKey == "" ==> RowKey(EditKey(s, i, text).rows[i]) == Trim(text)
    ensures !s.rows[i].tracksEdits && s.rows[i].boundKey != "" ==> RowKey(EditKey(s, i, text).rows[i]) == s.rows[i].boundKey
  {
  }

  /** The user changes the text of language cell `j` of row `i`. */
  function EditCell(s: Session, i: nat, j: nat, text: string): (r: Session)
    requires i < |s.rows| && j < |s.rows[i].cells|
    ensures r.languages == s.languages && r.keyOrder == s.keyOrder && |r.rows| == |s.rows|
    ensures |r.rows[i].cells| == |s.rows[i].cells| && r.rows[i].cells[j] == text
    ensures RowKeys(r.rows) == RowKeys(s.rows)
    ensures forall c :: 0 <= c < |s.rows[i].cells| && c != j ==> r.rows[i].cells[c] == s.rows[i].cells[c]
    ensures forall n :: 0 <= n < |s.rows| && n != i ==> r.rows[n] == s.rows[n]
  {
    var row := s.rows[i];
    Session(s.languages, s.keyOrder, s.rows[i := row.(cells := row.cells[j := text])])
  }

  // ---------------------------------------------------------------------------
  // Deleting a key

  /** `delete flat[k]` in every file. */
  function DeleteEverywhere(langs: seq<(string, Flat)>, k: string): (r: seq<(string, Flat)>)
    ensures |r| == |langs| && Keys(r) == Keys(langs)
    ensures forall j :: 0 <= j < |langs| ==> r[j].1 == Delete(langs[j].1, k)
  {
    var r := seq(|langs|, j requires 0 <= j < |langs| => (langs[j].0, Delete(langs[j].1, k)));
    assert forall j :: 0 <= j < |langs| ==> Keys(r)[j] == Keys(langs)[j];
    r
  }

  /**
   * Right-click on row `i`'s key cell. The key is the cell's trimmed text.
   * An empty key only removes the row. Otherwise, once the user confirms,
   * the key is deleted from every file and from the key order, and the row
   * is removed; without confirmation nothing happens.
   */
  function DeleteKey(s: Session, i: nat, confirmed: bool): (r: Session)
    requires i < |s.rows|
    ensures Trim(s.rows[i].keyText) == "" ==>
      r == Session(s.languages, s.keyOrder, RemoveAt(s.rows, i))
    ensures Trim(s.rows[i].keyText) != "" && !confirmed ==> r == s
    ensures Trim(s.rows[i].keyText) != "" && confirmed ==>
      var k := Trim(s.rows[i].keyText);
      r.rows == RemoveAt(s.rows, i) &&
      Keys(r.languages) == Keys(s.languages) &&
      (forall j :: 0 <= j < |r.languages| ==> k !in Keys(r.languages[j].1)) &&
      multiset(r.keyOrder) == multiset(s.keyOrder)[k := 0] &&
      r.keyOrder == Remove(s.keyOrder, k) && r.languages == DeleteEverywhere(s.languages, k)
  {
    var k := Trim(s.rows[i].keyText);
    if k == "" then Session(s.languages, s.keyOrder, RemoveAt(s.rows, i))
    else if !confirmed then s
    else Session(DeleteEverywhere(s.languages, k), Remove(s.keyOrder, k), RemoveAt(s.rows, i))
  }

  // ---------------------------------------------------------------------------
  // Adding a language

  /**
   * `addLanguage` with the prompt's answer `name` (`None` when cancelled):
   * nothing happens for no name or a name already loaded; otherwise an
   * empty file is added and the table re-rendered.
   */
  function AddLanguage(s: Session, name: Option<string>, numText: real -> string): (r: Session)
    ensures name.None? || name.value == "" || name.value in Keys(s.languages) ==> r == s
    ensures name.Some? && name.value != "" && name.value !in Keys(s.languages) ==>
      r.languages == s.languages + [(name.value, [])] && r == Render(Session(r.languages, s.keyOrder, s.rows), numText)
  {
    if name.None? || name.value == "" then s
    else if name.value in Keys(s.languages) then s
    else Render(Session(Put(s.languages, name.value, []), s.keyOrder, s.rows), numText)
  }

  // ---------------------------------------------------------------------------
  // Moving rows

  datatype Direction = Up | Down

  /**
   * Arrow up or down with row `i` selected: at the first row (up) or the
   * last row (down) nothing happens; otherwise the row swaps with its
   * neighbour and the key order is recomputed from the rows.
   */
  function Move(s: Session, i: nat, d: Direction): (r: Session)
    requires i < |s.rows|
    ensures r.languages == s.languages
    ensures (d == Up && i == 0) || (d == Down && i == |s.rows| - 1) ==> r == s
    ensures d == Up && i > 0 ==> r.rows == SwapNext(s.rows, i - 1) && r.keyOrder == RowKeys(r.rows)
    ensures d == Down && i < |s.rows| - 1 ==> r.rows == SwapNext(s.rows, i) && r.keyOrder == RowKeys(r.rows)
  {
    match d
    case Up =>
      if i == 0 then s
      else
        var rows := SwapNext(s.rows, i - 1);
        Session(s.languages, RowKeys(rows), rows)
    case Down =>
      if i == |s.rows| - 1 then s
      else
        var rows := SwapNext(s.rows, i);
        Session(s.languages, RowKeys(rows), rows)
  }
}
