/**
 * What the editor's operations promise together: the session stays
 * consistent, what is shown is what gets saved, and each edit reaches the
 * saved files the way the table suggests.
 */
module StoreProofs {
  import opened Wrappers
  import opened Assoc
  import opened Text
  import opened JsonValue
  import opened KeyPath
  import opened Seqs
  import opened Store
  import opened Saving
  import opened UnflattenProofs
  import opened RoundTrip

  // ---------------------------------------------------------------------------
  // Every operation keeps the session consistent

  lemma AddKeyConsistent(s: Session, a: Anchor)
    requires Consistent(s) && (a.AfterRow? ==> a.index < |s.rows|)
    ensures Consistent(AddKey(s, a))
  {
    var r := AddKey(s, a);
    if a.AfterRow? {
      forall j | 0 <= j < |r.rows| ensures |r.rows[j].cells| == |r.languages| {
        if j > a.index + 1 { assert r.rows[j] == s.rows[j - 1]; }
      }
    }
  }

  lemma EditKeyConsistent(s: Session, i: nat, text: string)
    requires Consistent(s) && i < |s.rows|
    ensures Consistent(EditKey(s, i, text))
  {
  }

  lemma EditCellConsistent(s: Session, i: nat, j: nat, text: string)
    requires Consistent(s) && i < |s.rows| && j < |s.rows[i].cells|
    ensures Consistent(EditCell(s, i, j, text))
  {
    var r := EditCell(s, i, j, text);
    forall n | 0 <= n < |r.rows| ensures |r.rows[n].cells| == |r.languages| {
      if n != i { assert r.rows[n] == s.rows[n]; }
    }
  }

  lemma DeleteKeyConsistent(s: Session, i: nat, confirmed: bool)
    requires Consistent(s) && i < |s.rows|
    ensures Consistent(DeleteKey(s, i, confirmed))
  {
    var r := DeleteKey(s, i, confirmed);
    var k := Trim(s.rows[i].keyText);
    if k != "" && confirmed {
      UniqueSameKeys(s.languages, r.languages);
    }
    assert |r.languages| == |s.languages|;
    forall j | 0 <= j < |r.rows| ensures |r.rows[j].cells| == |r.languages| {
      if r != s { assert r.rows[j] == if j < i then s.rows[j] else s.rows[j + 1]; }
    }
  }

  lemma AddLanguageConsistent(s: Session, name: Option<string>, numText: real -> string)
    requires Consistent(s)
    ensures Consistent(AddLanguage(s, name, numText))
  {
    if name.Some? && name.value != "" && name.value !in Keys(s.languages) {
      PutUnique(s.languages, name.value, []);
    }
  }

  lemma MoveConsistent(s: Session, i: nat, d: Direction)
    requires Consistent(s) && i < |s.rows|
    ensures Consistent(Move(s, i, d))
  {
  }

  // ---------------------------------------------------------------------------
  // Moving rows

  /** Moving a row up and then down again restores the rows; the key order then mirrors them. */
  lemma MoveUpDown(s: Session, i: nat)
    requires 0 < i < |s.rows|
    ensures var t := Move(s, i, Up);
      multiset(t.rows) == multiset(s.rows) &&
      Move(t, i - 1, Down).rows == s.rows && Move(t, i - 1, Down).keyOrder == RowKeys(s.rows)
  {
    var t := Move(s, i, Up);
    assert t.rows == SwapNext(s.rows, i - 1);
    var u := Move(t, i - 1, Down);
    assert u.rows == SwapNext(t.rows, i - 1);
    SwapNextTwice(s.rows, i - 1);
  }

  /** After a move, a save writes each file's keys in the rows' new order. */
  lemma MoveThenSave(s: Session, i: nat, d: Direction, c: nat)
    requires Consistent(s) && i < |s.rows| && c < |s.languages|
    requires (d == Up && i > 0) || (d == Down && i < |s.rows| - 1)
    ensures Save(Move(s, i, d)).Some?
    ensures InOrder(Save(Move(s, i, d)).value[c].1, RowKeys(Move(s, i, d).rows))
  {
    var t := Move(s, i, d);
    MoveConsistent(s, i, d);
    SaveSpec(t, c, "");
  }

  // ---------------------------------------------------------------------------
  // Rendering and saving

  /**
   * Saving a freshly rendered table writes, for file `c`, every non-empty
   * key of the key order with the trimmed text its cell shows.
   */
  lemma RenderSave(s: Session, numText: real -> string, c: nat, k: string)
    requires UniqueKeys(s.languages) && c < |s.languages|
    ensures Save(Render(s, numText)).Some?
    ensures var t := Render(s, numText);
      var f := Save(t).value[c].1;
      UniqueKeys(f) && InOrder(f, t.keyOrder) &&
      (k in Keys(f) <==> k != "" && k in t.keyOrder) &&
      (k in Keys(f) ==> Get(f, k) == Some(JStr(Trim(CellText(s.languages[c].1, k, numText)))))
  {
    var t := Render(s, numText);
    assert Consistent(t);
    SaveSpec(t, c, k);
    var w := LastWith(t.rows, k);
    if k in t.keyOrder {
      var j :| 0 <= j < |t.keyOrder| && t.keyOrder[j] == k;
      RenderedRow(s, numText, j, c);
    }
    if w.Some? {
      RenderedRow(s, numText, w.value, c);
    }
  }

  /** Row `j` of a rendered table stands for key `j` of the key order and shows its value for file `c`. */
  lemma RenderedRow(s: Session, numText: real -> string, j: nat, c: nat)
    requires j < |Render(s, numText).rows| && c < |s.languages|
    ensures var t := Render(s, numText);
      RowKey(t.rows[j]) == t.keyOrder[j] &&
      t.rows[j].cells[c] == CellText(s.languages[c].1, t.keyOrder[j], numText)
  {
    var t := Render(s, numText);
    assert t.rows[j] == RenderRow(s.languages, t.keyOrder[j], numText);
    assert RowKeys(t.rows)[j] == RowKey(t.rows[j]);
  }

  /** Every key of every file gets a row. */
  lemma RenderCovers(s: Session, numText: real -> string, c: nat, k: string)
    requires c < |s.languages| && k in Keys(s.languages[c].1)
    ensures k in Render(s, numText).keyOrder
  {
    ReconcileKeys(s.keyOrder, s.languages);
    assert InSomeFile(s.languages, k);
  }

  /**
   * Opening and saving without edits keeps every string value that has no
   * surrounding white space, under its key, in every file.
   */
  lemma RenderSaveKeeps(s: Session, numText: real -> string, c: nat, k: string, v: string)
    requires UniqueKeys(s.languages) && c < |s.languages|
    requires k != "" && Get(s.languages[c].1, k) == Some(JStr(v)) && Trimmed(v)
    ensures Save(Render(s, numText)).Some?
    ensures Get(Save(Render(s, numText)).value[c].1, k) == Some(JStr(v))
  {
    RenderCovers(s, numText, c, k);
    RenderSave(s, numText, c, k);
    CellShows(s.languages[c].1, k, v, numText);
  }

  lemma CellShows(flat: Flat, k: string, v: string, numText: real -> string)
    requires Get(flat, k) == Some(JStr(v)) && Trimmed(v)
    ensures Trim(CellText(flat, k, numText)) == v
  {
    TrimFixpoint(v);
  }

  /**
   * A language just added saves an empty string under every non-empty key
   * of the key order (not an empty object).
   */
  lemma AddLanguageThenSave(s: Session, name: string, numText: real -> string, k: string)
    requires Consistent(s) && name != "" && name !in Keys(s.languages)
    ensures var t := AddLanguage(s, Some(name), numText);
      Save(t).Some? && |Save(t).value| == |s.languages| + 1 &&
      Save(t).value[|s.languages|].0 == name &&
      (k in Keys(Save(t).value[|s.languages|].1) <==> k != "" && k in t.keyOrder) &&
      (k in Keys(Save(t).value[|s.languages|].1) ==> Get(Save(t).value[|s.languages|].1, k) == Some(JStr("")))
  {
    var langs := Put(s.languages, name, []);
    PutUnique(s.languages, name, []);
    var c := |s.languages|;
    RenderSave(Session(langs, s.keyOrder, s.rows), numText, c, k);
    TrimEmpty();
    var t := AddLanguage(s, Some(name), numText);
    assert Keys(Save(t).value)[c] == Keys(langs)[c];
  }

  // ---------------------------------------------------------------------------
  // Editing and saving

  lemma {:induction false} CollectSameRows(acc: Flat, a: seq<Row>, b: seq<Row>, c: nat)
    requires |a| == |b| && HasColumn(a, c)
    requires forall j :: 0 <= j < |a| ==> RowKey(a[j]) == RowKey(b[j]) && a[j].cells == b[j].cells
    ensures HasColumn(b, c) && CollectInto(acc, a, c) == CollectInto(acc, b, c)
    decreases |a|
  {
    if a != [] {
      HasColumnTail(a, c);
      assert forall j :: 0 <= j < |a[1..]| ==> a[1..][j] == a[j + 1] && b[1..][j] == b[j + 1];
      CollectSameRows(Write(acc, a[0], c), a[1..], b[1..], c);
    }
  }

  /**
   * Typing into the key cell of a row `renderTable` bound to a non-empty
   * key never changes what is saved: the row stays bound to its key. (A row
   * bound to `""` is read under its typed text; see `EditedRowKey`.)
   */
  lemma RenderedKeyEditIgnored(s: Session, i: nat, text: string)
    requires i < |s.rows| && !s.rows[i].tracksEdits && s.rows[i].boundKey != ""
    ensures EditKey(s, i, text).keyOrder == s.keyOrder
    ensures RowKeys(EditKey(s, i, text).rows) == RowKeys(s.rows)
    ensures Save(EditKey(s, i, text)) == Save(s)
  {
    var t := EditKey(s, i, text);
    assert RowKeys(t.rows) == RowKeys(s.rows);
    SameRowsSave(s, t);
  }

  /**
   * A key typed into a rendered row bound to `""` (a re-rendered `addKey`
   * placeholder) is saved exactly when the key order already holds it: the
   * row has no listener to push it, so a new key is dropped from every file.
   */
  lemma UnboundKeySaved(s: Session, i: nat, text: string, c: nat)
    requires i < |s.rows| && !s.rows[i].tracksEdits && s.rows[i].boundKey == ""
    requires CellsPresent(s) && |s.rows[i].cells| == |s.languages| && c < |s.languages|
    ensures Save(EditKey(s, i, text)).Some?
    ensures Trim(text) in Keys(Save(EditKey(s, i, text)).value[c].1) <==> Trim(text) != "" && Trim(text) in s.keyOrder
  {
    var t := EditKey(s, i, text);
    forall c' | 0 <= c' < |t.languages| ensures HasColumn(t.rows, c') {
      forall j | 0 <= j < |t.rows| && RowKey(t.rows[j]) != "" ensures c' < |t.rows[j].cells| {
        if j != i {
          assert t.rows[j] == s.rows[j] && HasColumn(s.rows, c');
        } else {
          assert t.rows[i].cells == s.rows[i].cells;
        }
      }
    }
    assert CellsPresent(t);
    EditedRowKey(s, i, text);
    SaveSpec(t, c, Trim(text));
    if Trim(text) != "" {
      assert RowKey(t.rows[i]) == Trim(text);
    }
  }

  /** A save reads each row only through its key and its cells. */
  lemma SameRowsSave(s: Session, t: Session)
    requires t.languages == s.languages && t.keyOrder == s.keyOrder && |t.rows| == |s.rows|
    requires forall j :: 0 <= j < |s.rows| ==> RowKey(t.rows[j]) == RowKey(s.rows[j]) && t.rows[j].cells == s.rows[j].cells
    ensures Save(t) == Save(s)
  {
    if CellsPresent(s) {
      forall c | 0 <= c < |s.languages| ensures HasColumn(t.rows, c) && Collect(t.rows, c) == Collect(s.rows, c) {
        CollectSameRows([], s.rows, t.rows, c);
      }
      assert CellsPresent(t);
      assert Save(t).value == Save(s).value;
    } else {
      var c :| 0 <= c < |s.languages| && !HasColumn(s.rows, c);
      assert !HasColumn(t.rows, c);
    }
  }

  /** The first key typed into a row added at the end is pushed after its `""` placeholder. */
  lemma PlaceholderThenKey(s: Session, text: string)
    requires Trim(text) != ""
    ensures var t := AddKey(s, AtEnd);
      EditKey(t, |s.rows|, text).keyOrder == s.keyOrder + ["", Trim(text)]
  {
    var t := AddKey(s, AtEnd);
    NewRowAppended(s, AtEnd);
    FirstKeyPushed(t, |s.rows|, text);
    assert t.keyOrder + [Trim(text)] == s.keyOrder + ["", Trim(text)];
  }

  /** The first key typed into a row added from the toolbar button is pushed at the end, with no placeholder. */
  lemma ButtonThenKey(s: Session, text: string)
    requires Trim(text) != ""
    ensures var t := AddKey(s, FromButton);
      EditKey(t, |s.rows|, text).keyOrder == s.keyOrder + [Trim(text)]
  {
    NewRowAppended(s, FromButton);
    FirstKeyPushed(AddKey(s, FromButton), |s.rows|, text);
  }

  lemma NewRowAppended(s: Session, a: Anchor)
    requires !a.AfterRow?
    ensures AddKey(s, a).rows[|s.rows|] == NewRow(s)
  {
    var t := AddKey(s, a);
    assert t.rows == s.rows + [NewRow(s)];
  }

  /**
   * The first key typed into a row inserted after row `n` is pushed at the
   * end of the key order; the `""` placeholder stays right after the anchor
   * key, so a save places the new key after all the others.
   */
  lemma InsertedThenKey(s: Session, n: nat, text: string)
    requires n < |s.rows| && Trim(text) != ""
    requires IndexOf(s.keyOrder, s.rows[n].boundKey).Some?
    ensures var i := IndexOf(s.keyOrder, s.rows[n].boundKey).value;
      var t := AddKey(s, AfterRow(n));
      n + 1 < |t.rows| && t.rows[n + 1] == NewRow(s) &&
      EditKey(t, n + 1, text).keyOrder == InsertAt(s.keyOrder, i + 1, "") + [Trim(text)]
  {
    AddedAfter(s, n);
    FirstKeyPushed(AddKey(s, AfterRow(n)), n + 1, text);
  }

  lemma AddedAfter(s: Session, n: nat)
    requires n < |s.rows| && IndexOf(s.keyOrder, s.rows[n].boundKey).Some?
    ensures var t := AddKey(s, AfterRow(n));
      n + 1 < |t.rows| && t.rows[n + 1] == NewRow(s) &&
      t.keyOrder == InsertAt(s.keyOrder, IndexOf(s.keyOrder, s.rows[n].boundKey).value + 1, "")
  {
    var t := AddKey(s, AfterRow(n));
    assert t.rows == InsertAt(s.rows, n + 1, NewRow(s));
  }

  lemma FirstKeyPushed(t: Session, j: nat, text: string)
    requires j < |t.rows| && t.rows[j].tracksEdits && t.rows[j].boundKey == "" && Trim(text) != ""
    ensures EditKey(t, j, text).keyOrder == t.keyOrder + [Trim(text)]
  {
  }

  lemma {:induction false} LastWithSameKeys(a: seq<Row>, b: seq<Row>, k: string)
    requires RowKeys(a) == RowKeys(b)
    ensures LastWith(a, k) == LastWith(b, k)
    decreases |a|
  {
    if a != [] {
      assert RowKey(a[0]) == RowKeys(a)[0] == RowKeys(b)[0] == RowKey(b[0]);
      RowKeysTail(a);
      RowKeysTail(b);
      LastWithSameKeys(a[1..], b[1..], k);
    }
  }

  lemma RowKeysTail(a: seq<Row>)
    requires a != []
    ensures RowKeys(a[1..]) == RowKeys(a)[1..]
  {
    assert forall j :: 0 <= j < |a[1..]| ==> a[1..][j] == a[j + 1];
  }

  /** A value typed into the last row carrying a saved key is what the save writes for it. */
  lemma EditCellThenSave(s: Session, i: nat, c: nat, text: string)
    requires Consistent(s) && i < |s.rows| && c < |s.languages|
    requires RowKey(s.rows[i]) != "" && RowKey(s.rows[i]) in s.keyOrder
    requires LastWith(s.rows, RowKey(s.rows[i])) == Some(i)
    ensures Save(EditCell(s, i, c, text)).Some?
    ensures Get(Save(EditCell(s, i, c, text)).value[c].1, RowKey(s.rows[i])) == Some(JStr(Trim(text)))
  {
    var t := EditCell(s, i, c, text);
    EditCellConsistent(s, i, c, text);
    LastWithSameKeys(t.rows, s.rows, RowKey(s.rows[i]));
    SaveSpec(t, c, RowKey(s.rows[i]));
  }

  /** After a confirmed delete, no saved file has the deleted key. */
  lemma DeleteThenSave(s: Session, i: nat, c: nat)
    requires Consistent(s) && i < |s.rows| && c < |s.languages| && Trim(s.rows[i].keyText) != ""
    ensures Save(DeleteKey(s, i, true)).Some?
    ensures Trim(s.rows[i].keyText) !in Keys(Save(DeleteKey(s, i, true)).value[c].1)
  {
    var k := Trim(s.rows[i].keyText);
    var t := DeleteKey(s, i, true);
    DeleteKeyConsistent(s, i, true);
    assert multiset(t.keyOrder)[k] == 0;
    assert |t.languages| == |s.languages|;
    SaveSpec(t, c, k);
  }

  /** A confirmed delete leaves every other key of every file as it was. */
  lemma DeleteKeepsOthers(s: Session, i: nat, c: nat, k: string)
    requires i < |s.rows| && c < |s.languages| && k != Trim(s.rows[i].keyText)
    ensures Get(DeleteKey(s, i, true).languages[c].1, k) == Get(s.languages[c].1, k)
  {
    if Trim(s.rows[i].keyText) != "" {
      DeleteGet(s.languages[c].1, Trim(s.rows[i].keyText), k);
    }
  }

  // ---------------------------------------------------------------------------
  // Saving and reopening

  /**
   * A confirmed delete takes the key's one occurrence out of the key order;
   * the keys around it keep their relative order.
   */
  lemma DeleteKeepsOrder(s: Session, i: nat, a: seq<string>, b: seq<string>)
    requires i < |s.rows| && Trim(s.rows[i].keyText) != ""
    requires s.keyOrder == a + [Trim(s.rows[i].keyText)] + b
    requires Trim(s.rows[i].keyText) !in a && Trim(s.rows[i].keyText) !in b
    ensures DeleteKey(s, i, true).keyOrder == a + b
  {
    RemoveOne(a, b, Trim(s.rows[i].keyText));
  }

  /** A confirmed delete takes the key's one entry out of a file; the other entries keep their order. */
  lemma DeleteKeepsEntries(s: Session, i: nat, c: nat, p: nat)
    requires i < |s.rows| && Trim(s.rows[i].keyText) != ""
    requires c < |s.languages| && UniqueKeys(s.languages[c].1)
    requires p < |s.languages[c].1| && s.languages[c].1[p].0 == Trim(s.rows[i].keyText)
    ensures DeleteKey(s, i, true).languages[c].1 == s.languages[c].1[..p] + s.languages[c].1[p + 1..]
  {
    var k := Trim(s.rows[i].keyText);
    assert DeleteKey(s, i, true).languages == DeleteEverywhere(s.languages, k);
    DeleteUnique(s.languages[c].1, p);
  }

  /**
   * Deleting a freshly added row while its key cell is still empty removes
   * the row again, without asking; the `""` placeholder `addKey` put in the
   * key order stays behind.
   */
  lemma AddThenDelete(s: Session, a: Anchor, confirmed: bool)
    requires a.AfterRow? ==> a.index < |s.rows|
    ensures var t := AddKey(s, a);
      var n := if a.AfterRow? then a.index + 1 else |s.rows|;
      n < |t.rows| && DeleteKey(t, n, confirmed) == Session(s.languages, t.keyOrder, s.rows)
  {
    var t := AddKey(s, a);
    var n := if a.AfterRow? then a.index + 1 else |s.rows|;
    assert t.rows == InsertAt(s.rows, n, NewRow(s));
    assert t.rows[n].keyText == "";
    TrimEmpty();
    assert DeleteKey(t, n, confirmed) == Session(t.languages, t.keyOrder, RemoveAt(t.rows, n));
    RemoveInsert(s.rows, n, NewRow(s));
  }

  /** Every value a save writes is a string. */
  lemma SavedStrings(s: Session, c: nat)
    requires CellsPresent(s) && c < |s.languages|
    ensures forall a :: 0 <= a < |Save(s).value[c].1| ==> Save(s).value[c].1[a].1.JStr?
    ensures LeafValued(Save(s).value[c].1)
  {
    var f := Save(s).value[c].1;
    forall a | 0 <= a < |f| ensures f[a].1.JStr? {
      SaveSpec(s, c, f[a].0);
      GetUnique(f, a);
    }
  }

  /**
   * Reopening a saved file gives back the flat map that was saved, up to
   * order, when no saved key's path is a prefix of another's and none
   * starts with `.`.
   */
  lemma SaveThenReopen(s: Session, c: nat)
    requires CellsPresent(s) && c < |s.languages|
    requires PrefixFree(Save(s).value[c].1)
    requires forall a :: 0 <= a < |Save(s).value[c].1| ==> Split(Save(s).value[c].1[a].0)[0] != ""
    ensures NoPrefixBefore(Save(s).value[c].1)
    ensures var f := Save(s).value[c].1;
      forall e :: e in Flatten(Unflatten(f)) <==> e in f
  {
    var f := Save(s).value[c].1;
    SavedStrings(s, c);
    SaveSpec(s, c, "");
    FlattenUnflatten(f);
  }
}
