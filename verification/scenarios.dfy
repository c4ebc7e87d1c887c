/** Concrete sessions worked through the model. */
module Scenarios {
  import opened Wrappers
  import opened Assoc
  import opened Text
  import opened JsonValue
  import opened KeyPath
  import opened Store
  import opened Saving

  function FileA(): Json {
    JObj([("x", JObj([("y", JStr("1"))]))])
  }

  function FileB(): Json {
    JObj([("x", JObj([("y", JStr("2"))])), ("z", JStr("3"))])
  }

  lemma FlattenA()
    ensures Flatten(FileA().fields) == [("x.y", JStr("1"))]
  {
    var inner := [("y", JStr("1"))];
    assert FlattenInto([], inner, "x") == [("x.y", JStr("1"))] by {
      assert Step("x", "y") == "x.y";
      assert inner[1..] == [];
    }
    assert FileA().fields[1..] == [];
  }

  lemma FlattenB()
    ensures Flatten(FileB().fields) == [("x.y", JStr("2")), ("z", JStr("3"))]
  {
    var f := FileB().fields;
    var inner := [("y", JStr("2"))];
    assert FlattenInto([], inner, "x") == [("x.y", JStr("2"))] by {
      assert Step("x", "y") == "x.y";
      assert inner[1..] == [];
    }
    assert f[1..] == [("z", JStr("3"))];
    assert f[1..][1..] == [];
    assert Put([("x.y", JStr("2"))], "z", JStr("3")) == [("x.y", JStr("2")), ("z", JStr("3"))];
  }

  function Listing(): seq<DirEntry> {
    [DirEntry("a.json", FileEntry, Some(FileA())), DirEntry("b.json", FileEntry, Some(FileB()))]
  }

  function Files(): seq<(string, Flat)> {
    [("a.json", [("x.y", JStr("1"))]), ("b.json", [("x.y", JStr("2")), ("z", JStr("3"))])]
  }

  lemma LoadedEntry(e: DirEntry, f: Json, m: Flat)
    requires e.kind == FileEntry && |e.name| >= 5 && e.name[|e.name| - 5..] == ".json"
    requires e.parsed == Some(f) && f.JObj? && Flatten(f.fields) == m
    ensures Loaded(e) == Some(m)
  {
    assert EndsWith(e.name, ".json");
  }

  lemma LoadExample()
    ensures Load(Listing()) == Files()
  {
    var es := Listing();
    FlattenA();
    FlattenB();
    LoadedEntry(es[0], FileA(), Files()[0].1);
    LoadedEntry(es[1], FileB(), Files()[1].1);
    var first := Put([], "a.json", Files()[0].1);
    assert first == [Files()[0]];
    assert Put(first, "b.json", Files()[1].1) == Files();
    assert es[1..][1..] == [];
    assert LoadInto(first, es[1..]) == Files();
  }

  lemma AppendFirst()
    ensures AppendNew([], ["x.y"]) == ["x.y"]
  {
    assert ["x.y"][1..] == [];
  }

  lemma AppendSecond()
    ensures AppendNew(["x.y"], ["x.y", "z"]) == ["x.y", "z"]
  {
    assert ["x.y", "z"][1..] == ["z"];
    assert ["z"][1..] == [];
    assert "z" !in ["x.y"];
  }

  lemma ReconcileExample()
    ensures Reconcile([], Files()) == ["x.y", "z"]
  {
    var langs := Files();
    assert Keys(langs[0].1) == ["x.y"];
    assert Keys(langs[1].1) == ["x.y", "z"];
    AppendFirst();
    AppendSecond();
    assert langs[1..][1..] == [];
    assert Reconcile(["x.y", "z"], langs[1..][1..]) == ["x.y", "z"];
    assert Reconcile(["x.y"], langs[1..]) == ["x.y", "z"];
  }

  lemma RowExample(numText: real -> string)
    ensures RenderRow(Files(), "x.y", numText).cells == ["1", "2"]
    ensures RenderRow(Files(), "z", numText).cells == ["", "3"]
  {
    var langs := Files();
    assert CellText(langs[0].1, "x.y", numText) == "1";
    assert CellText(langs[1].1, "x.y", numText) == "2";
    assert CellText(langs[0].1, "z", numText) == "";
    assert CellText(langs[1].1, "z", numText) == "3";
  }

  /**
   * Opening a folder with `a.json = {"x":{"y":"1"}}` and
   * `b.json = {"x":{"y":"2"},"z":"3"}` orders the keys `x.y`, `z` and shows
   * `1`/`2` and blank/`3`.
   */
  lemma OpenFolderExample(numText: real -> string)
    ensures var s := OpenFolder(Listing(), numText);
      s.keyOrder == ["x.y", "z"] && |s.rows| == 2 &&
      s.rows[0].cells == ["1", "2"] && s.rows[1].cells == ["", "3"]
  {
    LoadExample();
    ReconcileExample();
    RowExample(numText);
    var r := Render(Session(Files(), [], []), numText);
    assert r.keyOrder == ["x.y", "z"];
    assert r.rows[0] == RenderRow(Files(), "x.y", numText);
    assert r.rows[1] == RenderRow(Files(), "z", numText);
    assert OpenFolder(Listing(), numText) == r;
  }
}
