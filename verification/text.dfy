/**
 * String operations the editor relies on: `String.prototype.trim`,
 * `split(".")`, the `.`-joined key paths, `endsWith` and the decimal text of
 * array indices.
 */
module Text {

  /**
   * JavaScript's WhiteSpace and LineTerminator code points, the set `trim`
   * strips: TAB, VT, FF, SP, NBSP, ZWNBSP, the other space separators
   * (category Zs), LF, CR, LS and PS.
   */
  predicate IsSpace(c: char) {
    c in {'\t', '\U{000B}', '\U{000C}', ' ', '\U{00A0}', '\U{FEFF}',
          '\U{1680}', '\U{2000}', '\U{2001}', '\U{2002}', '\U{2003}', '\U{2004}',
          '\U{2005}', '\U{2006}', '\U{2007}', '\U{2008}', '\U{2009}', '\U{200A}',
          '\U{202F}', '\U{205F}', '\U{3000}',
          '\n', '\r', '\U{2028}', '\U{2029}'}
  }

  /** True when `s` neither starts nor ends with white space. */
  predicate Trimmed(s: string) {
    s == [] || (!IsSpace(s[0]) && !IsSpace(s[|s| - 1]))
  }

  /** `s` with its leading white space removed. */
  function TrimStart(s: string): (r: string)
    ensures |r| <= |s| && r == s[|s| - |r|..]
    ensures forall i :: 0 <= i < |s| - |r| ==> IsSpace(s[i])
    ensures r == [] || !IsSpace(r[0])
  {
    if s != [] && IsSpace(s[0]) then TrimStart(s[1..]) else s
  }

  /** `s` with its trailing white space removed. */
  function TrimEnd(s: string): (r: string)
    ensures |r| <= |s| && r == s[..|r|]
    ensures forall i :: |r| <= i < |s| ==> IsSpace(s[i])
    ensures r == [] || !IsSpace(r[|r| - 1])
  {
    if s != [] && IsSpace(s[|s| - 1]) then TrimEnd(s[..|s| - 1]) else s
  }

  /**
   * `s.trim()`: the piece of `s` between its leading and its trailing white
   * space.
   */
  function Trim(s: string): (r: string)
    ensures Trimmed(r)
    ensures exists i :: Strips(s, i, r)
  {
    var t := TrimStart(s);
    var r := TrimEnd(t);
    assert Strips(s, |s| - |t|, r);
    r
  }

  /** `r` is the piece of `s` at offset `i` and only white space surrounds it. */
  predicate Strips(s: string, i: int, r: string) {
    && 0 <= i <= |s| - |r|
    && r == s[i..i + |r|]
    && (forall j :: 0 <= j < i ==> IsSpace(s[j]))
    && (forall j :: i + |r| <= j < |s| ==> IsSpace(s[j]))
  }

  /** Trimming changes nothing exactly when the text is already trimmed. */
  lemma TrimFixpoint(s: string)
    ensures Trim(s) == s <==> Trimmed(s)
  {
  }

  /** `trim` is idempotent. */
  lemma TrimIdempotent(s: string)
    ensures Trim(Trim(s)) == Trim(s)
  {
    TrimFixpoint(Trim(s));
  }

  /** `s.endsWith(suffix)`. */
  predicate EndsWith(s: string, suffix: string) {
    |suffix| <= |s| && s[|s| - |suffix|..] == suffix
  }

  /** The segments are joined back with `.` between them. */
  function Join(p: seq<string>): string
    requires |p| >= 1
  {
    if |p| == 1 then p[0] else p[0] + "." + Join(p[1..])
  }

  /**
   * `s.split(".")`: the pieces of `s` between its dots, empty pieces
   * included, so there is always at least one.
   */
  function Split(s: string): (r: seq<string>)
    ensures |r| >= 1
    ensures forall i :: 0 <= i < |r| ==> '.' !in r[i]
    ensures Join(r) == s
  {
    if s == [] then [""]
    else
      var t := Split(s[1..]);
      if s[0] == '.' then
        assert [""] + t == [""] + t;
        [""] + t
      else
        var r := [[s[0]] + t[0]] + t[1..];
        JoinCons(s[0], t);
        r
  }

  lemma JoinCons(c: char, t: seq<string>)
    requires |t| >= 1
    ensures Join([[c] + t[0]] + t[1..]) == [c] + Join(t)
  {
    var r := [[c] + t[0]] + t[1..];
    if |t| == 1 {
      assert r == [[c] + t[0]];
    } else {
      assert r[0] == [c] + t[0] && r[1..] == t[1..];
      JoinStep(r);
      JoinStep(t);
      ConsAssoc(c, t[0], "." + Join(t[1..]));
    }
  }

  lemma JoinStep(p: seq<string>)
    requires |p| > 1
    ensures Join(p) == p[0] + ("." + Join(p[1..]))
  {
  }

  lemma ConsAssoc(c: char, a: string, b: string)
    ensures ([c] + a) + b == [c] + (a + b)
  {
  }

  /** A dot-free string is a single segment. */
  lemma {:induction false} SplitDotFree(a: string)
    requires '.' !in a
    ensures Split(a) == [a]
  {
    if a != [] {
      SplitDotFree(a[1..]);
    }
  }

  /** Splitting `a.rest`, `a` dot-free, yields `a` followed by the segments of `rest`. */
  lemma {:induction false} SplitAfterSegment(a: string, rest: string)
    requires '.' !in a
    ensures Split(a + "." + rest) == [a] + Split(rest)
  {
    if a == [] {
      assert a + "." + rest == ['.'] + rest;
      assert (['.'] + rest)[1..] == rest;
    } else {
      var s := a + "." + rest;
      assert s[1..] == a[1..] + "." + rest;
      SplitAfterSegment(a[1..], rest);
      assert [a[0]] + a[1..] == a;
    }
  }

  /** `split(".")` undoes the joining of dot-free segments. */
  lemma {:induction false} SplitJoin(p: seq<string>)
    requires |p| >= 1
    requires forall i :: 0 <= i < |p| ==> '.' !in p[i]
    ensures Split(Join(p)) == p
  {
    if |p| == 1 {
      SplitDotFree(p[0]);
    } else {
      SplitJoin(p[1..]);
      SplitAfterSegment(p[0], Join(p[1..]));
      assert [p[0]] + p[1..] == p;
    }
  }

  /** The decimal text of a natural number, as JavaScript prints array indices. */
  function NatText(n: nat): (r: string)
    ensures |r| >= 1
    ensures forall i :: 0 <= i < |r| ==> '0' <= r[i] <= '9'
  {
    var d := ('0' as int + n % 10) as char;
    if n < 10 then [d] else NatText(n / 10) + [d]
  }
}
