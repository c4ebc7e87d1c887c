/**
 * Parsed JSON values, as `JSON.parse` hands them to the editor. Objects are
 * insertion-ordered lists of (property, value) pairs with unique property
 * names; numbers keep their mathematical value.
 */
module JsonValue {
  import opened Wrappers
  import opened Assoc
  import opened Text

  datatype Json =
    | JNull
    | JBool(b: bool)
    | JNum(n: real)
    | JStr(s: string)
    | JArr(items: seq<Json>)
    | JObj(fields: seq<(string, Json)>)

  /**
   * Every object, at every depth, has unique property names: what `JSON.parse`
   * guarantees (a repeated name keeps its first position and its last value).
   */
  predicate WellKeyed(f: seq<(string, Json)>)
    decreases f, 1
  {
    UniqueKeys(f) && forall i :: 0 <= i < |f| ==> WellKeyedField(f[i])
  }

  predicate WellKeyedField(kv: (string, Json))
    decreases kv, 0
  {
    kv.1.JObj? ==> WellKeyed(kv.1.fields)
  }

  /**
   * `Object.entries(j)` on a parsed top-level value: an object's own
   * properties; an array's or a string's elements under their decimal
   * indices; nothing for a number or a boolean; and a `TypeError` (`None`)
   * for `null`.
   */
  function Entries(j: Json): (r: Option<seq<(string, Json)>>)
    ensures r.None? <==> j.JNull?
    ensures j.JObj? ==> r == Some(j.fields)
  {
    match j
    case JNull => None
    case JBool(_) => Some([])
    case JNum(_) => Some([])
    case JStr(s) => Some(seq(|s|, i requires 0 <= i < |s| => (NatText(i), JStr([s[i]]))))
    case JArr(a) => Some(seq(|a|, i requires 0 <= i < |a| => (NatText(i), a[i])))
    case JObj(f) => Some(f)
  }
}
