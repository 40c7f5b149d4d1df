/** Decoding the provider's answer: each cursor row carries a key (column 0), a value
    (column 1) and a type tag (column 2), and the rows are stored into `content` in
    cursor order. */
module Rows {
  import opened Wrappers
  import opened Values

  /** What the cursor's typed getters return for column 1 of a row. The conversions
      are performed by the provider's cursor, so they are inputs of the model. */
  datatype Cell = Cell(text: Option<string>, asInt: Int32, asLong: Int64, asFloat: Float32)

  /** One cursor row; `None` is a null column. */
  datatype Row = Row(key: Option<string>, value: Cell, tag: Option<string>)

  /** The type tags the decoder recognises. */
  const KnownTags: set<string> := {"Int", "Long", "Float", "Boolean", "String"}

  /** The tag a value of each kind travels under; a string set has none. */
  function TagOf(v: Value): Option<string> {
    match v
    case IntV(_) => Some("Int")
    case LongV(_) => Some("Long")
    case FloatV(_) => Some("Float")
    case BoolV(_) => Some("Boolean")
    case StrV(_) => Some("String")
    case StrSetV(_) => None
  }

  /** The `when (type)` of the row loop. `None` is the null it yields for an unknown
      tag, a null tag, or a null text under "String"; storing that null into a
      `ConcurrentHashMap` throws. */
  function DecodeValue(cell: Cell, tag: Option<string>): (r: Option<Value>)
    ensures r.Some? ==> TagOf(r.value) == tag
    ensures r.None? <==> (tag.None? || tag.value !in KnownTags || (tag == Some("String") && cell.text.None?))
    ensures tag == Some("Boolean") ==> r == Some(BoolV(cell.text == Some("true")))
  {
    if tag == Some("Int") then Some(IntV(cell.asInt))
    else if tag == Some("Long") then Some(LongV(cell.asLong))
    else if tag == Some("Float") then Some(FloatV(cell.asFloat))
    else if tag == Some("Boolean") then Some(BoolV(cell.text == Some("true")))
    else if tag == Some("String") then
      match cell.text
      case Some(t) => Some(StrV(t))
      case None => None
    else None
  }

  /** The entry a row stores, or `None` when `content[key] = ...` throws because the
      key or the decoded value is null. */
  function DecodeRow(row: Row): (r: Option<(string, Value)>)
    ensures r.Some? ==> row.key == Some(r.value.0) && TagOf(r.value.1) == row.tag
    ensures r.None? <==> row.key.None? || DecodeValue(row.value, row.tag).None?
  {
    match row.key
    case None => None
    case Some(k) =>
      match DecodeValue(row.value, row.tag)
      case None => None
      case Some(v) => Some((k, v))
  }

  /** A "Boolean" row decodes to true exactly when its text is "true", compared
      case-sensitively; "True", "1" or a null text give false. */
  lemma BooleanRowDecoding(k: string, cell: Cell)
    ensures DecodeRow(Row(Some(k), cell, Some("Boolean"))) == Some((k, BoolV(cell.text == Some("true"))))
    ensures cell.text == Some("True") ==> DecodeRow(Row(Some(k), cell, Some("Boolean"))) == Some((k, BoolV(false)))
  {
  }

  /** The cell carries `v`: the cursor getter the decoder calls for `v`'s tag returns
      `v` (`getInt`, `getLong` or `getFloat` for a number, `getString` for a Boolean's
      "true"/"false" or for a String). The columns the decoder does not read are free. */
  predicate Carries(cell: Cell, v: Value) {
    match v
    case IntV(i) => cell.asInt == i
    case LongV(l) => cell.asLong == l
    case FloatV(f) => cell.asFloat == f
    case BoolV(b) => cell.text == Some(if b then "true" else "false")
    case StrV(s) => cell.text == Some(s)
    case StrSetV(_) => false
  }

  /** Every kind the provider can tag survives the trip through a cursor row: a row
      under the value's tag, whose cell carries the value, stores exactly that value
      under its key. */
  lemma DecodeEncode(key: string, v: Value, cell: Cell)
    requires TagOf(v).Some? && Carries(cell, v)
    ensures DecodeRow(Row(Some(key), cell, TagOf(v))) == Some((key, v))
  {
  }

  predicate AllDecodable(rows: seq<Row>) {
    forall i :: 0 <= i < |rows| ==> DecodeRow(rows[i]).Some?
  }

  /** The state after the `while (cursor.moveToNext())` loop: the content map, and
      whether the loop ran to the end rather than stopping at a throwing row. */
  datatype Applied = Applied(content: map<string, Value>, complete: bool)

  /** Stores the rows into `content` one after another, in cursor order, until a row
      throws; the rows after it are never read. */
  function ApplyRows(content: map<string, Value>, rows: seq<Row>): (r: Applied)
    ensures r.complete <==> AllDecodable(rows)
    ensures content.Keys <= r.content.Keys
    decreases |rows|
  {
    if |rows| == 0 then Applied(content, true)
    else
      match DecodeRow(rows[0])
      case None => Applied(content, false)
      case Some((k, v)) => ApplyRows(content[k := v], rows[1..])
  }

  /** The value of the LAST decodable row with key `k`, if any: the row that should
      win when several rows share a key. */
  function LastValue(rows: seq<Row>, k: string): Option<Value>
    decreases |rows|
  {
    if |rows| == 0 then None
    else
      match LastValue(rows[1..], k)
      case Some(v) => Some(v)
      case None =>
        match DecodeRow(rows[0])
        case Some((k0, v0)) => if k0 == k then Some(v0) else None
        case None => None
  }

  /** When no row throws, every key ends up holding the value of its last row, and
      keys no row mentions keep what they had. */
  lemma {:induction false} ApplyRowsLastWins(content: map<string, Value>, rows: seq<Row>, k: string)
    requires AllDecodable(rows)
    ensures var r := ApplyRows(content, rows).content;
      match LastValue(rows, k)
      case Some(v) => k in r && r[k] == v
      case None => (k in r <==> k in content) && (k in content ==> r[k] == content[k])
    decreases |rows|
  {
    if |rows| > 0 {
      var (k0, v0) := DecodeRow(rows[0]).value;
      assert AllDecodable(rows[1..]) by {
        forall i | 0 <= i < |rows[1..]| ensures DecodeRow(rows[1..][i]).Some? {
          assert rows[1..][i] == rows[i + 1];
        }
      }
      ApplyRowsLastWins(content[k0 := v0], rows[1..], k);
    }
  }

  /** Appending a row to the cursor only sets that row's key, or stops the loop. */
  lemma {:induction false} ApplyRowsSnoc(content: map<string, Value>, rows: seq<Row>, row: Row)
    ensures var before := ApplyRows(content, rows);
      ApplyRows(content, rows + [row]) ==
        if !before.complete then before
        else match DecodeRow(row)
          case None => Applied(before.content, false)
          case Some((k, v)) => Applied(before.content[k := v], true)
    decreases |rows|
  {
    if |rows| == 0 {
      assert [row][1..] == [];
    } else {
      assert (rows + [row])[0] == rows[0];
      assert (rows + [row])[1..] == rows[1..] + [row];
      match DecodeRow(rows[0])
      case None =>
      case Some((k, v)) => ApplyRowsSnoc(content[k := v], rows[1..], row);
    }
  }

  /** A throwing row ends the loop: nothing after it reaches `content`. */
  lemma {:induction false} ApplyRowsStopsAtBadRow(content: map<string, Value>, rows: seq<Row>, bad: Row, rest: seq<Row>)
    requires DecodeRow(bad).None?
    ensures ApplyRows(content, rows + [bad] + rest) == Applied(ApplyRows(content, rows).content, false)
    decreases |rows|
  {
    if |rows| == 0 {
      assert rows + [bad] + rest == [bad] + rest;
    } else {
      assert (rows + [bad] + rest)[0] == rows[0];
      assert (rows + [bad] + rest)[1..] == rows[1..] + [bad] + rest;
      match DecodeRow(rows[0])
      case None =>
      case Some((k, v)) => ApplyRowsStopsAtBadRow(content[k := v], rows[1..], bad, rest);
    }
  }
}
