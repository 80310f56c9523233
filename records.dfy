/**
 * Row-set draining (sql_lib.js: convertRecordsToArray, convertRecordsToObject,
 * isObjectResult, convertRecords). A row-set is a forward-only cursor over
 * positions, each either a "before first" position, where `BOF` is true, or a
 * row of column values; column names are fixed for the row-set.
 */
module Records {
  import opened Wrappers
  import opened Driver

  /** One record: column name to column value; a repeated column name keeps its last value. */
  type Record<V> = map<string, V>

  /** One cursor position. */
  datatype Slot<V> = BeforeFirst | Row(values: seq<V>)

  /** What the facade hands back: an array of records, or records keyed by one column. */
  datatype Converted<V> = AsArray(records: seq<Record<V>>) | AsObject(groups: map<string, Record<V>>)

  /** The optional result parameter: a JsObject with optional `type` and `field`, or any other value. */
  datatype ResultParam = JsObject(kind: Option<string>, field: Option<string>) | OtherValue

  /** Every row carries one value per column. */
  ghost predicate WellFormed<V>(names: seq<string>, slots: seq<Slot<V>>)
  {
    forall k :: 0 <= k < |slots| && slots[k].Row? ==> |slots[k].values| == |names|
  }

  /** The row-level form of `WellFormed`: each row of a list of rows holds one value per column. */
  ghost predicate RowsFit<V>(names: seq<string>, rows: seq<seq<V>>)
  {
    forall k :: 0 <= k < |rows| ==> |rows[k]| == |names|
  }

  /** An `ADODB.RecordSet` read through connection `conn`. */
  class RecordSet<V> {
    const conn: Connection
    const names: seq<string>
    const slots: seq<Slot<V>>
    var pos: nat

    ghost predicate Valid()
      reads this
    {
      pos <= |slots| && WellFormed(names, slots)
    }

    /** The positions not yet passed. */
    ghost function Remaining(): seq<Slot<V>>
      reads this
      requires Valid()
    {
      slots[pos..]
    }

    constructor (conn: Connection, names: seq<string>, slots: seq<Slot<V>>)
      requires WellFormed(names, slots)
      ensures Valid() && pos == 0
      ensures this.conn == conn && this.names == names && this.slots == slots
    {
      this.conn := conn;
      this.names := names;
      this.slots := slots;
      pos := 0;
    }

    predicate EOF()
      reads this
    {
      pos >= |slots|
    }

    predicate BOF()
      reads this
      requires !EOF()
    {
      slots[pos].BeforeFirst?
    }

    /** `MoveNext()`: a cursor moves only while its connection is open. */
    method MoveNext()
      requires Valid() && !EOF() && conn.isOpen
      modifies this
      ensures Valid() && pos == old(pos) + 1
    {
      pos := pos + 1;
    }
  }

  /** The object built for one row: each column's value assigned under its name, left to right. */
  function MakeRecord<V>(names: seq<string>, values: seq<V>): Record<V>
    requires |values| == |names|
    decreases |names|
  {
    if names == [] then map[]
    else
      var n := |names| - 1;
      MakeRecord(names[..n], values[..n])[names[n] := values[n]]
  }

  /**
   * A record's keys are the column names, and a name not repeated by a later
   * column holds that column's value.
   */
  lemma {:induction false} RecordFields<V>(names: seq<string>, values: seq<V>)
    requires |values| == |names|
    ensures MakeRecord(names, values).Keys == set n | n in names
    ensures forall i :: 0 <= i < |names| && (forall j :: i < j < |names| ==> names[j] != names[i]) ==>
      MakeRecord(names, values)[names[i]] == values[i]
    decreases |names|
  {
    if names != [] {
      var n := |names| - 1;
      RecordFields(names[..n], values[..n]);
      assert names == names[..n] + [names[n]];
    }
  }

  lemma {:induction false} DistinctSetSize(names: seq<string>)
    requires forall i, j :: 0 <= i < j < |names| ==> names[i] != names[j]
    ensures |set n | n in names| == |names|
  {
    if names != [] {
      var n := |names| - 1;
      DistinctSetSize(names[..n]);
      assert (set x | x in names) == (set x | x in names[..n]) + {names[n]};
    }
  }

  /** With distinct column names, a record has exactly `Fields.Count` fields. */
  lemma RecordSize<V>(names: seq<string>, values: seq<V>)
    requires |values| == |names|
    requires forall i, j :: 0 <= i < j < |names| ==> names[i] != names[j]
    ensures |MakeRecord(names, values)| == |names|
  {
    RecordFields(names, values);
    DistinctSetSize(names);
  }

  /** The rows a traversal visits, in cursor order: every non-BOF position. */
  function RowsOf<V>(slots: seq<Slot<V>>): (r: seq<seq<V>>)
    ensures |r| <= |slots|
    ensures r == [] <==> forall k :: 0 <= k < |slots| ==> slots[k].BeforeFirst?
  {
    if slots == [] then []
    else if slots[0].BeforeFirst? then RowsOf(slots[1..])
    else [slots[0].values] + RowsOf(slots[1..])
  }

  lemma {:induction false} RowsOfFit<V>(names: seq<string>, slots: seq<Slot<V>>)
    requires WellFormed(names, slots)
    ensures RowsFit(names, RowsOf(slots))
  {
    if slots != [] {
      RowsOfFit(names, slots[1..]);
    }
  }

  lemma {:induction false} RowsOfConcat<V>(a: seq<Slot<V>>, b: seq<Slot<V>>)
    ensures RowsOf(a + b) == RowsOf(a) + RowsOf(b)
  {
    if a != [] {
      RowsOfConcat(a[1..], b);
      assert (a + b)[0] == a[0];
      assert (a + b)[1..] == a[1..] + b;
    } else {
      assert a + b == b;
    }
  }

  /**
   * The array `convertRecordsToArray` builds from the positions `slots`: the
   * record of each non-BOF position.
   */
  function ArraySpec<V>(names: seq<string>, slots: seq<Slot<V>>): seq<Record<V>>
    requires WellFormed(names, slots)
  {
    if slots == [] then []
    else if slots[0].BeforeFirst? then ArraySpec(names, slots[1..])
    else [MakeRecord(names, slots[0].values)] + ArraySpec(names, slots[1..])
  }

  /** One record per non-BOF position, in cursor order. */
  lemma {:induction false} ArrayRecords<V>(names: seq<string>, slots: seq<Slot<V>>)
    requires WellFormed(names, slots)
    ensures RowsFit(names, RowsOf(slots))
    ensures |ArraySpec(names, slots)| == |RowsOf(slots)|
    ensures forall k :: 0 <= k < |RowsOf(slots)| ==> ArraySpec(names, slots)[k] == MakeRecord(names, RowsOf(slots)[k])
  {
    RowsOfFit(names, slots);
    if slots != [] {
      ArrayRecords(names, slots[1..]);
    }
  }

  lemma {:induction false} ArraySpecConcat<V>(names: seq<string>, a: seq<Slot<V>>, b: seq<Slot<V>>)
    requires WellFormed(names, a) && WellFormed(names, b)
    ensures WellFormed(names, a + b)
    ensures ArraySpec(names, a + b) == ArraySpec(names, a) + ArraySpec(names, b)
  {
    if a != [] {
      ArraySpecConcat(names, a[1..], b);
      assert (a + b)[0] == a[0];
      assert (a + b)[1..] == a[1..] + b;
    } else {
      assert a + b == b;
    }
  }

  /**
   * BOF positions before the first row contribute nothing: the array read from
   * a later point equals the array read from the start.
   */
  lemma FallbackSeesAllRows<V>(names: seq<string>, slots: seq<Slot<V>>, p: nat)
    requires WellFormed(names, slots)
    requires p <= |slots|
    requires forall k :: 0 <= k < p ==> slots[k].BeforeFirst?
    ensures WellFormed(names, slots[p..])
    ensures ArraySpec(names, slots[p..]) == ArraySpec(names, slots)
  {
    assert slots == slots[..p] + slots[p..];
    ArraySpecConcat(names, slots[..p], slots[p..]);
    ArrayRecords(names, slots[..p]);
  }

  /** `Fields(name)`: the first column called `field`, or None where the driver throws. */
  function FindField(names: seq<string>, field: string): (r: Option<nat>)
    ensures r.Some? ==> r.value < |names| && names[r.value] == field
    ensures r.Some? ==> forall j :: 0 <= j < r.value ==> names[j] != field
    ensures r.None? <==> field !in names
  {
    if names == [] then None
    else if names[0] == field then Some(0)
    else match FindField(names[1..], field)
      case None => None
      case Some(i) => Some(i + 1)
  }

  /** The key a row is stored under: the stringified value of column `col`. */
  function KeyOf<V>(row: seq<V>, col: nat, str: V -> string): string
    requires col < |row|
  {
    str(row[col])
  }

  /** The object `convertRecordsToObject` builds from `rows`, processed in order. */
  function GroupOf<V>(names: seq<string>, rows: seq<seq<V>>, col: nat, str: V -> string): map<string, Record<V>>
    requires col < |names|
    requires RowsFit(names, rows)
    decreases |rows|
  {
    if rows == [] then map[]
    else
      var n := |rows| - 1;
      GroupOf(names, rows[..n], col, str)[KeyOf(rows[n], col, str) := MakeRecord(names, rows[n])]
  }

  /** The keys of the grouped object are exactly the keys of the rows. */
  lemma {:induction false} GroupKeys<V>(names: seq<string>, rows: seq<seq<V>>, col: nat, str: V -> string)
    requires col < |names|
    requires RowsFit(names, rows)
    ensures forall key :: key in GroupOf(names, rows, col, str) <==>
      exists j :: 0 <= j < |rows| && KeyOf(rows[j], col, str) == key
    decreases |rows|
  {
    if rows != [] {
      var n := |rows| - 1;
      GroupKeys(names, rows[..n], col, str);
      assert forall j :: 0 <= j < n ==> rows[..n][j] == rows[j];
    }
  }

  /** Row `j` is the last of `rows` whose key is its key. */
  predicate IsLastWithKey<V>(rows: seq<seq<V>>, j: nat, col: nat, str: V -> string)
    requires j < |rows|
    requires forall k :: 0 <= k < |rows| ==> col < |rows[k]|
  {
    forall j' :: j < j' < |rows| ==> KeyOf(rows[j'], col, str) != KeyOf(rows[j], col, str)
  }

  /** Last write wins: each key holds the record of the last row with that key. */
  lemma {:induction false} GroupLastWins<V>(names: seq<string>, rows: seq<seq<V>>, col: nat, str: V -> string, j: nat)
    requires col < |names|
    requires RowsFit(names, rows)
    requires j < |rows| && IsLastWithKey(rows, j, col, str)
    ensures KeyOf(rows[j], col, str) in GroupOf(names, rows, col, str)
    ensures GroupOf(names, rows, col, str)[KeyOf(rows[j], col, str)] == MakeRecord(names, rows[j])
    decreases |rows|
  {
    var n := |rows| - 1;
    if j < n {
      var prefix := rows[..n];
      assert KeyOf(rows[n], col, str) != KeyOf(rows[j], col, str);
      assert prefix[j] == rows[j];
      assert IsLastWithKey(prefix, j, col, str) by {
        forall j' | j < j' < |prefix|
          ensures KeyOf(prefix[j'], col, str) != KeyOf(prefix[j], col, str)
        {
          assert prefix[j'] == rows[j'];
        }
      }
      GroupLastWins(names, prefix, col, str, j);
    }
  }

  /**
   * Grouping `rows` by column `field`: None (the driver throws) when some row is
   * read and no column has that name; an empty object when there is no row.
   */
  function Grouping<V>(names: seq<string>, rows: seq<seq<V>>, field: string, str: V -> string): (r: Option<map<string, Record<V>>>)
    requires RowsFit(names, rows)
    ensures r.None? <==> rows != [] && field !in names
    ensures rows == [] ==> r == Some(map[])
  {
    if rows == [] then Some(map[])
    else match FindField(names, field)
      case None => None
      case Some(col) => Some(GroupOf(names, rows, col, str))
  }

  /** The outcome of `convertRecordsToObject` on the positions `slots`. */
  function ObjectSpec<V>(names: seq<string>, slots: seq<Slot<V>>, field: string, str: V -> string): Option<map<string, Record<V>>>
    requires WellFormed(names, slots)
  {
    RowsOfFit(names, slots);
    Grouping(names, RowsOf(slots), field, str)
  }

  /** One more row read by a grouping that has found its column: the row is stored under its key. */
  lemma GroupingSnoc<V>(names: seq<string>, rows: seq<seq<V>>, v: seq<V>, field: string, str: V -> string)
    requires RowsFit(names, rows) && |v| == |names| && field in names
    ensures RowsFit(names, rows + [v])
    ensures Grouping(names, rows + [v], field, str) ==
      Some(Grouping(names, rows, field, str).value[KeyOf(v, FindField(names, field).value, str) := MakeRecord(names, v)])
  {
    var rows' := rows + [v];
    assert rows'[..|rows|] == rows;
    assert rows'[|rows|] == v;
  }

  /** Appending a position to a traversal: a BOF position changes nothing, a row is stored under its key. */
  lemma ObjectSpecSnoc<V>(names: seq<string>, slots: seq<Slot<V>>, s: Slot<V>, field: string, str: V -> string)
    requires WellFormed(names, slots)
    requires s.Row? ==> |s.values| == |names| && field in names
    ensures WellFormed(names, slots + [s])
    ensures s.BeforeFirst? ==> ObjectSpec(names, slots + [s], field, str) == ObjectSpec(names, slots, field, str)
    ensures s.Row? ==>
      ObjectSpec(names, slots + [s], field, str) ==
      Some(ObjectSpec(names, slots, field, str).value[
        KeyOf(s.values, FindField(names, field).value, str) := MakeRecord(names, s.values)])
  {
    RowsOfConcat(slots, [s]);
    assert [s][1..] == [];
    var rows := RowsOf(slots);
    RowsOfFit(names, slots);
    if s.BeforeFirst? {
      assert RowsOf([s]) == [];
      assert RowsOf(slots + [s]) == rows;
    } else {
      assert RowsOf([s]) == [s.values];
      assert RowsOf(slots + [s]) == rows + [s.values];
      GroupingSnoc(names, rows, s.values, field, str);
    }
  }

  /**
   * isObjectResult: the parameter is defined, a JsObject, its `type` is
   * "object" and its `field` is present and non-empty.
   */
  function IsObjectResult(param: Option<ResultParam>): (r: bool)
    ensures r <==> (param.Some? && param.value.JsObject? && param.value.kind == Some("object") &&
                    param.value.field.Some? && param.value.field.value != "")
  {
    if param.None? then false
    else if !param.value.JsObject? then false
    else if param.value.kind != Some("object") then false
    else if param.value.field.None? || param.value.field.value == "" then false
    else true
  }

  /** What `convertRecords` returns: the grouped object when asked for and grouping succeeds, else the array. */
  function ConvertSpec<V>(names: seq<string>, slots: seq<Slot<V>>, param: Option<ResultParam>, str: V -> string): Converted<V>
    requires WellFormed(names, slots)
  {
    if IsObjectResult(param) && ObjectSpec(names, slots, param.value.field.value, str).Some? then
      AsObject(ObjectSpec(names, slots, param.value.field.value, str).value)
    else
      AsArray(ArraySpec(names, slots))
  }

  /**
   * A grouping column that does not exist, with at least one row, falls back
   * to the array: one record per row, so never empty.
   */
  lemma MissingFieldFallsBack<V>(names: seq<string>, slots: seq<Slot<V>>, param: Option<ResultParam>, str: V -> string)
    requires WellFormed(names, slots)
    requires IsObjectResult(param) && param.value.field.value !in names
    requires exists k :: 0 <= k < |slots| && slots[k].Row?
    ensures ConvertSpec(names, slots, param, str) == AsArray(ArraySpec(names, slots))
    ensures |ConvertSpec(names, slots, param, str).records| == |RowsOf(slots)| > 0
  {
    ArrayRecords(names, slots);
  }

  /** The object for one row at the cursor: the inner `for` loop over `Fields.Count` columns. */
  method ReadRecord<V>(rs: RecordSet<V>) returns (obj: Record<V>)
    requires rs.Valid() && !rs.EOF() && !rs.BOF()
    ensures obj == MakeRecord(rs.names, rs.slots[rs.pos].values)
  {
    var values := rs.slots[rs.pos].values;
    var countFields := |rs.names|;
    obj := map[];
    for i := 0 to countFields
      invariant obj == MakeRecord(rs.names[..i], values[..i])
    {
      assert rs.names[..i + 1][..i] == rs.names[..i] && values[..i + 1][..i] == values[..i];
      obj := obj[rs.names[i] := values[i]];
    }
    assert rs.names[..countFields] == rs.names && values[..countFields] == values;
  }

  /** convertRecordsToArray: drains the cursor, one record per non-BOF position, in order. */
  method ConvertRecordsToArray<V>(rs: RecordSet<V>) returns (result: seq<Record<V>>)
    requires rs.Valid() && rs.conn.isOpen
    modifies rs
    ensures rs.Valid() && rs.EOF()
    ensures result == ArraySpec(rs.names, old(rs.Remaining()))
  {
    ghost var start := rs.pos;
    result := [];
    while !rs.EOF()
      invariant rs.Valid() && start <= rs.pos
      invariant WellFormed(rs.names, rs.slots[start..rs.pos])
      invariant result == ArraySpec(rs.names, rs.slots[start..rs.pos])
      decreases |rs.slots| - rs.pos
    {
      assert rs.slots[start..rs.pos + 1] == rs.slots[start..rs.pos] + [rs.slots[rs.pos]];
      ArraySpecConcat(rs.names, rs.slots[start..rs.pos], [rs.slots[rs.pos]]);
      if rs.BOF() {
        rs.MoveNext();
        continue;
      }
      var obj := ReadRecord(rs);
      result := result + [obj];
      rs.MoveNext();
    }
    assert rs.slots[start..rs.pos] == old(rs.Remaining());
  }

  /**
   * convertRecordsToObject: drains the cursor, storing each non-BOF row under
   * the stringified value of column `field`. When a row is reached and no
   * column has that name, the driver throws (None) and the cursor stays on
   * that row, the first non-BOF position.
   */
  method ConvertRecordsToObject<V>(rs: RecordSet<V>, field: string, str: V -> string)
    returns (result: Option<map<string, Record<V>>>)
    requires rs.Valid() && rs.conn.isOpen
    modifies rs
    ensures rs.Valid() && old(rs.pos) <= rs.pos
    ensures result == ObjectSpec(rs.names, old(rs.Remaining()), field, str)
    ensures result.Some? ==> rs.EOF()
    ensures result.None? ==> !rs.EOF() && !rs.BOF()
    ensures result.None? ==> forall k :: old(rs.pos) <= k < rs.pos ==> rs.slots[k].BeforeFirst?
  {
    ghost var start := rs.pos;
    var groups: map<string, Record<V>> := map[];
    var sField := field;
    while !rs.EOF()
      invariant rs.Valid() && start <= rs.pos
      invariant WellFormed(rs.names, rs.slots[start..rs.pos])
      invariant ObjectSpec(rs.names, rs.slots[start..rs.pos], field, str) == Some(groups)
      invariant sField !in rs.names ==> forall k :: start <= k < rs.pos ==> rs.slots[k].BeforeFirst?
      decreases |rs.slots| - rs.pos
    {
      var col := FindField(rs.names, sField);
      if !rs.BOF() && col.None? {
        ghost var all := rs.slots[start..];
        assert all[rs.pos - start].Row?;
        return None;
      }
      assert rs.slots[start..rs.pos + 1] == rs.slots[start..rs.pos] + [rs.slots[rs.pos]];
      ObjectSpecSnoc(rs.names, rs.slots[start..rs.pos], rs.slots[rs.pos], field, str);
      if rs.BOF() {
        rs.MoveNext();
        continue;
      }
      var key := str(rs.slots[rs.pos].values[col.value]);
      var obj := ReadRecord(rs);
      groups := groups[key := obj];
      rs.MoveNext();
    }
    assert rs.slots[start..rs.pos] == old(rs.Remaining());
    return Some(groups);
  }

  /**
   * convertRecords: the grouped object when the parameter asks for it and
   * grouping succeeds; otherwise the array, which after a failed grouping is
   * read from where grouping stopped and still holds every row.
   */
  method ConvertRecords<V>(rs: RecordSet<V>, param: Option<ResultParam>, str: V -> string) returns (r: Converted<V>)
    requires rs.Valid() && rs.conn.isOpen
    modifies rs
    ensures rs.Valid() && rs.EOF()
    ensures r == ConvertSpec(rs.names, old(rs.Remaining()), param, str)
  {
    ghost var all := rs.Remaining();
    if IsObjectResult(param) {
      var grouped := ConvertRecordsToObject(rs, param.value.field.value, str);
      if grouped.Some? {
        return AsObject(grouped.value);
      }
      FallbackSeesAllRows(rs.names, all, rs.pos - old(rs.pos));
      assert all[rs.pos - old(rs.pos)..] == rs.Remaining();
    }
    var records := ConvertRecordsToArray(rs);
    return AsArray(records);
  }

  /** Two rows with the same key: the later one is kept. */
  lemma LastRowWins()
    ensures var names := ["K", "V"];
      ObjectSpec(names, [Row(["a", "1"]), Row(["a", "2"])], "K", (s: string) => s) ==
        Some(map["a" := MakeRecord(names, ["a", "2"])])
  {
    var names := ["K", "V"];
    var slots := [Row(["a", "1"]), Row(["a", "2"])];
    assert slots[1..][1..] == [];
    var rows := RowsOf(slots);
    assert rows == [["a", "1"], ["a", "2"]];
    assert FindField(names, "K") == Some(0);
    var id := (s: string) => s;
    assert rows[..1] == [["a", "1"]];
    assert GroupOf(names, rows[..1], 0, id) == map["a" := MakeRecord(names, ["a", "1"])];
    assert GroupOf(names, rows, 0, id) == map["a" := MakeRecord(names, ["a", "2"])];
  }
}
