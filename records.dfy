/** Reshaping a sql.js query result (ordered column names plus value tuples)
    into keyed contact records. */
module Records {
  import opened JsValue

  datatype Option<T> = None | Some(value: T)

  /** A contact as the handlers send it: column name to cell value. */
  type Record = map<string, Value>

  /** One element of what `db.exec` returns. */
  datatype ResultSet = ResultSet(columns: seq<string>, values: seq<seq<Value>>)

  /** `row[index]` in JavaScript: `undefined` past the end of the row. */
  function Cell(row: seq<Value>, index: nat): Value {
    if index < |row| then row[index] else Undefined
  }

  /** No later column has the name of column i. */
  predicate IsLastIndex(columns: seq<string>, i: int) {
    0 <= i < |columns| && forall j :: i < j < |columns| ==> columns[j] != columns[i]
  }

  /** The last position at which the name c appears among the columns. */
  function LastIndex(columns: seq<string>, c: string): (i: nat)
    requires c in columns
    ensures i < |columns| && columns[i] == c
    ensures IsLastIndex(columns, i)
  {
    if columns[|columns| - 1] == c then |columns| - 1 else LastIndex(columns[..|columns| - 1], c)
  }

  /** The record the column loop leaves behind: one key per column name,
      holding the cell at that name's last position (a later assignment to the
      same key overwrites an earlier one). */
  function RecordOf(columns: seq<string>, row: seq<Value>): (r: Record)
    ensures r.Keys == set c | c in columns
    ensures forall i :: IsLastIndex(columns, i) ==> r[columns[i]] == Cell(row, i)
  {
    var r := map c | c in columns :: Cell(row, LastIndex(columns, c));
    assert forall i :: IsLastIndex(columns, i) ==> r[columns[i]] == Cell(row, i) by {
      forall i | IsLastIndex(columns, i) ensures r[columns[i]] == Cell(row, i) {
        var last := LastIndex(columns, columns[i]);
        assert !(last < i) by {
          assert IsLastIndex(columns, last);
        }
      }
    }
    r
  }

  /** With distinct column names and a row as long as the columns, every column
      maps to the value at its own position. */
  lemma DistinctColumns(columns: seq<string>, row: seq<Value>)
    requires forall i, j :: 0 <= i < j < |columns| ==> columns[i] != columns[j]
    requires |row| == |columns|
    ensures forall i :: 0 <= i < |columns| ==> RecordOf(columns, row)[columns[i]] == row[i]
  {
    forall i | 0 <= i < |columns| ensures RecordOf(columns, row)[columns[i]] == row[i] {
      assert IsLastIndex(columns, i);
    }
  }

  /** One step of the column loop: adding a column at the end overwrites its key. */
  lemma RecordOfSnoc(columns: seq<string>, c: string, row: seq<Value>)
    ensures RecordOf(columns + [c], row) == RecordOf(columns, row)[c := Cell(row, |columns|)]
  {
    var longer := columns + [c];
    assert longer[..|columns|] == columns;
    forall k | k in columns && k != c
      ensures LastIndex(longer, k) == LastIndex(columns, k)
    {
    }
  }

  /** `columns.forEach((col, index) => { contact[col] = row[index]; })`
      starting from an empty object. */
  method BuildRecord(columns: seq<string>, row: seq<Value>) returns (contact: Record)
    ensures contact == RecordOf(columns, row)
    ensures contact.Keys == set c | c in columns
    ensures forall i :: IsLastIndex(columns, i) ==> contact[columns[i]] == Cell(row, i)
  {
    contact := map[];
    var index := 0;
    while index < |columns|
      invariant index <= |columns|
      invariant contact == RecordOf(columns[..index], row)
    {
      RecordOfSnoc(columns[..index], columns[index], row);
      assert columns[..index + 1] == columns[..index] + [columns[index]];
      contact := contact[columns[index] := Cell(row, index)];
      index := index + 1;
    }
    assert columns[..index] == columns;
  }

  /** The list reshaping: no result set gives `[]`; otherwise one record per
      value row of the first result set, in order. */
  method BuildRecords(result: seq<ResultSet>) returns (contacts: seq<Record>)
    ensures |result| == 0 ==> contacts == []
    ensures |result| > 0 ==> |contacts| == |result[0].values|
    ensures |result| > 0 ==> forall k :: 0 <= k < |contacts| ==>
              contacts[k] == RecordOf(result[0].columns, result[0].values[k])
  {
    contacts := [];
    if |result| > 0 {
      var columns := result[0].columns;
      var values := result[0].values;
      var k := 0;
      while k < |values|
        invariant k <= |values|
        invariant |contacts| == k
        invariant forall m :: 0 <= m < k ==> contacts[m] == RecordOf(columns, values[m])
      {
        var contact := BuildRecord(columns, values[k]);
        contacts := contacts + [contact];
        k := k + 1;
      }
    }
  }

  /** The by-id reshaping: nothing when there is no result set or it has no
      value rows, otherwise the record of the first value row only. */
  method FirstRecord(result: seq<ResultSet>) returns (found: Option<Record>)
    ensures found.None? <==> |result| == 0 || |result[0].values| == 0
    ensures found.Some? ==> found.value == RecordOf(result[0].columns, result[0].values[0])
  {
    if |result| == 0 || |result[0].values| == 0 {
      return None;
    }
    var contact := BuildRecord(result[0].columns, result[0].values[0]);
    found := Some(contact);
  }
}
