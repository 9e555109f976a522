/**
 * The equipment table of a decoded VIN page, and how `decode_vin` turns its
 * rows into `{code, description}` records.
 *
 * A row is given as the texts of its `td` cells, in order; a header row made
 * of `th` cells only is a row with no cells.
 */
module Equipment {
  import opened Text

  type Row = seq<string>

  /** One `{"code": ..., "description": ...}` object of the JSON answer. */
  datatype Record = Record(code: string, description: string)

  /** The guard `len(cols) >= 2`: only such rows yield a record. */
  predicate HasTwoCells(row: Row)
  {
    |row| >= 2
  }

  /**
   * The record a row yields: the stripped texts of its first two cells. Cells
   * after the second play no part, and neither field begins or ends with
   * whitespace.
   */
  function RowRecord(row: Row): (rec: Record)
    requires HasTwoCells(row)
    ensures Trimmed(rec.code) && Trimmed(rec.description)
  {
    Record(Strip(row[0]), Strip(row[1]))
  }

  /** Cells after the second, however many, do not change a row's record. */
  lemma LaterCellsIgnored(row: Row, more: Row)
    requires HasTwoCells(row)
    ensures RowRecord(row + more) == RowRecord(row[..2])
  {
    assert (row + more)[0] == row[..2][0] && (row + more)[1] == row[..2][1];
  }

  /** What a single row contributes to the list: its record, or nothing. */
  function Contribution(row: Row): (added: seq<Record>)
  {
    if HasTwoCells(row) then [RowRecord(row)] else []
  }

  /**
   * The equipment list built from `rows`, the specification of the loop:
   * the rows processed in order, each appending its contribution.
   */
  function Extract(rows: seq<Row>): (equipment: seq<Record>)
    ensures |equipment| <= |rows|
  {
    if rows == [] then []
    else Extract(rows[..|rows| - 1]) + Contribution(rows[|rows| - 1])
  }

  /** The extraction loop: walk the rows, append a record for every row with two cells or more. */
  method CollectEquipment(rows: seq<Row>) returns (equipment: seq<Record>)
    ensures equipment == Extract(rows)
  {
    equipment := [];
    for i := 0 to |rows|
      invariant equipment == Extract(rows[..i])
    {
      var cols := rows[i];
      if |cols| >= 2 {
        equipment := equipment + [Record(Strip(cols[0]), Strip(cols[1]))];
      }
      assert rows[..i + 1][..i] == rows[..i];
    }
    assert rows[..|rows|] == rows;
  }

  /** The positions of the rows that yield a record, in table order. */
  ghost function RecordRows(rows: seq<Row>): (positions: seq<nat>)
  {
    if rows == [] then []
    else RecordRows(rows[..|rows| - 1]) + (if HasTwoCells(rows[|rows| - 1]) then [|rows| - 1] else [])
  }

  /**
   * The list is the rows with two cells or more, in table order and nothing
   * else: its k-th record comes from the k-th such row, positions strictly
   * increase, and every such row is among them.
   */
  lemma {:induction false} ExtractFollowsRows(rows: seq<Row>)
    ensures |Extract(rows)| == |RecordRows(rows)|
    ensures forall k :: 0 <= k < |RecordRows(rows)| ==>
      RecordRows(rows)[k] < |rows| && HasTwoCells(rows[RecordRows(rows)[k]])
      && Extract(rows)[k] == RowRecord(rows[RecordRows(rows)[k]])
    ensures forall k, l :: 0 <= k < l < |RecordRows(rows)| ==> RecordRows(rows)[k] < RecordRows(rows)[l]
    ensures forall j :: 0 <= j < |rows| ==> (HasTwoCells(rows[j]) <==> j in RecordRows(rows))
  {
    if rows != [] {
      var n := |rows| - 1;
      var init, last := rows[..n], rows[n];
      ExtractFollowsRows(init);
      var idx, out := RecordRows(init), Extract(init);
      var idx', out' := RecordRows(rows), Extract(rows);
      assert idx' == idx + (if HasTwoCells(last) then [n] else []);
      assert out' == out + Contribution(last);
      forall k | 0 <= k < |idx'|
        ensures idx'[k] < |rows| && HasTwoCells(rows[idx'[k]]) && out'[k] == RowRecord(rows[idx'[k]])
      {
        if k < |idx| {
          assert idx'[k] == idx[k] && out'[k] == out[k] && rows[idx[k]] == init[idx[k]];
        }
      }
      forall j | 0 <= j < |rows| ensures HasTwoCells(rows[j]) <==> j in idx' {
        if j < n {
          assert rows[j] == init[j];
          assert j in idx' <==> j in idx;
        } else {
          assert n !in idx;
        }
      }
    }
  }

  /** Extracting from two stretches of rows one after the other concatenates their lists. */
  lemma {:induction false} ExtractAppend(a: seq<Row>, b: seq<Row>)
    ensures Extract(a + b) == Extract(a) + Extract(b)
    decreases |b|
  {
    if b == [] {
      assert a + b == a;
    } else {
      var b' := b[..|b| - 1];
      assert (a + b)[..|a + b| - 1] == a + b';
      ExtractAppend(a, b');
    }
  }

  /** No code or description in the list begins or ends with whitespace. */
  lemma {:induction false} RecordsAreStripped(rows: seq<Row>)
    ensures forall k :: 0 <= k < |Extract(rows)| ==>
      Trimmed(Extract(rows)[k].code) && Trimmed(Extract(rows)[k].description)
  {
    ExtractFollowsRows(rows);
  }

  /** A row with fewer than two cells, a header row of `th` cells included, adds nothing. */
  lemma SkippedRowAddsNothing(before: seq<Row>, row: Row, after: seq<Row>)
    requires !HasTwoCells(row)
    ensures Extract(before + [row] + after) == Extract(before + after)
  {
    ExtractAppend(before + [row], after);
    ExtractAppend(before, after);
    assert (before + [row])[..|before|] == before;
  }

  /** The list has one record per row exactly when every row has two cells or more. */
  lemma {:induction false} OneRecordPerRowIff(rows: seq<Row>)
    ensures |Extract(rows)| == |rows| <==> forall j :: 0 <= j < |rows| ==> HasTwoCells(rows[j])
  {
    if rows != [] {
      var init, last := rows[..|rows| - 1], rows[|rows| - 1];
      OneRecordPerRowIff(init);
      assert |Extract(rows)| == |Extract(init)| + |Contribution(last)|;
      if forall j :: 0 <= j < |rows| ==> HasTwoCells(rows[j]) {
        assert forall j :: 0 <= j < |init| ==> HasTwoCells(init[j]) by {
          forall j | 0 <= j < |init| ensures HasTwoCells(init[j]) { assert init[j] == rows[j]; }
        }
      } else {
        var j :| 0 <= j < |rows| && !HasTwoCells(rows[j]);
        if j < |init| {
          assert init[j] == rows[j];
        }
      }
    }
  }

  /** The list is empty exactly when no row has two cells: a table of header rows gives `[]`. */
  lemma {:induction false} EmptyIff(rows: seq<Row>)
    ensures Extract(rows) == [] <==> forall j :: 0 <= j < |rows| ==> !HasTwoCells(rows[j])
  {
    if rows != [] {
      var init := rows[..|rows| - 1];
      EmptyIff(init);
      assert forall j :: 0 <= j < |init| ==> init[j] == rows[j];
    }
  }

  /** The padded cells of the worked table below strip to their words. */
  lemma PaddedCells()
    ensures Strip(" 202 ") == "202" && Strip("Air Conditioning\n") == "Air Conditioning"
  {
    assert " 202 " == " " + "202" + " ";
    StripRecovers(" ", "202", " ");
    assert "Air Conditioning\n" == [] + "Air Conditioning" + "\n";
    StripRecovers([], "Air Conditioning", "\n");
  }

  /**
   * A worked table: a header row with no `td` cell, two data rows (the second
   * with a third cell and padded text) and a one-cell row.
   */
  lemma ExampleTable()
    ensures Extract([[], ["101", "Power Steering"], [" 202 ", "Air Conditioning\n", "extra"], ["B2"]])
         == [Record("101", "Power Steering"), Record("202", "Air Conditioning")]
  {
    var rows: seq<Row> := [[], ["101", "Power Steering"], [" 202 ", "Air Conditioning\n", "extra"], ["B2"]];
    var first := Record("101", "Power Steering");
    var second := Record("202", "Air Conditioning");
    assert Contribution(rows[1]) == [first] by {
      StripKeepsTrimmed("101");
      StripKeepsTrimmed("Power Steering");
    }
    assert Contribution(rows[2]) == [second] by {
      PaddedCells();
    }
    assert Extract(rows[..1]) == [] by {
      assert rows[..1][..0] == [];
    }
    assert Extract(rows[..2]) == [first] by {
      assert rows[..2][..1] == rows[..1];
    }
    assert Extract(rows[..3]) == [first, second] by {
      assert rows[..3][..2] == rows[..2];
    }
    assert rows[..3] == rows[..|rows| - 1];
  }
}
