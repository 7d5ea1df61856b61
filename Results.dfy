/** The results table that `DomainAnalysis` fills in place: one row per
    domain found by the particle analysis, to which the plugin adds the
    experiment metadata (the same in every row) and the intensity
    statistics of each domain's outline (src/main/java/ibios/domains/Domains.java). */
module Results {

  datatype Option<T> = None | Some(value: T)

  /** A cell holds text (the metadata) or a number (a measurement). Numbers
      are kept as the values ImageJ hands over; nothing computes on them. */
  datatype Cell = Text(text: string) | Number(value: real)

  /** A cell is addressed by column heading and row index. */
  type Key = (string, nat)

  function Get(cells: map<Key, Cell>, key: Key): Option<Cell> {
    if key in cells then Some(cells[key]) else None
  }

  /** ImageJ's ResultsTable, as far as the plugin uses it: the cells and
      the row counter (`getCounter()`). */
  class ResultsTable {
    var cells: map<Key, Cell>
    var rows: nat

    /** Every filled cell lies in an existing row. */
    ghost predicate Valid()
      reads this
    {
      forall key: Key :: key in cells ==> key.1 < rows
    }

    /** `new ResultsTable()`: no rows, no cells. */
    constructor ()
      ensures Valid() && cells == map[] && rows == 0
    {
      cells := map[];
      rows := 0;
    }

    /** `setValue(column, row, value)`: sets one cell, creating the column
        if needed; a row one past the last appends a row. */
    method SetValue(column: string, row: nat, v: Cell)
      requires Valid() && row <= rows
      modifies this
      ensures Valid()
      ensures cells == old(cells)[(column, row) := v]
      ensures rows == if row == old(rows) then old(rows) + 1 else old(rows)
    {
      cells := cells[(column, row) := v];
      if row == rows {
        rows := rows + 1;
      }
    }
  }

  // ---------------------------------------------------------------------
  // Metadata broadcast

  /** The metadata value column `c` holds once columns `colnames[0..m)`
      have been written in order with `values[0..m)`. */
  function ColumnValue(colnames: seq<string>, values: seq<string>, m: nat, c: string): Option<string>
    requires m <= |colnames| && m <= |values|
  {
    if m == 0 then None
    else if colnames[m - 1] == c then Some(values[m - 1])
    else ColumnValue(colnames, values, m - 1, c)
  }

  /** Column `c` holds a value exactly when it is one of the first `m`
      names, and then the value written by the last `j < m` with
      `colnames[j] == c`: a later write to a repeated name wins. */
  lemma {:induction false} ColumnValueIsLastWrite(colnames: seq<string>, values: seq<string>, m: nat, c: string)
    requires m <= |colnames| && m <= |values|
    ensures ColumnValue(colnames, values, m, c).Some? <==> c in colnames[..m]
    ensures ColumnValue(colnames, values, m, c).Some? ==>
      exists j :: 0 <= j < m && colnames[j] == c && ColumnValue(colnames, values, m, c).value == values[j]
               && LastWrite(colnames, m, c, j)
  {
    if m > 0 {
      assert colnames[..m] == colnames[..m - 1] + [colnames[m - 1]];
      if colnames[m - 1] == c {
        assert LastWrite(colnames, m, c, m - 1);
      } else {
        ColumnValueIsLastWrite(colnames, values, m - 1, c);
        if ColumnValue(colnames, values, m, c).Some? {
          var j :| 0 <= j < m - 1 && colnames[j] == c && ColumnValue(colnames, values, m - 1, c).value == values[j]
                   && LastWrite(colnames, m - 1, c, j);
          assert LastWrite(colnames, m, c, j);
        }
      }
    }
  }

  /** `j` is the last of the first `m` columns named `c`. */
  predicate LastWrite(colnames: seq<string>, m: nat, c: string, j: nat)
    requires m <= |colnames|
  {
    forall i :: j < i < m ==> colnames[i] != c
  }

  /** With distinct column names, column `colnames[j]` holds `values[j]`. */
  lemma {:induction false} DistinctColumnsHoldTheirValue(colnames: seq<string>, values: seq<string>, m: nat, j: nat)
    requires m <= |colnames| && m <= |values| && j < m
    requires forall i, k :: 0 <= i < k < m ==> colnames[i] != colnames[k]
    ensures ColumnValue(colnames, values, m, colnames[j]) == Some(values[j])
  {
    if j < m - 1 {
      DistinctColumnsHoldTheirValue(colnames, values, m - 1, j);
    }
  }

  function Min(a: nat, b: nat): nat {
    if a <= b then a else b
  }

  /** The cells after rows `0..full` got the first `m` metadata values and
      row `full` the first `partial` ones; every other cell as in `before`. */
  ghost predicate Broadcasted(before: map<Key, Cell>, after: map<Key, Cell>, colnames: seq<string>, values: seq<string>,
                              full: nat, m: nat, partial: nat)
    requires m <= |colnames| && m <= |values| && partial <= |colnames| && partial <= |values|
  {
    forall key: Key :: Get(after, key) ==
      var w := if key.1 < full then ColumnValue(colnames, values, m, key.0)
               else if key.1 == full then ColumnValue(colnames, values, partial, key.0)
               else None;
      if w.Some? then Some(Text(w.value)) else Get(before, key)
  }

  /** The metadata-broadcast loop of `DomainAnalysis`: every row gets
      `values[j]` in column `colnames[j]`, for each `j` in order. When
      there are more values than column names and at least one row, the
      lookup `colnames[j]` faults at `j == |colnames|`, after row 0 got the
      first `|colnames|` values. The row count never changes. */
  method BroadcastMetadata(rt: ResultsTable, colnames: seq<string>, values: seq<string>) returns (fault: bool)
    requires rt.Valid()
    modifies rt
    ensures rt.Valid() && rt.rows == old(rt.rows)
    ensures fault <==> old(rt.rows) > 0 && |values| > |colnames|
    ensures !fault ==> Broadcasted(old(rt.cells), rt.cells, colnames, values, rt.rows, Min(|values|, |colnames|), 0)
    ensures fault ==> Broadcasted(old(rt.cells), rt.cells, colnames, values, 0, 0, |colnames|)
  {
    var m := Min(|values|, |colnames|);
    var k := 0;
    while k < rt.rows
      invariant 0 <= k <= rt.rows == old(rt.rows)
      invariant rt.Valid()
      invariant k > 0 ==> |values| <= |colnames|
      invariant Broadcasted(old(rt.cells), rt.cells, colnames, values, k, m, 0)
    {
      fault := BroadcastRow(rt, colnames, values, k, old(rt.cells), m);
      if fault {
        BroadcastFirstRow(old(rt.cells), rt.cells, colnames, values, m);
        return;
      }
      k := k + 1;
    }
    fault := false;
  }

  /** One pass of the inner loop: row `k` gets `values[j]` in column
      `colnames[j]` for each `j` in order; with more values than column
      names, `colnames[j]` faults at `j == |colnames|`, after that many
      cells were written. */
  method BroadcastRow(rt: ResultsTable, colnames: seq<string>, values: seq<string>, k: nat,
                      ghost before: map<Key, Cell>, ghost m: nat) returns (fault: bool)
    requires rt.Valid() && k < rt.rows && m == Min(|values|, |colnames|)
    requires Broadcasted(before, rt.cells, colnames, values, k, m, 0)
    modifies rt
    ensures rt.Valid() && rt.rows == old(rt.rows)
    ensures fault <==> |values| > |colnames|
    ensures !fault ==> Broadcasted(before, rt.cells, colnames, values, k + 1, m, 0)
    ensures fault ==> Broadcasted(before, rt.cells, colnames, values, k, m, |colnames|)
  {
    var j := 0;
    while j < |values|
      invariant 0 <= j <= |values| && j <= |colnames|
      invariant rt.Valid() && rt.rows == old(rt.rows)
      invariant Broadcasted(before, rt.cells, colnames, values, k, m, j)
    {
      if j >= |colnames| {
        return true;
      }
      ghost var was := rt.cells;
      rt.SetValue(colnames[j], k, Text(values[j]));
      BroadcastCellWritten(before, was, colnames, values, k, m, j);
      j := j + 1;
    }
    BroadcastRowDone(before, rt.cells, colnames, values, k, m);
    fault := false;
  }

  /** In row 0 the full-row count plays no part. */
  lemma {:induction false} BroadcastFirstRow(before: map<Key, Cell>, after: map<Key, Cell>, colnames: seq<string>, values: seq<string>, m: nat)
    requires m <= |colnames| && m <= |values| && |colnames| <= |values|
    requires Broadcasted(before, after, colnames, values, 0, m, |colnames|)
    ensures Broadcasted(before, after, colnames, values, 0, 0, |colnames|)
  {
  }

  /** Writing `values[j]` under `colnames[j]` in row `k` extends row `k`'s
      written prefix by one. */
  lemma {:induction false} BroadcastCellWritten(before: map<Key, Cell>, was: map<Key, Cell>, colnames: seq<string>, values: seq<string>,
                             k: nat, m: nat, j: nat)
    requires m <= |colnames| && m <= |values| && j < |colnames| && j < |values|
    requires Broadcasted(before, was, colnames, values, k, m, j)
    ensures Broadcasted(before, was[(colnames[j], k) := Text(values[j])], colnames, values, k, m, j + 1)
  {
    var now := was[(colnames[j], k) := Text(values[j])];
    forall key: Key
      ensures Get(now, key) ==
        var w := if key.1 < k then ColumnValue(colnames, values, m, key.0)
                 else if key.1 == k then ColumnValue(colnames, values, j + 1, key.0)
                 else None;
        if w.Some? then Some(Text(w.value)) else Get(before, key)
    {
      assert Get(was, key) ==
        var w := if key.1 < k then ColumnValue(colnames, values, m, key.0)
                 else if key.1 == k then ColumnValue(colnames, values, j, key.0)
                 else None;
        if w.Some? then Some(Text(w.value)) else Get(before, key);
    }
  }

  /** A row that received all `m` values counts as a full row. */
  lemma {:induction false} BroadcastRowDone(before: map<Key, Cell>, after: map<Key, Cell>, colnames: seq<string>, values: seq<string>,
                         k: nat, m: nat)
    requires m <= |colnames| && m <= |values|
    requires Broadcasted(before, after, colnames, values, k, m, m)
    ensures Broadcasted(before, after, colnames, values, k + 1, m, 0)
  {
  }

  /** After the broadcast, with distinct column names, every row holds
      `values[j]` under `colnames[j]` for every `j`, and every cell outside
      those rows and columns is as it was. */
  lemma {:induction false} MetadataInEveryRow(before: map<Key, Cell>, after: map<Key, Cell>, colnames: seq<string>, values: seq<string>, rows: nat)
    requires |values| <= |colnames|
    requires Broadcasted(before, after, colnames, values, rows, |values|, 0)
    requires forall i, k :: 0 <= i < k < |values| ==> colnames[i] != colnames[k]
    ensures forall k, j :: 0 <= k < rows && 0 <= j < |values| ==> Get(after, (colnames[j], k)) == Some(Text(values[j]))
    ensures forall key: Key :: key.1 >= rows || key.0 !in colnames[..|values|] ==> Get(after, key) == Get(before, key)
  {
    forall k, j | 0 <= k < rows && 0 <= j < |values|
      ensures Get(after, (colnames[j], k)) == Some(Text(values[j]))
    {
      DistinctColumnsHoldTheirValue(colnames, values, |values|, j);
      var key: Key := (colnames[j], k);
      assert Get(after, key) == Some(Text(ColumnValue(colnames, values, |values|, key.0).value));
    }
    forall key: Key | key.1 >= rows || key.0 !in colnames[..|values|]
      ensures Get(after, key) == Get(before, key)
    {
      ColumnValueIsLastWrite(colnames, values, |values|, key.0);
    }
  }

  // ---------------------------------------------------------------------
  // ROI statistics

  /** Intensity statistics of the reference image inside one outline, as
      ImageJ's `getStatistics()` reports them. */
  datatype RoiStat = RoiStat(mean: real, min: real, max: real)

  /** The cell the ROI loop writes in `column` for a domain with statistics
      `s`, if it writes one there. */
  function RoiCell(column: string, s: RoiStat): Option<Cell> {
    if column == "ROIMean" then Some(Number(s.mean))
    else if column == "ROIMin" then Some(Number(s.min))
    else if column == "ROIMax" then Some(Number(s.max))
    else None
  }

  /** Row `i < n` holds the statistics of `rois[i]` in the three ROI
      columns; every other cell as in `before`. */
  ghost predicate RoiFilled<R>(before: map<Key, Cell>, after: map<Key, Cell>, rois: seq<R>, measure: R -> RoiStat, n: nat)
    requires n <= |rois|
  {
    forall key: Key :: Get(after, key) ==
      if key.1 < n && RoiCell(key.0, measure(rois[key.1])).Some? then RoiCell(key.0, measure(rois[key.1]))
      else Get(before, key)
  }

  /** The ROI loop of `DomainAnalysis`: for each outline `rois[i]`, in
      order, the mean, minimum and maximum that `measure` gives for it go
      into row `i`. A row one past the table is appended, so the table ends
      with as many rows as it had or as there are outlines, whichever is
      more. */
  method FillRoiStats<R>(rt: ResultsTable, rois: seq<R>, measure: R -> RoiStat)
    requires rt.Valid()
    modifies rt
    ensures rt.Valid()
    ensures rt.rows == if |rois| > old(rt.rows) then |rois| else old(rt.rows)
    ensures RoiFilled(old(rt.cells), rt.cells, rois, measure, |rois|)
  {
    var i := 0;
    while i < |rois|
      invariant 0 <= i <= |rois|
      invariant rt.Valid()
      invariant rt.rows == if i > old(rt.rows) then i else old(rt.rows)
      invariant RoiFilled(old(rt.cells), rt.cells, rois, measure, i)
    {
      var stat := measure(rois[i]);
      ghost var was := rt.cells;
      rt.SetValue("ROIMean", i, Number(stat.mean));
      rt.SetValue("ROIMin", i, Number(stat.min));
      rt.SetValue("ROIMax", i, Number(stat.max));
      RoiRowWritten(old(rt.cells), was, rois, measure, i);
      i := i + 1;
    }
  }

  /** Writing the three statistics of row `i` extends the filled rows by
      one. */
  lemma {:induction false} RoiRowWritten<R>(before: map<Key, Cell>, was: map<Key, Cell>, rois: seq<R>, measure: R -> RoiStat, i: nat)
    requires i < |rois| && RoiFilled(before, was, rois, measure, i)
    ensures var s := measure(rois[i]);
      RoiFilled(before, was[("ROIMean", i) := Number(s.mean)][("ROIMin", i) := Number(s.min)][("ROIMax", i) := Number(s.max)],
                rois, measure, i + 1)
  {
    var s := measure(rois[i]);
    var now := was[("ROIMean", i) := Number(s.mean)][("ROIMin", i) := Number(s.min)][("ROIMax", i) := Number(s.max)];
    forall key: Key
      ensures Get(now, key) ==
        if key.1 < i + 1 && RoiCell(key.0, measure(rois[key.1])).Some? then RoiCell(key.0, measure(rois[key.1]))
        else Get(before, key)
    {
      assert Get(was, key) ==
        if key.1 < i && RoiCell(key.0, measure(rois[key.1])).Some? then RoiCell(key.0, measure(rois[key.1]))
        else Get(before, key);
    }
  }

  /** After the ROI loop, row `i` holds the mean, minimum and maximum of
      `rois[i]`, for every outline in order, and no other cell changed. */
  lemma {:induction false} RoiStatsInTheirRows<R>(before: map<Key, Cell>, after: map<Key, Cell>, rois: seq<R>, measure: R -> RoiStat)
    requires RoiFilled(before, after, rois, measure, |rois|)
    ensures forall i :: 0 <= i < |rois| ==>
      && Get(after, ("ROIMean", i)) == Some(Number(measure(rois[i]).mean))
      && Get(after, ("ROIMin", i)) == Some(Number(measure(rois[i]).min))
      && Get(after, ("ROIMax", i)) == Some(Number(measure(rois[i]).max))
    ensures forall key: Key :: key.1 >= |rois| || key.0 !in {"ROIMean", "ROIMin", "ROIMax"} ==> Get(after, key) == Get(before, key)
  {
    forall i | 0 <= i < |rois|
      ensures Get(after, ("ROIMean", i)) == Some(Number(measure(rois[i]).mean))
      ensures Get(after, ("ROIMin", i)) == Some(Number(measure(rois[i]).min))
      ensures Get(after, ("ROIMax", i)) == Some(Number(measure(rois[i]).max))
    {
      var mean: Key, min: Key, max: Key := ("ROIMean", i), ("ROIMin", i), ("ROIMax", i);
      assert Get(after, mean) == RoiCell(mean.0, measure(rois[i]));
      assert Get(after, min) == RoiCell(min.0, measure(rois[i]));
      assert Get(after, max) == RoiCell(max.0, measure(rois[i]));
    }
  }

  /** The saved table: when no metadata column is named like a ROI column,
      the ROI loop leaves the broadcast metadata intact, so every one of
      the first `rows` rows carries all metadata values and every row below
      `|rois|` carries its outline's statistics. */
  lemma {:induction false} MetadataSurvivesRoiStats<R>(before: map<Key, Cell>, mid: map<Key, Cell>, after: map<Key, Cell>,
                                    colnames: seq<string>, values: seq<string>, rows: nat,
                                    rois: seq<R>, measure: R -> RoiStat)
    requires |values| <= |colnames|
    requires forall i, k :: 0 <= i < k < |values| ==> colnames[i] != colnames[k]
    requires forall j :: 0 <= j < |values| ==> colnames[j] !in {"ROIMean", "ROIMin", "ROIMax"}
    requires Broadcasted(before, mid, colnames, values, rows, |values|, 0)
    requires RoiFilled(mid, after, rois, measure, |rois|)
    ensures forall k, j :: 0 <= k < rows && 0 <= j < |values| ==> Get(after, (colnames[j], k)) == Some(Text(values[j]))
    ensures forall i :: 0 <= i < |rois| ==>
      && Get(after, ("ROIMean", i)) == Some(Number(measure(rois[i]).mean))
      && Get(after, ("ROIMin", i)) == Some(Number(measure(rois[i]).min))
      && Get(after, ("ROIMax", i)) == Some(Number(measure(rois[i]).max))
  {
    MetadataInEveryRow(before, mid, colnames, values, rows);
    RoiStatsInTheirRows(mid, after, rois, measure);
    forall k, j | 0 <= k < rows && 0 <= j < |values|
      ensures Get(after, (colnames[j], k)) == Some(Text(values[j]))
    {
      var key: Key := (colnames[j], k);
      assert Get(after, key) == Get(mid, key);
    }
  }
}
