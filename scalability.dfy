/**
 * The benchmark-log aggregator histogram_scalability_test.py: each benchmark line
 * of the logs becomes a perf object that save_to_row folds into a two-level table
 * (row "{hist_count}-{percentile}", column "{window_size}") of running latency
 * means; then one report line per row lists the row's latencies.
 *
 * Reading the files, splitting a line into its numbers and turning numbers into
 * text are not modelled: a log line arrives with the numbers its text holds, and
 * the keys are the numbers they are formatted from. Python dicts keep their keys
 * in insertion order, which the tables keep as sequences beside the maps.
 */
module Scalability {
  import opened Wrappers

  /** The substring that marks a benchmark line. */
  const Marker: string := "BenchmarkTestScheduler_MultiplyHistograms/multiply_"

  /** new_perf_obj: one measurement, or the running mean of `count` of them. */
  datatype PerfObj = PerfObj(histCount: int, windowSize: int, percentile: real, latency: real, count: int)

  /** A row key "{hist_count}-{percentile}"; a column key "{window_size}" is an int. */
  datatype RowKey = RowKey(histCount: int, percentile: real)

  /** One row: its column keys in insertion order and its cells. */
  datatype Row = Row(cols: seq<int>, cells: map<int, PerfObj>)

  /** The whole `rows` dict: row keys in insertion order and the rows. */
  datatype Table = Table(order: seq<RowKey>, rows: map<RowKey, Row>)

  /** A log line: its text and the numbers the script reads out of it. */
  datatype LogLine = LogLine(text: string, histCount: int, windowSize: int, percentile: real, latency: real)

  ghost predicate Distinct<T>(s: seq<T>)
  {
    forall i, j :: 0 <= i < j < |s| ==> s[i] != s[j]
  }

  lemma DistinctSnoc<T>(s: seq<T>, x: T)
    requires Distinct(s) && x !in s
    ensures Distinct(s + [x])
  {
  }

  /** Every column key of the row has a cell. */
  predicate Covered(cols: seq<int>, cells: map<int, PerfObj>)
  {
    forall j :: 0 <= j < |cols| ==> cols[j] in cells
  }

  /** The cells of a row are keyed by its column keys, once each, and every cell
      has folded at least one measurement. */
  ghost predicate Indexes(r: Row)
  {
    && Covered(r.cols, r.cells)
    && (forall c :: c in r.cells ==> c in r.cols)
    && Distinct(r.cols)
    && (forall c :: c in r.cells ==> r.cells[c].count >= 1)
  }

  /** A row made by save_to_row: never empty. */
  ghost predicate RowOk(r: Row)
  {
    r.cols != [] && Indexes(r)
  }

  /** A table made by save_to_row: its row keys are its rows' keys, once each. */
  ghost predicate TableOk(t: Table)
  {
    && (forall k :: k in t.rows <==> k in t.order)
    && Distinct(t.order)
    && (forall k :: k in t.rows ==> RowOk(t.rows[k]))
  }

  predicate OccursAt(s: string, sub: string, i: nat)
  {
    i + |sub| <= |s| && s[i..i + |sub|] == sub
  }

  /** Python's `in` on strings: sub occurs somewhere in s. */
  predicate Contains(s: string, sub: string)
  {
    exists i: nat :: i <= |s| && OccursAt(s, sub, i)
  }

  /** The fold of a new measurement into an existing cell: the latency becomes
      (latency * count + new latency) / (new count + count) and the counts add up. */
  function Merge(cell: PerfObj, perf: PerfObj): (r: PerfObj)
    requires cell.count + perf.count != 0
    ensures r.histCount == cell.histCount && r.windowSize == cell.windowSize && r.percentile == cell.percentile
    ensures r.count == cell.count + perf.count
    ensures r.latency * r.count as real == cell.latency * cell.count as real + perf.latency
  {
    cell.(latency := (cell.latency * cell.count as real + perf.latency) / (perf.count + cell.count) as real,
          count := perf.count + cell.count)
  }

  /** Merge is the count-weighted mean of the two exactly when the new measurement
      counts once (or has latency 0). */
  lemma MergeIsWeightedMean(cell: PerfObj, perf: PerfObj)
    requires cell.count >= 1 && perf.count >= 1
    ensures Merge(cell, perf).latency ==
      (cell.latency * cell.count as real + perf.latency * perf.count as real) / (cell.count + perf.count) as real
      <==> perf.count == 1 || perf.latency == 0.0
  {
    var n := (cell.count + perf.count) as real;
    var a := cell.latency * cell.count as real;
    assert Merge(cell, perf).latency == (a + perf.latency) / n;
    assert (a + perf.latency) / n == (a + perf.latency * perf.count as real) / n
      <==> perf.latency == perf.latency * perf.count as real;
    assert perf.latency == perf.latency * perf.count as real <==> perf.latency * (perf.count as real - 1.0) == 0.0;
  }

  /** save_to_row within one row: a new cell holds perf, an existing one Merges it. */
  function SaveCell(row: Row, colKey: int, perf: PerfObj): (r: Row)
    requires Indexes(row) && perf.count >= 1
    ensures RowOk(r)
  {
    if colKey in row.cells then Row(row.cols, row.cells[colKey := Merge(row.cells[colKey], perf)])
    else DistinctSnoc(row.cols, colKey); Row(row.cols + [colKey], row.cells[colKey := perf])
  }

  /** save_to_row on a table: create the row, empty, if it is new, then save the
      cell in it. */
  function Save(t: Table, rowKey: RowKey, colKey: int, perf: PerfObj): (r: Table)
    requires TableOk(t) && perf.count >= 1
    ensures TableOk(r)
  {
    var row := if rowKey in t.rows then t.rows[rowKey] else Row([], map[]);
    var order := if rowKey in t.rows then t.order else (DistinctSnoc(t.order, rowKey); t.order + [rowKey]);
    Table(order, t.rows[rowKey := SaveCell(row, colKey, perf)])
  }

  /** The cell of a table under a row and a column key, if there is one. */
  function Cell(t: Table, rk: RowKey, ck: int): (cell: Option<PerfObj>)
  {
    if rk in t.rows && ck in t.rows[rk].cells then Some(t.rows[rk].cells[ck]) else None
  }

  /** Saving changes one cell, the one under its keys, which becomes perf or the
      Merge of perf into what was there; every other cell stays as it was. */
  lemma SavedCell(t: Table, rowKey: RowKey, colKey: int, perf: PerfObj, rk: RowKey, ck: int)
    requires TableOk(t) && perf.count >= 1
    ensures Cell(t, rowKey, colKey).Some? ==> Cell(t, rowKey, colKey).value.count >= 1
    ensures Cell(Save(t, rowKey, colKey, perf), rk, ck) ==
      if rk != rowKey || ck != colKey then Cell(t, rk, ck)
      else if Cell(t, rowKey, colKey).None? then Some(perf)
      else Some(Merge(Cell(t, rowKey, colKey).value, perf))
  {
    if rowKey in t.rows {
      assert RowOk(t.rows[rowKey]);
    }
  }

  /** The main loop's step for one line: a line with the marker becomes a perf
      object of count 1 saved under its keys; any other line changes nothing. */
  function Step(t: Table, line: LogLine): (r: Table)
    requires TableOk(t)
    ensures TableOk(r)
  {
    if Contains(line.text, Marker) then
      Save(t, RowKey(line.histCount, line.percentile), line.windowSize,
           PerfObj(line.histCount, line.windowSize, line.percentile, line.latency, 1))
    else t
  }

  /** The table after the main loop has gone through the lines in order. */
  function FoldLines(t: Table, lines: seq<LogLine>): (r: Table)
    requires TableOk(t)
    ensures TableOk(r)
  {
    if lines == [] then t else Step(FoldLines(t, lines[..|lines| - 1]), lines[|lines| - 1])
  }

  /** The lines with the marker. */
  function Marked(lines: seq<LogLine>): seq<LogLine>
  {
    if lines == [] then []
    else Marked(lines[..|lines| - 1]) + (if Contains(lines[|lines| - 1].text, Marker) then [lines[|lines| - 1]] else [])
  }

  /** Lines without the marker contribute nothing: folding all the lines is folding
      the marked ones. */
  lemma {:induction false} OnlyMarkedLinesCount(t: Table, lines: seq<LogLine>)
    requires TableOk(t)
    ensures FoldLines(t, lines) == FoldLines(t, Marked(lines))
  {
    if lines != [] {
      var init, last := lines[..|lines| - 1], lines[|lines| - 1];
      OnlyMarkedLinesCount(t, init);
      if Contains(last.text, Marker) {
        var m := Marked(init) + [last];
        assert Marked(lines) == m;
        assert m[..|m| - 1] == Marked(init);
        assert FoldLines(t, m) == Step(FoldLines(t, Marked(init)), last);
      } else {
        assert Marked(lines) == Marked(init);
      }
    }
  }

  /** The latencies of the marked lines saved under row key rk and column ck, in order. */
  function Latencies(lines: seq<LogLine>, rk: RowKey, ck: int): seq<real>
  {
    if lines == [] then []
    else
      var l := lines[|lines| - 1];
      Latencies(lines[..|lines| - 1], rk, ck) +
        (if Contains(l.text, Marker) && RowKey(l.histCount, l.percentile) == rk && l.windowSize == ck then [l.latency] else [])
  }

  function Sum(s: seq<real>): real
  {
    if s == [] then 0.0 else Sum(s[..|s| - 1]) + s[|s| - 1]
  }

  /** The arithmetic mean. */
  function Mean(s: seq<real>): real
    requires s != []
  {
    Sum(s) / |s| as real
  }

  /** Folding one more measurement of count 1 into the mean of s gives the mean of s
      with it. */
  lemma MergeMean(cell: PerfObj, perf: PerfObj, s: seq<real>)
    requires s != [] && cell.count == |s| && cell.latency == Mean(s) && perf.count == 1
    ensures Merge(cell, perf).latency == Mean(s + [perf.latency])
    ensures Merge(cell, perf).count == |s + [perf.latency]|
  {
    var s' := s + [perf.latency];
    assert s'[..|s'| - 1] == s;
    var n := |s| as real;
    assert Mean(s) * n == Sum(s);
  }

  lemma MeanOfOne(x: real)
    ensures Mean([x]) == x
  {
    assert [x][..0] == [];
    assert Sum([x]) == Sum([]) + x;
  }

  /** The cell c holds the latencies ls saved under row key rk and column ck: it
      exists exactly when there is one, counts them, holds their arithmetic mean and
      the keys' hist_count, percentile and window_size. */
  ghost predicate Summarises(c: Option<PerfObj>, ls: seq<real>, rk: RowKey, ck: int)
  {
    && (ls == [] <==> c.None?)
    && (ls != [] ==>
          && c.value.count == |ls| && c.value.latency == Mean(ls)
          && c.value.histCount == rk.histCount && c.value.percentile == rk.percentile && c.value.windowSize == ck)
  }

  /** One more line keeps every cell summarising the latencies saved under its keys. */
  lemma StepSummarises(t: Table, l: LogLine, ls: seq<real>, rk: RowKey, ck: int)
    requires TableOk(t) && Summarises(Cell(t, rk, ck), ls, rk, ck)
    ensures Summarises(Cell(Step(t, l), rk, ck), ls +
      (if Contains(l.text, Marker) && RowKey(l.histCount, l.percentile) == rk && l.windowSize == ck then [l.latency] else []),
      rk, ck)
  {
    if Contains(l.text, Marker) {
      var key := RowKey(l.histCount, l.percentile);
      var perf := PerfObj(l.histCount, l.windowSize, l.percentile, l.latency, 1);
      SavedCell(t, key, l.windowSize, perf, rk, ck);
      if key == rk && l.windowSize == ck {
        if ls == [] {
          MeanOfOne(l.latency);
          assert ls + [l.latency] == [l.latency];
        } else {
          MergeMean(Cell(t, rk, ck).value, perf, ls);
        }
      } else {
        assert ls + [] == ls;
      }
    } else {
      assert ls + [] == ls;
    }
  }

  /** Every cell of the table built from the lines (starting from an empty table)
      holds exactly the measurements saved under its keys: their number as count,
      their arithmetic mean as latency, and the keys' hist_count, percentile and
      window_size; a cell exists exactly when there is one. */
  lemma {:induction false} CellIsMean(lines: seq<LogLine>, rk: RowKey, ck: int)
    ensures Summarises(Cell(FoldLines(Table([], map[]), lines), rk, ck), Latencies(lines, rk, ck), rk, ck)
  {
    if lines != [] {
      var init := lines[..|lines| - 1];
      CellIsMean(init, rk, ck);
      StepSummarises(FoldLines(Table([], map[]), init), lines[|lines| - 1], Latencies(init, rk, ck), rk, ck);
    }
  }

  /** Folding two runs of lines one after the other is folding them together. */
  lemma {:induction false} FoldAppend(t: Table, a: seq<LogLine>, b: seq<LogLine>)
    requires TableOk(t)
    ensures FoldLines(FoldLines(t, a), b) == FoldLines(t, a + b)
  {
    if b != [] {
      FoldAppend(t, a, b[..|b| - 1]);
      assert (a + b)[..|a + b| - 1] == a + b[..|b| - 1];
    } else {
      assert a + b == a;
    }
  }

  /** A report line: the first cell's hist_count, then each cell's latency in
      column order. */
  datatype ReportLine = ReportLine(histCount: Option<int>, latencies: seq<real>)

  /** The latencies of the cells of the columns cols, in order. */
  function ColLatencies(cols: seq<int>, cells: map<int, PerfObj>): (r: seq<real>)
    requires Covered(cols, cells)
    ensures |r| == |cols|
    ensures forall j :: 0 <= j < |cols| ==> r[j] == cells[cols[j]].latency
  {
    if cols == [] then [] else ColLatencies(cols[..|cols| - 1], cells) + [cells[cols[|cols| - 1]].latency]
  }

  /** The report line of a row. */
  function RowLine(r: Row): ReportLine
    requires Covered(r.cols, r.cells)
  {
    ReportLine(if r.cols == [] then None else Some(r.cells[r.cols[0]].histCount), ColLatencies(r.cols, r.cells))
  }

  /** The report lines of a table, in the order its rows were first saved. */
  function ReportOf(t: Table): (r: seq<ReportLine>)
    requires TableOk(t)
    ensures |r| == |t.order|
  {
    seq(|t.order|, i requires 0 <= i < |t.order| => assert t.order[i] in t.rows; RowLine(t.rows[t.order[i]]))
  }

  class Aggregator {
    var order: seq<RowKey>
    var rows: map<RowKey, Row>

    /** `rows = {}`. */
    constructor ()
      ensures order == [] && rows == map[]
    {
      order := [];
      rows := map[];
    }

    ghost predicate Valid()
      reads this
    {
      TableOk(Table(order, rows))
    }

    /** save_to_row(rows, row_key, col_key, perf_obj). The script's perf objects
        count 1; a positive count keeps the division defined. */
    method SaveToRow(rowKey: RowKey, colKey: int, perf: PerfObj)
      requires Valid() && perf.count >= 1
      modifies this
      ensures Valid()
      ensures Table(order, rows) == Save(old(Table(order, rows)), rowKey, colKey, perf)
    {
      var row := Row([], map[]);
      if rowKey in rows {
        row := rows[rowKey];
      } else {
        order := order + [rowKey];
      }
      if colKey !in row.cells {
        row := Row(row.cols + [colKey], row.cells[colKey := perf]);
      } else {
        row := Row(row.cols, row.cells[colKey := Merge(row.cells[colKey], perf)]);
      }
      rows := rows[rowKey := row];
    }

    /** The loop over one log file's lines: each line with the marker is saved as a
        perf object of count 1 under its keys. */
    method Consume(lines: seq<LogLine>)
      requires Valid()
      modifies this
      ensures Valid()
      ensures Table(order, rows) == FoldLines(old(Table(order, rows)), lines)
    {
      ghost var t0 := Table(order, rows);
      for i := 0 to |lines|
        invariant Valid()
        invariant Table(order, rows) == FoldLines(t0, lines[..i])
      {
        var line := lines[i];
        assert lines[..i + 1][..i] == lines[..i];
        if Contains(line.text, Marker) {
          SaveToRow(RowKey(line.histCount, line.percentile), line.windowSize,
                    PerfObj(line.histCount, line.windowSize, line.percentile, line.latency, 1));
        }
      }
      assert lines[..|lines|] == lines;
    }

    /** The main loop over the log files, file after file. */
    method Aggregate(logs: seq<seq<LogLine>>)
      requires Valid()
      modifies this
      ensures Valid()
      ensures Table(order, rows) == FoldLines(old(Table(order, rows)), Flatten(logs))
    {
      ghost var t0 := Table(order, rows);
      for f := 0 to |logs|
        invariant Valid()
        invariant Table(order, rows) == FoldLines(t0, Flatten(logs[..f]))
      {
        FoldAppend(t0, Flatten(logs[..f]), logs[f]);
        assert logs[..f + 1][..f] == logs[..f];
        Consume(logs[f]);
      }
      assert logs[..|logs|] == logs;
    }

    /** The loop building the output lines: one per row, in the order the rows were
        first saved. */
    method Report() returns (out: seq<ReportLine>)
      requires Valid()
      ensures out == ReportOf(Table(order, rows))
    {
      out := [];
      for i := 0 to |order|
        invariant out == ReportOf(Table(order, rows))[..i]
      {
        assert order[i] in rows && RowOk(rows[order[i]]);
        var line := RowReport(rows[order[i]]);
        out := out + [line];
      }
    }
  }

  /** All the logs' lines, file after file. */
  function Flatten(logs: seq<seq<LogLine>>): seq<LogLine>
  {
    if logs == [] then [] else Flatten(logs[..|logs| - 1]) + logs[|logs| - 1]
  }

  /** The inner loop of the report: the first cell's hist_count, then ", latency"
      for each cell. */
  method RowReport(r: Row) returns (line: ReportLine)
    requires Covered(r.cols, r.cells)
    ensures line == RowLine(r)
  {
    line := ReportLine(None, []);
    for j := 0 to |r.cols|
      invariant line.histCount == (if j == 0 then None else Some(r.cells[r.cols[0]].histCount))
      invariant line.latencies == ColLatencies(r.cols, r.cells)[..j]
    {
      var perf := r.cells[r.cols[j]];
      if line.histCount.None? {
        line := line.(histCount := Some(perf.histCount));
      }
      line := line.(latencies := line.latencies + [perf.latency]);
    }
  }

  /** The script sorts its report lines by their leading hist_count but discards the
      sorted list and prints them unsorted: rows for 4 and then 2 histograms come
      out as 4, 2. */
  lemma ReportIsUnsorted()
    ensures var t := Save(Save(Table([], map[]), RowKey(4, 0.99), 1000, PerfObj(4, 1000, 0.99, 2.5, 1)),
                         RowKey(2, 0.99), 1000, PerfObj(2, 1000, 0.99, 1.5, 1));
      ReportOf(t)[0].histCount == Some(4) && ReportOf(t)[1].histCount == Some(2)
  {
    var t1 := Save(Table([], map[]), RowKey(4, 0.99), 1000, PerfObj(4, 1000, 0.99, 2.5, 1));
    var t := Save(t1, RowKey(2, 0.99), 1000, PerfObj(2, 1000, 0.99, 1.5, 1));
    assert t.order == [RowKey(4, 0.99), RowKey(2, 0.99)];
  }

  function Key(l: ReportLine): int
  {
    if l.histCount.Some? then l.histCount.value else 0
  }

  ghost predicate Ascending(s: seq<ReportLine>)
  {
    forall i, j :: 0 <= i < j < |s| ==> Key(s[i]) <= Key(s[j])
  }

  /** A line put in its place among sorted lines, before those with an equal key. */
  function InsertLine(x: ReportLine, s: seq<ReportLine>): (r: seq<ReportLine>)
    ensures multiset(r) == multiset(s) + multiset{x}
  {
    if s == [] then [x]
    else if Key(x) <= Key(s[0]) then [x] + s
    else
      assert s == [s[0]] + s[1..];
      [s[0]] + InsertLine(x, s[1..])
  }

  /** Inserting into ascending lines keeps them ascending. */
  lemma {:induction false} InsertKeepsAscending(x: ReportLine, s: seq<ReportLine>)
    requires Ascending(s)
    ensures Ascending(InsertLine(x, s))
  {
    if s != [] && Key(s[0]) < Key(x) {
      var rest := InsertLine(x, s[1..]);
      InsertKeepsAscending(x, s[1..]);
      forall k | 0 <= k < |rest|
        ensures Key(s[0]) <= Key(rest[k])
      {
        assert rest[k] in multiset(rest);
        if rest[k] != x {
          assert rest[k] in multiset(s[1..]);
          var m :| 0 <= m < |s[1..]| && s[1..][m] == rest[k];
          assert s[m + 1] == rest[k];
        }
      }
    }
  }

  /** sorted(lines, key = hist_count): the report lines in ascending hist_count,
      stable; the lines the corrected script prints. Every line must have its
      hist_count, as int() of an empty field fails. */
  function SortedReport(lines: seq<ReportLine>): (r: seq<ReportLine>)
    requires forall i :: 0 <= i < |lines| ==> lines[i].histCount.Some?
    ensures multiset(r) == multiset(lines)
  {
    if lines == [] then []
    else
      assert lines == [lines[0]] + lines[1..];
      InsertLine(lines[0], SortedReport(lines[1..]))
  }

  /** The sorted report is in ascending hist_count. */
  lemma {:induction false} SortedReportIsAscending(lines: seq<ReportLine>)
    requires forall i :: 0 <= i < |lines| ==> lines[i].histCount.Some?
    ensures Ascending(SortedReport(lines))
  {
    if lines != [] {
      SortedReportIsAscending(lines[1..]);
      InsertKeepsAscending(lines[0], SortedReport(lines[1..]));
    }
  }

  /** Every report line of a table made by save_to_row has its hist_count, so the
      sort can be applied to it. */
  lemma ReportLinesHaveCounts(t: Table)
    requires TableOk(t)
    ensures forall i :: 0 <= i < |t.order| ==> ReportOf(t)[i].histCount.Some?
  {
    forall i | 0 <= i < |t.order|
      ensures ReportOf(t)[i].histCount.Some?
    {
      assert t.order[i] in t.rows;
    }
  }
}
