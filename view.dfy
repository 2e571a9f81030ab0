/**
 * The view controller: the callback run on every change of the ticker,
 * the field selection, the slider range or the export button's click
 * count. It filters the loaded table and builds the chart's series,
 * the status line and the optional export.
 */
module View {
  import opened Wrappers
  import opened Records
  import opened Masks
  import opened Loader

  /** The colours of the series, taken in turn by position in the selection. */
  const CustomColors: seq<string> := ["#0f5499", "#9e2f50", "#6a737b", "#ffbc42", "#005f73", "#b08968"]

  /** The status line shown when no row is selected. */
  const NoDataText: string := "No data in selected range."

  /** A slider position that does not index the date labels. */
  datatype ViewError = IndexError

  /** A plotted line: its legend name, colour and (date, value) points. */
  datatype Trace = Trace(name: string, color: string, points: seq<(Day, real)>)

  datatype Figure = Figure(title: string, traces: seq<Trace>)

  /** The status line: the latest week's moving averages, or a notice. */
  datatype Status = LatestWeek(date: Day, emaHigh: Price, emaLow: Price) | Notice(text: string)

  /** The exported table: a header row and one line per record. */
  datatype Csv = Csv(header: seq<string>, records: seq<Record>)

  datatype Download = Download(content: Csv, filename: string)

  datatype ViewResult = ViewResult(figure: Figure, status: Status, download: Option<Download>)

  /** Python list indexing: a negative position counts from the end. */
  function PyIndex<T>(s: seq<T>, i: int): (r: Result<T, ViewError>)
    ensures r.Ok? <==> -|s| <= i < |s|
    ensures 0 <= i < |s| ==> r == Ok(s[i])
    ensures -|s| <= i < 0 ==> r == Ok(s[|s| + i])
  {
    if 0 <= i < |s| then Ok(s[i])
    else if -|s| <= i < 0 then Ok(s[|s| + i])
    else Err(IndexError)
  }

  /**
   * The mask of the callback: the selected ticker and a date in the
   * inclusive window. A window whose start is after its end shows nothing.
   */
  predicate InView(r: Record, ticker: string, lo: Day, hi: Day)
    ensures InView(r, ticker, lo, hi) ==> lo <= hi
  {
    r.ticker == ticker && lo <= r.date && r.date <= hi
  }

  function Selector(ticker: string, lo: Day, hi: Day): Record -> bool {
    (r: Record) => InView(r, ticker, lo, hi)
  }

  /** The rows of the table shown for a ticker and a date window, in table order. */
  function FilterRows(table: seq<Record>, ticker: string, lo: Day, hi: Day): (dff: seq<Record>)
    ensures forall r :: r in dff ==> r.ticker == ticker && lo <= r.date <= hi
  {
    Keep(table, Selector(ticker, lo, hi))
  }

  /** Every row of the table in the window is shown, as often as it occurs there. */
  lemma FilterComplete(table: seq<Record>, ticker: string, lo: Day, hi: Day, r: Record)
    ensures multiset(FilterRows(table, ticker, lo, hi))[r] ==
      if r.ticker == ticker && lo <= r.date <= hi then multiset(table)[r] else 0
  {
    KeepCount(table, Selector(ticker, lo, hi), r);
  }

  /** Filtering keeps the table's order: the filter of a concatenation is the concatenation of the filters. */
  lemma FilterOrder(a: seq<Record>, b: seq<Record>, ticker: string, lo: Day, hi: Day)
    ensures FilterRows(a + b, ticker, lo, hi) == FilterRows(a, ticker, lo, hi) + FilterRows(b, ticker, lo, hi)
  {
    KeepAppend(a, b, Selector(ticker, lo, hi));
  }

  /** The shown rows of a date-sorted table are date-sorted. */
  lemma FilterSorted(table: seq<Record>, ticker: string, lo: Day, hi: Day)
    requires SortedByDate(table)
    ensures SortedByDate(FilterRows(table, ticker, lo, hi))
  {
    KeepPairwise(table, Selector(ticker, lo, hi), DateLe);
  }

  /** The rows of a ticker, whatever their dates. */
  function HasTicker(ticker: string): Record -> bool {
    (r: Record) => r.ticker == ticker
  }

  /** The slider's full range, from the first to the last label, selects every row of the ticker. */
  lemma FullRangeSelectsTicker(ds: Dataset, ticker: string)
    requires WellFormed(ds) && ds.table != []
    ensures FilterRows(ds.table, ticker, ds.dateLabels[0], ds.dateLabels[|ds.dateLabels| - 1])
      == Keep(ds.table, HasTicker(ticker))
  {
    var t := ds.table;
    var lo, hi := ds.dateLabels[0], ds.dateLabels[|t| - 1];
    assert lo == t[0].date && hi == t[|t| - 1].date;
    forall r | r in t ensures Selector(ticker, lo, hi)(r) == HasTicker(ticker)(r) {
      var i :| 0 <= i < |t| && t[i] == r;
      assert i == 0 || DateLe(t[0], t[i]);
      assert i == |t| - 1 || DateLe(t[i], t[|t| - 1]);
    }
    KeepAgree(t, Selector(ticker, lo, hi), HasTicker(ticker));
  }

  /** The colour of the series at a position of the selection: always one of the six. */
  function Color(i: nat): (c: string)
    ensures c in CustomColors
  {
    CustomColors[i % |CustomColors|]
  }

  /** The colours repeat every six positions. */
  lemma ColorCycles(i: nat)
    ensures Color(i + |CustomColors|) == Color(i)
  {
    assert (i + |CustomColors|) % |CustomColors| == i % |CustomColors|;
  }

  /** The (date, value) points of one field over the shown rows: one per row, in row order. */
  function Points(rows: seq<Record>, f: Field): (pts: seq<(Day, real)>)
    ensures |pts| == |rows|
    ensures forall k :: 0 <= k < |rows| ==> pts[k].0 == rows[k].date && pts[k].1 == FieldValue(rows[k], f)
  {
    seq(|rows|, k requires 0 <= k < |rows| => (rows[k].date, FieldValue(rows[k], f)))
  }

  /** The series for `fields`, the first of them at position `i` of the selection. */
  function TracesFrom(rows: seq<Record>, fields: seq<Field>, i: nat): (r: seq<Trace>)
    ensures |r| == |fields|
    ensures forall k :: 0 <= k < |fields| ==>
      r[k] == Trace(FieldName(fields[k]), Color(i + k), Points(rows, fields[k]))
  {
    if fields == [] then []
    else [Trace(FieldName(fields[0]), Color(i), Points(rows, fields[0]))] + TracesFrom(rows, fields[1..], i + 1)
  }

  /** One series per selected field, in selection order, coloured by position. */
  function Series(rows: seq<Record>, fields: seq<Field>): (r: seq<Trace>)
    ensures |r| == |fields|
    ensures forall k :: 0 <= k < |fields| ==>
      && r[k].name == FieldName(fields[k])
      && r[k].color == CustomColors[k % 6]
      && r[k].points == Points(rows, fields[k])
  {
    TracesFrom(rows, fields, 0)
  }

  /** The figure built by adding one trace per selected field to an empty figure. */
  method BuildFigure(title: string, rows: seq<Record>, fields: seq<Field>) returns (fig: Figure)
    ensures fig == Figure(title, Series(rows, fields))
  {
    var traces: seq<Trace> := [];
    for i := 0 to |fields|
      invariant |traces| == i
      invariant forall k :: 0 <= k < i ==>
        traces[k] == Trace(FieldName(fields[k]), Color(k), Points(rows, fields[k]))
    {
      traces := traces + [Trace(FieldName(fields[i]), Color(i), Points(rows, fields[i]))];
    }
    fig := Figure(title, traces);
  }

  /** The latest date among the shown rows. */
  function MaxDate(rows: seq<Record>): (m: Day)
    requires rows != []
    ensures forall r :: r in rows ==> r.date <= m
    ensures exists k :: 0 <= k < |rows| && rows[k].date == m
  {
    if |rows| == 1 then rows[0].date
    else
      var m := MaxDate(rows[1..]);
      assert rows == [rows[0]] + rows[1..];
      assert forall k :: 0 <= k < |rows[1..]| ==> rows[1..][k] == rows[k + 1];
      if rows[0].date >= m then rows[0].date else m
  }

  /** The position of the first row with date `d`. */
  function FirstIndexOfDate(rows: seq<Record>, d: Day): (k: nat)
    requires exists k :: 0 <= k < |rows| && rows[k].date == d
    ensures k < |rows| && rows[k].date == d
    ensures forall j :: 0 <= j < k ==> rows[j].date != d
  {
    if rows[0].date == d then 0
    else
      assert exists k :: 0 <= k < |rows[1..]| && rows[1..][k].date == d by {
        var k :| 0 <= k < |rows| && rows[k].date == d;
        assert rows[1..][k - 1] == rows[k];
      }
      1 + FirstIndexOfDate(rows[1..], d)
  }

  /** The first of the rows with the latest date. */
  function LatestIndex(rows: seq<Record>): (k: nat)
    requires rows != []
    ensures k < |rows|
    ensures forall j :: 0 <= j < |rows| ==> rows[j].date <= rows[k].date
    ensures forall j :: 0 <= j < k ==> rows[j].date < rows[k].date
  {
    var k := FirstIndexOfDate(rows, MaxDate(rows));
    assert forall j :: 0 <= j < |rows| ==> rows[j] in rows;
    k
  }

  /** The status line for the shown rows. */
  function StatusOf(dff: seq<Record>): (st: Status)
    ensures dff == [] ==> st == Notice(NoDataText)
    ensures dff != [] ==>
      exists k :: (0 <= k < |dff|
        && st == LatestWeek(dff[k].date, dff[k].emaHigh, dff[k].emaLow)
        && (forall j :: 0 <= j < |dff| ==> dff[j].date <= dff[k].date)
        && (forall j :: 0 <= j < k ==> dff[j].date < dff[k].date))
  {
    if dff == [] then Notice(NoDataText)
    else
      var k := LatestIndex(dff);
      LatestWeek(dff[k].date, dff[k].emaHigh, dff[k].emaLow)
  }

  /** The exported table of the shown rows: the header is always written, so the text is never empty. */
  function ToCsv(rows: seq<Record>): (c: Csv)
    ensures c.header == ColumnNames && c.records == rows
    ensures LineCount(c) == |rows| + 1 && Truthy(c)
  {
    Csv(ColumnNames, rows)
  }

  /** The number of text lines of the written file. */
  function LineCount(c: Csv): nat {
    1 + |c.records|
  }

  /** The written text is not empty, which is what the truth test of a string asks. */
  predicate Truthy(c: Csv) {
    LineCount(c) > 0
  }

  /** The export attached to the view: present exactly when the button was ever clicked,
      even when no row is shown (the file then holds only the header). */
  function Export(dff: seq<Record>, ticker: string, nClicks: int): (d: Option<Download>)
    ensures d.Some? <==> nClicks > 0
    ensures d.Some? ==>
      && d.value.filename == ticker + "_weekly.csv"
      && d.value.content.header == ColumnNames
      && d.value.content.records == dff
      && LineCount(d.value.content) == |dff| + 1
  {
    var data := if nClicks > 0 then Some(ToCsv(dff)) else None;
    if data.Some? && Truthy(data.value) then Some(Download(data.value, ticker + "_weekly.csv")) else None
  }

  /** What the callback returns for the current widget values. */
  function Render(ds: Dataset, ticker: string, fields: seq<Field>, startIdx: int, endIdx: int, nClicks: int)
    : (res: Result<ViewResult, ViewError>)
    ensures res.Ok? <==>
      -|ds.dateLabels| <= startIdx < |ds.dateLabels| && -|ds.dateLabels| <= endIdx < |ds.dateLabels|
  {
    match PyIndex(ds.dateLabels, startIdx)
    case Err(e) => Err(e)
    case Ok(lo) =>
      match PyIndex(ds.dateLabels, endIdx)
      case Err(e) => Err(e)
      case Ok(hi) =>
        var dff := FilterRows(ds.table, ticker, lo, hi);
        Ok(ViewResult(Figure(ticker, Series(dff, fields)), StatusOf(dff), Export(dff, ticker, nClicks)))
  }

  /** The callback: slider positions to a date window, the mask, the trace loop, the status and the export. */
  method UpdateChart(ds: Dataset, ticker: string, fields: seq<Field>, startIdx: int, endIdx: int, nClicks: int)
    returns (res: Result<ViewResult, ViewError>)
    ensures res == Render(ds, ticker, fields, startIdx, endIdx, nClicks)
  {
    var start := PyIndex(ds.dateLabels, startIdx);
    if start.Err? {
      return Err(start.error);
    }
    var end := PyIndex(ds.dateLabels, endIdx);
    if end.Err? {
      return Err(end.error);
    }
    var dff := FilterRows(ds.table, ticker, start.value, end.value);
    var fig := BuildFigure(ticker, dff, fields);
    var status := StatusOf(dff);
    var download := Export(dff, ticker, nClicks);
    res := Ok(ViewResult(fig, status, download));
  }

  /**
   * For slider positions in range, every plotted point lies in the date
   * window, there is one series per selected field in selection order with
   * its colour by position, and each series has one point per table row of
   * the ticker in the window.
   */
  lemma RenderSeries(ds: Dataset, ticker: string, fields: seq<Field>, s: int, e: int, nClicks: int)
    requires 0 <= s < |ds.dateLabels| && 0 <= e < |ds.dateLabels|
    ensures var res := Render(ds, ticker, fields, s, e, nClicks);
      && res.Ok?
      && res.value.figure.title == ticker
      && |res.value.figure.traces| == |fields|
      && forall k :: 0 <= k < |fields| ==>
        var tr := res.value.figure.traces[k];
        && tr.name == FieldName(fields[k])
        && tr.color == CustomColors[k % 6]
        && |tr.points| == |Keep(ds.table, Selector(ticker, ds.dateLabels[s], ds.dateLabels[e]))|
        && forall p :: p in tr.points ==> ds.dateLabels[s] <= p.0 <= ds.dateLabels[e]
  {
    var lo, hi := ds.dateLabels[s], ds.dateLabels[e];
    var dff := FilterRows(ds.table, ticker, lo, hi);
    forall k, p | 0 <= k < |fields| && p in Points(dff, fields[k]) ensures lo <= p.0 <= hi {
      var m :| 0 <= m < |dff| && Points(dff, fields[k])[m] == p;
      assert dff[m] in dff;
    }
  }

  /**
   * For slider positions in range, the export is present exactly when the
   * click count is positive; it is named after the ticker and holds exactly
   * the table rows of the ticker in the window.
   */
  lemma RenderExport(ds: Dataset, ticker: string, fields: seq<Field>, s: int, e: int, nClicks: int, r: Record)
    requires 0 <= s < |ds.dateLabels| && 0 <= e < |ds.dateLabels|
    ensures var res := Render(ds, ticker, fields, s, e, nClicks);
      && res.Ok?
      && (res.value.download.Some? <==> nClicks > 0)
      && (nClicks > 0 ==>
        var d := res.value.download.value;
        && d.filename == ticker + "_weekly.csv"
        && multiset(d.content.records)[r] ==
          if InView(r, ticker, ds.dateLabels[s], ds.dateLabels[e]) then multiset(ds.table)[r] else 0)
  {
    FilterComplete(ds.table, ticker, ds.dateLabels[s], ds.dateLabels[e], r);
  }

  /**
   * The first shown row with the latest date is, in the table, a row in the
   * view before which every row in the view has a strictly earlier date.
   */
  lemma FirstLatestInTable(table: seq<Record>, ticker: string, lo: Day, hi: Day)
    requires FilterRows(table, ticker, lo, hi) != []
    ensures var dff := FilterRows(table, ticker, lo, hi);
      exists k :: 0 <= k < |table| && table[k] == dff[LatestIndex(dff)]
        && forall j :: 0 <= j < k && InView(table[j], ticker, lo, hi) ==> table[j].date < table[k].date
  {
    var p := Selector(ticker, lo, hi);
    var dff := Keep(table, p);
    var m := LatestIndex(dff);
    KeepSource(table, p, m);
    var k :| 0 <= k < |table| && table[k] == dff[m] && p(table[k]) && Keep(table[..k], p) == dff[..m];
    forall j | 0 <= j < k && InView(table[j], ticker, lo, hi) ensures table[j].date < table[k].date {
      assert p(table[j]);
      KeepBefore(table, p, k, m, j);
    }
  }

  /**
   * The status of the rows of a table shown for a ticker and a window: the
   * notice exactly when no table row is in the view, and otherwise the
   * first table row in the view that has the latest date of the view.
   */
  lemma StatusInTable(table: seq<Record>, ticker: string, lo: Day, hi: Day)
    ensures var st := StatusOf(FilterRows(table, ticker, lo, hi));
      && (st == Notice(NoDataText) <==> forall r :: r in table ==> !InView(r, ticker, lo, hi))
      && (st.LatestWeek? <==> exists r :: r in table && InView(r, ticker, lo, hi))
      && (st.LatestWeek? ==>
        exists k :: 0 <= k < |table| && InView(table[k], ticker, lo, hi)
          && st == LatestWeek(table[k].date, table[k].emaHigh, table[k].emaLow)
          && (forall q :: q in table && InView(q, ticker, lo, hi) ==> q.date <= table[k].date)
          && (forall j :: 0 <= j < k && InView(table[j], ticker, lo, hi) ==> table[j].date < table[k].date))
  {
    var dff := FilterRows(table, ticker, lo, hi);
    forall r | r in table && InView(r, ticker, lo, hi) ensures r in dff {
      KeepComplete(table, Selector(ticker, lo, hi), r);
    }
    if dff != [] {
      var m := LatestIndex(dff);
      assert dff[m] in dff;
      assert StatusOf(dff) == LatestWeek(dff[m].date, dff[m].emaHigh, dff[m].emaLow);
      forall q | q in table && InView(q, ticker, lo, hi) ensures q.date <= dff[m].date {
        var i :| 0 <= i < |dff| && dff[i] == q;
      }
      FirstLatestInTable(table, ticker, lo, hi);
    }
  }

  /**
   * For slider positions in range, the status is the notice exactly when no
   * table row of the ticker lies in the window. Otherwise it reports the
   * first row of the table, in table order, that is in the view and has the
   * latest date of the view.
   */
  lemma RenderStatus(ds: Dataset, ticker: string, fields: seq<Field>, s: int, e: int, nClicks: int)
    requires 0 <= s < |ds.dateLabels| && 0 <= e < |ds.dateLabels|
    ensures var res := Render(ds, ticker, fields, s, e, nClicks);
      var lo, hi := ds.dateLabels[s], ds.dateLabels[e];
      && res.Ok?
      && (res.value.status == Notice(NoDataText) <==> forall r :: r in ds.table ==> !InView(r, ticker, lo, hi))
      && (res.value.status.LatestWeek? <==> exists r :: r in ds.table && InView(r, ticker, lo, hi))
      && (res.value.status.LatestWeek? ==>
        exists k :: 0 <= k < |ds.table| && InView(ds.table[k], ticker, lo, hi)
          && res.value.status == LatestWeek(ds.table[k].date, ds.table[k].emaHigh, ds.table[k].emaLow)
          && (forall q :: q in ds.table && InView(q, ticker, lo, hi) ==> q.date <= ds.table[k].date)
          && (forall j :: 0 <= j < k && InView(ds.table[j], ticker, lo, hi) ==> ds.table[j].date < ds.table[k].date))
  {
    var lo, hi := ds.dateLabels[s], ds.dateLabels[e];
    var dff := FilterRows(ds.table, ticker, lo, hi);
    assert Render(ds, ticker, fields, s, e, nClicks)
      == Ok(ViewResult(Figure(ticker, Series(dff, fields)), StatusOf(dff), Export(dff, ticker, nClicks)));
    StatusInTable(ds.table, ticker, lo, hi);
  }
}
