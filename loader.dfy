/**
 * The dataset loader: runs once at start-up over the rows of the table
 * file and produces the immutable table, the list of distinct tickers
 * and the per-row date labels that index the range slider.
 */
module Loader {
  import opened Records
  import opened Tickers
  import opened Masks

  /** What the loader produces; never changed afterwards. */
  datatype Dataset = Dataset(table: seq<Record>, tickers: seq<string>, dateLabels: seq<Day>)

  /** Rows with no missing required column, in file order. */
  function DropIncomplete(raw: seq<RawRecord>): (r: seq<RawRecord>)
    ensures forall x :: x in r ==> Complete(x)
  {
    Keep(raw, Complete)
  }

  /** A complete row with its ticker normalised and its date taken as a day. */
  function ToRecord(x: RawRecord): (r: Record)
    requires Complete(x)
    ensures Normalized(r.ticker)
  {
    Record(x.date.value, x.open.value, x.high.value, x.low.value, x.close.value,
           x.volume.value, Normalize(x.ticker.value), x.emaHigh.value, x.emaLow.value)
  }

  /**
   * Ticker normalisation and date conversion of every row: one loaded row
   * per input row, in the same order, with the same date and the
   * normalised ticker.
   */
  function Prepare(rows: seq<RawRecord>): (r: seq<Record>)
    requires forall x :: x in rows ==> Complete(x)
    ensures |r| == |rows|
    ensures forall i :: 0 <= i < |rows| ==>
      && rows[i] in rows && Complete(rows[i])
      && r[i].date == rows[i].date.value
      && r[i].ticker == Normalize(rows[i].ticker.value)
    ensures forall y :: y in r ==> Normalized(y.ticker)
  {
    seq(|rows|, i requires 0 <= i < |rows| => ToRecord(rows[i]))
  }

  /**
   * The rows that survive cleaning, before sorting: each complete input
   * row, in file order, made into a loaded row with a normalised ticker.
   */
  function Cleaned(raw: seq<RawRecord>): (c: seq<Record>)
    ensures |c| == |DropIncomplete(raw)|
    ensures forall i :: 0 <= i < |DropIncomplete(raw)| ==> c[i] == ToRecord(DropIncomplete(raw)[i])
    ensures forall y :: y in c ==> exists x :: x in raw && Complete(x) && y == ToRecord(x)
    ensures forall y :: y in c ==> Normalized(y.ticker)
  {
    var kept := DropIncomplete(raw);
    var c := Prepare(kept);
    assert forall i :: 0 <= i < |kept| ==> c[i] == ToRecord(kept[i]);
    c
  }

  /** The table is in ascending date order. */
  ghost predicate SortedByDate(s: seq<Record>) {
    Pairwise(s, DateLe)
  }

  /** Places `x` before the first row that is not earlier than it. */
  function InsertByDate(x: Record, s: seq<Record>): seq<Record> {
    if s == [] || x.date <= s[0].date then [x] + s
    else [s[0]] + InsertByDate(x, s[1..])
  }

  lemma SortedTail(s: seq<Record>)
    requires s != [] && SortedByDate(s)
    ensures SortedByDate(s[1..])
    ensures forall y :: y in s[1..] ==> s[0].date <= y.date
  {
    forall i, j | 0 <= i < j < |s[1..]| ensures DateLe(s[1..][i], s[1..][j]) {
      assert s[1..][i] == s[i + 1] && s[1..][j] == s[j + 1];
    }
    forall y | y in s[1..] ensures s[0].date <= y.date {
      var m :| 0 <= m < |s[1..]| && s[1..][m] == y;
      assert DateLe(s[0], s[m + 1]);
    }
  }

  /** Inserting adds exactly `x`. */
  lemma {:induction false} InsertByDateCount(x: Record, s: seq<Record>)
    ensures multiset(InsertByDate(x, s)) == multiset(s) + multiset{x}
  {
    if s != [] && x.date > s[0].date {
      InsertByDateCount(x, s[1..]);
      assert s == [s[0]] + s[1..];
    }
  }

  /** Inserting keeps a sorted table sorted. */
  lemma {:induction false} InsertByDateSorted(x: Record, s: seq<Record>)
    requires SortedByDate(s)
    ensures SortedByDate(InsertByDate(x, s))
  {
    var r := InsertByDate(x, s);
    if s == [] || x.date <= s[0].date {
      forall i, j | 0 <= i < j < |r| ensures DateLe(r[i], r[j]) {
        if i == 0 {
          assert j == 1 || DateLe(s[0], s[j - 1]);
        } else {
          assert r[i] == s[i - 1] && r[j] == s[j - 1];
        }
      }
    } else {
      var rest := InsertByDate(x, s[1..]);
      SortedTail(s);
      InsertByDateSorted(x, s[1..]);
      InsertByDateCount(x, s[1..]);
      forall i, j | 0 <= i < j < |r| ensures DateLe(r[i], r[j]) {
        if i == 0 {
          assert r[j] == rest[j - 1];
          assert r[j] in multiset(s[1..]) + multiset{x};
          assert r[j] == x || r[j] in s[1..];
        } else {
          assert r[i] == rest[i - 1] && r[j] == rest[j - 1];
        }
      }
    }
  }

  /**
   * A stable insertion sort by date. The source's sort does not promise an
   * order among rows of equal date; this is one of the orders it may give.
   */
  function SortByDate(s: seq<Record>): (r: seq<Record>)
    ensures SortedByDate(r)
    ensures multiset(r) == multiset(s)
  {
    if s == [] then []
    else
      var rest := SortByDate(s[1..]);
      InsertByDateCount(s[0], rest);
      InsertByDateSorted(s[0], rest);
      assert s == [s[0]] + s[1..];
      InsertByDate(s[0], rest)
  }

  /** The set of tickers that occur in a table. */
  function TickerSet(rows: seq<Record>): set<string> {
    set r | r in rows :: r.ticker
  }

  /** The distinct tickers of a table, in increasing string order. */
  function DistinctTickers(rows: seq<Record>): (ts: seq<string>)
    ensures StrictlySorted(ts)
    ensures Elements(ts) == TickerSet(rows)
  {
    if rows == [] then []
    else
      var rest := DistinctTickers(rows[1..]);
      InsertUniqueSpec(rows[0].ticker, rest);
      assert rows == [rows[0]] + rows[1..];
      assert TickerSet(rows) == TickerSet(rows[1..]) + {rows[0].ticker};
      InsertUnique(rows[0].ticker, rest)
  }

  /** Two strictly sorted lists with the same elements are the same list. */
  lemma {:induction false} StrictlySortedUnique(a: seq<string>, b: seq<string>)
    requires StrictlySorted(a) && StrictlySorted(b)
    requires Elements(a) == Elements(b)
    ensures a == b
  {
    assert a != [] ==> a[0] in Elements(a);
    assert b != [] ==> b[0] in Elements(b);
    if a != [] && b != [] {
      assert a[0] in Elements(b) && b[0] in Elements(a);
      if a[0] != b[0] {
        var i :| 0 <= i < |b| && b[i] == a[0];
        var j :| 0 <= j < |a| && a[j] == b[0];
        assert LexLess(b[0], a[0]);
        assert LexLess(a[0], b[0]);
        LexLessAsymmetric(a[0], b[0]);
      }
      StrictlySortedTail(a);
      StrictlySortedTail(b);
      assert a[0] == b[0];
      assert a == [a[0]] + a[1..] && b == [b[0]] + b[1..];
      forall x | x in Elements(a[1..]) ensures x in Elements(b[1..]) {
        var i :| 1 <= i < |a| && a[i] == x;
        assert LexLess(a[0], a[i]);
        LexLessIrreflexive(a[0]);
        assert x in Elements(b) && x != b[0];
      }
      forall x | x in Elements(b[1..]) ensures x in Elements(a[1..]) {
        var i :| 1 <= i < |b| && b[i] == x;
        assert LexLess(b[0], b[i]);
        LexLessIrreflexive(b[0]);
        assert x in Elements(a) && x != a[0];
      }
      StrictlySortedUnique(a[1..], b[1..]);
      assert a == [a[0]] + a[1..] && b == [b[0]] + b[1..];
    }
  }

  /**
   * One label per row of the table, in table order (not one per distinct
   * date); the labels of a date-sorted table are in non-decreasing order.
   */
  function DateLabels(table: seq<Record>): (labels: seq<Day>)
    ensures |labels| == |table|
    ensures forall i :: 0 <= i < |table| ==> labels[i] == table[i].date
    ensures SortedByDate(table) ==> forall i, j :: 0 <= i <= j < |labels| ==> labels[i] <= labels[j]
  {
    seq(|table|, i requires 0 <= i < |table| => table[i].date)
  }

  /** The invariants every view relies on. */
  ghost predicate WellFormed(ds: Dataset) {
    && SortedByDate(ds.table)
    && (forall r :: r in ds.table ==> Normalized(r.ticker))
    && StrictlySorted(ds.tickers)
    && Elements(ds.tickers) == TickerSet(ds.table)
    && |ds.dateLabels| == |ds.table|
    && (forall i :: 0 <= i < |ds.table| ==> ds.dateLabels[i] == ds.table[i].date)
  }

  /** Every complete input row reaches the cleaned rows. */
  lemma CleanedKeepsComplete(raw: seq<RawRecord>)
    ensures forall x :: x in raw && Complete(x) ==> ToRecord(x) in Cleaned(raw)
  {
    var kept := DropIncomplete(raw);
    forall x | x in raw && Complete(x) ensures ToRecord(x) in Cleaned(raw) {
      KeepComplete(raw, Complete, x);
      var i :| 0 <= i < |kept| && kept[i] == x;
      assert Cleaned(raw)[i] == ToRecord(x);
    }
  }

  /** Two tables that are permutations of each other hold the same rows. */
  lemma SameMembers(a: seq<Record>, b: seq<Record>)
    requires multiset(a) == multiset(b)
    ensures forall y :: y in a <==> y in b
  {
    forall y ensures y in a <==> y in b {
      assert y in a <==> y in multiset(a);
      assert y in b <==> y in multiset(b);
    }
  }

  /** The start-up loading steps, from the rows of the table file. */
  function Load(raw: seq<RawRecord>): (ds: Dataset)
    ensures WellFormed(ds)
    ensures multiset(ds.table) == multiset(Cleaned(raw))
    ensures forall x :: x in raw && Complete(x) ==> ToRecord(x) in ds.table
    ensures forall y :: y in ds.table ==> exists x :: x in raw && Complete(x) && y == ToRecord(x)
  {
    var table := SortByDate(Cleaned(raw));
    CleanedKeepsComplete(raw);
    SameMembers(table, Cleaned(raw));
    assert forall r :: r in table ==> Normalized(r.ticker) by {
      forall r | r in table ensures Normalized(r.ticker) {
        assert r in multiset(Cleaned(raw));
      }
    }
    Dataset(table, DistinctTickers(table), DateLabels(table))
  }

  /** Loading keeps exactly the rows with all required columns, each as often as it occurs. */
  lemma LoadKeepsCompleteRows(raw: seq<RawRecord>, x: RawRecord)
    ensures multiset(DropIncomplete(raw))[x] == if Complete(x) then multiset(raw)[x] else 0
    ensures |Load(raw).table| == |DropIncomplete(raw)|
  {
    KeepCount(raw, Complete, x);
    var ds := Load(raw);
    assert |ds.table| == |multiset(ds.table)| == |multiset(Cleaned(raw))|;
  }

  /** Valid slider positions run from 0 to one less than the number of labels, which is the
      number of rows; equal dates give repeated labels, which are in non-decreasing order. */
  lemma DateLabelsOrdered(ds: Dataset, s: int, e: int)
    requires WellFormed(ds)
    requires 0 <= s <= e < |ds.dateLabels|
    ensures |ds.dateLabels| == |ds.table|
    ensures ds.dateLabels[s] <= ds.dateLabels[e]
  {
    if s < e {
      assert DateLe(ds.table[s], ds.table[e]);
    }
  }
}
