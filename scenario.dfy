/**
 * A worked example: two tickers, five weekly rows each. Because the date
 * labels are per row, the ten slider positions cover each week twice.
 */
module Scenario {
  import opened Wrappers
  import opened Records
  import opened Masks
  import opened Loader
  import opened View

  function Row(ticker: string, week: nat): Record {
    Record(7 * week, 10.0, 12.0, 9.0, 11.0 + week as real, 1000, ticker, 20.0 + week as real, 5.0 + week as real)
  }

  /** Weeks `w` to 4 of both tickers, the table from week `w` on. */
  function Weeks(w: nat): seq<Record>
    decreases 5 - w
  {
    if w >= 5 then [] else [Row("AAA", w), Row("BBB", w)] + Weeks(w + 1)
  }

  function TwoTickers(): Dataset {
    var table := Weeks(0);
    Dataset(table, ["AAA", "BBB"], DateLabels(table))
  }

  /** The weeks from `w` on are in date order, no earlier than week `w`, and of the two tickers only. */
  lemma {:induction false} WeeksSorted(w: nat)
    ensures SortedByDate(Weeks(w))
    ensures forall r :: r in Weeks(w) ==> 7 * w <= r.date && (r.ticker == "AAA" || r.ticker == "BBB")
    decreases 5 - w
  {
    if w < 5 {
      WeeksSorted(w + 1);
      var rest := Weeks(w + 1);
      var t := Weeks(w);
      forall i, j | 0 <= i < j < |t| ensures DateLe(t[i], t[j]) {
        if j >= 2 {
          assert t[j] == rest[j - 2] && t[j] in rest;
          if i >= 2 {
            assert t[i] == rest[i - 2];
          }
        }
      }
    }
  }

  /** Both tickers occur in the example table, and no other. */
  lemma TwoTickersTickerSet()
    ensures TickerSet(Weeks(0)) == {"AAA", "BBB"}
  {
    WeeksSorted(0);
    var t := Weeks(0);
    assert t[0] in t && t[1] in t;
    assert t[0].ticker == "AAA" && t[1].ticker == "BBB";
  }

  /** A date-sorted table of the two tickers, with both present, and its labels satisfy the loader's invariants. */
  lemma WellFormedOfTwo(t: seq<Record>)
    requires SortedByDate(t) && TickerSet(t) == {"AAA", "BBB"}
    ensures WellFormed(Dataset(t, ["AAA", "BBB"], DateLabels(t)))
  {
    var tickers := ["AAA", "BBB"];
    assert forall r :: r in t ==> Tickers.Normalized(r.ticker) by {
      forall r | r in t ensures Tickers.Normalized(r.ticker) {
        assert r.ticker in TickerSet(t);
        assert Tickers.Normalized("AAA") && Tickers.Normalized("BBB");
      }
    }
    assert Tickers.StrictlySorted(tickers) by {
      assert Tickers.LexLess("AAA", "BBB");
    }
    assert Tickers.Elements(tickers) == {"AAA", "BBB"};
  }

  /** The example dataset satisfies the loader's invariants. */
  lemma TwoTickersWellFormed()
    ensures WellFormed(TwoTickers())
  {
    WeeksSorted(0);
    TwoTickersTickerSet();
    WellFormedOfTwo(Weeks(0));
  }

  /** Filtering the weeks from `w` on for AAA up to week `last` keeps that ticker's rows of those weeks. */
  lemma {:induction false} FilterWeeks(w: nat, last: nat)
    requires last < 5
    ensures FilterRows(Weeks(w), "AAA", 0, 7 * last) == AaaWeeks(w, last)
    decreases 5 - w
  {
    if w < 5 {
      var p := Selector("AAA", 0, 7 * last);
      FilterWeeks(w + 1, last);
      KeepAppend([Row("AAA", w), Row("BBB", w)], Weeks(w + 1), p);
      assert Keep([Row("BBB", w)], p) == [];
      assert [Row("AAA", w), Row("BBB", w)] == [Row("AAA", w)] + [Row("BBB", w)];
      KeepAppend([Row("AAA", w)], [Row("BBB", w)], p);
    }
  }

  /** The rows of AAA from week `w` to week `last`. */
  function AaaWeeks(w: nat, last: nat): seq<Record>
    decreases 5 - w
  {
    if w >= 5 then [] else (if w <= last then [Row("AAA", w)] else []) + AaaWeeks(w + 1, last)
  }

  lemma LabelsOfTwoTickers()
    ensures |TwoTickers().dateLabels| == 10
    ensures TwoTickers().dateLabels[0] == 0
    ensures TwoTickers().dateLabels[4] == 14
    ensures TwoTickers().dateLabels[9] == 28
  {
    var t := Weeks(0);
    assert t[0] == Row("AAA", 0);
    assert t[4] == Row("AAA", 2);
    assert t[9] == Row("BBB", 4);
  }

  lemma LatestOfFive()
    ensures AaaWeeks(0, 4) == [Row("AAA", 0), Row("AAA", 1), Row("AAA", 2), Row("AAA", 3), Row("AAA", 4)]
    ensures LatestIndex(AaaWeeks(0, 4)) == 4
  {
    var dff := AaaWeeks(0, 4);
    assert dff == [Row("AAA", 0), Row("AAA", 1), Row("AAA", 2), Row("AAA", 3), Row("AAA", 4)];
    var k := LatestIndex(dff);
    assert dff[4].date <= dff[k].date;
  }

  lemma LatestOfThree()
    ensures AaaWeeks(0, 2) == [Row("AAA", 0), Row("AAA", 1), Row("AAA", 2)]
    ensures LatestIndex(AaaWeeks(0, 2)) == 2
  {
    var dff := AaaWeeks(0, 2);
    assert dff == [Row("AAA", 0), Row("AAA", 1), Row("AAA", 2)];
    var k := LatestIndex(dff);
    assert dff[2].date <= dff[k].date;
  }

  lemma ExportName()
    ensures "AAA" + "_weekly.csv" == "AAA_weekly.csv"
  {
    var n := "AAA" + "_weekly.csv";
    assert |n| == 14;
    assert forall i :: 0 <= i < 14 ==> n[i] == "AAA_weekly.csv"[i];
  }

  /** The full slider range shows all five weeks of the ticker; the status reports the last one. */
  lemma FullRangeScenario()
    ensures var res := Render(TwoTickers(), "AAA", [Close], 0, 9, 1);
      && res.Ok?
      && |res.value.figure.traces| == 1
      && |res.value.figure.traces[0].points| == 5
      && res.value.status == LatestWeek(28, 24.0, 9.0)
      && res.value.download.Some?
      && res.value.download.value.filename == "AAA_weekly.csv"
      && |res.value.download.value.content.records| == 5
  {
    var ds := TwoTickers();
    LabelsOfTwoTickers();
    FilterWeeks(0, 4);
    LatestOfFive();
    ExportName();
    var dff := AaaWeeks(0, 4);
    assert StatusOf(dff) == LatestWeek(28, 24.0, 9.0) by {
      assert dff[4] == Row("AAA", 4);
    }
    assert Render(ds, "AAA", [Close], 0, 9, 1)
      == Ok(ViewResult(Figure("AAA", Series(dff, [Close])), StatusOf(dff), Export(dff, "AAA", 1)));
  }

  /** Slider positions 0 to 4 reach only the third week, so three points are shown and nothing is exported. */
  lemma PerRowLabelsScenario()
    ensures var res := Render(TwoTickers(), "AAA", [Close], 0, 4, 0);
      && res.Ok?
      && |res.value.figure.traces| == 1
      && |res.value.figure.traces[0].points| == 3
      && res.value.status == LatestWeek(14, 22.0, 7.0)
      && res.value.download == None
  {
    var ds := TwoTickers();
    LabelsOfTwoTickers();
    FilterWeeks(0, 2);
    LatestOfThree();
    var dff := AaaWeeks(0, 2);
    assert Render(ds, "AAA", [Close], 0, 4, 0)
      == Ok(ViewResult(Figure("AAA", Series(dff, [Close])), StatusOf(dff), Export(dff, "AAA", 0)));
  }
}
