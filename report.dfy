/**
  Building the report: the loop over the tickers with the download abstracted as
  a given outcome per ticker, the columns of the resulting table, moving the
  `Ticker` column to the front, and the colour of each return cell.
 */
module Report {
  import opened Wrappers
  import opened OrderedDict
  import opened Performance

  /** What the download of one ticker gave: a (possibly empty) history, or an exception. */
  datatype Fetch = Downloaded(data: Series) | Raised

  const TickerColumn: string := "Ticker"

  /** A ticker contributes a row exactly when its download succeeded and is not empty. */
  predicate Yields(f: Fetch)
  {
    f.Downloaded? && |f.data| > 0
  }

  /** Every downloaded history can be divided by any of its closes. */
  predicate Divisible(fetches: seq<Fetch>)
  {
    forall i :: 0 <= i < |fetches| && fetches[i].Downloaded? ==> NonZeroCloses(fetches[i].data)
  }

  /** The dict appended for one ticker: its performance, then `perf['Ticker'] = ticker`. */
  function RowOf(ticker: string, data: Series, periods: seq<Window>, yearStart: int): (row: Dict<Value>)
    requires |data| > 0 && NonZeroCloses(data)
    ensures Get(row, TickerColumn) == Some(Str(ticker))
    ensures TickerColumn !in Names(periods) ==>
      row == PerformanceOf(data, periods, yearStart) + [(TickerColumn, Str(ticker))]
    ensures TickerColumn !in Names(periods) ==> Keys(row) == Names(periods) + [TickerColumn]
  {
    var perf := PerformanceOf(data, periods, yearStart);
    assert Keys(perf) == Names(periods);
    PutGet(perf, TickerColumn, Str(ticker));
    assert TickerColumn !in Names(periods) ==> Put(perf, TickerColumn, Str(ticker)) == perf + [(TickerColumn, Str(ticker))] by {
      if TickerColumn !in Names(periods) { PutNew(perf, TickerColumn, Str(ticker)); }
    }
    Put(perf, TickerColumn, Str(ticker))
  }

  /** The rows `performance_data` holds after the loop has seen the given tickers. */
  function Collected(tickers: seq<string>, fetches: seq<Fetch>, periods: seq<Window>, yearStart: int)
    : (rows: seq<Dict<Value>>)
    requires |tickers| == |fetches| && Divisible(fetches)
    ensures |rows| == |Kept(fetches)|
    ensures forall j :: 0 <= j < |rows| ==> Get(rows[j], TickerColumn).Some?
  {
    if tickers == [] then []
    else
      var n := |tickers| - 1;
      Collected(tickers[..n], fetches[..n], periods, yearStart)
        + if Yields(fetches[n]) then [RowOf(tickers[n], fetches[n].data, periods, yearStart)] else []
  }

  /** The positions of the tickers that yield a row, in input order. */
  function Kept(fetches: seq<Fetch>): (ks: seq<nat>)
    ensures forall j :: 0 <= j < |ks| ==> ks[j] < |fetches|
  {
    if fetches == [] then []
    else
      var n := |fetches| - 1;
      Kept(fetches[..n]) + if Yields(fetches[n]) then [n] else []
  }

  /** Exactly the positions whose download yields data, each once, in increasing order. */
  lemma {:induction false} KeptExactly(fetches: seq<Fetch>)
    ensures forall i :: i in Kept(fetches) <==> 0 <= i < |fetches| && Yields(fetches[i])
    ensures forall a, b :: 0 <= a < b < |Kept(fetches)| ==> Kept(fetches)[a] < Kept(fetches)[b]
  {
    if fetches != [] {
      var n := |fetches| - 1;
      KeptExactly(fetches[..n]);
      forall i | 0 <= i < n ensures fetches[..n][i] == fetches[i] { }
    }
  }

  /** The j-th row is the row of the j-th ticker that yields data. */
  lemma {:induction false} CollectedRows(tickers: seq<string>, fetches: seq<Fetch>, periods: seq<Window>, yearStart: int)
    requires |tickers| == |fetches| && Divisible(fetches)
    ensures |Collected(tickers, fetches, periods, yearStart)| == |Kept(fetches)|
    ensures forall j :: 0 <= j < |Kept(fetches)| ==>
      var i := Kept(fetches)[j];
      Yields(fetches[i]) &&
      Collected(tickers, fetches, periods, yearStart)[j] == RowOf(tickers[i], fetches[i].data, periods, yearStart)
  {
    if tickers != [] {
      var n := |tickers| - 1;
      var ts, fs := tickers[..n], fetches[..n];
      assert Divisible(fs) by {
        forall i | 0 <= i < n ensures fs[i] == fetches[i] { }
      }
      CollectedRows(ts, fs, periods, yearStart);
      var ks, rows := Kept(fs), Collected(ts, fs, periods, yearStart);
      var tail := if Yields(fetches[n]) then [RowOf(tickers[n], fetches[n].data, periods, yearStart)] else [];
      assert Collected(tickers, fetches, periods, yearStart) == rows + tail;
      assert Kept(fetches) == ks + if Yields(fetches[n]) then [n] else [];
      forall j | 0 <= j < |Kept(fetches)|
        ensures Yields(fetches[Kept(fetches)[j]])
        ensures Collected(tickers, fetches, periods, yearStart)[j]
          == RowOf(tickers[Kept(fetches)[j]], fetches[Kept(fetches)[j]].data, periods, yearStart)
      {
        if j < |ks| {
          var i := ks[j];
          assert ts[i] == tickers[i] && fs[i] == fetches[i];
          assert (rows + tail)[j] == rows[j];
        } else {
          assert (rows + tail)[j] == tail[0];
        }
      }
    }
  }

  /** Every row is tagged with the ticker it was computed for. */
  lemma RowsTagged(tickers: seq<string>, fetches: seq<Fetch>, periods: seq<Window>, yearStart: int)
    requires |tickers| == |fetches| && Divisible(fetches)
    ensures |Collected(tickers, fetches, periods, yearStart)| == |Kept(fetches)|
    ensures forall j :: 0 <= j < |Kept(fetches)| ==>
      Get(Collected(tickers, fetches, periods, yearStart)[j], TickerColumn) == Some(Str(tickers[Kept(fetches)[j]]))
  {
    CollectedRows(tickers, fetches, periods, yearStart);
  }

  /** The loop over the tickers; `fetches[i]` is what downloading `tickers[i]` gave. */
  method CollectPerformance(tickers: seq<string>, fetches: seq<Fetch>, periods: seq<Window>, yearStart: int)
    returns (performanceData: seq<Dict<Value>>)
    requires |tickers| == |fetches| && Divisible(fetches)
    requires Distinct(Names(periods))
    ensures performanceData == Collected(tickers, fetches, periods, yearStart)
  {
    performanceData := [];
    for i := 0 to |tickers|
      invariant Divisible(fetches[..i])
      invariant performanceData == Collected(tickers[..i], fetches[..i], periods, yearStart)
    {
      assert tickers[..i + 1][..i] == tickers[..i];
      assert fetches[..i + 1][..i] == fetches[..i];
      match fetches[i] {
        case Raised =>
          continue;
        case Downloaded(data) =>
          if |data| == 0 {
            continue;
          }
          var perf := CalculatePerformance(data, periods, yearStart);
          perf := Put(perf, TickerColumn, Str(tickers[i]));
          performanceData := performanceData + [perf];
      }
    }
    assert tickers[..|tickers|] == tickers;
    assert fetches[..|fetches|] == fetches;
  }

  lemma KeptFirstAndThird(a: Series, c: Series)
    requires |a| > 0 && |c| > 0
    ensures Kept([Downloaded(a), Raised, Downloaded(c)]) == [0, 2]
  {
    var fs := [Downloaded(a), Raised, Downloaded(c)];
    assert fs[..2] == [Downloaded(a), Raised] && fs[..2][..1] == [Downloaded(a)] && fs[..2][..1][..0] == [];
    assert Kept(fs[..2][..1]) == [0];
    assert Kept(fs[..2]) == [0];
  }

  /** Three tickers, the second failing: two rows, for the first and the third, in that order. */
  lemma SkipsFailedTicker(t1: string, t2: string, t3: string, a: Series, c: Series,
                          periods: seq<Window>, yearStart: int)
    requires |a| > 0 && NonZeroCloses(a) && |c| > 0 && NonZeroCloses(c)
    ensures Collected([t1, t2, t3], [Downloaded(a), Raised, Downloaded(c)], periods, yearStart)
      == [RowOf(t1, a, periods, yearStart), RowOf(t3, c, periods, yearStart)]
  {
    var ts, fs := [t1, t2, t3], [Downloaded(a), Raised, Downloaded(c)];
    KeptFirstAndThird(a, c);
    CollectedRows(ts, fs, periods, yearStart);
  }

  /** Appends to `columns`, in order, each of `keys` that is not yet among them. */
  function AddNew(columns: seq<string>, keys: seq<string>): (r: seq<string>)
    ensures forall c :: c in r <==> c in columns || c in keys
    ensures columns <= r
    decreases |keys|
  {
    if keys == [] then columns
    else AddNew(if keys[0] in columns then columns else columns + [keys[0]], keys[1..])
  }

  /** The columns of `pd.DataFrame(performance_data)`: every key of every row, in order of first appearance. */
  function FrameColumns(rows: seq<Dict<Value>>): (columns: seq<string>)
    ensures Distinct(columns)
    ensures forall c :: c in columns <==> exists j :: 0 <= j < |rows| && c in Keys(rows[j])
  {
    if rows == [] then []
    else
      var n := |rows| - 1;
      var front := FrameColumns(rows[..n]);
      AddNewDistinct(front, Keys(rows[n]));
      assert forall j :: 0 <= j < n ==> rows[..n][j] == rows[j];
      AddNew(front, Keys(rows[n]))
  }

  /** Merging keys into distinct columns keeps them distinct. */
  lemma {:induction false} AddNewDistinct(columns: seq<string>, keys: seq<string>)
    requires Distinct(columns)
    ensures Distinct(AddNew(columns, keys))
    decreases |keys|
  {
    if keys != [] {
      var next := if keys[0] in columns then columns else columns + [keys[0]];
      assert Distinct(next);
      AddNewDistinct(next, keys[1..]);
    }
  }

  /** Keys that are all present already add no column. */
  lemma {:induction false} AddNewPresent(columns: seq<string>, keys: seq<string>)
    requires forall k :: k in keys ==> k in columns
    ensures AddNew(columns, keys) == columns
    decreases |keys|
  {
    if keys != [] {
      assert keys[0] in keys;
      AddNewPresent(columns, keys[1..]);
    }
  }

  /** Keys that are new and distinct are appended in their own order. */
  lemma {:induction false} AddNewFresh(columns: seq<string>, keys: seq<string>)
    requires Distinct(columns + keys)
    ensures AddNew(columns, keys) == columns + keys
    decreases |keys|
  {
    if keys != [] {
      assert (columns + keys)[|columns|] == keys[0];
      assert keys[0] !in columns by {
        forall i | 0 <= i < |columns| ensures columns[i] != keys[0] {
          assert (columns + keys)[i] == columns[i];
        }
      }
      assert columns + keys == (columns + [keys[0]]) + keys[1..];
      AddNewFresh(columns + [keys[0]], keys[1..]);
    }
  }

  /** Rows that all have the keys `ks` make a table whose columns are `ks`. */
  lemma {:induction false} FrameColumnsUniform(rows: seq<Dict<Value>>, ks: seq<string>)
    requires rows != []
    requires Distinct(ks)
    requires forall j :: 0 <= j < |rows| ==> Keys(rows[j]) == ks
    ensures FrameColumns(rows) == ks
  {
    var n := |rows| - 1;
    if n == 0 {
      assert rows[..n] == [];
      assert [] + ks == ks;
      AddNewFresh([], ks);
    } else {
      FrameColumnsUniform(rows[..n], ks);
      AddNewPresent(ks, ks);
    }
  }

  /** `[col for col in columns if col != c]`. */
  function Without(columns: seq<string>, c: string): (r: seq<string>)
    ensures forall x :: x in r <==> x in columns && x != c
    ensures |r| <= |columns|
  {
    if columns == [] then []
    else
      assert columns == [columns[0]] + columns[1..];
      (if columns[0] == c then [] else [columns[0]]) + Without(columns[1..], c)
  }

  lemma {:induction false} WithoutAbsent(columns: seq<string>, c: string)
    requires c !in columns
    ensures Without(columns, c) == columns
  {
    if columns != [] {
      assert columns[0] in columns;
      WithoutAbsent(columns[1..], c);
    }
  }

  lemma {:induction false} WithoutAppend(a: seq<string>, b: seq<string>, c: string)
    ensures Without(a + b, c) == Without(a, c) + Without(b, c)
  {
    if a != [] {
      assert (a + b)[1..] == a[1..] + b;
      WithoutAppend(a[1..], b, c);
    } else {
      assert a + b == b;
    }
  }

  /** `df[['Ticker'] + [col for col in df.columns if col != 'Ticker']]`; `None` is the KeyError of a table without a `Ticker` column. */
  function MoveTickerFirst(columns: seq<string>): (r: Option<seq<string>>)
    ensures r.Some? <==> TickerColumn in columns
    ensures r.Some? ==> |r.value| > 0 && r.value[0] == TickerColumn && TickerColumn !in r.value[1..]
    ensures r.Some? ==> forall c :: c != TickerColumn ==> (c in r.value <==> c in columns)
  {
    if TickerColumn in columns then
      var rest := Without(columns, TickerColumn);
      assert ([TickerColumn] + rest)[1..] == rest;
      Some([TickerColumn] + rest)
    else
      None
  }

  /** Removing a column that occurs once, between `pre` and `post`, leaves `pre + post`. */
  lemma WithoutSplit(pre: seq<string>, post: seq<string>, c: string)
    requires c !in pre && c !in post
    ensures Without(pre + [c] + post, c) == pre + post
  {
    var front := pre + [c];
    WithoutAppend(front, post, c);
    WithoutAppend(pre, [c], c);
    WithoutAbsent(pre, c);
    WithoutAbsent(post, c);
    assert Without([c], c) == [] by { assert [c][1..] == []; }
    assert Without(front, c) == pre;
  }

  /** When `Ticker` is one of distinct columns, it moves to the front and the others keep their order. */
  lemma MoveTickerFirstShape(columns: seq<string>)
    requires Distinct(columns) && TickerColumn in columns
    ensures exists pre, post :: (columns == pre + [TickerColumn] + post
      && MoveTickerFirst(columns) == Some([TickerColumn] + (pre + post)))
  {
    var i :| 0 <= i < |columns| && columns[i] == TickerColumn;
    var pre, post := columns[..i], columns[i + 1..];
    assert columns == pre + [TickerColumn] + post;
    assert TickerColumn !in pre by {
      forall j | 0 <= j < i ensures pre[j] != TickerColumn { }
    }
    assert TickerColumn !in post by {
      forall j | 0 <= j < |post| ensures post[j] != TickerColumn {
        assert post[j] == columns[i + 1 + j];
      }
    }
    WithoutSplit(pre, post, TickerColumn);
    assert MoveTickerFirst(columns) == Some([TickerColumn] + (pre + post));
  }

  /** Every row has the window names as keys, in configuration order, followed by `Ticker`. */
  lemma CollectedKeys(tickers: seq<string>, fetches: seq<Fetch>, periods: seq<Window>, yearStart: int)
    requires |tickers| == |fetches| && Divisible(fetches)
    requires TickerColumn !in Names(periods)
    ensures forall j :: 0 <= j < |Collected(tickers, fetches, periods, yearStart)| ==>
      Keys(Collected(tickers, fetches, periods, yearStart)[j]) == Names(periods) + [TickerColumn]
  {
    var rows := Collected(tickers, fetches, periods, yearStart);
    CollectedRows(tickers, fetches, periods, yearStart);
    forall j | 0 <= j < |rows| ensures Keys(rows[j]) == Names(periods) + [TickerColumn] {
      var i := Kept(fetches)[j];
      assert rows[j] == RowOf(tickers[i], fetches[i].data, periods, yearStart);
    }
  }

  /**
    The header of the report: `Ticker`, then the window names in configuration order,
    as soon as one ticker yields data; with no row at all the reorder fails.
   */
  lemma ReportColumns(tickers: seq<string>, fetches: seq<Fetch>, periods: seq<Window>, yearStart: int)
    requires |tickers| == |fetches| && Divisible(fetches)
    requires Distinct(Names(periods)) && TickerColumn !in Names(periods)
    ensures Kept(fetches) != [] ==>
      MoveTickerFirst(FrameColumns(Collected(tickers, fetches, periods, yearStart)))
        == Some([TickerColumn] + Names(periods))
    ensures Kept(fetches) == [] ==>
      Collected(tickers, fetches, periods, yearStart) == []
      && MoveTickerFirst(FrameColumns(Collected(tickers, fetches, periods, yearStart))) == None
  {
    var rows := Collected(tickers, fetches, periods, yearStart);
    CollectedRows(tickers, fetches, periods, yearStart);
    if rows != [] {
      var ks := Names(periods) + [TickerColumn];
      CollectedKeys(tickers, fetches, periods, yearStart);
      assert Distinct(ks) by {
        forall a, b | 0 <= a < b < |ks| ensures ks[a] != ks[b] {
          if b == |ks| - 1 { assert ks[a] in Names(periods); }
        }
      }
      FrameColumnsUniform(rows, ks);
      assert ks == Names(periods) + [TickerColumn] + [];
      WithoutSplit(Names(periods), [], TickerColumn);
      assert Names(periods) + [] == Names(periods);
      assert TickerColumn in ks by { assert ks[|ks| - 1] == TickerColumn; }
      assert MoveTickerFirst(ks) == Some([TickerColumn] + Names(periods));
    }
  }

  /** `highlight_performance`: no style for a missing value, green above zero, red otherwise. */
  function Highlight(val: Value): (style: string)
    requires !val.Str?
    ensures style == "" <==> val.NoneValue?
    ensures style == "color: green" <==> val.Float? && val.x > 0.0
    ensures style == "color: red" <==> val.Float? && val.x <= 0.0
  {
    if val.NoneValue? then ""
    else
      var color := if val.x > 0.0 then "green" else "red";
      "color: " + color
  }

  /** The colour of a fixed window's cell, for positive prices, in terms of the history itself. */
  lemma FixedWindowStyle(s: Series, k: nat)
    requires |s| > 0 && forall i :: 0 <= i < |s| ==> s[i].close > 0.0
    requires k >= 1
    ensures Highlight(AsValue(FixedReturn(s, k))) == "" <==> |s| <= k
    ensures Highlight(AsValue(FixedReturn(s, k))) == "color: green" <==>
      |s| > k && s[|s| - 1].close > s[|s| - k].close
    ensures Highlight(AsValue(FixedReturn(s, k))) == "color: red" <==>
      |s| > k && s[|s| - 1].close <= s[|s| - k].close
  {
  }
}
