/**
  The trailing-return calculation for one instrument: given its price history
  and the configured windows, the return over each window, or `None` where the
  window's reference price cannot be found.
 */
module Performance {
  import opened Wrappers
  import opened OrderedDict

  /** One row of a downloaded history: a trading day (a day number) and its closing price. */
  datatype Entry = Entry(date: int, close: real)

  /** A price history, oldest first; the last entry is "today". */
  type Series = seq<Entry>

  /** A window is a count of trading days or the year-to-date sentinel `'ytd'`. */
  datatype Period = Days(k: nat) | Ytd

  datatype Window = Window(name: string, period: Period)

  /** A Python value as it is stored in a result dict: a float, `None` or a string. */
  datatype Value = Float(x: real) | NoneValue | Str(s: string)

  /** The window configuration of the report. */
  const PerformancePeriods: seq<Window> := [
    Window("1 Day", Days(1)),
    Window("5 Days", Days(5)),
    Window("10 Days", Days(10)),
    Window("1 Month", Days(21)),
    Window("3 Months", Days(63)),
    Window("6 Months", Days(126)),
    Window("Year to Date", Ytd),
    Window("1 Year", Days(252)),
    Window("2 Years", Days(504)),
    Window("3 Years", Days(756)),
    Window("5 Years", Days(1260)),
    Window("10 Years", Days(2520))
  ]

  function Names(windows: seq<Window>): seq<string>
  {
    seq(|windows|, i requires 0 <= i < |windows| => windows[i].name)
  }

  /** Every closing price can serve as a divisor. */
  predicate NonZeroCloses(s: Series)
  {
    forall i :: 0 <= i < |s| ==> s[i].close != 0.0
  }

  /** `series.iloc[i]`, with Python's negative indexing from the end. */
  function ILoc(s: Series, i: int): (e: Entry)
    requires -|s| <= i < |s|
    ensures e == s[(i + |s|) % |s|]
  {
    if i < 0 then s[|s| + i] else s[i]
  }

  /** `((today - past) / past) * 100`: the signed percentage change from `past` to `today`. */
  function PercentChange(today: real, past: real): (r: real)
    requires past != 0.0
    ensures past > 0.0 ==> (r > 0.0 <==> today > past)
    ensures past > 0.0 ==> (r == 0.0 <==> today == past)
    ensures past > 0.0 ==> (r < 0.0 <==> today < past)
    ensures r * past == (today - past) * 100.0
  {
    var ratio := (today - past) / past;
    assert ratio * past == today - past;
    ratio * 100.0
  }

  /** The return over a fixed window of `k` trading days. */
  function FixedReturn(s: Series, k: nat): (r: Option<real>)
    requires |s| > 0 && NonZeroCloses(s)
    ensures r.Some? <==> |s| > k
    ensures r.Some? && k >= 1 ==> r.value == PercentChange(s[|s| - 1].close, s[|s| - k].close)
    ensures r.Some? && k == 0 ==> r.value == PercentChange(s[|s| - 1].close, s[0].close)
  {
    if |s| > k then Some(PercentChange(ILoc(s, -1).close, ILoc(s, -(k as int)).close)) else None
  }

  /** `data[data.index >= start_of_year]`: the entries dated on or after `yearStart`, in series order. */
  function OnOrAfter(s: Series, yearStart: int): (f: Series)
    ensures forall e :: e in f ==> e in s && e.date >= yearStart
    ensures forall i :: 0 <= i < |s| && s[i].date >= yearStart ==> s[i] in f
  {
    if s == [] then []
    else (if s[0].date >= yearStart then [s[0]] else []) + OnOrAfter(s[1..], yearStart)
  }

  /** One step of the filter: the first entry survives or not, and the rest is filtered. */
  lemma OnOrAfterCons(e: Entry, t: Series, yearStart: int)
    ensures OnOrAfter([e] + t, yearStart) == (if e.date >= yearStart then [e] else []) + OnOrAfter(t, yearStart)
  {
    assert ([e] + t)[0] == e && ([e] + t)[1..] == t;
  }

  /** The filter works piecewise over concatenation, so the surviving entries keep their order. */
  lemma {:induction false} OnOrAfterAppend(a: Series, b: Series, yearStart: int)
    ensures OnOrAfter(a + b, yearStart) == OnOrAfter(a, yearStart) + OnOrAfter(b, yearStart)
  {
    if a == [] {
      assert a + b == b;
    } else {
      var head := if a[0].date >= yearStart then [a[0]] else [];
      var rest := a[1..];
      assert a == [a[0]] + rest;
      assert a + b == [a[0]] + (rest + b);
      OnOrAfterCons(a[0], rest + b, yearStart);
      OnOrAfterCons(a[0], rest, yearStart);
      OnOrAfterAppend(rest, b, yearStart);
      assert head + (OnOrAfter(rest, yearStart) + OnOrAfter(b, yearStart))
        == (head + OnOrAfter(rest, yearStart)) + OnOrAfter(b, yearStart);
    }
  }

  /** A history dated entirely on or after the cutoff passes the filter unchanged. */
  lemma {:induction false} OnOrAfterAll(s: Series, yearStart: int)
    requires forall i :: 0 <= i < |s| ==> s[i].date >= yearStart
    ensures OnOrAfter(s, yearStart) == s
  {
    if s != [] {
      OnOrAfterAll(s[1..], yearStart);
      assert s == [s[0]] + s[1..];
    }
  }

  /** The position of the earliest entry dated on or after `yearStart`; `|s|` when there is none. */
  function FirstOnOrAfter(s: Series, yearStart: int): (i: nat)
    ensures i <= |s|
    ensures forall j :: 0 <= j < i ==> s[j].date < yearStart
    ensures i < |s| ==> s[i].date >= yearStart
  {
    if s == [] || s[0].date >= yearStart then 0
    else 1 + FirstOnOrAfter(s[1..], yearStart)
  }

  /** The filter keeps something iff some entry is on or after the cutoff, and it starts with the earliest one. */
  lemma {:induction false} OnOrAfterHead(s: Series, yearStart: int)
    ensures OnOrAfter(s, yearStart) == [] <==> FirstOnOrAfter(s, yearStart) == |s|
    ensures OnOrAfter(s, yearStart) != [] ==> OnOrAfter(s, yearStart)[0] == s[FirstOnOrAfter(s, yearStart)]
  {
    if s != [] && s[0].date < yearStart {
      assert OnOrAfter(s, yearStart) == OnOrAfter(s[1..], yearStart);
      OnOrAfterHead(s[1..], yearStart);
    }
  }

  /** The year-to-date return: from the earliest entry on or after `yearStart` to the last entry. */
  function YtdReturn(s: Series, yearStart: int): (r: Option<real>)
    requires |s| > 0 && NonZeroCloses(s)
    ensures r.None? <==> forall i :: 0 <= i < |s| ==> s[i].date < yearStart
    ensures r.Some? ==> (FirstOnOrAfter(s, yearStart) < |s|
      && r.value == PercentChange(s[|s| - 1].close, s[FirstOnOrAfter(s, yearStart)].close))
  {
    var ytd := OnOrAfter(s, yearStart);
    OnOrAfterHead(s, yearStart);
    if |ytd| > 0 then Some(PercentChange(ILoc(s, -1).close, ytd[0].close)) else None
  }

  /** A window's return, when defined, is the change from its reference close to the last close. */
  function WindowReturn(s: Series, p: Period, yearStart: int): (r: Option<real>)
    requires |s| > 0 && NonZeroCloses(s)
    ensures r.Some? ==> (0 <= ReferenceIndex(s, p, yearStart) < |s|
      && r.value == PercentChange(s[|s| - 1].close, s[ReferenceIndex(s, p, yearStart)].close))
    ensures p.Days? ==> (r.Some? <==> |s| > p.k)
    ensures p.Ytd? ==> (r.None? <==> forall i :: 0 <= i < |s| ==> s[i].date < yearStart)
  {
    match p
    case Ytd => YtdReturn(s, yearStart)
    case Days(k) => FixedReturn(s, k)
  }

  /** How a return is stored in the result dict. */
  function AsValue(r: Option<real>): Value
  {
    match r
    case Some(x) => Float(x)
    case None => NoneValue
  }

  /** The dict `calculate_performance` returns: one entry per window, in configuration order. */
  function PerformanceOf(s: Series, windows: seq<Window>, yearStart: int): (d: Dict<Value>)
    requires |s| > 0 && NonZeroCloses(s)
    ensures Keys(d) == Names(windows)
    ensures forall i :: 0 <= i < |windows| ==> !d[i].1.Str?
  {
    seq(|windows|, i requires 0 <= i < |windows| =>
      (windows[i].name, AsValue(WindowReturn(s, windows[i].period, yearStart))))
  }

  /** Every window name is a key, in configuration order, and looks up its own window's return. */
  lemma PerformanceLookup(s: Series, windows: seq<Window>, yearStart: int)
    requires |s| > 0 && NonZeroCloses(s)
    requires Distinct(Names(windows))
    ensures Keys(PerformanceOf(s, windows, yearStart)) == Names(windows)
    ensures forall i :: 0 <= i < |windows| ==>
      Get(PerformanceOf(s, windows, yearStart), windows[i].name)
        == Some(AsValue(WindowReturn(s, windows[i].period, yearStart)))
  {
    var d := PerformanceOf(s, windows, yearStart);
    assert Keys(d) == Names(windows);
    forall i | 0 <= i < |windows|
      ensures Get(d, windows[i].name) == Some(AsValue(WindowReturn(s, windows[i].period, yearStart)))
    {
      GetAt(d, i);
    }
  }

  /** `calculate_performance(data, periods)`, with "Jan 1 of the current year" passed in as `yearStart`. */
  method CalculatePerformance(data: Series, periods: seq<Window>, yearStart: int)
    returns (performance: Dict<Value>)
    requires |data| > 0 && NonZeroCloses(data)
    requires Distinct(Names(periods))
    ensures performance == PerformanceOf(data, periods, yearStart)
  {
    var today := ILoc(data, -1).close;
    performance := [];
    for n := 0 to |periods|
      invariant |performance| == n
      invariant forall i :: 0 <= i < n ==>
        performance[i] == (periods[i].name, AsValue(WindowReturn(data, periods[i].period, yearStart)))
    {
      var name := periods[n].name;
      var value: Value;
      match periods[n].period {
        case Ytd =>
          var ytdData := OnOrAfter(data, yearStart);
          if |ytdData| > 0 {
            var startYtd := ytdData[0].close;
            value := Float(PercentChange(today, startYtd));
          } else {
            value := NoneValue;
          }
        case Days(periodDays) =>
          if |data| > periodDays {
            var past := ILoc(data, -(periodDays as int)).close;
            value := Float(PercentChange(today, past));
          } else {
            value := NoneValue;
          }
      }
      assert value == AsValue(WindowReturn(data, periods[n].period, yearStart));
      assert name !in Keys(performance) by {
        forall i | 0 <= i < n ensures Keys(performance)[i] != name {
          assert Names(periods)[i] != Names(periods)[n];
        }
      }
      PutNew(performance, name, value);
      performance := Put(performance, name, value);
    }
  }

  /** For a fixed window the reference is the close k - 1 trading days before today, not k. */
  lemma FixedReference(s: Series, k: nat)
    requires |s| > 0 && NonZeroCloses(s)
    requires 1 <= k < |s|
    ensures FixedReturn(s, k) == Some(PercentChange(s[|s| - 1].close, s[(|s| - 1) - (k - 1)].close))
  {
  }

  /** The "1 Day" window compares today's close with itself. */
  lemma OneDayIsFlat(s: Series)
    requires |s| > 0 && NonZeroCloses(s)
    ensures FixedReturn(s, 1) == if |s| > 1 then Some(0.0) else None
  {
  }

  /** The position of the reference close a defined window compares today's close with. */
  function ReferenceIndex(s: Series, p: Period, yearStart: int): int
  {
    match p
    case Ytd => FirstOnOrAfter(s, yearStart)
    case Days(k) => if k == 0 then 0 else |s| - k
  }

  /** Positive prices: the sign of a defined return is the direction of the move from its reference close. */
  lemma ReturnSign(s: Series, p: Period, yearStart: int)
    requires |s| > 0 && forall i :: 0 <= i < |s| ==> s[i].close > 0.0
    requires WindowReturn(s, p, yearStart).Some?
    ensures 0 <= ReferenceIndex(s, p, yearStart) < |s|
    ensures WindowReturn(s, p, yearStart).value > 0.0 <==> s[|s| - 1].close > s[ReferenceIndex(s, p, yearStart)].close
    ensures WindowReturn(s, p, yearStart).value == 0.0 <==> s[|s| - 1].close == s[ReferenceIndex(s, p, yearStart)].close
    ensures WindowReturn(s, p, yearStart).value < 0.0 <==> s[|s| - 1].close < s[ReferenceIndex(s, p, yearStart)].close
  {
    var r := WindowReturn(s, p, yearStart);
    var i := ReferenceIndex(s, p, yearStart);
    assert r.value == PercentChange(s[|s| - 1].close, s[i].close);
  }

  /** The configured window names are distinct and none of them is the ticker column. */
  lemma PerformancePeriodsWellFormed()
    ensures Distinct(Names(PerformancePeriods))
    ensures "Ticker" !in Names(PerformancePeriods)
  {
  }
}
