/** The dashboard script (app.py): the session it keeps between reruns,
    the gate that decides between the dashboard and the prompt, the metric
    row read from the stored record, and the colour of the volume bars.
    Each rerun of the script is one `Event`: the sidebar's text, whether
    the button was pressed, and what the services return during that run. */
module Dashboard {
  import opened Results
  import opened Text
  import opened StockData
  import opened NewsSentiment
  import opened Orchestrator
  import opened Series

  /** The four session fields. They start unset; a press that completes
      writes all four. The price-fetch exception, which the model leaves
      out, can interrupt a press after `stats` and `sentiment` are written
      and before `ticker` and `report` are, leaving new data beside an old
      report; `Stored` does not represent that mix. */
  datatype Session =
    | Empty
    | Stored(ticker: string, stats: StockStats, sentiment: string, report: string)

  datatype Event = Event(input: string, pressed: bool, world: World)

  /** A press of "Generate Full Analysis": fetch and store the record, the
      label and the narrative for the upper-cased input. */
  function Press(input: string, world: World, oracles: Oracles): (s: Session)
    ensures s.Stored? && s.ticker == Upper(input)
    ensures s.stats == GetStockStats(s.ticker, world.closes, oracles.round2)
    ensures s.stats.Invalid? <==> |world.closes| == 0
    ensures s.stats.Invalid? ==> s.report == NoDataMessage
    ensures s.stats.Valid? ==>
      && s.stats.symbol == s.ticker
      && s.stats.price == oracles.round2(LastClose(world.closes))
      && s.stats.ma20 == oracles.round2(Mean(world.closes))
    ensures s.sentiment == GetSentiment(world.news, oracles.polarity)
    ensures s.stats.Valid? ==>
      s.report == Narrative(oracles.complete(AnalysisRequest(s.ticker, s.stats, s.sentiment)))
  {
    var ticker := Upper(input);
    Stored(ticker,
           GetStockStats(ticker, world.closes, oracles.round2),
           GetSentiment(world.news, oracles.polarity),
           AnalyzeStock(ticker, world, oracles).text)
  }

  /** A press for a ticker with a price history, whose request the model
      answers with a non-empty first choice, opens the dashboard on that
      choice, the record computed from the history, and the news label. */
  lemma PressShowsNarrative(s: Session, input: string, world: World, oracles: Oracles)
    requires |world.closes| > 0
    ensures var v := ViewAsWritten(Step(s, Event(input, true, world), oracles), input);
      var outcome := oracles.complete(AnalysisRequest(Upper(input),
        GetStockStats(Upper(input), world.closes, oracles.round2),
        GetSentiment(world.news, oracles.polarity)));
      outcome.Replied? && |outcome.choices| > 0 && |outcome.choices[0]| > 0 ==>
        && v.Board?
        && v.report == outcome.choices[0]
        && v.stats.Valid?
        && v.stats.price == oracles.round2(LastClose(world.closes))
        && v.sentiment == GetSentiment(world.news, oracles.polarity)
  {
  }

  /** One rerun: the session changes only when the button was pressed. */
  function Step(s: Session, e: Event, oracles: Oracles): (next: Session)
    ensures !e.pressed ==> next == s
    ensures e.pressed ==> next.Stored? && next.ticker == Upper(e.input)
  {
    if e.pressed then Press(e.input, e.world, oracles) else s
  }

  /** A sequence of reruns, oldest first. The session at the end is the
      one at the start, or what one of the presses stored. */
  function Run(s: Session, events: seq<Event>, oracles: Oracles): (r: Session)
    ensures || r == s
            || exists i :: 0 <= i < |events| && events[i].pressed
                 && r == Press(events[i].input, events[i].world, oracles)
    decreases |events|
  {
    if |events| == 0 then s
    else
      var rest := events[1..];
      assert forall i :: 0 <= i < |rest| ==> rest[i] == events[i + 1];
      Run(Step(s, events[0], oracles), rest, oracles)
  }

  /** Running two batches of reruns is running their concatenation. */
  lemma {:induction false} RunAppend(s: Session, a: seq<Event>, b: seq<Event>, oracles: Oracles)
    ensures Run(s, a + b, oracles) == Run(Run(s, a, oracles), b, oracles)
    decreases |a|
  {
    if |a| == 0 {
      assert a + b == b;
    } else {
      var next := Step(s, a[0], oracles);
      assert (a + b)[0] == a[0];
      assert (a + b)[1..] == a[1..] + b;
      RunCons(s, a + b, oracles);
      RunCons(s, a, oracles);
      RunAppend(next, a[1..], b, oracles);
    }
  }

  lemma RunCons(s: Session, events: seq<Event>, oracles: Oracles)
    requires |events| > 0
    ensures Run(s, events, oracles) == Run(Step(s, events[0], oracles), events[1..], oracles)
  {
  }

  /** Reruns without a press, such as a change of the chart timeframe, can
      be inserted anywhere without changing the session they lead to. */
  lemma QuietRerunsIgnored(s: Session, before: seq<Event>, quiet: seq<Event>, after: seq<Event>, oracles: Oracles)
    requires forall j :: 0 <= j < |quiet| ==> !quiet[j].pressed
    ensures Run(s, before + quiet + after, oracles) == Run(s, before + after, oracles)
  {
    RunAppend(s, before + quiet, after, oracles);
    RunAppend(s, before, quiet, oracles);
    RunAppend(s, before, after, oracles);
  }

  /** The session after any reruns is what the LAST press stored. */
  lemma {:induction false} RunReflectsLastPress(s: Session, events: seq<Event>, i: nat, oracles: Oracles)
    requires i < |events| && events[i].pressed
    requires forall j :: i < j < |events| ==> !events[j].pressed
    ensures Run(s, events, oracles) == Press(events[i].input, events[i].world, oracles)
    decreases i
  {
    var next := Step(s, events[0], oracles);
    if i > 0 {
      RunReflectsLastPress(next, events[1..], i - 1, oracles);
    }
  }

  // ---------------------------------------------------------------------
  // The gate, as written
  // ---------------------------------------------------------------------

  datatype Screen =
    | Prompt
    | Notice(message: string)
    | Board(ticker: string, stats: StockStats, sentiment: string, report: string)

  /** Whether the stored report is shown for the current input: a
      non-empty report is stored and was made for the same upper-cased
      ticker. */
  predicate Shown(s: Session, input: string): (b: bool)
    ensures b ==> s.Stored? && |s.report| > 0 && Upper(s.ticker) == s.ticker
  {
    UpperIdempotent(input);
    s.Stored? && |s.report| > 0 && s.ticker == Upper(input)
  }

  /** The gate ignores the case of what is typed. */
  lemma GateIgnoresCase(s: Session, input: string)
    ensures Shown(s, input) <==> Shown(s, Upper(input))
  {
    UpperIdempotent(input);
  }

  /** The view app.py selects: the dashboard when the gate opens, the
      prompt otherwise; the gate never looks at the record. */
  function ViewAsWritten(s: Session, input: string): (v: Screen)
    ensures v.Board? <==> Shown(s, input)
    ensures !v.Notice?
    ensures v.Board? ==> v.stats == s.stats && v.report == s.report
  {
    if Shown(s, input) then Board(s.ticker, s.stats, s.sentiment, s.report) else Prompt
  }

  /** The metric row of the dashboard. */
  datatype Metrics = Metrics(price: real, ma20: real, maDiff: real, trend: Trend, color: string, sentiment: string)

  function TrendColor(t: Trend): (color: string)
    ensures color == "green" <==> t == Bullish
    ensures color == "red" <==> t == Bearish
  {
    match t
    case Bullish => "green"
    case Bearish => "red"
  }

  /** `str(KeyError('price'))`. */
  const PriceKeyError: string := "'price'"

  /** Reading the metric row: `stats['price']` comes first, so the error
      record fails with a `KeyError` whose `str()` is the quoted key. */
  function RenderMetrics(stats: StockStats, sentiment: string, round2: real -> real): (r: Result<Metrics>)
    ensures r.Failure? <==> "price" !in stats.Keys()
    ensures r.Failure? ==> r.error == PriceKeyError
    ensures r.Success? ==>
      && r.value.price == stats.price && r.value.ma20 == stats.ma20
      && r.value.maDiff == round2(stats.price - stats.ma20)
      && (r.value.color == "green" <==> stats.trend == Bullish)
      && r.value.trend == stats.trend && r.value.sentiment == sentiment
  {
    match stats
    case Invalid(_) => Failure(PriceKeyError)
    case Valid(_, price, ma20, trend) =>
      Success(Metrics(price, ma20, round2(price - ma20), trend, TrendColor(trend), sentiment))
  }

  /** Right after a press, the dashboard is shown for the same input
      exactly when the stored report is non-empty; pressing again with a
      different ticker in the box hides it. */
  lemma GateAfterPress(s: Session, events: seq<Event>, i: nat, input: string, oracles: Oracles)
    requires i < |events| && events[i].pressed
    requires forall j :: i < j < |events| ==> !events[j].pressed
    ensures var after := Run(s, events, oracles);
      ViewAsWritten(after, input).Board? <==>
        (after.Stored? && Upper(input) == Upper(events[i].input) && |after.report| > 0)
  {
    RunReflectsLastPress(s, events, i, oracles);
  }

  /** Before any press the prompt is shown, whatever is typed. */
  lemma PromptBeforeAnyPress(events: seq<Event>, input: string, oracles: Oracles)
    requires forall j :: 0 <= j < |events| ==> !events[j].pressed
    ensures ViewAsWritten(Run(Empty, events, oracles), input) == Prompt
  {
  }

  /** The gap: a press for a ticker with no history stores the error
      record together with the non-empty no-data message, the gate opens,
      and reading the metric row fails on the missing "price" key. */
  lemma InvalidTickerReachesPriceLookup(s: Session, input: string, world: World, oracles: Oracles)
    requires |world.closes| == 0
    ensures var v := ViewAsWritten(Step(s, Event(input, true, world), oracles), input);
      && v.Board?
      && RenderMetrics(v.stats, v.sentiment, oracles.round2) == Failure(PriceKeyError)
  {
  }

  // ---------------------------------------------------------------------
  // The gate, corrected
  // ---------------------------------------------------------------------

  /** The same gate, showing the stored message instead of the dashboard
      when the stored record is the error record. */
  function ViewCorrected(s: Session, input: string): (v: Screen)
    ensures v.Prompt? <==> !Shown(s, input)
    ensures v.Board? ==> v.stats.Valid?
    ensures v.Notice? ==> s.stats.Invalid? && v.message == s.report
  {
    if !Shown(s, input) then Prompt
    else if s.stats.Invalid? then Notice(s.report)
    else Board(s.ticker, s.stats, s.sentiment, s.report)
  }

  /** Whenever the corrected view shows the dashboard, its metric row can
      be read. */
  lemma BoardAlwaysHasPrice(s: Session, input: string, round2: real -> real)
    ensures var v := ViewCorrected(s, input);
      v.Board? ==> RenderMetrics(v.stats, v.sentiment, round2).Success?
  {
  }

  /** The correction changes nothing for a valid record. */
  lemma CorrectionAgreesOnValidStats(s: Session, input: string)
    requires s.Stored? ==> s.stats.Valid?
    ensures ViewCorrected(s, input) == ViewAsWritten(s, input)
  {
  }

  /** With the correction, the invalid-ticker press shows the no-data
      message. */
  lemma InvalidTickerShowsNotice(s: Session, input: string, world: World, oracles: Oracles)
    requires |world.closes| == 0
    ensures ViewCorrected(Step(s, Event(input, true, world), oracles), input) == Notice(NoDataMessage)
  {
  }

  // ---------------------------------------------------------------------
  // Volume bars
  // ---------------------------------------------------------------------

  const Up: string := "#26a69a"
  const Down: string := "#ef5350"

  /** The colour of each volume bar, pairing opens and closes as `zip`
      does: up when the close is at least the open, down otherwise. */
  method VolumeColors(opens: seq<real>, closes: seq<real>) returns (colors: seq<string>)
    ensures |colors| == if |opens| < |closes| then |opens| else |closes|
    ensures forall i :: 0 <= i < |colors| ==> (colors[i] == Up <==> closes[i] >= opens[i])
    ensures forall i :: 0 <= i < |colors| ==> (colors[i] == Down <==> closes[i] < opens[i])
  {
    var n := if |opens| < |closes| then |opens| else |closes|;
    colors := [];
    var i := 0;
    while i < n
      invariant 0 <= i <= n
      invariant |colors| == i
      invariant forall k :: 0 <= k < i ==> (colors[k] == Up <==> closes[k] >= opens[k])
      invariant forall k :: 0 <= k < i ==> (colors[k] == Down <==> closes[k] < opens[k])
    {
      var c := if closes[i] >= opens[i] then Up else Down;
      colors := colors + [c];
      i := i + 1;
    }
  }
}
