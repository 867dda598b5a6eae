/** `analyze_stock` (agents/orchestrator.py): fetch the price record and the
    news label, stop with a fixed message when the record is the error
    record, and otherwise ask the language model for the narrative. The
    fetched data and the language model are parameters; the calls made are
    returned as a trace so that "no request is sent" can be stated. */
module Orchestrator {
  import opened Results
  import opened StockData
  import opened NewsSentiment

  /** What the chat-completion call produced: the contents of the returned
      choices, or the text of the exception it raised. */
  datatype Completion = Replied(choices: seq<string>) | Failed(message: string)

  /** The two messages sent: the fixed analyst prompt and the prompt built
      from the ticker, the record and the label. */
  datatype Message =
    | SystemPrompt
    | AnalysisPrompt(symbol: string, stats: StockStats, sentiment: string)

  function Role(m: Message): string {
    match m
    case SystemPrompt => "system"
    case AnalysisPrompt(_, _, _) => "user"
  }

  datatype Request = Request(model: string, messages: seq<Message>, temperature: real, maxTokens: nat)

  /** The outside services `analyze_stock` calls, in order. */
  datatype Call = FetchHistory(ticker: string) | FetchNews(ticker: string) | Complete(request: Request)

  /** The data the services return for this run. */
  datatype World = World(closes: seq<real>, news: NewsFeed)

  /** TextBlob's polarity, Python's two-decimal rounding and the language
      model. */
  datatype Oracles = Oracles(polarity: string -> real, round2: real -> real, complete: Request -> Completion)

  datatype Analysis = Analysis(text: string, calls: seq<Call>)

  const Model: string := "llama-3.3-70b-versatile"
  const Temperature: real := 0.2
  const MaxTokens: nat := 1024
  const NoDataMessage: string := "I couldn't find data for that ticker. Please check the symbol."
  const ConnectErrorPrefix: string := "Error connecting to Groq: "

  /** `str(e)` for the `IndexError` of `choices[0]` on an empty list. */
  const IndexOutOfRange: string := "list index out of range"

  /** The request `analyze_stock` sends for a valid record. */
  function AnalysisRequest(ticker: string, stats: StockStats, sentiment: string): (r: Request)
    ensures r.model == Model && r.temperature == Temperature && r.maxTokens == MaxTokens
    ensures |r.messages| == 2 && Role(r.messages[0]) == "system" && Role(r.messages[1]) == "user"
    ensures r.messages[0] == SystemPrompt && r.messages[1] == AnalysisPrompt(ticker, stats, sentiment)
  {
    Request(Model, [SystemPrompt, AnalysisPrompt(ticker, stats, sentiment)], Temperature, MaxTokens)
  }

  /** The text returned from the `try` block: the first choice, or the
      error text for any failure inside it, including an empty choice
      list. */
  function Narrative(outcome: Completion): (text: string)
    ensures outcome.Replied? && |outcome.choices| > 0 ==> text == outcome.choices[0]
    ensures outcome.Failed? ==> text == ConnectErrorPrefix + outcome.message
    ensures outcome.Replied? && |outcome.choices| == 0 ==> text == ConnectErrorPrefix + IndexOutOfRange
  {
    match outcome
    case Replied(choices) =>
      if |choices| > 0 then choices[0] else ConnectErrorPrefix + IndexOutOfRange
    case Failed(msg) => ConnectErrorPrefix + msg
  }

  /** `analyze_stock`. */
  function AnalyzeStock(ticker: string, world: World, oracles: Oracles): (a: Analysis)
    ensures 2 <= |a.calls| <= 3
    ensures a.calls[0] == FetchHistory(ticker) && a.calls[1] == FetchNews(ticker)
    ensures |a.calls| == 2 <==> |world.closes| == 0
    ensures |world.closes| == 0 ==> a.text == NoDataMessage
    ensures |a.calls| == 3 ==> a.calls[2].Complete? && a.calls[2].request.model == Model
  {
    var stats := GetStockStats(ticker, world.closes, oracles.round2);
    var sentiment := GetSentiment(world.news, oracles.polarity);
    var fetches := [FetchHistory(ticker), FetchNews(ticker)];
    if "error" in stats.Keys() then
      Analysis(NoDataMessage, fetches)
    else
      var request := AnalysisRequest(ticker, stats, sentiment);
      Analysis(Narrative(oracles.complete(request)), fetches + [Complete(request)])
  }

  /** The request actually sent carries the record and the label computed
      from the same world, under the unchanged ticker. */
  lemma RequestCarriesInputs(ticker: string, world: World, oracles: Oracles)
    requires |world.closes| > 0
    ensures var a := AnalyzeStock(ticker, world, oracles);
      a.calls[2] == Complete(AnalysisRequest(ticker,
        GetStockStats(ticker, world.closes, oracles.round2),
        GetSentiment(world.news, oracles.polarity)))
  {
  }

  /** With no price history the outcome does not depend on the language
      model nor on the news: no request is made. */
  lemma NoRequestWithoutData(ticker: string, world: World, oracles: Oracles,
                             other: Request -> Completion, news: NewsFeed)
    requires |world.closes| == 0
    ensures AnalyzeStock(ticker, world, oracles)
      == AnalyzeStock(ticker, world.(news := news), oracles.(complete := other))
    ensures forall k :: 0 <= k < |AnalyzeStock(ticker, world, oracles).calls| ==>
      !AnalyzeStock(ticker, world, oracles).calls[k].Complete?
  {
  }

  /** With a price history the text is the model's first choice when it
      answers, and the error text otherwise. */
  lemma TextFollowsCompletion(ticker: string, world: World, oracles: Oracles)
    requires |world.closes| > 0
    ensures var a := AnalyzeStock(ticker, world, oracles);
      var outcome := oracles.complete(a.calls[2].request);
      && (outcome.Replied? && |outcome.choices| > 0 ==> a.text == outcome.choices[0])
      && (outcome.Failed? ==> a.text == ConnectErrorPrefix + outcome.message)
      && (outcome.Replied? && |outcome.choices| == 0 ==> a.text == ConnectErrorPrefix + IndexOutOfRange)
  {
  }

  /** Every text is the fixed no-data message, a choice the model returned,
      or begins with the connection-error prefix: no failure escapes. */
  lemma TextOrigin(ticker: string, world: World, oracles: Oracles)
    ensures var a := AnalyzeStock(ticker, world, oracles);
      || a.text == NoDataMessage
      || (|a.calls| == 3 && var o := oracles.complete(a.calls[2].request);
            o.Replied? && a.text in o.choices)
      || ConnectErrorPrefix <= a.text
  {
    var a := AnalyzeStock(ticker, world, oracles);
    if |a.calls| == 3 {
      var o := oracles.complete(a.calls[2].request);
      if o.Replied? && |o.choices| > 0 {
        assert a.text == o.choices[0];
      }
    }
  }
}
