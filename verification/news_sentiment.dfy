/** `get_sentiment` (tools/news_sentiment.py): a three-way label for the
    tone of a ticker's latest headlines. The news list is given as a
    parameter, each item a JSON-like value, and the polarity TextBlob
    assigns to a headline is an arbitrary function into the reals. */
module NewsSentiment {
  import opened Results
  import opened Text
  import opened Series

  /** The Python values a news item is built from. */
  datatype Value =
    | Str(s: string)
    | Int(i: int)
    | Float(x: real)
    | Bool(b: bool)
    | Null
    | List(items: seq<Value>)
    | Dict(entries: map<string, Value>)

  /** Python truthiness. */
  predicate Truthy(v: Value) {
    match v
    case Str(s) => |s| > 0
    case Int(i) => i != 0
    case Float(x) => x != 0.0
    case Bool(b) => b
    case Null => false
    case List(items) => |items| > 0
    case Dict(entries) => |entries| > 0
  }

  /** `type(v).__name__`. */
  function TypeName(v: Value): string {
    match v
    case Str(_) => "str"
    case Int(_) => "int"
    case Float(_) => "float"
    case Bool(_) => "bool"
    case Null => "NoneType"
    case List(_) => "list"
    case Dict(_) => "dict"
  }

  /** What fetching `stock.news` produced: the list of items, or the text
      of the exception raised while fetching. */
  datatype NewsFeed = Fetched(items: seq<Value>) | FetchFailed(message: string)

  /** Only this many leading news items are read. */
  const MaxItems: nat := 5

  const Positive: string := "Positive"
  const Negative: string := "Negative"
  const Neutral: string := "Neutral"
  const NoNews: string := "Neutral (No recent news found)"
  const NoHeadlines: string := "Neutral (Could not parse headlines)"
  const ErrorPrefix: string := "Neutral (Sentiment Error: "

  /** The label returned from the `except` branch for exception text `msg`. */
  function ErrorLabel(msg: string): string {
    ErrorPrefix + msg + ")"
  }

  /** Python's `d.get(key, default)`: a non-dict raises `AttributeError`. */
  function Get(d: Value, key: string, default: Value): (r: Result<Value>)
    ensures r.Failure? <==> !d.Dict?
    ensures r.Failure? ==> r.error == "'" + TypeName(d) + "' object has no attribute 'get'"
    ensures d.Dict? && key in d.entries ==> r == Success(d.entries[key])
    ensures d.Dict? && key !in d.entries ==> r == Success(default)
  {
    match d
    case Dict(entries) => Success(if key in entries then entries[key] else default)
    case _ => Failure("'" + TypeName(d) + "' object has no attribute 'get'")
  }

  /** The headline of one item: the `title` of its `content` mapping when
      it has one, else its own `title`; a missing title reads as "". */
  function TitleOf(item: Value): (r: Result<Value>)
    ensures r.Failure? <==>
      !item.Dict? || ("content" in item.entries && !item.entries["content"].Dict?)
    ensures r.Failure? ==>
      var culprit := if item.Dict? then item.entries["content"] else item;
      r.error == "'" + TypeName(culprit) + "' object has no attribute 'get'"
    ensures r.Success? ==>
      var source := if "content" in item.entries then item.entries["content"].entries else item.entries;
      r.value == if "title" in source then source["title"] else Str("")
  {
    match Get(item, "content", item)
    case Failure(e) => Failure(e)
    case Success(content) => Get(content, "title", Str(""))
  }

  /** The title of every item, when none of them raises. */
  function Titles(items: seq<Value>): (r: seq<Value>)
    requires forall k :: 0 <= k < |items| ==> TitleOf(items[k]).Success?
    ensures |r| == |items|
    ensures forall k :: 0 <= k < |items| ==> r[k] == TitleOf(items[k]).value
  {
    seq(|items|, k requires 0 <= k < |items| => TitleOf(items[k]).value)
  }

  /** Item `k` is the first whose title cannot be read. */
  predicate FirstFault(items: seq<Value>, k: int) {
    && 0 <= k < |items|
    && TitleOf(items[k]).Failure?
    && forall j :: 0 <= j < k ==> TitleOf(items[j]).Success?
  }

  /** After a readable first item, the first fault moves down by one. */
  lemma FirstFaultShift(items: seq<Value>)
    requires |items| > 0 && TitleOf(items[0]).Success?
    ensures forall k :: FirstFault(items, k) ==>
      k > 0 && FirstFault(items[1..], k - 1) && items[1..][k - 1] == items[k]
  {
    forall k | FirstFault(items, k)
      ensures k > 0 && FirstFault(items[1..], k - 1) && items[1..][k - 1] == items[k]
    {
      forall j | 0 <= j < k - 1
        ensures TitleOf(items[1..][j]).Success?
      {
        assert items[1..][j] == items[j + 1];
      }
    }
  }

  /** The loop over the items: the truthy titles in order, or the first
      exception raised. */
  function CollectTitles(items: seq<Value>): (r: Result<seq<Value>>)
    ensures r.Success? <==> forall k :: 0 <= k < |items| ==> TitleOf(items[k]).Success?
    ensures r.Success? ==> r.value == Filter(Titles(items), Truthy)
    ensures forall k :: FirstFault(items, k) ==> r == Failure(TitleOf(items[k]).error)
    ensures r.Success? ==> |r.value| <= |items|
    ensures r.Success? ==> forall k :: 0 <= k < |r.value| ==> Truthy(r.value[k])
    ensures r.Success? ==>
      (|r.value| == 0 <==> forall k :: 0 <= k < |items| ==> !Truthy(TitleOf(items[k]).value))
  {
    if |items| == 0 then Success([])
    else
      match TitleOf(items[0])
      case Failure(e) => Failure(e)
      case Success(title) =>
        assert forall k :: 1 <= k < |items| ==> items[k] == items[1..][k - 1];
        FirstFaultShift(items);
        match CollectTitles(items[1..])
        case Failure(e) => Failure(e)
        case Success(rest) =>
          CollectStep(items, title, rest);
          Success(if Truthy(title) then [title] + rest else rest)
  }

  /** One turn of the loop: a readable first title is kept when truthy in
      front of the titles kept from the remaining items. */
  lemma CollectStep(items: seq<Value>, title: Value, rest: seq<Value>)
    requires |items| > 0 && TitleOf(items[0]) == Success(title)
    requires forall k :: 0 <= k < |items[1..]| ==> TitleOf(items[1..][k]).Success?
    requires rest == Filter(Titles(items[1..]), Truthy)
    ensures forall k :: 0 <= k < |items| ==> TitleOf(items[k]).Success?
    ensures var kept := if Truthy(title) then [title] + rest else rest;
      && kept == Filter(Titles(items), Truthy)
      && (|kept| == 0 <==> forall k :: 0 <= k < |items| ==> !Truthy(TitleOf(items[k]).value))
  {
    assert forall k :: 1 <= k < |items| ==> items[k] == items[1..][k - 1];
    TitlesCons(items);
    FilterEmptyIff(Titles(items), Truthy);
  }

  lemma TitlesCons(items: seq<Value>)
    requires |items| > 0
    requires forall k :: 0 <= k < |items| ==> TitleOf(items[k]).Success?
    ensures Titles(items) == [TitleOf(items[0]).value] + Titles(items[1..])
  {
    var whole := Titles(items);
    var split := [TitleOf(items[0]).value] + Titles(items[1..]);
    forall k | 0 <= k < |whole|
      ensures whole[k] == split[k]
    {
      if k > 0 {
        assert items[1..][k - 1] == items[k];
      }
    }
  }

  /** `str(e)` for the `TypeError` TextBlob raises on a non-string text. */
  function NotAStringError(v: Value): string {
    "The `text` argument passed to `__init__(text)` must be a string, not <class '"
      + TypeName(v) + "'>"
  }

  /** Title `k` is the first that is not a string. */
  predicate FirstNonString(titles: seq<Value>, k: int) {
    && 0 <= k < |titles|
    && !titles[k].Str?
    && forall j :: 0 <= j < k ==> titles[j].Str?
  }

  lemma FirstNonStringShift(titles: seq<Value>)
    requires |titles| > 0 && titles[0].Str?
    ensures forall k :: FirstNonString(titles, k) ==>
      k > 0 && FirstNonString(titles[1..], k - 1) && titles[1..][k - 1] == titles[k]
  {
    forall k | FirstNonString(titles, k)
      ensures k > 0 && FirstNonString(titles[1..], k - 1) && titles[1..][k - 1] == titles[k]
    {
      forall j | 0 <= j < k - 1
        ensures titles[1..][j].Str?
      {
        assert titles[1..][j] == titles[j + 1];
      }
    }
  }

  /** The polarity of each title, or the error for the first title that is
      not a string. */
  function Polarities(titles: seq<Value>, polarity: string -> real): (r: Result<seq<real>>)
    ensures r.Success? <==> forall k :: 0 <= k < |titles| ==> titles[k].Str?
    ensures r.Success? ==> |r.value| == |titles|
    ensures r.Success? ==> forall k :: 0 <= k < |titles| ==> r.value[k] == polarity(titles[k].s)
    ensures forall k :: FirstNonString(titles, k) ==> r == Failure(NotAStringError(titles[k]))
  {
    if |titles| == 0 then Success([])
    else if !titles[0].Str? then Failure(NotAStringError(titles[0]))
    else
      assert forall k :: 1 <= k < |titles| ==> titles[k] == titles[1..][k - 1];
      FirstNonStringShift(titles);
      match Polarities(titles[1..], polarity)
      case Failure(e) => Failure(e)
      case Success(rest) => Success([polarity(titles[0].s)] + rest)
  }

  /** The threshold rule on the average polarity. */
  function Classify(average: real): (verdict: string)
    ensures verdict == Positive <==> average > 0.1
    ensures verdict == Negative <==> average < -0.1
    ensures verdict == Neutral <==> -0.1 <= average <= 0.1
  {
    if average > 0.1 then Positive
    else if average < -0.1 then Negative
    else Neutral
  }

  /** Whether a label begins with one of the three verdicts. */
  predicate IsVerdict(verdict: string) {
    Positive <= verdict || Negative <= verdict || Neutral <= verdict
  }

  /** `get_sentiment`. */
  function GetSentiment(feed: NewsFeed, polarity: string -> real): (verdict: string)
    ensures IsVerdict(verdict)
    ensures feed.FetchFailed? ==> verdict == ErrorLabel(feed.message)
    ensures feed == Fetched([]) ==> verdict == NoNews
  {
    match feed
    case FetchFailed(msg) => ErrorLabel(msg)
    case Fetched(news) =>
      if |news| == 0 then NoNews
      else
        match CollectTitles(Take(news, MaxItems))
        case Failure(e) => ErrorLabel(e)
        case Success(titles) =>
          if |titles| == 0 then NoHeadlines
          else
            match Polarities(titles, polarity)
            case Failure(e) => ErrorLabel(e)
            case Success(scores) => Classify(Mean(scores))
  }

  /** Items after the fifth are never read: two lists that agree on their
      first five items get the same label. */
  lemma OnlyFirstFiveItemsMatter(a: seq<Value>, b: seq<Value>, polarity: string -> real)
    requires |a| >= MaxItems && |b| >= MaxItems
    requires a[..MaxItems] == b[..MaxItems]
    ensures GetSentiment(Fetched(a), polarity) == GetSentiment(Fetched(b), polarity)
  {
    assert Take(a, MaxItems) == Take(b, MaxItems);
  }

  /** At most five titles are averaged. */
  lemma AtMostFiveTitles(news: seq<Value>)
    ensures var r := CollectTitles(Take(news, MaxItems));
      r.Success? ==> |r.value| <= MaxItems
  {
  }

  /** The title of an item comes from its `content` mapping when it has
      one, from the item itself otherwise, and is "" when absent. */
  lemma TitleFallback(item: map<string, Value>, title: Value)
    ensures "content" !in item && "title" in item ==>
      TitleOf(Dict(item)) == Success(item["title"])
    ensures "content" !in item && "title" !in item ==>
      TitleOf(Dict(item)) == Success(Str(""))
    ensures TitleOf(Dict(item["content" := Dict(map["title" := title])])) == Success(title)
    ensures TitleOf(Dict(item["content" := Dict(map[])])) == Success(Str(""))
  {
  }

  /** A missing or empty title is skipped: such items add nothing to the
      titles and raise nothing. */
  lemma UntitledItemsSkipped(items: seq<Value>, untitled: Value)
    requires TitleOf(untitled).Success? && !Truthy(TitleOf(untitled).value)
    ensures CollectTitles([untitled] + items) == CollectTitles(items)
  {
    assert ([untitled] + items)[1..] == items;
  }

  /** Nothing readable among the first five items yields the "could not
      parse" verdict, so the average is never taken over zero titles. */
  lemma NoTitlesNoAverage(news: seq<Value>, polarity: string -> real)
    requires |news| > 0
    requires forall k :: 0 <= k < |news| && k < MaxItems ==>
      TitleOf(news[k]).Success? && !Truthy(TitleOf(news[k]).value)
    ensures GetSentiment(Fetched(news), polarity) == NoHeadlines
  {
    var first := Take(news, MaxItems);
    assert forall k :: 0 <= k < |first| ==> first[k] == news[k];
  }

  /** An exception while reading an item among the first five ends in the
      error verdict carrying Python's message for the first faulting item. */
  lemma ItemFaultBecomesErrorLabel(news: seq<Value>, k: nat, polarity: string -> real)
    requires k < |news| && k < MaxItems
    requires forall j :: 0 <= j < k ==> TitleOf(news[j]).Success?
    requires TitleOf(news[k]).Failure?
    ensures GetSentiment(Fetched(news), polarity) == ErrorLabel(TitleOf(news[k]).error)
  {
    var first := Take(news, MaxItems);
    assert forall j :: 0 <= j <= k ==> first[j] == news[j];
    assert FirstFault(first, k);
  }

  /** The labels "Positive", "Negative" and "Neutral" rank in the order of
      the averages that produce them. */
  function Rank(verdict: string): int {
    if verdict == Positive then 1 else if verdict == Negative then -1 else 0
  }

  lemma ClassifyMonotone(a: real, b: real)
    requires a <= b
    ensures Rank(Classify(a)) <= Rank(Classify(b))
  {
  }

  /** Headlines all scoring above 0.1 make the verdict Positive, and all
      below -0.1 make it Negative. */
  lemma UniformHeadlines(scores: seq<real>)
    requires |scores| > 0
    ensures (forall k :: 0 <= k < |scores| ==> scores[k] > 0.1) ==> Classify(Mean(scores)) == Positive
    ensures (forall k :: 0 <= k < |scores| ==> scores[k] < -0.1) ==> Classify(Mean(scores)) == Negative
  {
    MeanBetweenExtremes(scores);
    var lo := Min(scores);
    var hi := Max(scores);
    var i :| 0 <= i < |scores| && scores[i] == lo;
    var j :| 0 <= j < |scores| && scores[j] == hi;
  }

  /** When none of the first five items raises and the truthy titles
      among them are all strings, the label is the threshold rule applied
      to the mean polarity of exactly those titles, in order; when there
      is no truthy title it is the "could not parse" label. */
  lemma SentimentOfTitles(news: seq<Value>, polarity: string -> real)
    requires |news| > 0
    requires var first := Take(news, MaxItems);
      forall k :: 0 <= k < |first| ==> TitleOf(first[k]).Success?
    ensures var titles := Filter(Titles(Take(news, MaxItems)), Truthy);
      |titles| == 0 ==> GetSentiment(Fetched(news), polarity) == NoHeadlines
    ensures var titles := Filter(Titles(Take(news, MaxItems)), Truthy);
      |titles| > 0 && (forall k :: 0 <= k < |titles| ==> titles[k].Str?) ==>
        GetSentiment(Fetched(news), polarity)
          == Classify(Mean(seq(|titles|, k requires 0 <= k < |titles| && titles[k].Str? => polarity(titles[k].s))))
  {
    var titles := Filter(Titles(Take(news, MaxItems)), Truthy);
    if |titles| > 0 && forall k :: 0 <= k < |titles| ==> titles[k].Str? {
      var scores := Polarities(titles, polarity).value;
      assert scores == seq(|titles|, k requires 0 <= k < |titles| && titles[k].Str? => polarity(titles[k].s));
    }
  }

  /** When every title read scores above 0.1, the label is Positive. */
  lemma PositiveHeadlines(news: seq<Value>, polarity: string -> real)
    requires |news| > 0
    requires var first := Take(news, MaxItems);
      forall k :: 0 <= k < |first| ==> TitleOf(first[k]).Success?
    requires var titles := Filter(Titles(Take(news, MaxItems)), Truthy);
      && |titles| > 0
      && forall k :: 0 <= k < |titles| ==> titles[k].Str? && polarity(titles[k].s) > 0.1
    ensures GetSentiment(Fetched(news), polarity) == Positive
  {
    var titles := Filter(Titles(Take(news, MaxItems)), Truthy);
    var scores := seq(|titles|, k requires 0 <= k < |titles| && titles[k].Str? => polarity(titles[k].s));
    SentimentOfTitles(news, polarity);
    assert GetSentiment(Fetched(news), polarity) == Classify(Mean(scores));
    assert forall k :: 0 <= k < |scores| ==> scores[k] > 0.1;
    UniformHeadlines(scores);
  }

  /** A truthy title that is not a string makes TextBlob raise, and the
      label carries its message for the first such title. */
  lemma NonStringTitleBecomesErrorLabel(news: seq<Value>, k: nat, polarity: string -> real)
    requires |news| > 0
    requires var first := Take(news, MaxItems);
      forall j :: 0 <= j < |first| ==> TitleOf(first[j]).Success?
    requires FirstNonString(Filter(Titles(Take(news, MaxItems)), Truthy), k)
    ensures GetSentiment(Fetched(news), polarity)
      == ErrorLabel(NotAStringError(Filter(Titles(Take(news, MaxItems)), Truthy)[k]))
  {
  }

  /** A single item titled with a truthy non-string value is one instance. */
  lemma NonStringTitleExample(title: Value, polarity: string -> real)
    requires Truthy(title) && !title.Str?
    ensures GetSentiment(Fetched([Dict(map["title" := title])]), polarity)
      == ErrorLabel(NotAStringError(title))
  {
    var item := Dict(map["title" := title]);
    assert TitleOf(item) == Success(title);
    assert Take([item], MaxItems) == [item];
    assert CollectTitles([item]) == Success([title]) by {
      assert [item][1..] == [];
      assert CollectTitles([]) == Success([]);
      assert [item][0] == item;
      assert [title] + [] == [title];
    }
  }

  /** The exact label texts tell the paths apart: "No recent news" only for
      an empty list. */
  lemma NoNewsOnlyWhenEmpty(feed: NewsFeed, polarity: string -> real)
    ensures GetSentiment(feed, polarity) == NoNews <==> feed == Fetched([])
  {
    if feed.FetchFailed? {
      ErrorLabelsDiffer();
    } else if |feed.items| > 0 {
      var titles := CollectTitles(Take(feed.items, MaxItems));
      if titles.Failure? {
        ErrorLabelsDiffer();
      } else if |titles.value| == 0 {
        assert NoHeadlines[9] != NoNews[9];
      } else if Polarities(titles.value, polarity).Failure? {
        ErrorLabelsDiffer();
      }
    }
  }

  lemma ErrorLabelsDiffer()
    ensures forall msg :: ErrorLabel(msg) != NoNews && ErrorLabel(msg) != NoHeadlines
  {
    forall msg
      ensures ErrorLabel(msg) != NoNews && ErrorLabel(msg) != NoHeadlines
    {
      assert ErrorLabel(msg)[9] == 'S';
    }
  }
}
