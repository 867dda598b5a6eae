/** `get_stock_stats` (tools/stock_data.py): the price record derived from
    one month of daily closes. The closes are given as a parameter, in
    chronological order, and rounding to two decimals is an arbitrary
    function `round2`. */
module StockData {
  import opened Results
  import opened Text
  import opened Series

  datatype Trend = Bullish | Bearish

  /** A value stored in the record. */
  datatype Field = Str(s: string) | Num(x: real)

  /** The dictionary `get_stock_stats` returns: either `{"error": ...}` or
      the four keys symbol, price, ma_20 and trend. */
  datatype StockStats =
    | Invalid(error: string)
    | Valid(symbol: string, price: real, ma20: real, trend: Trend)
  {
    /** The keys of the dictionary. */
    function Keys(): set<string> {
      if Invalid? then {"error"} else {"symbol", "price", "ma_20", "trend"}
    }

    /** `stats[key]`, or `None` where Python raises `KeyError`. */
    function Lookup(key: string): (r: Option<Field>)
      ensures r.Some? <==> key in Keys()
    {
      match this
      case Invalid(e) =>
        if key == "error" then Some(Str(e)) else None
      case Valid(sym, p, m, t) =>
        if key == "symbol" then Some(Str(sym))
        else if key == "price" then Some(Num(p))
        else if key == "ma_20" then Some(Num(m))
        else if key == "trend" then Some(Str(TrendName(t)))
        else None
    }
  }

  function TrendName(t: Trend): (r: string)
    ensures r == "Bullish" <==> t == Bullish
  {
    match t
    case Bullish => "Bullish"
    case Bearish => "Bearish"
  }

  const InvalidTicker: string := "Invalid Ticker"

  function LastClose(closes: seq<real>): real
    requires |closes| > 0
  {
    closes[|closes| - 1]
  }

  /** `get_stock_stats`: an empty history yields the error record; otherwise
      the last close and the mean of all closes, each rounded, the
      upper-cased ticker, and a trend decided on the unrounded values. */
  function GetStockStats(ticker: string, closes: seq<real>, round2: real -> real): (s: StockStats)
    ensures s.Invalid? <==> |closes| == 0
    ensures s.Invalid? ==> s.error == InvalidTicker
    ensures s.Valid? ==>
      && s.symbol == Upper(ticker)
      && s.price == round2(LastClose(closes))
      && s.ma20 == round2(Mean(closes))
      && (s.trend == Bullish <==> LastClose(closes) > Mean(closes))
  {
    if |closes| == 0 then Invalid(InvalidTicker)
    else
      var current := LastClose(closes);
      var average := Mean(closes);
      Valid(Upper(ticker), round2(current), round2(average),
            if current > average then Bullish else Bearish)
  }

  /** The error record has the single key `error` and no `price`; a valid
      record has exactly the four keys. */
  lemma StatsKeys(ticker: string, closes: seq<real>, round2: real -> real)
    ensures var s := GetStockStats(ticker, closes, round2);
      && (|closes| == 0 ==> s.Keys() == {"error"} && s.Lookup("price") == None
                            && s.Lookup("error") == Some(Str("Invalid Ticker")))
      && (|closes| > 0 ==> s.Keys() == {"symbol", "price", "ma_20", "trend"})
  {
  }

  /** The symbol carries no lower-case letter, and an already upper-case
      ticker such as "AAPL" is returned unchanged. */
  lemma SymbolIsUpperCase(ticker: string, closes: seq<real>, round2: real -> real)
    requires |closes| > 0
    ensures var s := GetStockStats(ticker, closes, round2);
      && (forall k :: 0 <= k < |s.symbol| ==> !IsLowerAscii(s.symbol[k]))
      && ((forall k :: 0 <= k < |ticker| ==> !IsLowerAscii(ticker[k])) ==> s.symbol == ticker)
  {
    if forall k :: 0 <= k < |ticker| ==> !IsLowerAscii(ticker[k]) {
      UpperNoLower(ticker);
    }
  }

  lemma AaplSymbol(closes: seq<real>, round2: real -> real)
    requires |closes| > 0
    ensures GetStockStats("aapl", closes, round2).symbol == "AAPL"
    ensures GetStockStats("AAPL", closes, round2).symbol == "AAPL"
  {
    assert Upper("aapl") == "AAPL";
    UpperNoLower("AAPL");
  }

  /** Under a monotone rounding, `ma_20` lies between the rounded lowest
      and the rounded highest close. */
  lemma AverageWithinRange(ticker: string, closes: seq<real>, round2: real -> real)
    requires |closes| > 0
    requires forall x, y :: x <= y ==> round2(x) <= round2(y)
    ensures round2(Min(closes)) <= GetStockStats(ticker, closes, round2).ma20 <= round2(Max(closes))
  {
    MeanBetweenExtremes(closes);
  }

  /** A flat history is Bearish: the last close equals the mean. */
  lemma FlatHistoryIsBearish(ticker: string, closes: seq<real>, round2: real -> real)
    requires |closes| > 0
    requires forall x :: x in closes ==> x == closes[0]
    ensures GetStockStats(ticker, closes, round2).trend == Bearish
  {
    MeanOfConstant(closes, closes[0]);
    assert LastClose(closes) in closes;
  }

  /** A last close at the month's low is Bearish. */
  lemma LastAtLowIsBearish(ticker: string, closes: seq<real>, round2: real -> real)
    requires |closes| > 0
    requires forall x :: x in closes ==> LastClose(closes) <= x
    ensures GetStockStats(ticker, closes, round2).trend == Bearish
  {
    var low := LastClose(closes);
    var high := Max(closes);
    assert forall x :: x in closes ==> low <= x <= high;
    MeanWithin(closes, low, high);
    assert low <= Mean(closes);
  }

  /** A last close strictly above every earlier close is Bullish. */
  lemma NewHighIsBullish(ticker: string, closes: seq<real>, round2: real -> real)
    requires |closes| > 1
    requires forall k :: 0 <= k < |closes| - 1 ==> closes[k] < LastClose(closes)
    ensures GetStockStats(ticker, closes, round2).trend == Bullish
  {
    var earlier := closes[..|closes| - 1];
    assert closes == earlier + [LastClose(closes)];
    MeanBelowNewHigh(earlier, LastClose(closes));
  }

  /** Rounding to the nearest cent, halves upwards: one admissible
      `round2`. */
  function NearestCent(x: real): real {
    ((x * 100.0 + 0.5).Floor as real) / 100.0
  }

  /** Since the trend is decided before rounding, a Bullish record can show
      a price equal to its 20-day average: closes 100.00 then 100.002. */
  lemma BullishWithEqualRoundedValues()
    ensures var s := GetStockStats("AAPL", [100.0, 100.002], NearestCent);
      s.Valid? && s.trend == Bullish && s.price == s.ma20
  {
    var closes := [100.0, 100.002];
    assert Sum(closes) == 200.002 by {
      assert closes[..1] == [100.0];
      assert closes[..1][..0] == [];
    }
    assert Mean(closes) == 100.001;
    assert (100.002 * 100.0 + 0.5).Floor == 10000;
    assert (100.001 * 100.0 + 0.5).Floor == 10000;
  }
}
