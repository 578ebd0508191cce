/**
  The MACD indicator class of
  src/data/technicalindicator/directionalmovement/MovingAverageConvergenceDivergence.js:
  its constructor's metadata and `calcTechnicalIndicator`, which walks the
  candle array in order and writes the MACD triple onto every record in place.
 */
module Indicator {
  import opened Wrappers
  import opened Macd
  import Format

  /**
    One candle of the chart's data list. `macd` is the slot the indicator
    fills; it is `None` until the indicator has run.
   */
  datatype KLineData = KLineData(
    timestamp: real, open: real, high: real, low: real, close: real, volume: real,
    macd: Option<MacdValue>)

  /** The closing prices of a data list, in order. */
  function Closes(dataList: seq<KLineData>): (closes: seq<real>)
    ensures |closes| == |dataList|
    ensures forall k :: 0 <= k < |dataList| ==> closes[k] == dataList[k].close
  {
    seq(|dataList|, k requires 0 <= k < |dataList| => dataList[k].close)
  }

  /**
    The data list after the indicator has run: every record keeps all its
    fields and gains the MACD triple of its own index.
   */
  function WithMacd(dataList: seq<KLineData>, p: seq<real>): seq<KLineData>
    requires ValidParams(p)
  {
    seq(|dataList|, k requires 0 <= k < |dataList| =>
      dataList[k].(macd := Some(MacdAt(Closes(dataList), p, k))))
  }

  /** How a series is drawn. */
  datatype PlotType = Line | Bar

  /** One declared output series: the result key it reads and how it is drawn. */
  datatype Plot = Plot(key: string, plotType: PlotType)

  const MacdPlots: seq<Plot> := [Plot("diff", Line), Plot("dea", Line), Plot("macd", Bar)]

  class MovingAverageConvergenceDivergence {
    /** The indicator's type tag. */
    const name: string
    /** `[short period, long period, signal period]`; the host may replace it. */
    var calcParams: seq<real>
    const plots: seq<Plot>
    /** Digits shown when the values are displayed. */
    const precision: nat
    /** The constructor's fifth argument, read only by the base class. */
    const shouldCheckParamCount: bool

    constructor ()
      ensures name == "MACD" && calcParams == DefaultCalcParams
      ensures plots == MacdPlots && precision == 4 && shouldCheckParamCount
      ensures ValidParams(calcParams) && 1.0 <= calcParams[0] < calcParams[1]
    {
      name := "MACD";
      calcParams := DefaultCalcParams;
      plots := MacdPlots;
      precision := 4;
      shouldCheckParamCount := true;
    }

    /**
      `calcTechnicalIndicator(dataList)`, with the base class's driver taken
      as one pass over every index from 0 upwards. The rolling state lives in
      locals, so nothing carries over from an earlier call.
     */
    method CalcTechnicalIndicator(dataList: array<KLineData>)
      requires ValidParams(calcParams)
      modifies dataList
      ensures dataList[..] == WithMacd(old(dataList[..]), calcParams)
    {
      ghost var closes := Closes(dataList[..]);
      var params := calcParams;
      var emaShort: real, emaLong: real;
      var oldEmaShort := 0.0;
      var oldEmaLong := 0.0;
      var dea := 0.0;
      var oldDea := 0.0;
      var macd := 0.0;
      var i := 0;
      while i < dataList.Length
        invariant 0 <= i <= dataList.Length
        invariant i > 0 ==> oldEmaShort == Ema(closes, params[0], i - 1)
        invariant i > 0 ==> oldEmaLong == Ema(closes, params[1], i - 1)
        invariant oldDea == if i == 0 then 0.0 else Dea(closes, params, i - 1)
        invariant dataList[..i] == WithMacd(old(dataList[..]), params)[..i]
        invariant dataList[i..] == old(dataList[..])[i..]
      {
        var close := dataList[i].close;
        if i == 0 {
          emaShort := close;
          emaLong := close;
        } else {
          emaShort := EmaStep(close, oldEmaShort, params[0]);
          emaLong := EmaStep(close, oldEmaLong, params[1]);
        }
        var diff := emaShort - emaLong;
        dea := EmaStep(diff, oldDea, params[2]);
        macd := (diff - dea) * 2.0;
        assert MacdValue(diff, dea, macd) == MacdAt(closes, params, i);
        oldEmaShort := emaShort;
        oldEmaLong := emaLong;
        oldDea := dea;
        dataList[i] := dataList[i].(macd := Some(MacdValue(diff, dea, macd)));
        i := i + 1;
      }
      assert dataList[..] == WithMacd(old(dataList[..]), calcParams);
    }
  }

  /** Running the indicator leaves every close where it was. */
  lemma WithMacdKeepsCloses(dataList: seq<KLineData>, p: seq<real>)
    requires ValidParams(p)
    ensures Closes(WithMacd(dataList, p)) == Closes(dataList)
  {
  }

  /**
    Running the indicator a second time changes nothing: the result depends
    only on the closes, which the first run leaves alone.
   */
  lemma WithMacdIdempotent(dataList: seq<KLineData>, p: seq<real>)
    requires ValidParams(p)
    ensures WithMacd(WithMacd(dataList, p), p) == WithMacd(dataList, p)
  {
    WithMacdKeepsCloses(dataList, p);
  }

  /**
    The triple written on record `k` is determined by records `0..k` alone:
    computing over the prefix ending at `k` writes the same triple there.
   */
  lemma WithMacdNoLookahead(dataList: seq<KLineData>, p: seq<real>, k: nat)
    requires ValidParams(p) && k < |dataList|
    ensures WithMacd(dataList, p)[k] == WithMacd(dataList[..k + 1], p)[k]
  {
    MacdCausal(Closes(dataList), Closes(dataList[..k + 1]), p, k);
  }

  /** The result object `{ diff, dea, macd }` as the display layer sees it. */
  function ResultObject(v: MacdValue): Format.JsValue {
    Format.Object(map["diff" := Format.Number(v.diff), "dea" := Format.Number(v.dea), "macd" := Format.Number(v.macd)])
  }

  /** Every declared plot key finds its number in the written result object. */
  lemma PlotKeysResolve(v: MacdValue)
    ensures Format.FormatValue(ResultObject(v), MacdPlots[0].key) == Format.Number(v.diff)
    ensures Format.FormatValue(ResultObject(v), MacdPlots[1].key) == Format.Number(v.dea)
    ensures Format.FormatValue(ResultObject(v), MacdPlots[2].key) == Format.Number(v.macd)
  {
  }

  /** Two recomputations of the same data list, each on its own array, write identical records. */
  method RecomputeOnCopies(indicator: MovingAverageConvergenceDivergence, a: array<KLineData>, b: array<KLineData>)
    requires ValidParams(indicator.calcParams) && a != b && a[..] == b[..]
    modifies a, b
    ensures a[..] == b[..]
  {
    indicator.CalcTechnicalIndicator(a);
    indicator.CalcTechnicalIndicator(b);
  }
}
