# MACD indicator and display formatting of KLineChart, in Dafny

This project models two parts of the KLineChart charting library.

- **The MACD indicator** (`MovingAverageConvergenceDivergence`). Its constructor declares the default
  parameters `[12, 26, 9]` and three output series: `diff` and `dea` drawn as lines, `macd` drawn as bars.
  Its `calcTechnicalIndicator` method walks the candle array once. It keeps a short and a long
  exponential moving average (EMA) of the close and a smoothed signal line (DEA). It writes
  `{ diff, dea, macd }` onto every record in place.
- **The display helpers** of `src/utils/format.js`:
  - `formatValue` looks up a key and falls back to a placeholder.
  - `formatDate` parses the injected date formatter's `"MM/DD/YYYY, hh:mm…"` output, changes hour
    `24` to `00` and substitutes `YYYY`, `MM`, `DD` and `hh:mm` in a pattern.
  - `formatBigNumber` turns an Indonesian-style numeral into dot-decimal form before parsing it.
    Only that delimiter normalisation is modelled.

Layout:

- `macd.dfy` (module `Macd`): the recurrence as functions of the closes and the parameters.
  `EmaStep` is one EMA update, `Ema` is the average at index `i`, `Diff` and `Dea` build on it,
  and `MacdAt` is the triple written at index `i`. The module also holds the indicator's properties:
  the first record gets zeros, constant prices give zeros everywhere, each EMA stays within the range
  of the closes so far, there is no lookahead, adding a constant to every close changes no triple, and
  a rising series gives a non-negative (or positive) DIFF.
- `indicator.dfy` (module `Indicator`): the candle record `KLineData` and the class
  `MovingAverageConvergenceDivergence`. `CalcTechnicalIndicator` is an imperative loop over an
  `array<KLineData>` with the source's rolling locals. Its postcondition says the array ends up equal
  to `WithMacd` of its old contents: every record is unchanged except its `macd` slot, which holds
  `MacdAt` of its index.
- `format.dfy` (module `Format`): JavaScript values as the datatype `JsValue`, plus `FormatValue`,
  `FormatDate` (with `ReplaceTokens` and `NormalizeHour`) and `NormalizeNumeral`.
- `strings.dfy` (module `Strings`): the JavaScript string operations these helpers use: `split`,
  `join`, and `replaceAll` with a single character.
- `wrappers.dfy`: `Option`.

Modelling decisions:

- JavaScript doubles become `real`, so the recurrence is exact rational arithmetic.
- `ValidParams` asks only for what the arithmetic needs: three parameters, none equal to `-1`, so no
  denominator `p + 1` is zero. Lemmas that need a period of at least 1 (the range and rising-series
  lemmas) require that themselves.
- The base class's driver `_calc` is not part of this model. It is taken to call the step for every
  index from 0 to the last, in order.
- The loop computes each EMA update through `EmaStep`, which is exactly the expression of lines 58-59.
  Line 63 spells the DEA update with its products in the other order. `EmaStepCommuted` proves that
  spelling equal to `EmaStep`.
- `src/utils/typeChecks.js` is not part of this model. `isObject` is assumed to hold for objects,
  `isValid` to reject undefined, null and NaN, and `isNumber` to hold for numbers other than NaN.
- The injected formatter `dateTimeFormat.format(new Date(timestamp))` is the function parameter
  `dateTimeFormat: real -> string`.
- `formatDate` throws a TypeError in two cases, and the model returns `ThrowsTypeError` in both. When
  the formatter's output has no `", "` part, `dateTimeStringArray[1]` is `undefined` and calling
  `match` on it throws (line 72). When the time part does not start with two digits, `match` returns
  `null` and taking its `[0]` throws.
- `formatValue`'s default parameter is `'--'`. As for any JavaScript default, passing `undefined`
  explicitly also selects `'--'`; `FormatValue` does the same.
- A missing `/`-field of the date becomes the text `"undefined"`, because the replace callback
  returns `undefined` and `replace` turns it into that string.
- The constructor's fifth argument (`true`, line 26) is read only by the base class. It is kept as the
  constant field `shouldCheckParamCount`, with no behaviour attached.
- For a string that `Number` cannot parse, `formatBigNumber` returns `` `${v}` `` (src/utils/format.js:109).
  That path is outside this model.

## Model

| member | source | states |
|---|---|---|
| `Indicator.MovingAverageConvergenceDivergence.constructor` | src/data/technicalindicator/directionalmovement/MovingAverageConvergenceDivergence.js:19-28 | The tag is MACD and the parameters default to `[12, 26, 9]`. The plots are `diff` (line), `dea` (line) and `macd` (bar). Precision is 4 and the fifth flag is true. The defaults are valid parameters with short < long. |
| `Indicator.MovingAverageConvergenceDivergence.CalcTechnicalIndicator` | src/data/technicalindicator/directionalmovement/MovingAverageConvergenceDivergence.js:43-71 | Afterwards the array equals `WithMacd` of its old contents. Every record keeps its timestamp, prices, volume and close, and its `macd` slot holds `MacdAt` of the old closes at its own index. An empty array is left as it is. |
| `Macd.EmaStep` | src/data/technicalindicator/directionalmovement/MovingAverageConvergenceDivergence.js:58-59 | One EMA update: twice the new close plus `period - 1` times the previous average, over `period + 1`. Its meaning is given by `EmaStepWeighted`, `EmaStepFixedPoint` and `EmaStepBounded`. |
| `Macd.Ema` | src/data/technicalindicator/directionalmovement/MovingAverageConvergenceDivergence.js:54-59 | The EMA at index i: the first close at index 0, then one `EmaStep` per later close. |
| `Macd.Diff` | src/data/technicalindicator/directionalmovement/MovingAverageConvergenceDivergence.js:62 | DIFF at index i is the short-period EMA minus the long-period EMA. |
| `Macd.Dea` | src/data/technicalindicator/directionalmovement/MovingAverageConvergenceDivergence.js:48-63 | DEA at index i is one `EmaStep` of DIFF with the signal period, from 0 before index 0 and from the previous DEA after. |
| `Macd.MacdAt` | src/data/technicalindicator/directionalmovement/MovingAverageConvergenceDivergence.js:62-69 | The triple `{diff, dea, macd}` written at index i, with `macd = (diff - dea) * 2`. The lemmas below state what it satisfies. |
| `Macd.MacdAtFirst` | src/data/technicalindicator/directionalmovement/MovingAverageConvergenceDivergence.js:54-64 | Both EMAs start at the first close, so record 0 gets `diff = dea = macd = 0`. |
| `Macd.EmaStepCommuted` | src/data/technicalindicator/directionalmovement/MovingAverageConvergenceDivergence.js:63 | The DEA update, spelled `(diff * 2 + oldDea * (p - 1)) / (p + 1)`, equals the EMA step applied to `diff`. |
| `Macd.EmaStepFixedPoint` | src/data/technicalindicator/directionalmovement/MovingAverageConvergenceDivergence.js:58-59 | A step whose new value equals the previous average returns that value. |
| `Macd.EmaOfConstant` | src/data/technicalindicator/directionalmovement/MovingAverageConvergenceDivergence.js:54-59 | If every close equals c, the EMA of any period is c at every index. |
| `Macd.MacdOfConstant` | src/data/technicalindicator/directionalmovement/MovingAverageConvergenceDivergence.js:54-64 | If every close equals c, both EMAs equal c and `diff`, `dea` and `macd` are 0 at every index. |
| `Macd.EmaStepBounded` | src/data/technicalindicator/directionalmovement/MovingAverageConvergenceDivergence.js:58-59 | With period ≥ 1, one step is a convex combination: it stays within any range that holds both the new close and the previous average. |
| `Macd.EmaBounded` | src/data/technicalindicator/directionalmovement/MovingAverageConvergenceDivergence.js:54-59 | With period ≥ 1, the EMA at index i stays within any range that holds `close[0..i]`. |
| `Macd.EmasWithinCloses` | src/data/technicalindicator/directionalmovement/MovingAverageConvergenceDivergence.js:54-59 | With both periods ≥ 1, each EMA at index i lies between the lowest and the highest close up to i. |
| `Macd.EmaCausal` | src/data/technicalindicator/directionalmovement/MovingAverageConvergenceDivergence.js:54-59 | Two close series that agree up to index i have the same EMA at i. |
| `Macd.MacdCausal` | src/data/technicalindicator/directionalmovement/MovingAverageConvergenceDivergence.js:52-69 | Two close series that agree up to index i get the same `{diff, dea, macd}` at i: there is no lookahead. |
| `Macd.MacdAppend` | src/data/technicalindicator/directionalmovement/MovingAverageConvergenceDivergence.js:52-70 | Appending a candle leaves every earlier triple unchanged. |
| `Macd.EmaStepWeighted` | src/data/technicalindicator/directionalmovement/MovingAverageConvergenceDivergence.js:58-59 | For any period other than -1, one step equals the previous average moved towards the new close by the weight `2 / (period + 1)`. |
| `Macd.EmaStepShift` | src/data/technicalindicator/directionalmovement/MovingAverageConvergenceDivergence.js:58-59 | Adding a constant c to both the new close and the previous average adds c to the step. |
| `Macd.EmaShift` | src/data/technicalindicator/directionalmovement/MovingAverageConvergenceDivergence.js:54-59 | Adding c to every close adds c to the EMA at every index. |
| `Macd.MacdShiftInvariant` | src/data/technicalindicator/directionalmovement/MovingAverageConvergenceDivergence.js:54-64 | Adding c to every close leaves `diff`, `dea` and `macd` unchanged at every index: the indicator sees only price differences. |
| `Macd.GapStep` | src/data/technicalindicator/directionalmovement/MovingAverageConvergenceDivergence.js:58-59 | With 1 ≤ short < long, take a close at or above the old long EMA, and an old short EMA at or above the old long EMA. Then the new short EMA is at least the new long EMA, and strictly above it when the close is strictly above the old long EMA. |
| `Macd.DiffOfRisingSeries` | src/data/technicalindicator/directionalmovement/MovingAverageConvergenceDivergence.js:58-62 | With 1 ≤ short < long, a non-decreasing series has short EMA ≥ long EMA and `diff ≥ 0` at every index. A strictly increasing series has `diff > 0` from index 1 on. |
| `Macd.LinearRiseScenario` | src/data/technicalindicator/directionalmovement/MovingAverageConvergenceDivergence.js:21 | Take 30 closes from 100 to 129 and the default parameters. At index 29 the 12-period EMA exceeds the 26-period EMA, and `diff > 0`. |
| `Indicator.WithMacd` | src/data/technicalindicator/directionalmovement/MovingAverageConvergenceDivergence.js:52-70 | The list after the run: the same length, each record with all its fields kept and its `macd` slot set to `MacdAt` of the closes at its own index. |
| `Indicator.WithMacdKeepsCloses` | src/data/technicalindicator/directionalmovement/MovingAverageConvergenceDivergence.js:69 | Writing the results leaves every close unchanged. |
| `Indicator.WithMacdIdempotent` | src/data/technicalindicator/directionalmovement/MovingAverageConvergenceDivergence.js:44-52 | Running the indicator again on its own output changes nothing, because all state is local to one call. |
| `Indicator.WithMacdNoLookahead` | src/data/technicalindicator/directionalmovement/MovingAverageConvergenceDivergence.js:52-70 | The record written at index k is the same whether the indicator runs over the whole list or over records 0..k only. |
| `Indicator.RecomputeOnCopies` | src/data/technicalindicator/directionalmovement/MovingAverageConvergenceDivergence.js:43-52 | Two separate arrays with the same contents are identical after each gets its own run. |
| `Indicator.PlotKeysResolve` | src/data/technicalindicator/directionalmovement/MovingAverageConvergenceDivergence.js:22-26 | Each declared plot key (`diff`, `dea`, `macd`) finds its own number in the written result object through `FormatValue`. |
| `Format.FormatValue` | src/utils/format.js:46-54 | Let the default be `'--'` when it is omitted or `undefined`, and the given value otherwise. The result is `data[key]` exactly when data is an object whose value at key is valid. In every other case (not an object, key missing, value invalid) it is the default. A result other than the default is always a valid stored value. |
| `Format.FormatValueExamples` | src/utils/format.js:46-53 | With the default omitted or passed as `undefined`, `{a: 1}` gives `'--'` for `b` and `1` for `a`, and a non-object gives `'--'`. A given default such as `null` or `0` is returned as it is, also for a NaN value. |
| `Format.FormatDate` | src/utils/format.js:63-79 | A timestamp that is not a number gives `'--'`. |
| `Format.FormatDateOfShape` | src/utils/format.js:65-76 | For formatter output `MM/DD/YYYY, time` (fields without `/` or `,`, and a time that starts with two digits), the result is the pattern with `YYYY`, `MM` and `DD` replaced by the third, first and second field and `hh:mm` by the normalised time. |
| `Format.ParseDateTime` | src/utils/format.js:66-67 | Splitting such output on `", "` gives the date part and the time. Splitting the date part on `/` gives month, day and year. |
| `Format.FormatDateMidnight` | src/utils/format.js:72-76 | With the default pattern, output whose time reads `24…` is shown as `DD-MM 00…`. |
| `Format.FormatDateThrows` | src/utils/format.js:66-72 | Formatter output with no `", "` has no time part, so `match` is called on `undefined` and the call throws. |
| `Format.FormatDateBadTime` | src/utils/format.js:72 | Output `date, time` whose time part does not begin with two digits makes `match` return `null`, so the call throws. |
| `Format.NormalizeHour` | src/utils/format.js:72-74 | A leading `24` becomes `00` and the other characters are unchanged. Any other time is returned as is. The result never begins with `24`. |
| `Format.MatchToken` | src/utils/format.js:76 | A match returns a token that the string starts with. No match means no token starts the string. |
| `Format.ReplaceTokens` | src/utils/format.js:76 | The left-to-right replacement of `YYYY`, `MM`, `DD` and `hh:mm` by their fields. What it does is stated by the lemmas below. |
| `Format.ReplaceTokensNoTokens` | src/utils/format.js:76 | A pattern in which no token starts anywhere is returned unchanged. |
| `Format.ReplaceTokensLiteral` | src/utils/format.js:76 | A character at which no token match starts is copied to the output, in place, ahead of the rest of the result. |
| `Format.NonTokenChar` | src/utils/format.js:76 | A character other than `Y`, `M`, `D` and `h` starts no token match. |
| `Format.LoneMonthLetter` | src/utils/format.js:76 | An `M` not followed by a second `M` starts no token match. |
| `Format.ReplaceTokensLoneM` | src/utils/format.js:76 | A lone `M` is not a token: `M`, a character that starts no token, and a token render as `M`, that character and the token's field (so `M-DD` gives `M-` and the day). |
| `Format.ReplaceTokensToken` | src/utils/format.js:76 | A token at the head of the pattern is replaced by its own field and the scan goes on after it. |
| `Format.ReplaceTokensThreeFields` | src/utils/format.js:76 | Three tokens joined by two non-token characters render as their three fields joined by the same characters. |
| `Format.ReplaceTokensDefaultPattern` | src/utils/format.js:63 | The default pattern `DD-MM hh:mm` renders as day, `-`, month, space, time. |
| `Strings.Split` | src/utils/format.js:66-67 | `split` always yields at least one field, and the first field is no longer than the input. |
| `Strings.JoinSplit` | src/utils/format.js:66-67 | Joining the fields of `split` with the same separator gives back the input. |
| `Strings.SplitWithoutSeparator` | src/utils/format.js:66-67 | Text without the separator's first character splits into a single field. |
| `Strings.SplitLeadingField` | src/utils/format.js:66-67 | A first field free of the separator's first character is split off exactly at the separator after it. |
| `Strings.SplitAtFirst` | src/utils/format.js:66-67 | When j is the leftmost position where the separator starts, the first field is `s[..j]` and the rest is the split of what follows that occurrence. |
| `Strings.SplitNoOccurrence` | src/utils/format.js:66-67 | A string in which the separator starts nowhere splits into exactly itself. |
| `Format.NormalizeNumeral` | src/utils/format.js:101-102 | The output contains no `,`. It has one `.` for each `,` in the input. Its length is the input length minus the number of `.` in the input. |
| `Format.NormalizeNumeralByChar` | src/utils/format.js:102 | The two replacements together act one character at a time: `.` is dropped, `,` becomes `.`, and anything else is kept. |
| `Format.NormalizeNumeralAppend` | src/utils/format.js:102 | The normalisation of a concatenation is the concatenation of the normalisations. |
| `Format.NormalizeNumeralRoundTrip` | src/utils/format.js:102 | A comma-free dot-decimal numeral, written with a decimal comma, normalises back to itself. |
| `Format.NormalizeNumeralPlain` | src/utils/format.js:102 | Text without `.` or `,` is unchanged. |
| `Format.NormalizeNumeralIgnoresThousands` | src/utils/format.js:102 | A `.` anywhere is ignored: `a.b` normalises as `ab` does. |
| `Format.NormalizeNumeralDecimalComma` | src/utils/format.js:102 | `int,frac` with delimiter-free parts becomes `int.frac`. |
| `Strings.RemoveAll` | src/utils/format.js:102 | Removing a character shortens the text by its count and leaves none of it. |
| `Strings.RemoveAllKeepsCount` | src/utils/format.js:102 | Removing one character leaves the count of every other character unchanged. |
| `Strings.ReplaceAll` | src/utils/format.js:102 | Length is kept. Each position holds the replacement where the old character was, and the old character everywhere else. |
| `Strings.ReplaceAllCounts` | src/utils/format.js:102 | After replacing c by d, no c is left. The count of d is the old count of d plus the old count of c. |
| `Strings.RemoveAllAbsent` | src/utils/format.js:102 | Removing a character that does not occur changes nothing. |
| `Strings.RemoveAllAppend` | src/utils/format.js:102 | Removing a character distributes over concatenation. |
| `Strings.ReplaceAllAppend` | src/utils/format.js:102 | Replacing a character distributes over concatenation. |

## Left out

- Locale registration (`numeral.register`, `numeral.locale('id')`, src/utils/format.js:21-37) is left out. It sets process-wide state inside a library that is not part of this model.
- `formatPrecision` (src/utils/format.js:84-92) is left out. It is number coercion plus `toLocaleString`, which are library and floating-point behaviour.
- `formatBigNumber` beyond the delimiter normalisation is left out: the `isString` test, `Number(...)`, `numeral(v).format('0.[00]a')` and the `` `${v}` `` fallback (src/utils/format.js:98-110). These are library and floating-point behaviour.
- The date formatter and `new Date` are foreign. They appear only as the function parameter `dateTimeFormat`. An invalid date, which makes the real formatter throw a RangeError, is not modelled.
- `src/utils/typeChecks.js` is not part of this model. `IsObject`, `IsValid` and `IsNumber` are assumed to be: an object; neither undefined, null nor NaN; a number other than NaN.
- `JsValue` has no infinities, and an object is only its own properties. Properties inherited from a prototype, such as `toString`, are not modelled.
- The base class `TechnicalIndicator` is not part of this model. That covers its driver `_calc`, which is taken as one in-order pass over every index, its replacement and counting of parameters, and its reading of the fifth constructor flag.
- `src/data/technicalindicator/technicalIndicatorType.js` is not part of this model. The type tag is taken to be `"MACD"`.
- IEEE-754 rounding, NaN and infinities in the recurrence are not modelled. Arithmetic is exact over `real`. Parameter vectors that would produce NaN or a division by zero are excluded by `ValidParams`: fewer than three entries, or an entry equal to -1.
- A record carries only its prices, volume and the MACD slot. Result fields that other indicators attach to the same record are not modelled.
