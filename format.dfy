/**
  The display helpers of src/utils/format.js: `formatValue`, `formatDate` and
  the delimiter normalisation that `formatBigNumber` applies to numeral strings.
 */
module Format {
  import opened Wrappers
  import opened Strings

  /** The placeholder every helper returns for a missing or unusable input. */
  const Placeholder: string := "--"

  /**
    The JavaScript values the helpers tell apart. Numbers are finite; `NaN`
    is its own case. An object is the map of its own properties.
   */
  datatype JsValue =
    | Undefined
    | Null
    | Bool(b: bool)
    | Number(n: real)
    | NaN
    | Str(s: string)
    | Object(props: map<string, JsValue>)

  /** `isObject`: a keyed structure. */
  predicate IsObject(v: JsValue) {
    v.Object?
  }

  /** `isValid`: present and meaningful, i.e. neither undefined, null nor NaN. */
  predicate IsValid(v: JsValue) {
    !(v.Undefined? || v.Null? || v.NaN?)
  }

  /** `isNumber`: a number other than NaN. */
  predicate IsNumber(v: JsValue) {
    v.Number?
  }

  /** `data[key]` on an object: the property, or undefined when there is none. */
  function Get(data: JsValue, key: string): JsValue
    requires IsObject(data)
  {
    if key in data.props then data.props[key] else Undefined
  }

  /**
    `formatValue(data, key, defaultValue = '--')`: the value stored under
    `key` when `data` is an object and that value is valid, else the default.
    As with any JavaScript default parameter, passing `undefined` explicitly
    also selects `'--'`.
   */
  function FormatValue(data: JsValue, key: string, defaultValue: JsValue := Undefined): (r: JsValue)
    ensures var dflt := if defaultValue.Undefined? then Str(Placeholder) else defaultValue;
      && (data.Object? && key in data.props && IsValid(data.props[key]) ==> r == data.props[key])
      && (!data.Object? || key !in data.props || !IsValid(data.props[key]) ==> r == dflt)
      && (r != dflt ==> data.Object? && key in data.props && r == data.props[key] && IsValid(r))
  {
    var dflt := if defaultValue.Undefined? then Str(Placeholder) else defaultValue;
    if IsObject(data) && IsValid(Get(data, key)) then Get(data, key) else dflt
  }

  /**
    With the default left out, or passed as `undefined`, a missing key yields
    `'--'`; a present one yields its value; any other default is kept as given.
   */
  lemma FormatValueExamples()
    ensures FormatValue(Object(map["a" := Number(1.0)]), "b") == Str("--")
    ensures FormatValue(Object(map["a" := Number(1.0)]), "a") == Number(1.0)
    ensures FormatValue(Null, "a") == Str("--")
    ensures FormatValue(Null, "a", Undefined) == Str("--")
    ensures FormatValue(Null, "a", Null) == Null
    ensures FormatValue(Object(map["a" := NaN]), "a", Number(0.0)) == Number(0.0)
  {
  }

  // ---------------------------------------------------------------- formatDate

  /** How a call ends: with a returned string, or by throwing a TypeError. */
  datatype Completion = Returns(value: string) | ThrowsTypeError

  /** The four tokens of the pattern `/YYYY|MM|DD|(hh:mm)/g`, in the order they are tried. */
  datatype Token = Year | Month | Day | HourMinute

  function TokenText(t: Token): (s: string)
    ensures |s| > 0
  {
    match t
    case Year => "YYYY"
    case Month => "MM"
    case Day => "DD"
    case HourMinute => "hh:mm"
  }

  /** The replacement for each token, taken from the formatter's output. */
  datatype DateFields = DateFields(year: string, month: string, day: string, time: string)

  function FieldFor(d: DateFields, t: Token): string {
    match t
    case Year => d.year
    case Month => d.month
    case Day => d.day
    case HourMinute => d.time
  }

  /** The first alternative of the token pattern that matches at the start of `s`, if any. */
  function MatchToken(s: string): (m: Option<Token>)
    ensures m.Some? ==> StartsWith(s, TokenText(m.value))
    ensures m.None? ==> forall t: Token :: !StartsWith(s, TokenText(t))
  {
    if StartsWith(s, "YYYY") then Some(Year)
    else if StartsWith(s, "MM") then Some(Month)
    else if StartsWith(s, "DD") then Some(Day)
    else if StartsWith(s, "hh:mm") then Some(HourMinute)
    else None
  }

  /**
    `format.replace(/YYYY|MM|DD|(hh:mm)/g, key => date[key])`: a left-to-right
    scan that replaces each matched token by its field and copies every other
    character.
   */
  function ReplaceTokens(pattern: string, d: DateFields): string
    decreases |pattern|
  {
    if |pattern| == 0 then ""
    else match MatchToken(pattern)
      case Some(t) => FieldFor(d, t) + ReplaceTokens(pattern[|TokenText(t)|..], d)
      case None => [pattern[0]] + ReplaceTokens(pattern[1..], d)
  }

  /** No token begins at any position of `s`. */
  predicate NoTokens(s: string) {
    forall j :: 0 <= j < |s| ==> MatchToken(s[j..]).None?
  }

  /** A pattern without tokens comes back unchanged. */
  lemma {:induction false} ReplaceTokensNoTokens(pattern: string, d: DateFields)
    requires NoTokens(pattern)
    ensures ReplaceTokens(pattern, d) == pattern
    decreases |pattern|
  {
    if |pattern| > 0 {
      assert pattern[0..] == pattern;
      assert NoTokens(pattern[1..]) by {
        forall j | 0 <= j < |pattern[1..]|
          ensures MatchToken(pattern[1..][j..]).None?
        {
          assert pattern[1..][j..] == pattern[j + 1..];
        }
      }
      ReplaceTokensNoTokens(pattern[1..], d);
    }
  }

  /** A character that cannot begin a token is copied as it is. */
  lemma ReplaceTokensLiteral(c: char, rest: string, d: DateFields)
    requires MatchToken([c] + rest).None?
    ensures ReplaceTokens([c] + rest, d) == [c] + ReplaceTokens(rest, d)
  {
    assert ([c] + rest)[1..] == rest;
  }

  /** A character that no token begins with never starts a match. */
  lemma NonTokenChar(c: char, rest: string)
    requires c !in "YMDh"
    ensures MatchToken([c] + rest).None?
  {
    assert ([c] + rest)[0] == c;
  }

  /** An `M` followed by anything but a second `M` starts no token. */
  lemma LoneMonthLetter(rest: string)
    requires |rest| > 0 && rest[0] != 'M'
    ensures MatchToken(['M'] + rest).None?
  {
    var s := ['M'] + rest;
    assert s[0] == 'M' && s[1] == rest[0];
    assert s[..2][1] == rest[0];
  }

  /**
    A lone `M` that does not begin `MM` is copied: `M`, a separator and a
    token render as `M`, the separator and the token's field (`'M-DD'`
    renders as `M-` and the day).
   */
  lemma ReplaceTokensLoneM(c: char, t: Token, d: DateFields)
    requires c !in "YMDh"
    ensures ReplaceTokens(['M'] + ([c] + TokenText(t)), d) == ['M'] + ([c] + FieldFor(d, t))
  {
    var tt := TokenText(t);
    var f := FieldFor(d, t);
    assert tt + "" == tt;
    ReplaceTokensToken(t, "", d);
    assert ReplaceTokens("", d) == "";
    assert ReplaceTokens(tt, d) == f;
    var p2 := [c] + tt;
    NonTokenChar(c, tt);
    ReplaceTokensLiteral(c, tt, d);
    assert c != 'M';
    LoneMonthLetter(p2);
    ReplaceTokensLiteral('M', p2, d);
  }

  /** A token at the start of the pattern is replaced by its field. */
  lemma ReplaceTokensToken(t: Token, rest: string, d: DateFields)
    ensures ReplaceTokens(TokenText(t) + rest, d) == FieldFor(d, t) + ReplaceTokens(rest, d)
  {
    var s := TokenText(t) + rest;
    assert s[..|TokenText(t)|] == TokenText(t);
    assert s[0] == TokenText(t)[0];
    assert MatchToken(s) == Some(t) by {
      match t
      case Year =>
      case Month => assert !StartsWith(s, "YYYY");
      case Day => assert !StartsWith(s, "YYYY") && !StartsWith(s, "MM");
      case HourMinute => assert !StartsWith(s, "YYYY") && !StartsWith(s, "MM") && !StartsWith(s, "DD");
    }
    assert s[|TokenText(t)|..] == rest;
  }

  /** The default pattern is the day token, `-`, the month token, a space and the time token. */
  lemma DefaultPatternPieces()
    ensures DefaultDatePattern == TokenText(Day) + (['-'] + (TokenText(Month) + ([' '] + TokenText(HourMinute))))
  {
  }

  /** Three tokens separated by two literal characters render as their three fields with the same separators. */
  lemma ReplaceTokensThreeFields(t1: Token, c1: char, t2: Token, c2: char, t3: Token, d: DateFields)
    requires c1 !in "YMDh" && c2 !in "YMDh"
    ensures ReplaceTokens(TokenText(t1) + ([c1] + (TokenText(t2) + ([c2] + TokenText(t3)))), d)
         == FieldFor(d, t1) + ([c1] + (FieldFor(d, t2) + ([c2] + FieldFor(d, t3))))
  {
    var p4 := TokenText(t3);
    var p3 := [c2] + p4;
    var p2 := TokenText(t2) + p3;
    var p1 := [c1] + p2;
    assert p4 + "" == p4;
    ReplaceTokensToken(t3, "", d);
    assert ReplaceTokens("", d) == "";
    var f4 := FieldFor(d, t3);
    assert ReplaceTokens(p4, d) == f4;
    NonTokenChar(c2, p4);
    ReplaceTokensLiteral(c2, p4, d);
    ReplaceTokensToken(t2, p3, d);
    NonTokenChar(c1, p2);
    ReplaceTokensLiteral(c1, p2, d);
    ReplaceTokensToken(t1, p1, d);
  }

  /** The default pattern `'DD-MM hh:mm'` renders day, month and time with its own separators. */
  lemma ReplaceTokensDefaultPattern(d: DateFields)
    ensures ReplaceTokens(DefaultDatePattern, d) == d.day + ("-" + (d.month + (" " + d.time)))
  {
    DefaultPatternPieces();
    ReplaceTokensThreeFields(Day, '-', Month, ' ', HourMinute, d);
  }

  const DefaultDatePattern: string := "DD-MM hh:mm"

  predicate IsDigit(c: char) {
    '0' <= c <= '9'
  }

  /** `/^[\d]{2}/` matches: the string begins with two decimal digits. */
  predicate StartsWithTwoDigits(s: string) {
    |s| >= 2 && IsDigit(s[0]) && IsDigit(s[1])
  }

  /**
    Midnight normalisation of the time part: a leading `"24"` becomes `"00"`,
    any other time part is kept as it is.
   */
  function NormalizeHour(time: string): (r: string)
    requires StartsWithTwoDigits(time)
    ensures |r| == |time| && r[2..] == time[2..]
    ensures StartsWithTwoDigits(r) && r[..2] != "24"
    ensures time[..2] == "24" ==> r == "00" + time[2..]
    ensures time[..2] != "24" ==> r == time
  {
    if time[..2] == "24" then "00" + time[2..] else time
  }

  /** A missing array element as the replace callback returns it, converted to a string. */
  function FieldOr(parts: seq<string>, k: nat): string {
    if k < |parts| then parts[k] else "undefined"
  }

  /**
    `formatDate(dateTimeFormat, timestamp, format = 'DD-MM hh:mm')`. The
    injected formatter, applied to `new Date(timestamp)`, is the function
    `dateTimeFormat`. Its output is read as `"MM/DD/YYYY, hh:mm…"`. The call
    throws a TypeError in two ways: with no `", "` in the output the time
    part is `undefined`, and calling `match` on it throws; with a time part
    that does not begin with two digits `match` yields `null`, and taking its
    `[0]` throws.
   */
  function FormatDate(dateTimeFormat: real -> string, timestamp: JsValue, format: string := DefaultDatePattern): (r: Completion)
    ensures !IsNumber(timestamp) ==> r == Returns(Placeholder)
  {
    if IsNumber(timestamp) then
      var dateTimeStringArray := Split(dateTimeFormat(timestamp.n), ", ");
      var dateStringArray := Split(dateTimeStringArray[0], "/");
      if |dateTimeStringArray| < 2 || !StartsWithTwoDigits(dateTimeStringArray[1]) then
        ThrowsTypeError
      else
        var date := DateFields(
          FieldOr(dateStringArray, 2),
          FieldOr(dateStringArray, 0),
          FieldOr(dateStringArray, 1),
          NormalizeHour(dateTimeStringArray[1]));
        Returns(ReplaceTokens(format, date))
    else
      Returns(Placeholder)
  }

  /**
    On a formatter output of the expected shape `"MM/DD/YYYY, hh:mm…"`, the
    tokens YYYY, MM and DD receive the third, first and second `/`-field of
    the date part and hh:mm the (midnight-normalised) time part.
   */
  lemma FormatDateOfShape(dateTimeFormat: real -> string, t: real, format: string,
                          month: string, day: string, year: string, time: string)
    requires dateTimeFormat(t) == month + "/" + day + "/" + year + ", " + time
    requires '/' !in month && '/' !in day && '/' !in year
    requires ',' !in month && ',' !in day && ',' !in year && ',' !in time
    requires StartsWithTwoDigits(time)
    ensures FormatDate(dateTimeFormat, Number(t), format)
         == Returns(ReplaceTokens(format, DateFields(year, month, day, NormalizeHour(time))))
  {
    ParseDateTime(month, day, year, time);
  }

  /** The two splits that `formatDate` applies, on an output of the expected shape. */
  lemma ParseDateTime(month: string, day: string, year: string, time: string)
    requires '/' !in month && '/' !in day && '/' !in year
    requires ',' !in month && ',' !in day && ',' !in year && ',' !in time
    ensures Split(month + "/" + day + "/" + year + ", " + time, ", ") == [month + "/" + day + "/" + year, time]
    ensures Split(month + "/" + day + "/" + year, "/") == [month, day, year]
  {
    var datePart := month + "/" + day + "/" + year;
    NoCommaInDate(month, day, year);
    SplitWithoutSeparator(time, ", ");
    SplitLeadingField(datePart, ", ", time);
    SplitDate(month, day, year);
  }

  lemma NoCommaInDate(month: string, day: string, year: string)
    requires ',' !in month && ',' !in day && ',' !in year
    ensures ',' !in month + "/" + day + "/" + year
  {
    var s := month + "/" + day + "/" + year;
    forall k | 0 <= k < |s| ensures s[k] != ',' {
      if k < |month| {
        assert s[k] == month[k];
      } else if k == |month| {
      } else if k < |month| + 1 + |day| {
        assert s[k] == day[k - |month| - 1];
      } else if k == |month| + 1 + |day| {
      } else {
        assert s[k] == year[k - |month| - 2 - |day|];
      }
    }
  }

  lemma SplitDate(month: string, day: string, year: string)
    requires '/' !in month && '/' !in day && '/' !in year
    ensures Split(month + "/" + day + "/" + year, "/") == [month, day, year]
  {
    SplitWithoutSeparator(year, "/");
    SplitLeadingField(day, "/", year);
    assert month + "/" + day + "/" + year == month + "/" + (day + "/" + year);
    SplitLeadingField(month, "/", day + "/" + year);
  }

  /** With the default pattern, a timestamp whose hour reads `"24"` is shown with hour `"00"`. */
  lemma FormatDateMidnight(dateTimeFormat: real -> string, t: real,
                           month: string, day: string, year: string, time: string)
    requires dateTimeFormat(t) == month + "/" + day + "/" + year + ", " + time
    requires '/' !in month && '/' !in day && '/' !in year
    requires ',' !in month && ',' !in day && ',' !in year && ',' !in time
    requires |time| >= 2 && time[..2] == "24"
    ensures FormatDate(dateTimeFormat, Number(t)) == Returns(day + ("-" + (month + (" " + ("00" + time[2..])))))
  {
    assert StartsWithTwoDigits(time) by {
      assert time[0] == time[..2][0] && time[1] == time[..2][1];
    }
    FormatDateOfShape(dateTimeFormat, t, DefaultDatePattern, month, day, year, time);
    ReplaceTokensDefaultPattern(DateFields(year, month, day, NormalizeHour(time)));
  }

  /** A formatter output with no `", "` has no time part, so the call throws. */
  lemma FormatDateThrows(dateTimeFormat: real -> string, t: real, format: string)
    requires forall k {:trigger StartsWith(dateTimeFormat(t)[k..], ", ")} ::
      0 <= k < |dateTimeFormat(t)| ==> !StartsWith(dateTimeFormat(t)[k..], ", ")
    ensures FormatDate(dateTimeFormat, Number(t), format) == ThrowsTypeError
  {
    SplitNoOccurrence(dateTimeFormat(t), ", ");
  }

  /** A time part that does not begin with two digits also makes the call throw. */
  lemma FormatDateBadTime(dateTimeFormat: real -> string, t: real, format: string, date: string, time: string)
    requires dateTimeFormat(t) == date + ", " + time
    requires ',' !in date && ',' !in time
    requires !StartsWithTwoDigits(time)
    ensures FormatDate(dateTimeFormat, Number(t), format) == ThrowsTypeError
  {
    SplitWithoutSeparator(time, ", ");
    SplitLeadingField(date, ", ", time);
  }

  // ---------------------------------------------------------- formatBigNumber

  /**
    The string branch of `formatBigNumber`: `v.replaceAll('.', '').replaceAll(',', '.')`
    turns an Indonesian-style numeral (`.` between thousands, `,` before the
    decimals) into the dot-decimal form that `Number` reads.
   */
  function NormalizeNumeral(s: string): (r: string)
    ensures ',' !in r
    ensures Count(r, '.') == Count(s, ',')
    ensures |r| == |s| - Count(s, '.')
  {
    RemoveAllKeepsCount(s, '.', ',');
    ReplaceAllCounts(RemoveAll(s, '.'), ',', '.');
    ReplaceAll(RemoveAll(s, '.'), ',', '.')
  }

  /** The same normalisation as one pass over the characters: drop `.`, turn `,` into `.`. */
  function NormalizeChar(c: char): string {
    if c == '.' then "" else if c == ',' then "." else [c]
  }

  /** Both replacements together act character by character. */
  lemma {:induction false} NormalizeNumeralByChar(s: string)
    requires |s| > 0
    ensures NormalizeNumeral(s) == NormalizeChar(s[0]) + NormalizeNumeral(s[1..])
  {
    var r := RemoveAll(s, '.');
    if s[0] == '.' {
      assert r == RemoveAll(s[1..], '.');
    } else {
      assert r == [s[0]] + RemoveAll(s[1..], '.');
      assert r[1..] == RemoveAll(s[1..], '.');
    }
  }

  /** Normalising a concatenation normalises each part. */
  lemma NormalizeNumeralAppend(a: string, b: string)
    ensures NormalizeNumeral(a + b) == NormalizeNumeral(a) + NormalizeNumeral(b)
  {
    RemoveAllAppend(a, b, '.');
    ReplaceAllAppend(RemoveAll(a, '.'), RemoveAll(b, '.'), ',', '.');
  }

  /**
    A dot-decimal numeral written with a decimal comma (`"1234.5"` as
    `"1234,5"`) normalises back to itself.
   */
  lemma {:induction false} NormalizeNumeralRoundTrip(s: string)
    requires ',' !in s
    ensures NormalizeNumeral(ReplaceAll(s, '.', ',')) == s
    decreases |s|
  {
    if |s| > 0 {
      var w := ReplaceAll(s, '.', ',');
      assert w[1..] == ReplaceAll(s[1..], '.', ',');
      assert forall c :: c in s[1..] ==> c in s;
      NormalizeNumeralRoundTrip(s[1..]);
      NormalizeNumeralByChar(w);
      assert [s[0]] + s[1..] == s;
    }
  }

  /** Text without delimiters is left alone. */
  lemma NormalizeNumeralPlain(s: string)
    requires '.' !in s && ',' !in s
    ensures NormalizeNumeral(s) == s
  {
    RemoveAllAbsent(s, '.');
  }

  /** A thousands separator is ignored wherever it stands: `"1.500,25"` reads as `"1500,25"`. */
  lemma NormalizeNumeralIgnoresThousands(a: string, b: string)
    ensures NormalizeNumeral(a + "." + b) == NormalizeNumeral(a + b)
  {
    var dot := ['.'];
    NormalizeNumeralByChar(dot);
    assert dot[1..] == "";
    calc {
      NormalizeNumeral(a + "." + b);
      { assert a + "." + b == (a + dot) + b; }
      NormalizeNumeral((a + dot) + b);
      { NormalizeNumeralAppend(a + dot, b); }
      NormalizeNumeral(a + dot) + NormalizeNumeral(b);
      { NormalizeNumeralAppend(a, dot); }
      NormalizeNumeral(a) + NormalizeNumeral(dot) + NormalizeNumeral(b);
      { assert NormalizeNumeral(dot) == ""; }
      NormalizeNumeral(a) + NormalizeNumeral(b);
      { NormalizeNumeralAppend(a, b); }
      NormalizeNumeral(a + b);
    }
  }

  /** The decimal comma becomes the decimal point: `"1500,25"` reads as `"1500.25"`. */
  lemma NormalizeNumeralDecimalComma(intPart: string, fraction: string)
    requires '.' !in intPart && ',' !in intPart && '.' !in fraction && ',' !in fraction
    ensures NormalizeNumeral(intPart + "," + fraction) == intPart + "." + fraction
  {
    var comma := [','];
    NormalizeNumeralByChar(comma);
    assert comma[1..] == "";
    assert NormalizeNumeral(comma) == ".";
    NormalizeNumeralAppend(intPart + comma, fraction);
    NormalizeNumeralAppend(intPart, comma);
    NormalizeNumeralPlain(intPart);
    NormalizeNumeralPlain(fraction);
  }
}
