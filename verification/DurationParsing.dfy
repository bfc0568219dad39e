/** Parsing of durations (src/temporal.rs:1848-1982, 2065-2235) and the round trip with printing. */
module DurationParsing {
  import opened Prelude
  import opened Durations
  import opened DurationText

  // ---------------------------------------------------------------- numbers in front of units

  predicate NumChar(c: char) {
    IsDigit(c) || c == '.'
  }

  function NumSpan(s: string): (n: nat)
    ensures n <= |s|
  {
    if s == "" || !NumChar(s[0]) then 0 else 1 + NumSpan(s[1..])
  }

  /** The end of the number that `s` begins with: an optional minus, then digits and points. */
  function NumberEnd(s: string): (n: nat)
    ensures n <= |s|
  {
    if s != "" && s[0] == '-' then 1 + NumSpan(s[1..]) else NumSpan(s)
  }

  function Negative(num: string): bool {
    num != "" && num[0] == '-'
  }

  /** A number without its minus sign. */
  function Unsigned(num: string): string {
    if Negative(num) then num[1..] else num
  }

  function WithSign(negative: bool, n: int): int {
    if negative then -n else n
  }

  /** Integers up to here are floating-point numbers. */
  const EXACT := 0x20_0000_0000_0000

  /** `parse::<f64>` and truncation, where the number is a whole one that is held exactly. */
  function Whole(num: string): Parsed<int> {
    var u := Unsigned(num);
    if u != "" && AllDigits(u) then
      (if DigitsValue(u) <= EXACT then Ok(WithSign(Negative(num), DigitsValue(u))) else Err(NotModelled))
    else
      match First(u, '.')
      case None => Err(BadNumber)
      case Some(i) => if |u| > 1 && AllDigits(u[..i]) && AllDigits(u[i + 1..]) then Err(NotModelled) else Err(BadNumber)
  }

  /** `parse::<i64>`: one sign, plus or minus, may stand in front of the digits. */
  function ParseI64(num: string): Parsed<int> {
    var u := if num != "" && num[0] == '+' then num[1..] else Unsigned(num);
    if u == "" || !AllDigits(u) then Err(BadNumber)
    else if !FitsI64(WithSign(Negative(num), DigitsValue(u))) then Err(BadNumber)
    else Ok(WithSign(Negative(num), DigitsValue(u)))
  }

  // ---------------------------------------------------------------- the two parts

  predicate IsUnit(c: char, upper: char, lower: char) {
    c == upper || c == lower
  }

  /** What one field in front of the `T` adds to months and days. */
  function DateField(num: string, unit: char): Parsed<(int, int)> {
    match Whole(num)
    case Err(e) => Err(e)
    case Ok(n) =>
      if IsUnit(unit, 'Y', 'y') then Ok((n * 12, 0))
      else if IsUnit(unit, 'M', 'm') then Ok((n, 0))
      else if IsUnit(unit, 'W', 'w') then (if Abs(n * 7) <= EXACT then Ok((0, n * 7)) else Err(NotModelled))
      else if IsUnit(unit, 'D', 'd') then Ok((0, n))
      else Err(UnexpectedUnit)
  }

  /** What all of them add up to. A number without a unit ends the part. */
  function DateFields(s: string, months: int, days: int): Parsed<(int, int)>
    decreases |s|
  {
    var e := NumberEnd(s);
    if e == |s| then Ok((months, days))
    else
      match DateField(s[..e], s[e])
      case Err(err) => Err(err)
      case Ok((m, d)) => DateFields(s[e + 1..], months + m, days + d)
  }

  /** `parse_duration_date_part`. */
  method ParseDurationDatePart(s: string) returns (r: Parsed<(int, int)>)
    ensures r == DateFields(s, 0, 0)
  {
    hide DateField, DateFields, NumberEnd, NumSpan;
    var months, days := 0, 0;
    var numStart, i := 0, 0;
    NumberStart(s, 0);
    // The first field may begin with a minus sign.
    if i < |s| && s[i] == '-' {
      i := i + 1;
    }
    assert s[0..] == s;
    while i < |s|
      invariant numStart <= i <= |s|
      invariant NumberEnd(s[numStart..]) == i - numStart + NumSpan(s[i..])
      invariant DateFields(s, 0, 0) == DateFields(s[numStart..], months, days)
      decreases |s| - i, |s| - numStart
    {
      if NumChar(s[i]) {
        SpanStep(s, i);
        i := i + 1;
        continue;
      }
      DateStep(s, numStart, i, months, days);
      var field := ReadDateField(s[numStart..i], s[i]);
      if field.Err? {
        return field;
      }
      months, days := months + field.value.0, days + field.value.1;
      i := i + 1;
      numStart := i;
      NumberStart(s, i);
      // So may the next one.
      if i < |s| && s[i] == '-' {
        i := i + 1;
      }
    }
    AllRead(s, numStart, months, days);
    return Ok((months, days));
  }

  /** The body of the loop for one field. */
  method ReadDateField(num: string, unit: char) returns (r: Parsed<(int, int)>)
    ensures r == DateField(num, unit)
  {
    hide Whole;
    var n := Whole(num);
    if n.Err? {
      return Err(n.error);
    }
    var months, days := 0, 0;
    if IsUnit(unit, 'Y', 'y') {
      months := months + n.value * 12;
    } else if IsUnit(unit, 'M', 'm') {
      months := months + n.value;
    } else if IsUnit(unit, 'W', 'w') {
      if Abs(n.value * 7) > EXACT {
        return Err(NotModelled);
      }
      days := days + n.value * 7;
    } else if IsUnit(unit, 'D', 'd') {
      days := days + n.value;
    } else {
      return Err(UnexpectedUnit);
    }
    return Ok((months, days));
  }

  lemma SpanStep(s: string, i: nat)
    requires i < |s| && NumChar(s[i])
    ensures NumSpan(s[i..]) == 1 + NumSpan(s[i + 1..])
  {
  }

  lemma NumberStart(s: string, k: nat)
    requires k <= |s|
    ensures NumberEnd(s[k..]) == if k < |s| && s[k] == '-' then 1 + NumSpan(s[k + 1..]) else NumSpan(s[k..])
  {
    assert k < |s| ==> s[k..][1..] == s[k + 1..];
  }

  lemma DateStep(s: string, start: nat, i: nat, months: int, days: int)
    requires start <= i < |s| && !NumChar(s[i]) && NumberEnd(s[start..]) == i - start + NumSpan(s[i..])
    ensures DateFields(s[start..], months, days) ==
            match DateField(s[start..i], s[i])
            case Err(e) => Err(e)
            case Ok((m, d)) => DateFields(s[i + 1..], months + m, days + d)
  {
    hide DateField, NumberEnd, NumSpan;
    FieldCut(s, start, i);
  }

  lemma AllRead(s: string, start: nat, a: int, b: int)
    requires start <= |s| && NumberEnd(s[start..]) == |s| - start + NumSpan(s[|s|..])
    ensures DateFields(s[start..], a, b) == Ok((a, b)) && TimeFields(s[start..], a, b) == Ok((a, b))
  {
  }

  lemma FieldCut(s: string, start: nat, i: nat)
    requires start <= i < |s| && !NumChar(s[i])
    requires NumberEnd(s[start..]) == i - start + NumSpan(s[i..])
    ensures var rest := s[start..];
            var e := NumberEnd(rest);
            e < |rest| && rest[..e] == s[start..i] && rest[e] == s[i] && rest[e + 1..] == s[i + 1..]
  {
  }

  /** The number in front of an `S`, with the sign of its integer part for the fraction too. */
  function SecondsField(num: string): Parsed<(int, int)> {
    match First(num, '.')
    case None => (match ParseI64(num) case Err(e) => Err(e) case Ok(n) => Ok((n, 0)))
    case Some(dot) =>
      var intPart, fracPart := num[..dot], num[dot + 1..];
      var whole := if intPart == "" || intPart == "-" then Ok(0) else ParseI64(intPart);
      match whole
      case Err(e) => Err(e)
      case Ok(n) =>
        match FracNanos(fracPart)
        case Err(e) => Err(e)
        case Ok(f) => Ok((n, WithSign(Negative(intPart), f)))
  }

  /** What one field behind the `T` adds to seconds and nanoseconds. */
  function TimeField(num: string, unit: char): Parsed<(int, int)> {
    if IsUnit(unit, 'H', 'h') || IsUnit(unit, 'M', 'm') then
      match Whole(num)
      case Err(e) => Err(e)
      case Ok(n) => Ok((n * (if IsUnit(unit, 'H', 'h') then 3600 else 60), 0))
    else if IsUnit(unit, 'S', 's') then SecondsField(num)
    else Err(UnexpectedUnit)
  }

  function TimeFields(s: string, seconds: int, nanos: int): Parsed<(int, int)>
    decreases |s|
  {
    var e := NumberEnd(s);
    if e == |s| then Ok((seconds, nanos))
    else
      match TimeField(s[..e], s[e])
      case Err(err) => Err(err)
      case Ok((n, f)) => TimeFields(s[e + 1..], seconds + n, nanos + f)
  }

  /** `parse_duration_time_part`. */
  method ParseDurationTimePart(s: string) returns (r: Parsed<(int, int)>)
    ensures r == TimeFields(s, 0, 0)
  {
    hide TimeField, TimeFields, NumberEnd, NumSpan;
    var seconds, nanos := 0, 0;
    var numStart, i := 0, 0;
    NumberStart(s, 0);
    // The first field may begin with a minus sign.
    if i < |s| && s[i] == '-' {
      i := i + 1;
    }
    assert s[0..] == s;
    while i < |s|
      invariant numStart <= i <= |s|
      invariant NumberEnd(s[numStart..]) == i - numStart + NumSpan(s[i..])
      invariant TimeFields(s, 0, 0) == TimeFields(s[numStart..], seconds, nanos)
      decreases |s| - i, |s| - numStart
    {
      if NumChar(s[i]) {
        SpanStep(s, i);
        i := i + 1;
        continue;
      }
      TimeStep(s, numStart, i, seconds, nanos);
      var field := ReadTimeField(s[numStart..i], s[i]);
      if field.Err? {
        return field;
      }
      seconds, nanos := seconds + field.value.0, nanos + field.value.1;
      i := i + 1;
      numStart := i;
      NumberStart(s, i);
      // So may the next one.
      if i < |s| && s[i] == '-' {
        i := i + 1;
      }
    }
    AllRead(s, numStart, seconds, nanos);
    return Ok((seconds, nanos));
  }

  lemma TimeStep(s: string, start: nat, i: nat, seconds: int, nanos: int)
    requires start <= i < |s| && !NumChar(s[i]) && NumberEnd(s[start..]) == i - start + NumSpan(s[i..])
    ensures TimeFields(s[start..], seconds, nanos) ==
            match TimeField(s[start..i], s[i])
            case Err(e) => Err(e)
            case Ok((n, f)) => TimeFields(s[i + 1..], seconds + n, nanos + f)
  {
    hide TimeField, NumberEnd, NumSpan;
    FieldCut(s, start, i);
  }

  method ReadTimeField(num: string, unit: char) returns (r: Parsed<(int, int)>)
    ensures r == TimeField(num, unit)
  {
    hide Whole, SecondsField;
    if IsUnit(unit, 'H', 'h') || IsUnit(unit, 'M', 'm') {
      var n := Whole(num);
      if n.Err? {
        return Err(n.error);
      }
      return Ok((n.value * (if IsUnit(unit, 'H', 'h') then 3600 else 60), 0));
    }
    if IsUnit(unit, 'S', 's') {
      r := ParseSeconds(num);
      return;
    }
    return Err(UnexpectedUnit);
  }

  /** The number in front of an `S`. Its sign is that of both parts, even where the whole part is -0. */
  method ParseSeconds(num: string) returns (r: Parsed<(int, int)>)
    ensures r == SecondsField(num)
    ensures r.Ok? ==> if Negative(num) then r.value.0 <= 0 && r.value.1 <= 0 else r.value.0 >= 0 && r.value.1 >= 0
  {
    SignOfParts(num);
    hide ParseI64, FracNanos;
    var dot := First(num, '.');
    if dot.None? {
      var n := ParseI64(num);
      return if n.Err? then Err(n.error) else Ok((n.value, 0));
    }
    var intPart, fracPart := num[..dot.value], num[dot.value + 1..];
    var intVal := 0;
    if intPart != "" && intPart != "-" {
      var n := ParseI64(intPart);
      if n.Err? {
        return Err(n.error);
      }
      intVal := n.value;
    }
    var fracNanos := ParseFracNanos(fracPart);
    if fracNanos.Err? {
      return Err(fracNanos.error);
    }
    return Ok((intVal, WithSign(Negative(intPart), fracNanos.value)));
  }

  lemma SignOfParts(num: string)
    ensures var r := SecondsField(num);
            r.Ok? ==> if Negative(num) then r.value.0 <= 0 && r.value.1 <= 0 else r.value.0 >= 0 && r.value.1 >= 0
  {
    hide First, DigitsValue, NineDigits;
    var dot := First(num, '.');
    if dot.Some? {
      FirstIs(num, '.');
      assert num[0] == '-' ==> dot.value > 0;
      assert Negative(num[..dot.value]) == Negative(num);
    }
  }

  /** A decimal number means its whole part and its fraction, cut to nine digits, under one sign. */
  lemma DecimalSeconds(negative: bool, whole: string, frac: string)
    requires AllDigits(whole) && AllDigits(frac) && DigitsValue(whole) <= I64_MAX
    ensures var sign := if negative then "-" else "";
            SecondsField(sign + whole + ['.'] + frac) ==
            Ok((WithSign(negative, DigitsValue(whole)), WithSign(negative, DigitsValue(NineDigits(frac)))))
  {
    hide DigitsValue, NineDigits, First;
    var intPart := (if negative then "-" else "") + whole;
    FirstSpec(intPart, '.', frac);
    var num := intPart + ['.'] + frac;
    assert num[..|intPart|] == intPart && num[|intPart| + 1..] == frac;
    NineDigitsAreDigits(frac);
    assert Negative(intPart) == negative;
    assert Unsigned(intPart) == whole;
    NoDigitsValue();
    assert intPart == "" || intPart == "-" <==> whole == "";
  }

  lemma NoDigitsValue()
    ensures DigitsValue("") == 0
  {
  }

  predicate Alphabetic(c: char) {
    'A' <= c <= 'Z' || 'a' <= c <= 'z'
  }

  function FirstT(body: string): (r: Option<nat>)
    ensures r.Some? ==> r.value < |body|
  {
    if First(body, 'T').Some? then First(body, 'T') else First(body, 't')
  }

  /** The date format `YYYY-MM-DD`: years and months, and days. */
  function DateForm(part: string): Parsed<(int, int)> {
    var parts := Split(part, '-');
    if |parts| != 3 then Err(BadDateForm)
    else
      match ParseI64(parts[0])
      case Err(e) => Err(e)
      case Ok(y) =>
        match ParseI64(parts[1])
        case Err(e) => Err(e)
        case Ok(m) =>
          match ParseI64(parts[2])
          case Err(e) => Err(e)
          case Ok(d) => Ok((y * 12 + m, d))
  }

  /** The seconds of the colon format. A minus sign goes to the whole part alone. */
  function ClockSeconds(text: string): Parsed<(int, int)> {
    match First(text, '.')
    case None => (match ParseI64(text) case Err(e) => Err(e) case Ok(n) => Ok((n, 0)))
    case Some(dot) =>
      match (if text[..dot] == "" then Ok(0) else ParseI64(text[..dot]))
      case Err(e) => Err(e)
      case Ok(n) => (match FracNanos(text[dot + 1..]) case Err(e) => Err(e) case Ok(f) => Ok((n, f)))
  }

  /** The colon format `hh:mm[:ss[.fff]]`; further pieces are ignored, and with them the seconds. */
  function ClockForm(part: string): Parsed<(int, int)> {
    var parts := Split(part, ':');
    match ParseI64(parts[0])
    case Err(e) => Err(e)
    case Ok(h) =>
      match (if |parts| >= 2 then ParseI64(parts[1]) else Err(BadNumber))
      case Err(e) => Err(e)
      case Ok(m) =>
        match (if |parts| == 3 then ClockSeconds(parts[2]) else Ok((0, 0)))
        case Err(e) => Err(e)
        case Ok((s, f)) => Ok((h * 3600 + m * 60 + s, f))
  }

  predicate InDateForm(part: string) {
    '-' in part && forall i :: 0 <= i < |part| ==> !Alphabetic(part[i])
  }

  function DatePart(part: string): Parsed<(int, int)> {
    if part == "" then Ok((0, 0))
    else if InDateForm(part) then DateForm(part)
    else DateFields(part, 0, 0)
  }

  function TimePart(part: string): Parsed<(int, int)> {
    if part == "" then Ok((0, 0))
    else if ':' in part then ClockForm(part)
    else TimeFields(part, 0, 0)
  }

  /** What a text means: `P`, the date part, and behind a `T` the time part. */
  function Meaning(s: string): Parsed<Duration> {
    if s == "" || !IsUnit(s[0], 'P', 'p') then Err(NotADuration)
    else
      var body := s[1..];
      var (date, time) := match FirstT(body)
        case None => (body, "")
        case Some(t) => (body[..t], body[t + 1..]);
      match DatePart(date)
      case Err(e) => Err(e)
      case Ok((months, days)) =>
        match TimePart(time)
        case Err(e) => Err(e)
        case Ok((seconds, nanos)) => Ok(Duration(months, days, seconds, nanos))
  }

  /** `from_iso_string`. */
  method FromIsoString(s: string) returns (r: Parsed<Duration>)
    ensures r == Meaning(s)
  {
    hide DateFields, TimeFields, DateForm, ClockForm, First;
    if s == "" || !IsUnit(s[0], 'P', 'p') {
      return Err(NotADuration);
    }
    var body := s[1..];
    var datePart, timePart := body, "";
    var t := FirstT(body);
    if t.Some? {
      datePart, timePart := body[..t.value], body[t.value + 1..];
    }
    var date: Parsed<(int, int)> := Ok((0, 0));
    if datePart != "" {
      if InDateForm(datePart) {
        date := DateForm(datePart);
      } else {
        date := ParseDurationDatePart(datePart);
      }
      if date.Err? {
        return Err(date.error);
      }
    }
    var time: Parsed<(int, int)> := Ok((0, 0));
    if timePart != "" {
      if ':' in timePart {
        time := ClockForm(timePart);
      } else {
        time := ParseDurationTimePart(timePart);
      }
      if time.Err? {
        return Err(time.error);
      }
    }
    return Ok(Duration(date.value.0, date.value.1, time.value.0, time.value.1));
  }

  // ---------------------------------------------------------------- reading what was printed

  lemma {:induction false} SpanOf(u: string, unit: char, rest: string)
    requires !NumChar(unit) && forall i :: 0 <= i < |u| ==> NumChar(u[i])
    ensures NumSpan(u + [unit] + rest) == |u|
  {
    var s := u + [unit] + rest;
    if u != "" {
      assert s[1..] == u[1..] + [unit] + rest;
      SpanOf(u[1..], unit, rest);
    }
  }

  predicate IsNumber(num: string) {
    Unsigned(num) != "" && forall i :: 0 <= i < |Unsigned(num)| ==> NumChar(Unsigned(num)[i])
  }

  lemma NumberEndOf(num: string, unit: char, rest: string)
    requires IsNumber(num) && !NumChar(unit)
    ensures var s := num + [unit] + rest;
            NumberEnd(s) == |num| && s[..|num|] == num && s[|num|] == unit && s[|num| + 1..] == rest
  {
    var s := num + [unit] + rest;
    SpanOf(Unsigned(num), unit, rest);
    if Negative(num) {
      assert s[1..] == num[1..] + [unit] + rest;
    }
  }

  lemma IntIsNumber(n: int)
    ensures IsNumber(Int(n)) && AllDigits(Unsigned(Int(n))) && Unsigned(Int(n)) != ""
    ensures WithSign(Negative(Int(n)), DigitsValue(Unsigned(Int(n)))) == n
  {
    DigitsRoundTrip(Abs(n));
    assert Unsigned(Int(n)) == Digits(Abs(n));
  }

  lemma WholeOfInt(n: int)
    requires Abs(n) <= EXACT
    ensures Whole(Int(n)) == Ok(n)
  {
    IntIsNumber(n);
    DigitsRoundTrip(Abs(n));
    assert Unsigned(Int(n)) == Digits(Abs(n));
  }

  lemma DateFieldRead(n: int, unit: char, rest: string, months: int, days: int)
    requires Abs(n) <= EXACT && (unit == 'Y' || unit == 'M' || unit == 'D')
    ensures DateFields(OptField(n, unit) + rest, months, days) ==
            DateFields(rest, months + (if unit == 'Y' then n * 12 else if unit == 'M' then n else 0),
                       days + (if unit == 'D' then n else 0))
  {
    hide Whole, NumberEnd;
    if n != 0 {
      IntIsNumber(n);
      WholeOfInt(n);
      NumberEndOf(Int(n), unit, rest);
      assert OptField(n, unit) + rest == Int(n) + [unit] + rest;
    } else {
      assert OptField(n, unit) + rest == rest;
    }
  }

  lemma TimeFieldRead(n: int, unit: char, rest: string, seconds: int, nanos: int)
    requires Abs(n) <= EXACT && (unit == 'H' || unit == 'M')
    ensures TimeFields(OptField(n, unit) + rest, seconds, nanos) ==
            TimeFields(rest, seconds + n * (if unit == 'H' then 3600 else 60), nanos)
  {
    hide Whole, NumberEnd, SecondsField;
    if n != 0 {
      IntIsNumber(n);
      WholeOfInt(n);
      NumberEndOf(Int(n), unit, rest);
      assert OptField(n, unit) + rest == Int(n) + [unit] + rest;
    } else {
      assert OptField(n, unit) + rest == rest;
    }
  }

  lemma DatePartRead(d: Duration)
    requires Abs(TruncDiv(d.months, 12)) <= EXACT && Abs(d.days) <= EXACT
    ensures DateFields(DateText(d), 0, 0) == Ok((d.months, d.days))
  {
    hide DateFields, OptField, TruncDiv;
    var years, months := TruncDiv(d.months, 12), Rem(d.months, 12);
    MonthsInYear(d.months);
    var days := OptField(d.days, 'D') + "";
    DateFieldRead(years, 'Y', OptField(months, 'M') + days, 0, 0);
    DateFieldRead(months, 'M', days, years * 12, 0);
    DateFieldRead(d.days, 'D', "", d.months, 0);
    NothingToRead(d.months, d.days);
    assert DateText(d) == OptField(years, 'Y') + (OptField(months, 'M') + days);
  }

  lemma NothingToRead(a: int, b: int)
    ensures DateFields("", a, b) == Ok((a, b)) && TimeFields("", a, b) == Ok((a, b))
  {
  }

  lemma MonthsInYear(n: int)
    ensures -12 < Rem(n, 12) < 12 && TruncDiv(n, 12) * 12 + Rem(n, 12) == n
  {
  }

  /** The fraction that is read: the first nine digits of the ones printed, with the printed sign. */
  function NanosRead(secs: int, nanos: int): int {
    if nanos == 0 then 0
    else
      var f := DigitsValue(NineDigits(Trimmed(Padded(Abs(nanos)))));
      WithSign(secs < 0 || (secs == 0 && nanos < 0), f)
  }

  lemma NineDigitsAreDigits(frac: string)
    requires AllDigits(frac)
    ensures AllDigits(NineDigits(frac)) && DigitsValue(NineDigits(frac)) < BILLION
    ensures FracNanos(frac) == Ok(DigitsValue(NineDigits(frac)))
  {
    DigitsValueBound(NineDigits(frac));
    NanosLimit();
  }

  lemma SecondsRead(secs: int, nanos: int, seconds: int)
    requires -60 < secs < 60 && (secs != 0 || nanos != 0)
    ensures TimeFields(SecondsText(secs, nanos), seconds, 0) == Ok((seconds + secs, NanosRead(secs, nanos)))
  {
    hide ParseI64, Trimmed, Padded, NineDigits, Digits, DigitsValue, NumberEnd;
    var num := SecondsNumber(secs, nanos);
    SecondsNumberRead(secs, nanos);
    NumberEndOf(num, 'S', "");
    NothingToRead(seconds + secs, NanosRead(secs, nanos));
    assert SecondsText(secs, nanos) == num + ['S'] + "" by { SecondsTextIs(secs, nanos); }
  }

  function SecondsNumber(secs: int, nanos: int): string {
    if nanos == 0 then Int(secs) else SignAndSeconds(secs, nanos) + ['.'] + Trimmed(Padded(Abs(nanos)))
  }

  function SignAndSeconds(secs: int, nanos: int): string {
    (if secs < 0 || (secs == 0 && nanos < 0) then "-" else "") + Digits(Abs(secs))
  }

  lemma SecondsTextIs(secs: int, nanos: int)
    requires secs != 0 || nanos != 0
    ensures SecondsText(secs, nanos) == SecondsNumber(secs, nanos) + ['S'] + ""
  {
    hide Trimmed, Padded, Digits;
  }

  lemma SignAndSecondsRead(secs: int, nanos: int)
    requires -60 < secs < 60 && nanos != 0
    ensures var t := SignAndSeconds(secs, nanos);
            && t != "" && t != "-" && ParseI64(t) == Ok(secs)
            && Negative(t) == (secs < 0 || (secs == 0 && nanos < 0))
            && AllDigits(Unsigned(t)) && Unsigned(t) != ""
            && forall i :: 0 <= i < |t| ==> t[i] != '.'
  {
    var t := SignAndSeconds(secs, nanos);
    DigitsRoundTrip(Abs(secs));
    assert Unsigned(t) == Digits(Abs(secs));
  }

  lemma SecondsNumberRead(secs: int, nanos: int)
    requires -60 < secs < 60 && (secs != 0 || nanos != 0)
    ensures SecondsField(SecondsNumber(secs, nanos)) == Ok((secs, NanosRead(secs, nanos)))
    ensures IsNumber(SecondsNumber(secs, nanos))
  {
    hide ParseI64, Trimmed, Padded, NineDigits, Digits, DigitsValue, FracNanos;
    var num := SecondsNumber(secs, nanos);
    if nanos == 0 {
      PlainSeconds(secs);
    } else {
      var head, frac := SignAndSeconds(secs, nanos), Trimmed(Padded(Abs(nanos)));
      SignAndSecondsRead(secs, nanos);
      FirstSpec(head, '.', frac);
      assert num[..|head|] == head && num[|head| + 1..] == frac;
      NineDigitsAreDigits(frac);
      assert Unsigned(num) == Unsigned(head) + ['.'] + frac;
    }
  }

  lemma PlainSeconds(secs: int)
    requires -60 < secs < 60
    ensures SecondsField(Int(secs)) == Ok((secs, 0)) && IsNumber(Int(secs))
  {
    IntIsNumber(secs);
    NoPoint(secs);
  }

  lemma NoPoint(n: int)
    ensures First(Int(n), '.') == None
  {
    hide Digits;
    FirstSpec(Int(n), '.', "");
  }

  lemma HmsParts(d: Duration)
    ensures var (hours, minutes, secs, nanos) := Hms(d);
            && -60 < minutes < 60 && -60 < secs < 60
            && (hours * 3600 + minutes * 60 + secs) * BILLION + nanos == ClockPart(d)
            && SameSign(hours * 3600 + minutes * 60 + secs, secs)
  {
  }

  lemma TimePartRead(d: Duration)
    requires Abs(Hms(d).0) <= EXACT
    ensures var (hours, minutes, secs, nanos) := Hms(d);
            TimeFields(TimeText(d), 0, 0) == Ok((hours * 3600 + minutes * 60 + secs, NanosRead(secs, nanos)))
  {
    hide TimeFields, OptField, SecondsText, Hms;
    HmsParts(d);
    var (hours, minutes, secs, nanos) := Hms(d);
    TimeFieldRead(hours, 'H', OptField(minutes, 'M') + SecondsText(secs, nanos), 0, 0);
    TimeFieldRead(minutes, 'M', SecondsText(secs, nanos), hours * 3600, 0);
    SecondsTextEmpty(secs, nanos);
    if secs == 0 && nanos == 0 {
      NothingToRead(hours * 3600 + minutes * 60, 0);
    } else {
      SecondsRead(secs, nanos, hours * 3600 + minutes * 60);
    }
    assert TimeText(d) == OptField(hours, 'H') + (OptField(minutes, 'M') + SecondsText(secs, nanos));
  }

  // ---------------------------------------------------------------- the round trip

  /** The number of units that floating point holds exactly. */
  predicate FieldsExact(d: Duration) {
    Abs(TruncDiv(d.months, 12)) <= EXACT && Abs(d.days) <= EXACT && Abs(Hms(d).0) <= EXACT
  }

  /** The nanoseconds, aligned with the seconds, have no more than nine digits and the sign that is
      printed in front of the seconds. */
  predicate NanosShown(d: Duration) {
    var (_, _, secs, nanos) := Hms(d);
    -BILLION < nanos < BILLION && SameSign(secs, nanos)
  }

  lemma NanosReadExact(secs: int, nanos: int)
    ensures NanosRead(secs, nanos) == nanos <==> -BILLION < nanos < BILLION && SameSign(secs, nanos)
  {
    if nanos != 0 {
      var frac := Trimmed(Padded(Abs(nanos)));
      NineDigitsAreDigits(frac);
      NanosLimit();
      if Abs(nanos) < BILLION {
        FractionRoundTrip(Abs(nanos));
      }
    }
  }

  /** With less than a second of nanoseconds, whatever the signs, all is shown. */
  lemma SmallNanosShown(d: Duration)
    requires -BILLION < d.nanos < BILLION
    ensures NanosShown(d)
  {
  }

  predicate Plain(s: string) {
    forall i :: 0 <= i < |s| ==> IsDigit(s[i]) || s[i] == '-' || s[i] == '.' || s[i] in "YMDHS"
  }

  lemma OptFieldPlain(n: int, unit: char)
    requires unit in "YMDHS"
    ensures Plain(OptField(n, unit)) && (n != 0 ==> unit in OptField(n, unit))
  {
  }

  lemma DateTextPlain(d: Duration)
    ensures Plain(DateText(d))
    ensures DateText(d) != "" ==> exists i :: 0 <= i < |DateText(d)| && Alphabetic(DateText(d)[i])
  {
    hide OptField, TruncDiv, Rem;
    var years, months := TruncDiv(d.months, 12), Rem(d.months, 12);
    OptFieldPlain(years, 'Y');
    OptFieldPlain(months, 'M');
    OptFieldPlain(d.days, 'D');
    assert OptField(0, 'Y') == "" && OptField(0, 'M') == "" && OptField(0, 'D') == "" by { EmptyFields(); }
    if DateText(d) != "" {
      var unit := if years != 0 then 'Y' else if months != 0 then 'M' else 'D';
      assert unit in DateText(d);
    }
  }

  lemma EmptyFields()
    ensures OptField(0, 'Y') == "" && OptField(0, 'M') == "" && OptField(0, 'D') == ""
  {
  }

  lemma TimeTextPlain(d: Duration)
    ensures Plain(TimeText(d))
  {
    hide Hms, OptField, SecondsText;
    var (hours, minutes, secs, nanos) := Hms(d);
    OptFieldPlain(hours, 'H');
    OptFieldPlain(minutes, 'M');
    SecondsTextPlain(secs, nanos);
  }

  lemma SecondsTextPlain(secs: int, nanos: int)
    ensures Plain(SecondsText(secs, nanos))
  {
    hide Trimmed, Padded, Digits;
  }

  /** Reading a printed body: the date part ends at the first `T`. */
  lemma MeaningOf(date: string, time: string)
    requires Plain(date) && Plain(time) && (date != "" ==> exists i :: 0 <= i < |date| && Alphabetic(date[i]))
    requires DateFields(date, 0, 0).Ok? && TimeFields(time, 0, 0).Ok?
    ensures var text := "P" + date + (if time != "" then "T" + time else "");
            var (months, days) := DateFields(date, 0, 0).value;
            var (seconds, nanos) := TimeFields(time, 0, 0).value;
            Meaning(text) == Ok(Duration(months, days, seconds, nanos))
  {
    hide DateFields, TimeFields, DatePart, TimePart, FirstT, Plain, Meaning;
    PartsRead(date, time);
    if time != "" {
      BodyCut(date, time);
      MeaningOfBody(date + ['T'] + time, date, time);
      assert "P" + date + ("T" + time) == ['P'] + (date + ['T'] + time);
    } else {
      BodyUncut(date);
      MeaningOfBody(date, date, "");
      assert "P" + date + "" == ['P'] + date;
    }
  }

  lemma MeaningOfBody(body: string, date: string, time: string)
    requires match FirstT(body)
             case None => body == date && time == ""
             case Some(t) => body[..t] == date && body[t + 1..] == time
    requires DatePart(date).Ok? && TimePart(time).Ok?
    ensures var (months, days) := DatePart(date).value;
            var (seconds, nanos) := TimePart(time).value;
            Meaning(['P'] + body) == Ok(Duration(months, days, seconds, nanos))
  {
    hide DatePart, TimePart, FirstT;
    var s := ['P'] + body;
    assert s[0] == 'P' && s[1..] == body;
  }

  lemma PartsRead(date: string, time: string)
    requires Plain(time) && (date != "" ==> exists i :: 0 <= i < |date| && Alphabetic(date[i]))
    ensures DatePart(date) == DateFields(date, 0, 0) && TimePart(time) == TimeFields(time, 0, 0)
  {
    NothingToRead(0, 0);
  }

  lemma BodyCut(date: string, time: string)
    requires Plain(date)
    ensures var body := date + ['T'] + time;
            FirstT(body) == Some(|date|) && body[..|date|] == date && body[|date| + 1..] == time
  {
    hide First;
    FirstSpec(date, 'T', time);
  }

  lemma BodyUncut(date: string)
    requires Plain(date)
    ensures FirstT(date) == None
  {
    hide First;
    FirstSpec(date, 'T', "");
    FirstSpec(date, 't', "");
  }

  /** Printing and parsing: the text is read as the same months and days, and as the same total of
      seconds and nanoseconds exactly when the nanoseconds show. */
  lemma RoundTrip(d: Duration)
    requires FieldsExact(d)
    ensures Meaning(Text(d)).Ok?
    ensures var p := Meaning(Text(d)).value;
            p.months == d.months && p.days == d.days && (ClockPart(p) == ClockPart(d) <==> NanosShown(d))
  {
    hide Meaning, DateFields, TimeFields, DateText, TimeText, Hms, NanosRead, TruncDiv;
    var (hours, minutes, secs, nanos) := Hms(d);
    DatePartRead(d);
    TimePartRead(d);
    HmsParts(d);
    NanosReadExact(secs, nanos);
    DateTextPlain(d);
    TimeTextPlain(d);
    MeaningOf(DateText(d), TimeText(d));
    if DateText(d) == "" && TimeText(d) == "" {
      ZeroText();
      NothingShown(d);
    }
  }

  /** The failing cases, ten seconds less one and a half among them: with more than a second of nanoseconds
      against the seconds, one carried second is not enough, and 8.5 seconds are printed, and read, as 9.5. */
  lemma NotReadBack(d: Duration)
    requires FieldsExact(d) && d.seconds > 0 && d.seconds % 60 >= 2 && -2 * BILLION < d.nanos < -BILLION
    ensures Meaning(Text(d)).Ok? && ClockPart(Meaning(Text(d)).value) != ClockPart(d)
  {
    hide Meaning, Text, FieldsExact, NanosShown, ClockPart;
    RoundTrip(d);
    SignsApart(d);
  }

  lemma SignsApart(d: Duration)
    requires d.seconds > 0 && d.seconds % 60 >= 2 && -2 * BILLION < d.nanos < -BILLION
    ensures !NanosShown(d)
  {
    var total := d.seconds - 1;
    assert Aligned(d.seconds, d.nanos) == (total, d.nanos + BILLION);
    assert Rem(total, 3600) == total % 3600 && Rem(total % 3600, 60) == total % 3600 % 60;
    SecondsOfHour(total);
  }

  lemma SecondsOfHour(n: nat)
    ensures n % 3600 % 60 == n % 60
  {
    assert n == 60 * (60 * (n / 3600)) + n % 3600;
  }

  /** `PT0S` stands for nothing at all. */
  lemma ZeroText()
    ensures Meaning("PT0S") == Ok(ZERO)
  {
    hide Meaning, DateFields, TimeFields;
    ZeroSeconds();
    NothingToRead(0, 0);
    MeaningOf("", "0S");
    assert "P" + "" + ("T" + "0S") == "PT0S";
  }

  lemma NothingShown(d: Duration)
    requires DateText(d) == "" && TimeText(d) == ""
    ensures d.months == 0 && d.days == 0 && ClockPart(d) == 0 && NanosShown(d)
  {
    hide DateText, TimeText, Hms, TruncDiv, ClockPart;
    TextParts(d);
    MonthsInYear(d.months);
    HmsParts(d);
  }

  lemma ZeroSeconds()
    ensures TimeFields("0S", 0, 0) == Ok((0, 0))
  {
    hide SecondsField, NumberEnd;
    PlainSeconds(0);
    assert Int(0) == "0";
    NumberEndOf("0", 'S', "");
    assert "0" + ['S'] + "" == "0S";
    NothingToRead(0, 0);
  }

  // ---------------------------------------------------------------- the other formats

  lemma NoSeparator(n: nat, c: char)
    requires !IsDigit(c)
    ensures forall i :: 0 <= i < |Digits(n)| ==> Digits(n)[i] != c
  {
  }

  lemma DigitsParse(n: nat)
    requires n <= I64_MAX
    ensures ParseI64(Digits(n)) == Ok(n)
  {
    DigitsRoundTrip(n);
  }

  /** `YYYY-MM-DD` stands for as many years, months and days. */
  lemma DateFormRead(y: nat, m: nat, d: nat)
    requires y <= I64_MAX && m <= I64_MAX && d <= I64_MAX
    ensures DatePart(Digits(y) + ['-'] + (Digits(m) + ['-'] + Digits(d))) == Ok((y * 12 + m, d))
  {
    hide Digits, First, DateFields, ParseI64, Split, InDateForm;
    var rest := Digits(m) + ['-'] + Digits(d);
    DateShape(y, m, d);
    NoSeparator(y, '-');
    NoSeparator(m, '-');
    NoSeparator(d, '-');
    SplitOne(Digits(y), '-', rest);
    SplitOne(Digits(m), '-', Digits(d));
    SplitOne(Digits(d), '-', []);
    DigitsParse(y);
    DigitsParse(m);
    DigitsParse(d);
    var parts := Split(Digits(y) + ['-'] + rest, '-');
    assert |parts| == 3 && parts[0] == Digits(y) && parts[1] == Digits(m) && parts[2] == Digits(d);
  }

  lemma DateShape(y: nat, m: nat, d: nat)
    ensures var part := Digits(y) + ['-'] + (Digits(m) + ['-'] + Digits(d));
            part != "" && InDateForm(part)
  {
    hide Digits;
    var part := Digits(y) + ['-'] + (Digits(m) + ['-'] + Digits(d));
    assert part[|Digits(y)|] == '-';
    forall i | 0 <= i < |part| ensures !Alphabetic(part[i]) {
      assert part[i] == '-' || IsDigit(part[i]);
    }
  }

  /** `hh:mm:ss.fff` stands for that time, nanoseconds trimmed or not. */
  lemma ClockFormRead(h: nat, m: nat, s: nat, nanos: nat)
    requires h <= I64_MAX && m <= I64_MAX && s <= I64_MAX && nanos < BILLION
    ensures TimePart(Digits(h) + [':'] + (Digits(m) + [':'] + (Digits(s) + ['.'] + Trimmed(Padded(nanos))))) ==
            Ok((h * 3600 + m * 60 + s, nanos))
  {
    hide Digits, TimeFields, ParseI64, Split, ClockSeconds, Trimmed, Padded, ClockForm;
    var secs := Digits(s) + ['.'] + Trimmed(Padded(nanos));
    var part := Digits(h) + [':'] + (Digits(m) + [':'] + secs);
    assert part[|Digits(h)|] == ':';
    ClockSecondsRead(s, nanos);
    ClockFormPieces(h, m, secs);
  }

  lemma ClockFormPieces(h: nat, m: nat, secs: string)
    requires h <= I64_MAX && m <= I64_MAX && Split(secs, ':') == [secs] && ClockSeconds(secs).Ok?
    ensures var (s, f) := ClockSeconds(secs).value;
            ClockForm(Digits(h) + [':'] + (Digits(m) + [':'] + secs)) == Ok((h * 3600 + m * 60 + s, f))
  {
    hide Digits, ParseI64, Split, ClockSeconds;
    NoSeparator(h, ':');
    NoSeparator(m, ':');
    SplitOne(Digits(h), ':', Digits(m) + [':'] + secs);
    SplitOne(Digits(m), ':', secs);
    var parts := Split(Digits(h) + [':'] + (Digits(m) + [':'] + secs), ':');
    assert |parts| == 3 && parts[0] == Digits(h) && parts[1] == Digits(m) && parts[2] == secs;
    DigitsParse(h);
    DigitsParse(m);
  }

  lemma ClockSecondsRead(s: nat, nanos: nat)
    requires s <= I64_MAX && nanos < BILLION
    ensures var secs := Digits(s) + ['.'] + Trimmed(Padded(nanos));
            Split(secs, ':') == [secs] && ClockSeconds(secs) == Ok((s, nanos))
  {
    hide Digits, First, ParseI64, Split, FracNanos, Trimmed, Padded;
    var frac := Trimmed(Padded(nanos));
    var secs := Digits(s) + ['.'] + frac;
    NoSeparator(s, ':');
    NoSeparator(s, '.');
    SplitOne(secs, ':', []);
    FirstSpec(Digits(s), '.', frac);
    assert secs[..|Digits(s)|] == Digits(s) && secs[|Digits(s)| + 1..] == frac;
    DigitsParse(s);
    NanosLimit();
    FractionRoundTrip(nanos);
  }

  /** No minus sign in front of a fraction that shows, or one part that is no number anyway. */
  predicate SignHarmless(text: string) {
    match First(text, '.')
    case None => true
    case Some(dot) =>
      var whole, frac := text[..dot], FracNanos(text[dot + 1..]);
      !Negative(text) || frac.Err? || (whole != "-" && (ParseI64(whole).Err? || frac == Ok(0)))
  }

  /** The two formats read the same seconds from a text exactly then. */
  lemma FormatsAgree(text: string)
    ensures ClockSeconds(text) == SecondsField(text) <==> SignHarmless(text)
  {
    hide First, DigitsValue, NineDigits;
    if First(text, '.').Some? {
      FirstIs(text, '.');
      var whole := text[..First(text, '.').value];
      assert Negative(whole) == Negative(text) && (whole == "" ==> !Negative(text));
    }
  }

  /** The two formats do not read a minus sign alike: `-1.5` seconds are -1.5 s in front of an `S` and -0.5 s
      behind a colon. */
  lemma MinusBehindColon()
    ensures SecondsField("-1.5") == Ok((-1, -500_000_000)) && ClockSeconds("-1.5") == Ok((-1, 500_000_000))
  {
    var five := "500000000";
    FirstSpec("-1", '.', "5");
    assert "-1" + ['.'] + "5" == "-1.5";
    assert "-1.5"[..2] == "-1" && "-1.5"[3..] == "5" && "-1"[1..] == "1";
    assert NineDigits("5") == five;
    assert DigitsValue("1") == 1;
    HalfSecond();
  }
}
