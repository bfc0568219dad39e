/** What texts of durations mean (src/temporal.rs:1848-1982, 2065-2235), said of whole texts: fields in any order
    and either case add up, and the forms with dashes and colons. */
module ReadingLaws {
  import opened Prelude
  import opened Durations
  import opened DurationText
  import opened DurationParsing

  // ---------------------------------------------------------------- fields

  /** A whole number and its unit letter. */
  datatype Part = Part(n: int, unit: char)

  function Spell(parts: seq<Part>): string {
    if parts == [] then "" else Int(parts[0].n) + [parts[0].unit] + Spell(parts[1..])
  }

  /** A year is twelve months. */
  function UnitMonths(unit: char): int {
    if unit in "Yy" then 12 else if unit in "Mm" then 1 else 0
  }

  /** A week is seven days. */
  function UnitDays(unit: char): int {
    if unit in "Ww" then 7 else if unit in "Dd" then 1 else 0
  }

  /** An hour is sixty minutes of sixty seconds. */
  function UnitSeconds(unit: char): int {
    if unit in "Hh" then 3_600 else if unit in "Mm" then 60 else 1
  }

  function MonthsIn(parts: seq<Part>): int {
    if parts == [] then 0 else parts[0].n * UnitMonths(parts[0].unit) + MonthsIn(parts[1..])
  }

  function DaysIn(parts: seq<Part>): int {
    if parts == [] then 0 else parts[0].n * UnitDays(parts[0].unit) + DaysIn(parts[1..])
  }

  function SecondsIn(parts: seq<Part>): int {
    if parts == [] then 0 else parts[0].n * UnitSeconds(parts[0].unit) + SecondsIn(parts[1..])
  }

  /** Numbers of days and the like that floating point holds. */
  predicate DateParts(parts: seq<Part>) {
    forall i :: 0 <= i < |parts| ==>
      parts[i].unit in "YyMmWwDd" && Abs(parts[i].n * (if parts[i].unit in "Ww" then 7 else 1)) <= EXACT
  }

  predicate TimeParts(parts: seq<Part>) {
    forall i :: 0 <= i < |parts| ==> parts[i].unit in "HhMmSs" && Abs(parts[i].n) <= EXACT
  }

  /** Fields of the date part add up, in any order and as often as they come, and what follows is read on. */
  lemma {:induction false} DatePartsRead(parts: seq<Part>, rest: string, months: int, days: int)
    requires DateParts(parts)
    ensures DateFields(Spell(parts) + rest, months, days) ==
            DateFields(rest, months + MonthsIn(parts), days + DaysIn(parts))
    decreases |parts|
  {
    hide DateFields, Int, UnitMonths, UnitDays;
    if parts == [] {
      assert Spell(parts) + rest == rest;
    } else {
      var part, tail := parts[0], Spell(parts[1..]) + rest;
      assert Spell(parts) + rest == Int(part.n) + [part.unit] + tail;
      OneDatePart(part, tail, months, days);
      DatePartsRead(parts[1..], rest, months + part.n * UnitMonths(part.unit), days + part.n * UnitDays(part.unit));
    }
  }

  lemma OneDatePart(part: Part, tail: string, months: int, days: int)
    requires DateParts([part])
    ensures DateFields(Int(part.n) + [part.unit] + tail, months, days) ==
            DateFields(tail, months + part.n * UnitMonths(part.unit), days + part.n * UnitDays(part.unit))
  {
    hide Whole, NumberEnd, Int;
    assert [part][0] == part;
    IntIsNumber(part.n);
    WholeOfInt(part.n);
    NumberEndOf(Int(part.n), part.unit, tail);
  }

  /** Likewise of the time part. */
  lemma {:induction false} TimePartsRead(parts: seq<Part>, rest: string, seconds: int, nanos: int)
    requires TimeParts(parts)
    ensures TimeFields(Spell(parts) + rest, seconds, nanos) == TimeFields(rest, seconds + SecondsIn(parts), nanos)
    decreases |parts|
  {
    hide TimeFields, Int, UnitSeconds;
    if parts == [] {
      assert Spell(parts) + rest == rest;
    } else {
      var part, tail := parts[0], Spell(parts[1..]) + rest;
      assert Spell(parts) + rest == Int(part.n) + [part.unit] + tail;
      OneTimePart(part, tail, seconds, nanos);
      TimePartsRead(parts[1..], rest, seconds + part.n * UnitSeconds(part.unit), nanos);
    }
  }

  lemma OneTimePart(part: Part, tail: string, seconds: int, nanos: int)
    requires TimeParts([part])
    ensures TimeFields(Int(part.n) + [part.unit] + tail, seconds, nanos) ==
            TimeFields(tail, seconds + part.n * UnitSeconds(part.unit), nanos)
  {
    hide Whole, NumberEnd, Int, SecondsField;
    assert [part][0] == part;
    IntIsNumber(part.n);
    WholeOfInt(part.n);
    WholeSecondsRead(part.n);
    NumberEndOf(Int(part.n), part.unit, tail);
  }

  /** An `i64` is read as it is printed, and no other number is; a plus sign may stand in front. */
  lemma IntegersRead(n: int)
    ensures ParseI64(Int(n)) == if FitsI64(n) then Ok(n) else Err(BadNumber)
    ensures n >= 0 ==> ParseI64("+" + Int(n)) == ParseI64(Int(n))
  {
    hide Digits, DigitsValue;
    IntIsNumber(n);
    DigitsRoundTrip(Abs(n));
    if n >= 0 {
      assert ("+" + Int(n))[1..] == Int(n);
      assert Int(n) == Digits(n) && IsDigit(Digits(n)[0]);
    }
  }

  lemma WholeSecondsRead(n: int)
    requires Abs(n) <= EXACT
    ensures SecondsField(Int(n)) == Ok((n, 0))
  {
    hide ParseI64, Int;
    IntegersRead(n);
    NoPoint(n);
  }

  /** A number of seconds with a fraction, under either letter, counts as `SecondsField` has it. */
  lemma DecimalPartRead(num: string, unit: char, rest: string, seconds: int, nanos: int)
    requires IsNumber(num) && (unit == 'S' || unit == 's') && SecondsField(num).Ok?
    ensures var (s, f) := SecondsField(num).value;
            TimeFields(num + [unit] + rest, seconds, nanos) == TimeFields(rest, seconds + s, nanos + f)
  {
    hide SecondsField, NumberEnd;
    NumberEndOf(num, unit, rest);
  }

  /** Another letter is an error. */
  lemma OtherUnits(n: int, unit: char, rest: string, a: int, b: int)
    requires Abs(n) <= EXACT && !NumChar(unit)
    ensures unit !in "YyMmWwDd" ==> DateFields(Int(n) + [unit] + rest, a, b) == Err(UnexpectedUnit)
    ensures unit !in "HhMmSs" ==> TimeFields(Int(n) + [unit] + rest, a, b) == Err(UnexpectedUnit)
  {
    hide Whole, NumberEnd, Int, SecondsField;
    IntIsNumber(n);
    WholeOfInt(n);
    NumberEndOf(Int(n), unit, rest);
  }

  /** A unit without a number is one too. */
  lemma MissingNumber(unit: char, rest: string, a: int, b: int)
    requires Alphabetic(unit)
    ensures DateFields([unit] + rest, a, b) == Err(BadNumber)
    ensures unit in "HhMmSs" ==> TimeFields([unit] + rest, a, b) == Err(BadNumber)
  {
    var s := [unit] + rest;
    assert NumberEnd(s) == 0 && s[..0] == "" && First("", '.') == None;
  }

  // ---------------------------------------------------------------- whole texts

  /** `P` or `p`, fields of the date part, and behind a `T` or `t` fields of the time part. */
  lemma TextOfParts(p: char, t: char, date: seq<Part>, time: seq<Part>)
    requires p in "Pp" && t in "Tt" && DateParts(date) && TimeParts(time)
    ensures Meaning([p] + Spell(date)) == Ok(Duration(MonthsIn(date), DaysIn(date), 0, 0))
    ensures Meaning([p] + Spell(date) + [t] + Spell(time)) ==
            Ok(Duration(MonthsIn(date), DaysIn(date), SecondsIn(time), 0))
  {
    hide DateFields, TimeFields, FirstT, Spell, DatePart, TimePart;
    DatePartOfParts(date);
    TimePartOfParts(time);
    assert ([p] + Spell(date))[1..] == Spell(date);
    assert ([p] + Spell(date) + [t] + Spell(time))[1..] == Spell(date) + [t] + Spell(time);
    Separated(date, t, time);
    assert TimePart("") == Ok((0, 0)) by { EmptyTime(); }
  }

  lemma EmptyTime()
    ensures TimePart("") == Ok((0, 0))
  {
  }

  lemma DatePartOfParts(date: seq<Part>)
    requires DateParts(date)
    ensures DatePart(Spell(date)) == Ok((MonthsIn(date), DaysIn(date)))
  {
    hide DateFields, Int;
    DatePartsRead(date, "", 0, 0);
    NothingToRead(MonthsIn(date), DaysIn(date));
    assert Spell(date) + "" == Spell(date);
    if date != [] {
      var i := |Int(date[0].n)|;
      assert Spell(date)[i] == date[0].unit && Alphabetic(Spell(date)[i]);
    }
  }

  lemma TimePartOfParts(time: seq<Part>)
    requires TimeParts(time)
    ensures TimePart(Spell(time)) == Ok((SecondsIn(time), 0))
  {
    hide TimeFields, Spell;
    TimePartsRead(time, "", 0, 0);
    NothingToRead(SecondsIn(time), 0);
    assert Spell(time) + "" == Spell(time);
    TimeSpelling(time);
    EmptyTime();
  }

  lemma {:induction false} TimeSpelling(parts: seq<Part>)
    requires TimeParts(parts)
    ensures ':' !in Spell(parts) && (parts == [] <==> Spell(parts) == "")
    ensures Spell(parts) == "" ==> SecondsIn(parts) == 0
  {
    if parts != [] {
      TimeSpelling(parts[1..]);
      IntCharacters(parts[0].n);
    }
  }

  lemma IntCharacters(n: int)
    ensures forall c :: c in Int(n) ==> c == '-' || IsDigit(c)
  {
    assert AllDigits(Digits(Abs(n)));
  }

  lemma {:induction false} DateSpelling(parts: seq<Part>)
    requires DateParts(parts)
    ensures 'T' !in Spell(parts) && 't' !in Spell(parts)
  {
    if parts != [] {
      DateSpelling(parts[1..]);
      IntCharacters(parts[0].n);
    }
  }

  lemma {:induction false} TimeHasNoT(parts: seq<Part>)
    requires TimeParts(parts)
    ensures 'T' !in Spell(parts)
  {
    if parts != [] {
      TimeHasNoT(parts[1..]);
      IntCharacters(parts[0].n);
    }
  }

  lemma Separated(date: seq<Part>, t: char, time: seq<Part>)
    requires t in "Tt" && DateParts(date) && TimeParts(time)
    ensures FirstT(Spell(date)).None?
    ensures var body, i := Spell(date) + [t] + Spell(time), |Spell(date)|;
            FirstT(body) == Some(i) && body[..i] == Spell(date) && body[i + 1..] == Spell(time)
  {
    hide Spell, First;
    DateSpelling(date);
    TimeHasNoT(time);
    var head, tail := Spell(date), Spell(time);
    assert forall i :: 0 <= i < |head| ==> head[i] in head;
    assert forall i :: 0 <= i < |tail| ==> tail[i] in tail;
    FirstSpec(head, 'T', tail);
    FirstSpec(head, 't', tail);
    if t == 't' {
      FirstSpec(head + ['t'] + tail, 'T', "");
    }
  }

  /** Two weeks. */
  lemma TwoWeeks()
    ensures Meaning("P2W") == Ok(Duration(0, 14, 0, 0)) && Meaning("p2w") == Ok(Duration(0, 14, 0, 0))
  {
    hide Meaning;
    var upper, lower := [Part(2, 'W')], [Part(2, 'w')];
    assert upper[1..] == [] && lower[1..] == [];
    assert Int(2) == "2";
    assert Spell(upper) == "2W" && Spell(lower) == "2w";
    TextOfParts('P', 'T', upper, []);
    TextOfParts('p', 'T', lower, []);
    assert "P" + "2W" == "P2W" && "p" + "2w" == "p2w";
  }

  /** A number without a unit at the end of a part is passed over. */
  lemma TrailingNumber(parts: seq<Part>, num: string, a: int, b: int)
    requires DateParts(parts) && (num == "" || IsNumber(num))
    ensures DateFields(Spell(parts) + num, a, b) == Ok((a + MonthsIn(parts), b + DaysIn(parts)))
  {
    hide Spell;
    DatePartsRead(parts, num, a, b);
    NumberAlone(num);
  }

  lemma NumberAlone(num: string)
    requires num == "" || IsNumber(num)
    ensures NumberEnd(num) == |num|
  {
    if num != "" {
      SpanAlone(Unsigned(num));
    }
  }

  lemma {:induction false} SpanAlone(s: string)
    requires forall i :: 0 <= i < |s| ==> NumChar(s[i])
    ensures NumSpan(s) == |s|
  {
    if s != "" {
      SpanAlone(s[1..]);
    }
  }

  /** What does not begin with the letter is no duration, and nothing else is refused for that. */
  lemma NotDurations(s: string)
    ensures Meaning(s) == Err(NotADuration) <==> s == "" || (s[0] != 'P' && s[0] != 'p')
  {
    hide FirstT, DatePart, TimePart;
    if s != "" {
      var body := s[1..];
      match FirstT(body) {
        case None => PartErrors(body, "");
        case Some(t) => PartErrors(body[..t], body[t + 1..]);
      }
    }
  }

  lemma PartErrors(date: string, time: string)
    ensures DatePart(date) != Err(NotADuration) && TimePart(time) != Err(NotADuration)
  {
    hide Split, ParseI64, FracNanos, DateFields, TimeFields, First, ClockForm;
    DateFieldErrors(date, 0, 0);
    TimeFieldErrors(time, 0, 0);
    NumberErrors();
    ClockErrors(time);
  }

  lemma ClockErrors(time: string)
    ensures ClockForm(time) != Err(NotADuration)
  {
    hide Split, ParseI64, FracNanos, First;
    NumberErrors();
    var parts := Split(time, ':');
    SplitSome(time, ':');
    var h := ParseI64(parts[0]);
    if |parts| >= 2 {
      var m := ParseI64(parts[1]);
      assert h.Err? ==> ClockForm(time) == Err(h.error);
      assert h.Ok? && m.Err? ==> ClockForm(time) == Err(m.error);
      if |parts| == 3 {
        assert ClockSeconds(parts[2]) != Err(NotADuration);
      }
    }
  }

  lemma NumberErrors()
    ensures forall n: string :: ParseI64(n) != Err(NotADuration)
    ensures forall n: string :: FracNanos(n) != Err(NotADuration)
    ensures forall n: string :: Whole(n) != Err(NotADuration)
  {
  }

  lemma {:induction false} DateFieldErrors(s: string, a: int, b: int)
    ensures DateFields(s, a, b) != Err(NotADuration)
    decreases |s|
  {
    hide Whole;
    NumberErrors();
    var e := NumberEnd(s);
    if e < |s| && DateField(s[..e], s[e]).Ok? {
      var (m, d) := DateField(s[..e], s[e]).value;
      DateFieldErrors(s[e + 1..], a + m, b + d);
    }
  }

  lemma {:induction false} TimeFieldErrors(s: string, a: int, b: int)
    ensures TimeFields(s, a, b) != Err(NotADuration)
    decreases |s|
  {
    hide Whole, SecondsField;
    NumberErrors();
    SecondsErrors();
    var e := NumberEnd(s);
    if e < |s| && TimeField(s[..e], s[e]).Ok? {
      var (n, f) := TimeField(s[..e], s[e]).value;
      TimeFieldErrors(s[e + 1..], a + n, b + f);
    }
  }

  lemma SecondsErrors()
    ensures forall n: string :: SecondsField(n) != Err(NotADuration)
  {
    hide ParseI64, FracNanos, First;
    NumberErrors();
  }

  // ---------------------------------------------------------------- fractions and colons

  /** Behind the point, digits count as nanoseconds with zeros up to nine. */
  lemma FractionsRead(digits: string)
    requires AllDigits(digits) && |digits| <= 9
    ensures FracNanos(digits) == Ok(DigitsValue(digits) * Pow10(9 - |digits|))
  {
    hide DigitsValue, Pow10, UnsignedValue;
    PaddedRead(digits, 9 - |digits|);
    assert NineDigits(digits) == digits + Zeros(9 - |digits|);
  }

  /** From the tenth on they count for nothing, whatever they are. */
  lemma LongFractionsRead(digits: string, more: string)
    requires AllDigits(digits) && |digits| == 9
    ensures FracNanos(digits + more) == Ok(DigitsValue(digits))
  {
    hide DigitsValue;
    assert NineDigits(digits + more) == digits && IsDigit(digits[0]);
  }

  /** A plus sign is passed over, and takes the place of a digit. */
  lemma PlusInFraction(digits: string)
    requires AllDigits(digits) && |digits| <= 8
    ensures FracNanos("+" + digits) == Ok(DigitsValue(digits) * Pow10(8 - |digits|))
  {
    hide DigitsValue, Pow10, UnsignedValue, NineDigits;
    var k := 8 - |digits|;
    PaddedRead(digits, k);
    PlusPadded(digits);
    assert FracNanos("+" + digits) == UnsignedValue(NineDigits("+" + digits));
  }

  lemma PlusPadded(digits: string)
    requires |digits| <= 8
    ensures NineDigits("+" + digits) == "+" + (digits + Zeros(8 - |digits|))
  {
  }

  lemma PaddedRead(digits: string, k: nat)
    requires AllDigits(digits) && |digits| + k > 0
    ensures UnsignedValue(digits + Zeros(k)) == Ok(DigitsValue(digits) * Pow10(k))
    ensures UnsignedValue("+" + (digits + Zeros(k))) == Ok(DigitsValue(digits) * Pow10(k))
  {
    hide DigitsValue, Pow10;
    TrailingZeros(digits, k);
    var all := digits + Zeros(k);
    assert AllDigits(all) && all != "" && IsDigit(all[0]);
    assert ("+" + all)[1..] == all;
  }

  lemma {:induction false} TrailingZeros(s: string, k: nat)
    requires AllDigits(s)
    ensures DigitsValue(s + Zeros(k)) == DigitsValue(s) * Pow10(k)
    decreases k
  {
    var t := s + Zeros(k);
    if k == 0 {
      assert t == s;
    } else {
      assert t[..|t| - 1] == s + Zeros(k - 1);
      TrailingZeros(s, k - 1);
    }
  }

  /** Hours and minutes alone; and with a fourth piece the seconds are passed over with it. */
  lemma ColonsRead(h: int, m: int, seconds: string, more: string)
    requires FitsI64(h) && FitsI64(m) && ':' !in seconds
    ensures TimePart(Int(h) + [':'] + Int(m)) == Ok((h * 3_600 + m * 60, 0))
    ensures TimePart(Int(h) + [':'] + (Int(m) + [':'] + (seconds + [':'] + more))) == Ok((h * 3_600 + m * 60, 0))
  {
    hide Int, Split, ParseI64;
    IntegersRead(h);
    IntegersRead(m);
    IntHasNoColon(h);
    IntHasNoColon(m);
    assert forall i :: 0 <= i < |seconds| ==> seconds[i] in seconds;
    var tail := seconds + [':'] + more;
    SplitOne(Int(h), ':', Int(m));
    SplitOne(Int(h), ':', Int(m) + [':'] + tail);
    SplitOne(Int(m), ':', tail);
    SplitOne(seconds, ':', more);
    SplitSome(more, ':');
    assert (Int(h) + [':'] + Int(m))[|Int(h)|] == ':';
    assert (Int(h) + [':'] + (Int(m) + [':'] + tail))[|Int(h)|] == ':';
  }

  lemma IntHasNoColon(n: int)
    ensures forall i :: 0 <= i < |Int(n)| ==> Int(n)[i] != ':'
  {
    IntCharacters(n);
    assert forall i :: 0 <= i < |Int(n)| ==> Int(n)[i] in Int(n);
  }

  lemma SplitSome(s: string, c: char)
    ensures |Split(s, c)| >= 1
  {
  }
}
