/** Durations as text (src/temporal.rs:1700-1768, 1848-1982, 2065-2235): the designator format of
    section 4.4.3.2 of ISO 8601:2004, each component with a sign of its own. */
module DurationText {
  import opened Prelude
  import opened Durations

  // ---------------------------------------------------------------- decimal numbers

  predicate IsDigit(c: char) {
    '0' <= c <= '9'
  }

  function DigitChar(n: int): (c: char)
    requires 0 <= n < 10
    ensures IsDigit(c) && DigitValue(c) == n
  {
    '0' + n as char
  }

  function DigitValue(c: char): (n: int)
    requires IsDigit(c)
    ensures 0 <= n < 10 && (n == 0 <==> c == '0')
  {
    c as int - '0' as int
  }

  predicate AllDigits(s: string) {
    forall i :: 0 <= i < |s| ==> IsDigit(s[i])
  }

  /** A natural number in decimal. */
  function Digits(n: nat): (s: string)
    ensures s != [] && AllDigits(s)
  {
    if n < 10 then [DigitChar(n)] else Digits(n / 10) + [DigitChar(n % 10)]
  }

  function DigitsValue(s: string): (n: nat)
    requires AllDigits(s)
  {
    if s == [] then 0 else DigitsValue(s[..|s| - 1]) * 10 + DigitValue(s[|s| - 1])
  }

  lemma {:induction false} DigitsRoundTrip(n: nat)
    ensures DigitsValue(Digits(n)) == n
  {
    if n >= 10 {
      DigitsRoundTrip(n / 10);
      var s := Digits(n);
      assert s[..|s| - 1] == Digits(n / 10);
    }
  }

  function Pow10(w: nat): (p: nat)
    ensures p >= 1
  {
    if w == 0 then 1 else 10 * Pow10(w - 1)
  }

  lemma {:induction false} DigitsLength(n: nat, w: nat)
    requires w >= 1
    ensures |Digits(n)| <= w <==> n < Pow10(w)
  {
    if n >= 10 {
      if w > 1 {
        DigitsLength(n / 10, w - 1);
      } else {
        assert Pow10(1) == 10;
      }
    } else {
      assert Pow10(w - 1) >= 1;
    }
  }

  /** An `i64` as Rust prints it. */
  function Int(n: int): string {
    if n < 0 then "-" + Digits(-n) else Digits(n)
  }

  function Zeros(k: nat): (s: string)
    ensures |s| == k && AllDigits(s)
  {
    seq(k, i => '0')
  }

  lemma {:induction false} LeadingZeros(k: nat, s: string)
    requires AllDigits(s)
    ensures DigitsValue(Zeros(k) + s) == DigitsValue(s)
    decreases k + |s|
  {
    var t := Zeros(k) + s;
    if s != [] {
      assert t[..|t| - 1] == Zeros(k) + s[..|s| - 1];
      LeadingZeros(k, s[..|s| - 1]);
    } else if k > 0 {
      assert t[..|t| - 1] == Zeros(k - 1) + s;
      LeadingZeros(k - 1, s);
    }
  }

  // ---------------------------------------------------------------- fractions of a second

  /** `{:09}`. */
  function Padded(n: nat): (s: string)
    ensures AllDigits(s) && |s| >= 9
  {
    var s := Digits(n);
    if |s| < 9 then Zeros(9 - |s|) + s else s
  }

  /** `trim_end_matches('0')`. */
  function Trimmed(s: string): (t: string)
    requires AllDigits(s)
    ensures AllDigits(t) && |t| <= |s| && s == t + Zeros(|s| - |t|)
    ensures t == "" || t[|t| - 1] != '0'
  {
    if s != [] && s[|s| - 1] == '0' then
      assert s == s[..|s| - 1] + Zeros(1);
      Trimmed(s[..|s| - 1])
    else s
  }

  /** The nine digits that `parse_frac_nanos` keeps. */
  function NineDigits(frac: string): (s: string)
    ensures |s| == 9
  {
    if |frac| < 9 then frac + Zeros(9 - |frac|) else frac[..9]
  }

  datatype ParseError = NotADuration | BadNumber | UnexpectedUnit | BadDateForm
    // Inputs whose meaning this model leaves out: fractions of units other than seconds, and numbers that
    // floating point rounds.
    | NotModelled

  type Parsed<+T> = Outcome<T, ParseError>

  /** Digits behind an optional plus sign, as `parse` takes them for an unsigned number. */
  function UnsignedValue(s: string): Parsed<nat> {
    var u := if s != "" && s[0] == '+' then s[1..] else s;
    if u != "" && AllDigits(u) then Ok(DigitsValue(u)) else Err(BadNumber)
  }

  function FracNanos(frac: string): Parsed<nat> {
    UnsignedValue(NineDigits(frac))
  }

  /** `parse_frac_nanos`. */
  method ParseFracNanos(frac: string) returns (r: Parsed<nat>)
    ensures r == FracNanos(frac)
  {
    hide UnsignedValue;
    var padded := frac;
    while |padded| < 9
      invariant |frac| <= |padded|
      invariant |padded| > |frac| ==> |padded| <= 9
      invariant padded == frac + Zeros(|padded| - |frac|)
    {
      padded := padded + ['0'];
    }
    padded := padded[..9];
    assert padded == NineDigits(frac);
    return UnsignedValue(padded);
  }

  /** Fractional digits, trimmed, read back as they were exactly when there are no more than nine. */
  lemma FractionRoundTrip(n: nat)
    requires n < Pow10(9)
    ensures FracNanos(Trimmed(Padded(n))) == Ok(n)
  {
    DigitsLength(n, 9);
    var s, t := Padded(n), Trimmed(Padded(n));
    assert |s| == 9;
    assert NineDigits(t) == s by {
      assert t + Zeros(9 - |t|) == s;
    }
    LeadingZeros(9 - |Digits(n)|, Digits(n));
    DigitsRoundTrip(n);
  }

  lemma {:induction false} DigitsValueBound(s: string)
    requires AllDigits(s)
    ensures DigitsValue(s) < Pow10(|s|)
  {
    if s != [] {
      DigitsValueBound(s[..|s| - 1]);
    }
  }

  lemma NanosLimit()
    ensures Pow10(9) == BILLION
  {
    assert Pow10(3) == 1_000;
    assert Pow10(6) == 1_000_000;
  }

  lemma HalfSecond()
    ensures DigitsValue("500000000") == 500_000_000
  {
    var five := "500000000";
    assert five[..8] == "50000000" && five[..8][..7] == "5000000" && "5000000"[..6] == "500000";
    assert "500000"[..5] == "50000" && "50000"[..4] == "5000" && "5000"[..3] == "500";
    assert "500"[..2] == "50" && "50"[..1] == "5" && "5"[..0] == "";
    assert DigitsValue("5") == 5 && DigitsValue("50") == 50 && DigitsValue("500") == 500;
    assert DigitsValue("5000") == 5000 && DigitsValue("50000") == 50000 && DigitsValue("500000") == 500000;
    assert DigitsValue("5000000") == 5000000 && DigitsValue("50000000") == 50000000;
  }

  // ---------------------------------------------------------------- printing

  /** Rust's `/` and `%`. */
  function Rem(a: int, b: int): int
    requires b > 0
  {
    a - b * TruncDiv(a, b)
  }

  function OptField(n: int, unit: char): string {
    if n != 0 then Int(n) + [unit] else ""
  }

  function Abs(n: int): nat {
    if n < 0 then -n else n
  }

  /** Seconds and nanoseconds with signs brought together by one carried second. */
  function Aligned(seconds: int, nanos: int): (int, int) {
    if seconds < 0 && nanos > 0 then (seconds + 1, nanos - BILLION)
    else if seconds > 0 && nanos < 0 then (seconds - 1, nanos + BILLION)
    else (seconds, nanos)
  }

  function SecondsText(secs: int, nanos: int): string {
    if secs == 0 && nanos == 0 then ""
    else if nanos != 0 then
      (if secs < 0 || (secs == 0 && nanos < 0) then "-" else "") + Digits(Abs(secs)) + "." +
          Trimmed(Padded(Abs(nanos))) + "S"
    else Int(secs) + "S"
  }

  function DateText(d: Duration): string {
    OptField(TruncDiv(d.months, 12), 'Y') + OptField(Rem(d.months, 12), 'M') + OptField(d.days, 'D')
  }

  /** Hours, minutes, seconds and nanoseconds of the clock part. */
  function Hms(d: Duration): (int, int, int, int) {
    var (total, nanos) := Aligned(d.seconds, d.nanos);
    var rem := Rem(total, 3600);
    (TruncDiv(total, 3600), TruncDiv(rem, 60), Rem(rem, 60), nanos)
  }

  function TimeText(d: Duration): string {
    var (hours, minutes, secs, nanos) := Hms(d);
    OptField(hours, 'H') + OptField(minutes, 'M') + SecondsText(secs, nanos)
  }

  function Text(d: Duration): string {
    if DateText(d) == "" && TimeText(d) == "" then "PT0S"
    else "P" + DateText(d) + (if TimeText(d) != "" then "T" + TimeText(d) else "")
  }

  /** `if n != 0 { write!(f, "{n}X") }`. */
  method WriteField(f: string, n: int, unit: char) returns (f': string)
    ensures f' == f + OptField(n, unit)
  {
    hide Int;
    if n != 0 {
      return f + Int(n) + [unit];
    }
    return f;
  }

  method WriteSeconds(f: string, secs: int, nanos: int) returns (f': string)
    ensures f' == f + SecondsText(secs, nanos)
  {
    hide Trimmed, Padded, Digits, Int, SecondsText;
    SecondsTextWhole(secs);
    if secs == 0 && nanos == 0 {
      return f;
    }
    if nanos == 0 {
      return f + Int(secs) + "S";
    }
    var trimmed := Trimmed(Padded(Abs(nanos)));
    var neg := secs < 0 || (secs == 0 && nanos < 0);
    SecondsTextParts(secs, nanos);
    if neg {
      return f + ("-" + Digits(Abs(secs)) + "." + trimmed + "S");
    }
    return f + (Int(secs) + "." + trimmed + "S");
  }

  lemma SecondsTextWhole(secs: int)
    ensures SecondsText(secs, 0) == if secs == 0 then "" else Int(secs) + "S"
  {
  }

  lemma SecondsTextParts(secs: int, nanos: int)
    requires nanos != 0
    ensures SecondsText(secs, nanos) ==
            (if secs < 0 || (secs == 0 && nanos < 0) then "-" + Digits(Abs(secs)) else Int(secs)) + "." +
            Trimmed(Padded(Abs(nanos))) + "S"
  {
    hide Digits, Trimmed, Padded;
  }

  /** `CypherDuration`'s `Display`. */
  method Display(d: Duration) returns (f: string)
    ensures f == Text(d)
  {
    hide TruncDiv, Rem, SecondsText, Aligned, OptField;
    var years, months := TruncDiv(d.months, 12), Rem(d.months, 12);
    var (totalSeconds, nanos) := Aligned(d.seconds, d.nanos);
    var hours := TruncDiv(totalSeconds, 3600);
    var rem := Rem(totalSeconds, 3600);
    var minutes, secs := TruncDiv(rem, 60), Rem(rem, 60);
    var hasDatePart := years != 0 || months != 0 || d.days != 0;
    var hasTimePart := hours != 0 || minutes != 0 || secs != 0 || nanos != 0;
    TextParts(d);
    if !hasDatePart && !hasTimePart {
      return "PT0S";
    }
    f := WriteField("P", years, 'Y');
    f := WriteField(f, months, 'M');
    f := WriteField(f, d.days, 'D');
    assert f == "P" + DateText(d);
    if hasTimePart {
      f := f + "T";
      f := WriteField(f, hours, 'H');
      f := WriteField(f, minutes, 'M');
      f := WriteSeconds(f, secs, nanos);
      assert f == "P" + DateText(d) + ("T" + TimeText(d));
    }
  }

  lemma SecondsTextEmpty(secs: int, nanos: int)
    ensures SecondsText(secs, nanos) == "" <==> secs == 0 && nanos == 0
  {
  }

  lemma TextParts(d: Duration)
    ensures DateText(d) != "" <==> TruncDiv(d.months, 12) != 0 || Rem(d.months, 12) != 0 || d.days != 0
    ensures var (hours, minutes, secs, nanos) := Hms(d);
            TimeText(d) != "" <==> hours != 0 || minutes != 0 || secs != 0 || nanos != 0
  {
    hide TruncDiv, Rem, Aligned, Int, Hms, Trimmed, Padded, Digits;
  }
}
