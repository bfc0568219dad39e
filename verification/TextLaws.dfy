/** What a printed duration looks like (src/temporal.rs:1700-1768), said of the text itself: which fields there
    are, in which order, with which numbers. */
module TextLaws {
  import opened Durations
  import opened DurationText

  // ---------------------------------------------------------------- numbers

  /** Decimal digits of a number: no others have its value and no zero in front. */
  lemma {:induction false} DigitsUnique(s: string, n: nat)
    requires s != "" && AllDigits(s) && DigitsValue(s) == n && (|s| > 1 ==> s[0] != '0')
    ensures s == Digits(n)
    decreases |s|
  {
    var init := s[..|s| - 1];
    if |s| > 1 {
      FirstDigitCounts(init);
      DigitsUnique(init, n / 10);
      SameDigit(s[|s| - 1], n % 10);
    } else {
      assert init == "";
      SameDigit(s[0], n);
    }
  }

  lemma SameDigit(c: char, n: int)
    requires IsDigit(c) && DigitValue(c) == n
    ensures c == DigitChar(n)
  {
  }

  lemma {:induction false} FirstDigitCounts(s: string)
    requires s != "" && AllDigits(s) && s[0] != '0'
    ensures DigitsValue(s) > 0
  {
    if |s| > 1 {
      FirstDigitCounts(s[..|s| - 1]);
    } else {
      assert s[..|s| - 1] == "";
    }
  }

  lemma {:induction false} NoZeroInFront(n: nat)
    ensures |Digits(n)| > 1 ==> Digits(n)[0] != '0'
  {
    if n >= 10 {
      NoZeroInFront(n / 10);
      if n < 100 {
        assert Digits(n / 10) == [DigitChar(n / 10)];
      }
    }
  }

  /** As many digits and the same value are the same digits. */
  lemma {:induction false} SameLengthDigits(s: string, t: string)
    requires AllDigits(s) && AllDigits(t) && |s| == |t| && DigitsValue(s) == DigitsValue(t)
    ensures s == t
  {
    if s != "" {
      var i := |s| - 1;
      SameLengthDigits(s[..i], t[..i]);
      assert s == s[..i] + [s[i]] && t == t[..i] + [t[i]];
      SameDigit(s[i], DigitValue(t[i]));
    }
  }

  /** The digits behind the point: with zeros up to nine digits, or up to all there are if there are more, they are
      the number; and they do not end in a zero. */
  ghost predicate IsFraction(frac: string, n: nat) {
    var width := if n < 1_000_000_000 then 9 else |Digits(n)|;
    && AllDigits(frac) && frac != "" && frac[|frac| - 1] != '0' && |frac| <= width
    && DigitsValue(frac + Zeros(width - |frac|)) == n
  }

  lemma FractionIs(frac: string, n: nat)
    requires n > 0
    ensures IsFraction(frac, n) <==> frac == Trimmed(Padded(n))
  {
    hide Digits, DigitsValue;
    PaddedIs(n);
    TrimmedLeavesDigits(n);
    var width := if n < 1_000_000_000 then 9 else |Digits(n)|;
    var t := Trimmed(Padded(n));
    assert t + Zeros(width - |t|) == Padded(n);
    if IsFraction(frac, n) {
      SameLengthDigits(frac + Zeros(width - |frac|), Padded(n));
      SameTrim(frac, t, width);
    }
  }

  lemma TrimmedLeavesDigits(n: nat)
    requires n > 0
    ensures Trimmed(Padded(n)) != ""
  {
    hide Trimmed, Padded, DigitsValue;
    var s := Padded(n);
    PaddedIs(n);
    ZerosAreNothing(|s|);
    assert s == Trimmed(s) + Zeros(|s| - |Trimmed(s)|);
    assert "" + Zeros(|s|) == Zeros(|s|);
  }

  lemma SameTrim(a: string, b: string, width: nat)
    requires a != "" && b != "" && |a| <= width && |b| <= width && a[|a| - 1] != '0' && b[|b| - 1] != '0'
    requires a + Zeros(width - |a|) == b + Zeros(width - |b|)
    ensures a == b
  {
    var s := a + Zeros(width - |a|);
    assert s == b + Zeros(width - |b|);
    assert s[|a| - 1] == a[|a| - 1] && s[|b| - 1] == b[|b| - 1];
    assert forall i :: |a| <= i < |s| ==> s[i] == '0';
    assert forall i :: |b| <= i < |s| ==> s[i] == '0';
    assert s[..|a|] == a && s[..|b|] == b;
  }

  lemma PaddedIs(n: nat)
    ensures |Padded(n)| == (if n < 1_000_000_000 then 9 else |Digits(n)|) && DigitsValue(Padded(n)) == n
  {
    DigitsLength(n, 9);
    DigitsLength(n, 8);
    NanosLimit();
    DigitsRoundTrip(n);
    if |Digits(n)| < 9 {
      LeadingZeros(9 - |Digits(n)|, Digits(n));
    }
  }

  lemma ZerosAreNothing(k: nat)
    ensures DigitsValue(Zeros(k)) == 0
  {
    LeadingZeros(k, "");
    assert Zeros(k) + "" == Zeros(k) && DigitsValue("") == 0;
  }

  // ---------------------------------------------------------------- the text

  /** Two numbers are zero, or go the same way from zero. */
  predicate Agree(a: int, b: int) {
    a == 0 || b == 0 || (a > 0 <==> b > 0)
  }

  /** Years and months of a number of months: no more than eleven months, and both the same way. */
  predicate AreYears(months: int, y: int, m: int) {
    12 * y + m == months && -12 < m < 12 && Agree(y, m)
  }

  /** Hours, minutes and seconds likewise. */
  predicate AreHours(seconds: int, h: int, m: int, s: int) {
    3_600 * h + 60 * m + s == seconds && -60 < m < 60 && -60 < s < 60 && Agree(h, m) && Agree(h, s) && Agree(m, s)
  }

  /** Seconds and nanoseconds that differ in sign: one second is carried over. */
  predicate AreAligned(d: Duration, seconds: int, nanos: int) {
    && seconds * 1_000_000_000 + nanos == d.seconds * 1_000_000_000 + d.nanos
    && (Agree(d.seconds, d.nanos) ==> seconds == d.seconds)
    && (!Agree(d.seconds, d.nanos) ==> seconds == if d.seconds > 0 then d.seconds - 1 else d.seconds + 1)
  }

  lemma AlignedWritten(d: Duration, seconds: int, nanos: int)
    ensures AreAligned(d, seconds, nanos) <==> Aligned(d.seconds, d.nanos) == (seconds, nanos)
  {
  }

  lemma YearsWritten(months: int, y: int, m: int)
    ensures AreYears(months, y, m) <==> y == TruncDiv(months, 12) && m == Rem(months, 12)
  {
  }

  lemma HoursWritten(seconds: int, h: int, m: int, s: int)
    ensures AreHours(seconds, h, m, s) <==>
            h == TruncDiv(seconds, 3600) && m == TruncDiv(Rem(seconds, 3600), 60) && s == Rem(Rem(seconds, 3600), 60)
  {
    var rem := Rem(seconds, 3600);
    assert -3600 < rem < 3600 && Agree(rem, seconds);
    if AreHours(seconds, h, m, s) {
      var low := 60 * m + s;
      assert -3600 < low < 3600 && Agree(low, h);
      assert h == TruncDiv(seconds, 3600);
    }
  }

  /** The whole text. Years and months come first, then days, and behind a `T` hours, minutes and seconds, each
      only if it is not zero; with nanoseconds the seconds have a fraction, and one minus sign stands for both;
      a duration of nothing is `PT0S`. */
  lemma TextWritten(d: Duration, y: int, mo: int, total: int, nanos: int, h: int, mi: int, s: int, frac: string)
    requires AreYears(d.months, y, mo) && AreAligned(d, total, nanos) && AreHours(total, h, mi, s)
    requires nanos != 0 ==> IsFraction(frac, if nanos < 0 then -nanos else nanos)
    ensures var date := (if y != 0 then Int(y) + "Y" else "") + (if mo != 0 then Int(mo) + "M" else "") +
                        (if d.days != 0 then Int(d.days) + "D" else "");
            var time := (if h != 0 then Int(h) + "H" else "") + (if mi != 0 then Int(mi) + "M" else "") +
                        (if nanos != 0 then (if s < 0 || (s == 0 && nanos < 0) then "-" else "") +
                                            Digits(if s < 0 then -s else s) + "." + frac + "S"
                         else if s != 0 then Int(s) + "S" else "");
            Text(d) == if date == "" && time == "" then "PT0S"
                       else "P" + date + (if time == "" then "" else "T" + time)
  {
    hide TruncDiv, Rem, Digits, Int, Trimmed, Padded, AreYears, AreHours, AreAligned, Aligned, IsFraction;
    YearsWritten(d.months, y, mo);
    AlignedWritten(d, total, nanos);
    HoursWritten(total, h, mi, s);
    if nanos != 0 {
      FractionIs(frac, Abs(nanos));
    }
  }

  /** With nanoseconds the text ends in a digit that is not zero, and an `S`. */
  lemma FractionEnds(d: Duration)
    requires Aligned(d.seconds, d.nanos).1 != 0
    ensures var t := Text(d); |t| >= 2 && t[|t| - 1] == 'S' && IsDigit(t[|t| - 2]) && t[|t| - 2] != '0'
  {
    hide TruncDiv, Rem, Digits, OptField, Trimmed, Padded, Aligned;
    var (h, m, s, n) := Hms(d);
    FractionIs(Trimmed(Padded(Abs(n))), Abs(n));
    var time := SecondsText(s, n);
    assert time[|time| - 1] == 'S';
  }

  /** One and a half seconds. */
  lemma OneAndAHalf()
    ensures Text(Duration(0, 0, 1, 500_000_000)) == "PT1.5S"
  {
    hide Text;
    assert "5" + Zeros(8) == "500000000";
    HalfSecond();
    var d := Duration(0, 0, 1, 500_000_000);
    TextWritten(d, 0, 0, 1, 500_000_000, 0, 0, 1, "5");
    assert Digits(1) == "1";
    assert "1" + "." + "5" + "S" == "1.5S" && "P" + "" + ("T" + "1.5S") == "PT1.5S";
  }
}
