/** The label under each end of the progress slider: `floatToTime` turns a
    position in seconds into "minutes:seconds". The Kotlin and Java library
    calls it makes are written out: `Float.toInt()` (truncation toward zero,
    saturating at the 32-bit bounds), `Int` division and remainder (both
    truncating), and `String.format("%d:%02d", ...)` with ASCII digits. */
module TimeFormat {

  datatype Option<T> = None | Some(value: T)

  /** Bounds of Kotlin's 32-bit `Int`. */
  const IntMin: int := -0x8000_0000
  const IntMax: int := 0x7fff_ffff

  /** `Float.toInt()`: the integer part, rounded toward zero, and the nearest
      bound for values outside the range of `Int`. */
  function ToInt(x: real): (r: int)
    ensures IntMin <= r <= IntMax
    ensures 0.0 <= x < IntMax as real ==> r as real <= x < r as real + 1.0
    ensures IntMin as real < x < 0.0 ==> r as real - 1.0 < x <= r as real
    ensures x >= IntMax as real ==> r == IntMax
    ensures x <= IntMin as real ==> r == IntMin
  {
    if x >= IntMax as real then IntMax
    else if x <= IntMin as real then IntMin
    else if x >= 0.0 then x.Floor
    else -((-x).Floor)
  }

  /** `a / d` on Kotlin `Int`s, for a positive divisor: the quotient rounded
      toward zero. */
  function Quot(a: int, d: int): (q: int)
    requires d > 0
    ensures a >= 0 ==> 0 <= a - d * q < d
    ensures a < 0 ==> -d < a - d * q <= 0
  {
    if a >= 0 then a / d else -((-a) / d)
  }

  /** `a % d` on Kotlin `Int`s: the remainder carries the sign of `a`. */
  function Rem(a: int, d: int): (r: int)
    requires d > 0
    ensures Quot(a, d) * d + r == a
    ensures a >= 0 ==> 0 <= r < d
    ensures a < 0 ==> -d < r <= 0
  {
    a - d * Quot(a, d)
  }

  /** On non-negative operands truncating and Euclidean division agree. */
  lemma QuotRemOfNatural(a: int, d: int)
    requires a >= 0 && d > 0
    ensures Quot(a, d) == a / d && Rem(a, d) == a % d
  {
  }

  // ---------------------------------------------------------------------
  // Decimal digits

  predicate IsDigit(c: char) {
    '0' <= c <= '9'
  }

  predicate AllDigits(s: string) {
    forall i :: 0 <= i < |s| ==> IsDigit(s[i])
  }

  /** A numeral as `%d` prints a non-negative number: at least one digit, and
      no leading zero unless the numeral is "0" itself. */
  predicate Canonical(s: string) {
    |s| >= 1 && AllDigits(s) && (s[0] == '0' ==> |s| == 1)
  }

  function DigitValue(c: char): (d: nat)
    requires IsDigit(c)
    ensures d < 10
  {
    c as int - '0' as int
  }

  function DigitChar(d: nat): (c: char)
    requires d < 10
    ensures IsDigit(c) && DigitValue(c) == d
  {
    ('0' as int + d) as char
  }

  /** The digits of `n`, most significant first. */
  function Decimal(n: nat): (s: string)
    ensures Canonical(s)
    ensures s[0] == '0' <==> n == 0
    ensures |s| == 1 <==> n < 10
  {
    if n < 10 then [DigitChar(n)] else Decimal(n / 10) + [DigitChar(n % 10)]
  }

  /** The number a string of decimal digits denotes. */
  function Value(s: string): nat
    requires AllDigits(s)
  {
    if s == [] then 0 else Value(s[..|s| - 1]) * 10 + DigitValue(s[|s| - 1])
  }

  /** Reading back the digits `Decimal` prints gives the number again. */
  lemma {:induction false} ValueOfDecimal(n: nat)
    ensures Value(Decimal(n)) == n
  {
    if n >= 10 {
      var s := Decimal(n);
      assert s[..|s| - 1] == Decimal(n / 10);
      ValueOfDecimal(n / 10);
    }
  }

  /** A numeral without leading zeros has a non-zero value when its first
      digit is not '0'. */
  lemma {:induction false} ValueOfLeadingNonZero(s: string)
    requires |s| >= 1 && AllDigits(s) && s[0] != '0'
    ensures Value(s) >= 1
  {
    if |s| > 1 {
      ValueOfLeadingNonZero(s[..|s| - 1]);
    }
  }

  /** Printing the value of a canonical numeral gives the numeral back: no
      two canonical numerals denote the same number. */
  lemma {:induction false} DecimalOfValue(s: string)
    requires Canonical(s)
    ensures Decimal(Value(s)) == s
  {
    var c := s[|s| - 1];
    if |s| == 1 {
      assert DigitChar(DigitValue(c)) == c;
    } else {
      var front := s[..|s| - 1];
      assert front[0] == s[0];
      ValueOfLeadingNonZero(front);
      DecimalOfValue(front);
      assert DigitChar(DigitValue(c)) == c;
      assert Value(s) / 10 == Value(front) && Value(s) % 10 == DigitValue(c);
      assert s == front + [c];
    }
  }

  // ---------------------------------------------------------------------
  // java.util.Formatter conversions used by the label

  /** `%d`: a minus sign for negative numbers, then the digits of the
      magnitude. */
  function FormatD(n: int): (s: string)
    ensures n >= 0 ==> Canonical(s) && Value(s) == n
    ensures n < 0 ==> |s| >= 2 && s[0] == '-' && Canonical(s[1..]) && Value(s[1..]) == -n
  {
    if n < 0 then
      ValueOfDecimal(-n);
      assert ("-" + Decimal(-n))[1..] == Decimal(-n);
      "-" + Decimal(-n)
    else
      ValueOfDecimal(n);
      Decimal(n)
  }

  function Zeros(k: nat): (s: string)
    ensures |s| == k && forall i :: 0 <= i < k ==> s[i] == '0'
  {
    seq(k, _ => '0')
  }

  /** Leading zeros do not change the value of a numeral. */
  lemma {:induction false} ValueOfZeroPrefix(k: nat, s: string)
    requires AllDigits(s)
    ensures |Zeros(k) + s| == k + |s|
    ensures AllDigits(Zeros(k) + s) && Value(Zeros(k) + s) == Value(s)
    decreases |s|
  {
    var z := Zeros(k);
    if s == [] {
      assert z + s == z;
      ValueOfZeros(k);
    } else {
      assert (z + s)[..|z + s| - 1] == z + s[..|s| - 1];
      ValueOfZeroPrefix(k, s[..|s| - 1]);
    }
  }

  lemma {:induction false} ValueOfZeros(k: nat)
    ensures Value(Zeros(k)) == 0
  {
    if k > 0 {
      assert Zeros(k)[..k - 1] == Zeros(k - 1);
      ValueOfZeros(k - 1);
    }
  }

  /** A minus sign followed by zeros and digits: everything after the sign
      reads as the digits alone. */
  lemma SignedZeroPrefix(k: nat, digits: string)
    requires AllDigits(digits)
    ensures var s := "-" + Zeros(k) + digits;
      && |s| == 1 + k + |digits| && s[0] == '-'
      && AllDigits(s[1..]) && Value(s[1..]) == Value(digits)
  {
    ValueOfZeroPrefix(k, digits);
    assert ("-" + Zeros(k) + digits)[1..] == Zeros(k) + digits;
  }

  /** `%0<width>d`: like `%d`, but zeros are inserted between the sign and the
      digits until the whole is `width` characters long. The sign and the
      value are those `%d` prints. */
  function FormatZeroPadded(n: int, width: nat): (s: string)
    ensures |s| == if |FormatD(n)| < width then width else |FormatD(n)|
    ensures n >= 0 ==> AllDigits(s) && Value(s) == n
    ensures n < 0 ==> |s| >= 2 && s[0] == '-' && AllDigits(s[1..]) && Value(s[1..]) == -n
  {
    if n < 0 then
      var digits := Decimal(-n);
      var k := if |digits| + 1 < width then width - 1 - |digits| else 0;
      assert |FormatD(n)| == 1 + |digits|;
      ValueOfDecimal(-n);
      SignedZeroPrefix(k, digits);
      "-" + Zeros(k) + digits
    else
      var digits := Decimal(n);
      var k := if |digits| < width then width - |digits| else 0;
      assert FormatD(n) == digits;
      ValueOfDecimal(n);
      ValueOfZeroPrefix(k, digits);
      Zeros(k) + digits
  }

  /** A seconds field from 0 to 59 is printed as exactly two digits that read
      back as the same number. */
  lemma SecondsField(n: int)
    requires 0 <= n < 60
    ensures |FormatZeroPadded(n, 2)| == 2 && AllDigits(FormatZeroPadded(n, 2))
    ensures Value(FormatZeroPadded(n, 2)) == n
  {
    var s := FormatZeroPadded(n, 2);
    if n < 10 {
      assert s == ['0', DigitChar(n)];
      assert s[..1] == ['0'] && s[..1][..0] == [];
      assert Value(s[..1]) == 0;
      assert Value(s) == Value(s[..1]) * 10 + DigitValue(s[1]);
    } else {
      assert s == Decimal(n);
      ValueOfDecimal(n);
    }
  }

  /** Two digits reading as less than 60 are exactly what `%02d` prints for
      that number. */
  lemma {:induction false} SecondsFieldOfValue(ss: string)
    requires |ss| == 2 && AllDigits(ss) && Value(ss) < 60
    ensures FormatZeroPadded(Value(ss), 2) == ss
  {
    assert ss[..1] == [ss[0]];
    if ss[0] == '0' {
      var last := ss[1..];
      assert Canonical(last);
      assert Value(ss) == Value(last);
      DecimalOfValue(last);
      assert ss == "0" + last;
    } else {
      DecimalOfValue(ss);
    }
  }

  // ---------------------------------------------------------------------
  // The label

  /** `floatToTime`: the truncated position split into whole minutes and the
      seconds left over, printed with `"%d:%02d"`. */
  function FloatToTime(position: real): (text: string)
    ensures '-' in text <==> ToInt(position) < 0
  {
    var totalSeconds := ToInt(position);
    var minutes := Quot(totalSeconds, 60);
    var seconds := Rem(totalSeconds, 60);
    var m := FormatD(minutes);
    var ss := FormatZeroPadded(seconds, 2);
    if totalSeconds < 0 then
      if seconds < 0 then
        assert (m + ":" + ss)[|m| + 1] == '-';
        m + ":" + ss
      else
        assert (m + ":" + ss)[0] == '-';
        m + ":" + ss
    else
      assert forall i :: 0 <= i < |m + ":" + ss| ==> (m + ":" + ss)[i] != '-' by {
        forall i | 0 <= i < |m + ":" + ss|
          ensures (m + ":" + ss)[i] != '-'
        {
          if i < |m| {
            assert IsDigit(m[i]);
          } else if i > |m| {
            assert IsDigit(ss[i - |m| - 1]);
          }
        }
      }
      m + ":" + ss
  }

  /** Reads a label of the form M:SS back into a number of seconds: M a
      numeral without leading zeros, SS exactly two digits below 60, and the
      total within the range of `Int`. Anything else is `None`. */
  function ParseTime(text: string): (r: Option<int>)
    ensures r.Some? ==> 0 <= r.value <= IntMax
  {
    if |text| < 4 || text[|text| - 3] != ':' then None
    else
      var m := text[..|text| - 3];
      var ss := text[|text| - 2..];
      if Canonical(m) && AllDigits(ss) && Value(ss) < 60 && Value(m) * 60 + Value(ss) <= IntMax
      then Some(Value(m) * 60 + Value(ss))
      else None
  }

  /** For a position whose truncation is not negative (every position above
      -1) the label is M:SS: the part after
      the colon is exactly two digits and below 60, and M * 60 + SS is the
      truncated position. */
  lemma FloatToTimeLayout(position: real)
    requires ToInt(position) >= 0
    ensures var text := FloatToTime(position);
      && |text| >= 4 && text[|text| - 3] == ':'
      && Canonical(text[..|text| - 3])
      && |text[|text| - 2..]| == 2 && AllDigits(text[|text| - 2..])
      && Value(text[|text| - 2..]) < 60
      && Value(text[..|text| - 3]) * 60 + Value(text[|text| - 2..]) == ToInt(position)
  {
    var total := ToInt(position);
    QuotRemOfNatural(total, 60);
    var minutes := Quot(total, 60);
    var seconds := Rem(total, 60);
    SecondsField(seconds);
    ValueOfDecimal(minutes);
    var text := FloatToTime(position);
    var m := Decimal(minutes);
    var ss := FormatZeroPadded(seconds, 2);
    assert text == m + ":" + ss;
    assert text[..|text| - 3] == m;
    assert text[|text| - 2..] == ss;
  }

  /** Reading a label back recovers the truncated position. */
  lemma ParseFloatToTime(position: real)
    requires ToInt(position) >= 0
    ensures ParseTime(FloatToTime(position)) == Some(ToInt(position))
  {
    FloatToTimeLayout(position);
  }

  /** Conversely, every label `ParseTime` accepts is the label of the number
      it reads. */
  lemma FloatToTimeOfParse(text: string)
    requires ParseTime(text).Some?
    ensures FloatToTime(ParseTime(text).value as real) == text
  {
    var t := ParseTime(text).value;
    var m := text[..|text| - 3];
    var ss := text[|text| - 2..];
    assert ToInt(t as real) == t;
    assert Quot(t, 60) == Value(m) && Rem(t, 60) == Value(ss);
    DecimalOfValue(m);
    SecondsFieldOfValue(ss);
    assert text == m + ":" + ss;
  }

  /** Positions whose whole seconds differ get different labels. */
  lemma FloatToTimeDistinguishes(p: real, q: real)
    requires ToInt(p) >= 0 && ToInt(q) >= 0 && ToInt(p) != ToInt(q)
    ensures FloatToTime(p) != FloatToTime(q)
  {
    ParseFloatToTime(p);
    ParseFloatToTime(q);
  }

  /** A position below zero whose truncation is negative gets a label with a
      minus sign in it (for instance "0:-5" or "-1:-15"), which is not of the
      M:SS form. */
  lemma NegativeLabel(position: real)
    requires ToInt(position) < 0
    ensures '-' in FloatToTime(position)
    ensures ParseTime(FloatToTime(position)) == None
  {
    var total := ToInt(position);
    var minutes := FormatD(Quot(total, 60));
    var seconds := FormatZeroPadded(Rem(total, 60), 2);
    var text := minutes + ":" + seconds;
    if Rem(total, 60) < 0 {
      assert text[|minutes| + 1] == seconds[0] == '-';
    } else {
      assert Quot(total, 60) < 0;
      assert text[0] == minutes[0] == '-';
    }
  }

  /** Two labels of negative positions. */
  lemma LabelOfNegativeSeconds()
    ensures FloatToTime(-5.5) == "0:-5"
  {
    assert ToInt(-5.5) == -5 && Quot(-5, 60) == 0 && Rem(-5, 60) == -5;
    assert Decimal(0) == "0" && Decimal(5) == "5";
  }

  lemma LabelOfNegativeMinute()
    ensures FloatToTime(-75.0) == "-1:-15"
  {
    assert ToInt(-75.0) == -75 && Quot(-75, 60) == -1 && Rem(-75, 60) == -15;
    assert Decimal(1) == "1" && Decimal(15) == "15";
  }

  /** The fixed right-hand label: the track is 433 seconds long. */
  lemma TrackLengthLabel()
    ensures FloatToTime(433.0) == "7:13"
  {
    assert ToInt(433.0) == 433;
    assert Decimal(7) == "7" && Decimal(13) == "13";
  }

  /** A few labels of the left-hand side: truncation drops the fraction and
      the seconds are padded to two digits. */
  lemma LabelAtStart()
    ensures FloatToTime(0.0) == "0:00"
  {
    assert ToInt(0.0) == 0 && Quot(0, 60) == 0 && Rem(0, 60) == 0;
    assert Decimal(0) == "0";
  }

  lemma LabelJustBeforeOneMinute()
    ensures FloatToTime(59.0) == "0:59"
  {
    assert ToInt(59.0) == 59 && Quot(59, 60) == 0 && Rem(59, 60) == 59;
    assert Decimal(0) == "0" && Decimal(59) == "59";
  }

  lemma LabelAtOneMinute()
    ensures FloatToTime(60.0) == "1:00"
  {
    assert ToInt(60.0) == 60 && Quot(60, 60) == 1 && Rem(60, 60) == 0;
    assert Decimal(1) == "1" && Decimal(0) == "0";
  }

  lemma LabelWithFraction()
    ensures FloatToTime(75.5) == "1:15"
  {
    assert ToInt(75.5) == 75 && Quot(75, 60) == 1 && Rem(75, 60) == 15;
    assert Decimal(1) == "1" && Decimal(15) == "15";
  }
}
