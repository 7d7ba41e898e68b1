/** getTimeStamp: the current date and time packed into one decimal integer,
    two digits per field, year counted from 2000. */
module TimeStamp {

  /** The fields of a `datetime.datetime` that the stamp uses; the clock
      reading is a parameter rather than read from the system. */
  datatype DateTime = DateTime(year: int, month: int, day: int, hour: int, minute: int, second: int)

  /** The ranges `datetime` keeps its fields in. */
  predicate ValidDateTime(dt: DateTime)
  {
    1 <= dt.year <= 9999 && 1 <= dt.month <= 12 && 1 <= dt.day <= 31 &&
    0 <= dt.hour <= 23 && 0 <= dt.minute <= 59 && 0 <= dt.second <= 59
  }

  function Pow10(n: nat): (r: nat)
    ensures r >= 1
  {
    if n == 0 then 1 else 10 * Pow10(n - 1)
  }

  predicate IsDigit(c: char) { '0' <= c <= '9' }

  /** A non-empty run of decimal digits. */
  predicate DigitString(s: string)
  {
    |s| >= 1 && forall i :: 0 <= i < |s| ==> IsDigit(s[i])
  }

  /** The character of a decimal digit. */
  function DigitChar(d: nat): (c: char)
    requires d < 10
    ensures IsDigit(c) && c as int - '0' as int == d
  {
    ('0' as int + d) as char
  }

  /** The decimal numeral of `n` without leading zeros, as `str(n)` writes it. */
  function Digits(n: nat): (s: string)
    ensures DigitString(s)
    ensures n < 10 <==> |s| == 1
    decreases n
  {
    if n < 10 then [DigitChar(n)]
    else Digits(n / 10) + [DigitChar(n % 10)]
  }

  /** The value of a digit character. */
  function DigitOf(c: char): (d: nat)
    requires IsDigit(c)
    ensures d < 10
  {
    c as int - '0' as int
  }

  /** The value of a run of digits, most significant first. */
  function DigitValue(s: string): (r: nat)
    requires forall i :: 0 <= i < |s| ==> IsDigit(s[i])
  {
    if s == [] then 0
    else DigitValue(s[..|s| - 1]) * 10 + DigitOf(s[|s| - 1])
  }

  /** `int(s)` on the numerals `Format02` produces: an optional minus sign
      followed by digits. */
  predicate Numeral(s: string)
  {
    DigitString(s) || (|s| >= 2 && s[0] == '-' && DigitString(s[1..]))
  }

  function ParseInt(s: string): (r: int)
    requires Numeral(s)
  {
    if s[0] == '-' then -(DigitValue(s[1..]) as int) else DigitValue(s)
  }

  /** `"{:02d}".format(n)`: at least two characters, zero-padded after the
      sign; a negative number already fills the width with its sign. */
  function Format02(n: int): (s: string)
    ensures |s| >= 2
  {
    if n < 0 then "-" + Digits(-n)
    else if n < 10 then "0" + Digits(n)
    else Digits(n)
  }

  /** The six fields formatted one after another: the year field, then the rest. */
  function Formatted(now: DateTime): (r: string)
  {
    Format02(now.year - 2000) + Tail(now)
  }

  /** Month, day, hour, minute and second, formatted one after another. */
  function Tail(now: DateTime): (r: string)
  {
    Format02(now.month) + Format02(now.day) + Format02(now.hour) +
    Format02(now.minute) + Format02(now.second)
  }

  /** The fields after the year, as the ten digits they contribute. */
  function Rest(now: DateTime): (r: int)
  {
    now.month * Pow10(8) + now.day * Pow10(6) + now.hour * Pow10(4) + now.minute * Pow10(2) + now.second
  }

  lemma DigitsConcat(a: string, b: string)
    requires forall i :: 0 <= i < |a| ==> IsDigit(a[i])
    requires forall i :: 0 <= i < |b| ==> IsDigit(b[i])
    ensures forall i :: 0 <= i < |a + b| ==> IsDigit((a + b)[i])
  {
    forall i | 0 <= i < |a + b| ensures IsDigit((a + b)[i]) {
      if i < |a| { assert (a + b)[i] == a[i]; } else { assert (a + b)[i] == b[i - |a|]; }
    }
  }

  lemma ShiftStep(x: int, p: int, y: int, d: int)
    ensures (x * p + y) * 10 + d == x * (p * 10) + (y * 10 + d)
  {
  }

  /** Digits written after a numeral shift its value left by their count. */
  lemma {:induction false} DigitValueAppend(a: string, b: string)
    requires forall i :: 0 <= i < |a| ==> IsDigit(a[i])
    requires forall i :: 0 <= i < |b| ==> IsDigit(b[i])
    ensures forall i :: 0 <= i < |a + b| ==> IsDigit((a + b)[i])
    ensures DigitValue(a + b) == DigitValue(a) * Pow10(|b|) + DigitValue(b)
  {
    DigitsConcat(a, b);
    var ab := a + b;
    if b == [] {
      assert ab == a;
    } else {
      var n := |b| - 1;
      assert ab[..|ab| - 1] == a + b[..n];
      assert ab[|ab| - 1] == b[n];
      DigitValueAppend(a, b[..n]);
      assert DigitValue(ab) == DigitValue(a + b[..n]) * 10 + DigitOf(b[n]);
      ShiftStep(DigitValue(a), Pow10(n), DigitValue(b[..n]), DigitOf(b[n]));
      assert DigitValue(b) == DigitValue(b[..n]) * 10 + DigitOf(b[n]);
    }
  }

  /** Reading a numeral back gives the number. */
  lemma {:induction false} DigitsValue(n: nat)
    ensures DigitValue(Digits(n)) == n
    decreases n
  {
    if n >= 10 {
      var s := Digits(n);
      assert s[..|s| - 1] == Digits(n / 10);
      DigitsValue(n / 10);
    }
  }

  /** A field below 100 takes exactly two digits and reads back as itself. */
  lemma Format02Field(n: int)
    requires 0 <= n < 100
    ensures |Format02(n)| == 2 && DigitString(Format02(n))
    ensures DigitValue(Format02(n)) == n
  {
    DigitsValue(n);
    if n < 10 {
      DigitValueAppend("0", Digits(n));
    } else {
      assert Digits(n) == Digits(n / 10) + [DigitChar(n % 10)];
    }
  }

  /** Appending a two-digit field shifts the value two places left and adds it. */
  lemma AppendField(prefix: string, n: int)
    requires DigitString(prefix) && 0 <= n < 100
    ensures DigitString(prefix + Format02(n)) && |prefix + Format02(n)| == |prefix| + 2
    ensures DigitValue(prefix + Format02(n)) == DigitValue(prefix) * 100 + n
  {
    Format02Field(n);
    DigitValueAppend(prefix, Format02(n));
    assert Pow10(2) == 100;
  }

  /** The ten digits of month, day, hour, minute and second. */
  lemma RestDigits(now: DateTime)
    requires ValidDateTime(now)
    ensures |Tail(now)| == 10 && DigitString(Tail(now)) && DigitValue(Tail(now)) == Rest(now)
  {
    var m := Format02(now.month);
    Format02Field(now.month);
    AppendField(m, now.day);
    AppendField(m + Format02(now.day), now.hour);
    AppendField(m + Format02(now.day) + Format02(now.hour), now.minute);
    AppendField(m + Format02(now.day) + Format02(now.hour) + Format02(now.minute), now.second);
    Pow10Values();
  }

  /** A numeral for the year followed by the ten digits of the other fields. */
  lemma YearThenRest(head: string, tail: string)
    requires DigitString(head) && DigitString(tail) && |tail| == 10
    ensures DigitString(head + tail)
    ensures DigitValue(head + tail) == DigitValue(head) * Pow10(10) + DigitValue(tail)
  {
    DigitValueAppend(head, tail);
  }

  /** The formatted year field followed by the other ten digits. */
  lemma FormattedSplit(now: DateTime)
    requires ValidDateTime(now)
    ensures var y := now.year - 2000;
      Numeral(Formatted(now)) &&
      ParseInt(Formatted(now)) ==
        if y >= 0 then y * Pow10(10) + Rest(now) else -((-y) * Pow10(10) + Rest(now))
  {
    RestDigits(now);
    YearThenTail(now.year - 2000, Tail(now));
  }

  lemma YearThenTail(y: int, tail: string)
    requires DigitString(tail) && |tail| == 10
    ensures Numeral(Format02(y) + tail)
    ensures ParseInt(Format02(y) + tail) ==
      if y >= 0 then y * Pow10(10) + DigitValue(tail) else -((-y) * Pow10(10) + DigitValue(tail))
  {
    if y >= 0 {
      NonNegativeYear(y, tail);
    } else {
      assert Format02(y) == "-" + Digits(-y);
      ConcatAssoc("-", Digits(-y), tail);
      NegativeYear(y, tail);
    }
  }

  lemma NonNegativeYear(y: nat, tail: string)
    requires DigitString(tail) && |tail| == 10
    ensures Numeral(Format02(y) + tail)
    ensures ParseInt(Format02(y) + tail) == y * Pow10(10) + DigitValue(tail)
  {
    if y < 100 {
      Format02Field(y);
    } else {
      DigitsValue(y);
    }
    YearThenRest(Format02(y), tail);
    assert (Format02(y) + tail)[0] == Format02(y)[0];
  }

  lemma ConcatAssoc(a: string, b: string, c: string)
    ensures a + b + c == a + (b + c)
  {
  }

  lemma ParseNegative(g: string)
    requires DigitString(g)
    ensures Numeral("-" + g) && ParseInt("-" + g) == -(DigitValue(g) as int)
  {
    assert ("-" + g)[1..] == g;
  }

  lemma NegativeYear(y: int, tail: string)
    requires y < 0 && DigitString(tail) && |tail| == 10
    ensures Numeral("-" + (Digits(-y) + tail))
    ensures ParseInt("-" + (Digits(-y) + tail)) == -((-y) * Pow10(10) + DigitValue(tail))
  {
    DigitsValue(-y);
    YearThenRest(Digits(-y), tail);
    ParseNegative(Digits(-y) + tail);
  }

  /** getTimeStamp, with the clock reading `now` passed in. */
  function GetTimeStamp(now: DateTime): (r: int)
    requires ValidDateTime(now)
  {
    FormattedSplit(now);
    ParseInt(Formatted(now))
  }

  /** The stamp packs the fields two decimal digits each, year minus 2000
      first; a year before 2000 formats with a minus sign, which int() reads
      as a negative stamp. */
  lemma TimeStampPacking(now: DateTime)
    requires ValidDateTime(now)
    ensures var y := now.year - 2000;
      var rest := now.month * 100000000 + now.day * 1000000 + now.hour * 10000 + now.minute * 100 + now.second;
      GetTimeStamp(now) == if y >= 0 then y * 10000000000 + rest else -((-y) * 10000000000 + rest)
  {
    FormattedSplit(now);
    Pow10Values();
  }

  lemma Pow10Values()
    ensures Pow10(2) == 100 && Pow10(4) == 10000 && Pow10(6) == 1000000
    ensures Pow10(8) == 100000000 && Pow10(10) == 10000000000 && Pow10(12) == 1000000000000
  {
    assert Pow10(2) == 100;
    assert Pow10(4) == 100 * Pow10(2);
    assert Pow10(6) == 100 * Pow10(4);
    assert Pow10(8) == 100 * Pow10(6);
    assert Pow10(10) == 100 * Pow10(8);
    assert Pow10(12) == 100 * Pow10(10);
  }

  /** In the years 2000 to 2099 the formatted stamp is exactly twelve digits. */
  lemma TwelveDigits(now: DateTime)
    requires ValidDateTime(now) && 2000 <= now.year < 2100
    ensures |Formatted(now)| == 12 && DigitString(Formatted(now))
  {
    RestDigits(now);
    Format02Field(now.year - 2000);
    DigitsConcat(Format02(now.year - 2000), Tail(now));
  }

  /** ... and so the stamp lies in [0, 10^12). */
  lemma TwelveDigitStamp(now: DateTime)
    requires ValidDateTime(now) && 2000 <= now.year < 2100
    ensures 0 <= GetTimeStamp(now) < 1000000000000
  {
    TimeStampPacking(now);
  }

  /** The stamp's fields, most significant first. */
  function Fields(now: DateTime): (r: seq<int>)
  {
    [now.year - 2000, now.month, now.day, now.hour, now.minute, now.second]
  }

  /** Digits in base 100, most significant first. */
  function Base100(s: seq<int>): (r: int)
  {
    if s == [] then 0 else s[0] * Pow10(2 * (|s| - 1)) + Base100(s[1..])
  }

  /** Every entry is a base-100 digit. */
  predicate Centesimal(s: seq<int>)
  {
    forall i :: 0 <= i < |s| ==> 0 <= s[i] < 100
  }

  /** `a` comes before `b` in the order of their first differing entry. */
  predicate LexLess(a: seq<int>, b: seq<int>)
    requires |a| == |b|
  {
    |a| > 0 && (a[0] < b[0] || (a[0] == b[0] && LexLess(a[1..], b[1..])))
  }

  /** `a` is an earlier moment than `b`, field by field from the year. */
  predicate Before(a: DateTime, b: DateTime)
  {
    LexLess(Fields(a), Fields(b))
  }

  lemma Pow10Step(n: nat)
    ensures Pow10(2 * (n + 1)) == 100 * Pow10(2 * n)
  {
    assert Pow10(2 * n + 2) == 10 * (10 * Pow10(2 * n));
  }

  lemma {:induction false} Base100Bound(s: seq<int>)
    requires Centesimal(s)
    ensures 0 <= Base100(s) < Pow10(2 * |s|)
  {
    if s != [] {
      var n := |s| - 1;
      assert Centesimal(s[1..]) by {
        forall i | 0 <= i < n ensures 0 <= s[1..][i] < 100 {
          assert s[1..][i] == s[i + 1];
        }
      }
      Base100Bound(s[1..]);
      Pow10Step(n);
      MulBelow(s[0], 99, Pow10(2 * n));
    }
  }

  lemma MulBelow(x: int, m: int, p: nat)
    requires 0 <= x <= m
    ensures 0 <= x * p <= m * p
  {
  }

  lemma HeadLess(x: int, y: int, r: int, t: int, p: nat)
    requires x < y && 0 <= r < p && 0 <= t
    ensures x * p + r < y * p + t
  {
    assert y * p == x * p + (y - x) * p;
    MulBelow(1, y - x, p);
  }

  /** Base 100 preserves the order of digit sequences of one length whose
      entries after the first are digits. */
  lemma {:induction false} Base100Order(a: seq<int>, b: seq<int>)
    requires |a| == |b| && |a| > 0 && Centesimal(a[1..]) && Centesimal(b[1..])
    requires LexLess(a, b)
    ensures Base100(a) < Base100(b)
  {
    var n := |a| - 1;
    Base100Bound(a[1..]);
    Base100Bound(b[1..]);
    if a[0] < b[0] {
      HeadLess(a[0], b[0], Base100(a[1..]), Base100(b[1..]), Pow10(2 * n));
    } else {
      assert Centesimal(a[1..][1..]) by {
        forall i | 0 <= i < n - 1 ensures 0 <= a[1..][1..][i] < 100 { assert a[1..][1..][i] == a[1..][i + 1]; }
      }
      assert Centesimal(b[1..][1..]) by {
        forall i | 0 <= i < n - 1 ensures 0 <= b[1..][1..][i] < 100 { assert b[1..][1..][i] == b[1..][i + 1]; }
      }
      Base100Order(a[1..], b[1..]);
    }
  }

  lemma Base100Cons(s: seq<int>, k: nat)
    requires k < |s|
    ensures Base100(s[k..]) == s[k] * Pow10(2 * (|s| - 1 - k)) + Base100(s[k + 1..])
  {
    assert s[k..][1..] == s[k + 1..];
  }

  /** Six base-100 digits in closed form. */
  lemma Base100Six(f: seq<int>)
    requires |f| == 6
    ensures Base100(f) ==
      f[0] * 10000000000 + f[1] * 100000000 + f[2] * 1000000 + f[3] * 10000 + f[4] * 100 + f[5]
  {
    Pow10Values();
    assert f[6..] == [];
    Base100Cons(f, 5);
    Base100Cons(f, 4);
    Base100Cons(f, 3);
    Base100Cons(f, 2);
    Base100Cons(f, 1);
    Base100Cons(f, 0);
    assert f[0..] == f;
  }

  /** From 2000 on the stamp is the fields read in base 100. */
  lemma StampIsBase100(now: DateTime)
    requires ValidDateTime(now) && now.year >= 2000
    ensures GetTimeStamp(now) == Base100(Fields(now))
    ensures Centesimal(Fields(now)[1..])
  {
    TimeStampPacking(now);
    Base100Six(Fields(now));
  }

  /** Stamps taken from 2000 on sort in chronological order. */
  lemma TimeStampOrder(a: DateTime, b: DateTime)
    requires ValidDateTime(a) && ValidDateTime(b) && a.year >= 2000 && b.year >= 2000
    ensures Before(a, b) ==> GetTimeStamp(a) < GetTimeStamp(b)
  {
    if Before(a, b) {
      StampIsBase100(a);
      StampIsBase100(b);
      Base100Order(Fields(a), Fields(b));
    }
  }

  /** Two different sequences of one length are ordered one way or the other. */
  lemma {:induction false} LexTotal(a: seq<int>, b: seq<int>)
    requires |a| == |b| && a != b
    ensures LexLess(a, b) || LexLess(b, a)
  {
    if a[0] == b[0] {
      assert a == [a[0]] + a[1..] && b == [b[0]] + b[1..];
      LexTotal(a[1..], b[1..]);
    }
  }

  /** From 2000 on, different moments never share a stamp. */
  lemma StampInjective(a: DateTime, b: DateTime)
    requires ValidDateTime(a) && ValidDateTime(b) && a.year >= 2000 && b.year >= 2000
    ensures GetTimeStamp(a) == GetTimeStamp(b) ==> a == b
  {
    if a != b {
      assert Fields(a)[0] == a.year - 2000 && Fields(b)[0] == b.year - 2000;
      assert Fields(a) != Fields(b);
      LexTotal(Fields(a), Fields(b));
      TimeStampOrder(a, b);
      TimeStampOrder(b, a);
    }
  }
}
