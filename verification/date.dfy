/** The date-key utilities: rendering a calendar date as a `YYYY-MM-DD` key
    and comparing keys as strings. The calendar date itself is taken apart
    into (year, 0-based month, day of month), the values the source reads
    from a local-time `Date`. */
module Dates {

  /** Strict lexicographic order on strings: the model of the string `<`
      operator. A proper prefix sorts before the longer string. */
  predicate StrLess(a: string, b: string)
  {
    if |a| == 0 then |b| > 0
    else if |b| == 0 then false
    else if a[0] == b[0] then StrLess(a[1..], b[1..])
    else a[0] < b[0]
  }

  /** `isBeforeDate`: key `a` sorts strictly before key `b`. */
  predicate IsBeforeDate(a: string, b: string)
  {
    StrLess(a, b)
  }

  /** `isSameDate`: the two keys are the same string. */
  predicate IsSameDate(a: string, b: string)
  {
    a == b
  }

  lemma {:induction false} StrLessIrreflexive(a: string)
    ensures !IsBeforeDate(a, a)
  {
    if |a| > 0 {
      StrLessIrreflexive(a[1..]);
    }
  }

  lemma {:induction false} StrLessTransitive(a: string, b: string, c: string)
    requires IsBeforeDate(a, b) && IsBeforeDate(b, c)
    ensures IsBeforeDate(a, c)
  {
    if |a| > 0 && |b| > 0 && |c| > 0 && a[0] == b[0] && b[0] == c[0] {
      StrLessTransitive(a[1..], b[1..], c[1..]);
    }
  }

  /** For two different keys exactly one of them is before the other. */
  lemma {:induction false} StrLessTrichotomy(a: string, b: string)
    ensures a != b <==> (IsBeforeDate(a, b) != IsBeforeDate(b, a))
  {
    if |a| > 0 && |b| > 0 {
      if a[0] == b[0] {
        StrLessTrichotomy(a[1..], b[1..]);
        assert a == [a[0]] + a[1..] && b == [b[0]] + b[1..];
      }
    } else if |a| == 0 && |b| > 0 {
    } else if |a| > 0 {
    } else {
      StrLessIrreflexive(a);
    }
  }

  lemma IsSameDateIsEquivalence(a: string, b: string, c: string)
    ensures IsSameDate(a, a)
    ensures IsSameDate(a, b) <==> IsSameDate(b, a)
    ensures IsSameDate(a, b) && IsSameDate(b, c) ==> IsSameDate(a, c)
  {
  }

  /** Comparing two strings that start with blocks of equal length compares
      the blocks first and the rests only when the blocks are equal. */
  lemma {:induction false} StrLessAppend(a: string, c: string, b: string, d: string)
    requires |a| == |b|
    ensures StrLess(a + c, b + d) <==> StrLess(a, b) || (a == b && StrLess(c, d))
  {
    if |a| == 0 {
      assert a + c == c && b + d == d;
    } else {
      assert (a + c)[1..] == a[1..] + c && (b + d)[1..] == b[1..] + d;
      assert (a + c)[0] == a[0] && (b + d)[0] == b[0];
      StrLessAppend(a[1..], c, b[1..], d);
      assert a == [a[0]] + a[1..] && b == [b[0]] + b[1..];
    }
  }

  // ---------------------------------------------------------------------
  // Rendering numbers

  function Digit(n: nat): (c: char)
    requires n < 10
    ensures '0' <= c <= '9'
  {
    ('0' as int + n) as char
  }

  lemma DigitOrder(x: nat, y: nat)
    requires x < 10 && y < 10
    ensures Digit(x) < Digit(y) <==> x < y
    ensures Digit(x) == Digit(y) <==> x == y
  {
  }

  /** Decimal rendering of a natural number, without leading zeros. */
  function NatToDecimal(n: nat): (s: string)
    ensures 1 <= |s|
    ensures forall i :: 0 <= i < |s| ==> '0' <= s[i] <= '9'
  {
    if n < 10 then [Digit(n)] else NatToDecimal(n / 10) + [Digit(n % 10)]
  }

  /** Template-literal rendering of an integer: a minus sign before the
      magnitude when negative. */
  function IntToDecimal(n: int): (s: string)
    ensures 1 <= |s|
    ensures n >= 0 ==> s == NatToDecimal(n)
    ensures n < 0 ==> s[0] == '-' && s[1..] == NatToDecimal(-n)
  {
    if n < 0 then "-" + NatToDecimal(-n) else NatToDecimal(n)
  }

  /** `padStart(2, "0")`: left-pad with zeros up to length two; longer
      strings are left alone. */
  function PadStart2(s: string): (r: string)
    ensures |s| >= 2 ==> r == s
    ensures |s| < 2 ==> |r| == 2 && r[2 - |s|..] == s
    ensures forall i :: 0 <= i < |r| - |s| ==> r[i] == '0'
  {
    if |s| >= 2 then s else seq(2 - |s|, _ => '0') + s
  }

  /** `toDateString`: year, then the 1-based month and the day of month,
      each padded to two digits, joined by dashes. `month` is 0-based as
      `getMonth()` returns it. */
  function ToDateString(year: int, month: int, day: int): (r: string)
    ensures ValidDate(year, month, day) ==> IsDateKey(r)
  {
    var key := IntToDecimal(year) + "-" + PadStart2(IntToDecimal(month + 1)) + "-" + PadStart2(IntToDecimal(day));
    if ValidDate(year, month, day) then
      DateKeyShape(year, month, day);
      key
    else key
  }

  /** The dates whose keys the model reasons about: four-digit years and the
      ranges `getMonth()` and `getDate()` produce. */
  predicate ValidDate(year: int, month: int, day: int)
  {
    1000 <= year <= 9999 && 0 <= month <= 11 && 1 <= day <= 31
  }

  /** A well-formed key: ten characters, dashes at 4 and 7, digits elsewhere. */
  predicate IsDateKey(s: string)
  {
    && |s| == 10
    && s[4] == '-' && s[7] == '-'
    && forall i :: 0 <= i < 10 && i != 4 && i != 7 ==> '0' <= s[i] <= '9'
  }

  /** Lexicographic order on (year, month, day) triples: calendar order. */
  predicate DateLess(y1: int, m1: int, d1: int, y2: int, m2: int, d2: int)
  {
    y1 < y2 || (y1 == y2 && (m1 < m2 || (m1 == m2 && d1 < d2)))
  }

  // ---------------------------------------------------------------------
  // Fixed-width digit blocks

  /** Two decimal digits of `n`, with a leading zero when `n < 10`. */
  function Two(n: nat): string
    requires n < 100
  {
    [Digit(n / 10), Digit(n % 10)]
  }

  lemma StrLessPair(a: char, b: char, c: char, d: char)
    ensures StrLess([a, b], [c, d]) <==> a < c || (a == c && b < d)
  {
    assert [a, b][1..] == [b] && [c, d][1..] == [d];
    assert [b][1..] == [] && [d][1..] == [];
    assert !StrLess([], []);
    assert StrLess([b], [d]) <==> b < d;
  }

  lemma DivModOrder(x: nat, y: nat)
    requires x < 100 && y < 100
    ensures x < y <==> x / 10 < y / 10 || (x / 10 == y / 10 && x % 10 < y % 10)
    ensures x == y <==> x / 10 == y / 10 && x % 10 == y % 10
  {
    assert x == 10 * (x / 10) + x % 10;
    assert y == 10 * (y / 10) + y % 10;
  }

  lemma TwoOrder(x: nat, y: nat)
    requires x < 100 && y < 100
    ensures StrLess(Two(x), Two(y)) <==> x < y
    ensures Two(x) == Two(y) <==> x == y
  {
    DigitOrder(x / 10, y / 10);
    DigitOrder(x % 10, y % 10);
    StrLessPair(Digit(x / 10), Digit(x % 10), Digit(y / 10), Digit(y % 10));
    DivModOrder(x, y);
    assert Two(x) == Two(y) ==> Two(x)[0] == Two(y)[0] && Two(x)[1] == Two(y)[1];
  }

  /** A padded one- or two-digit number is its two-digit block. */
  lemma PaddedTwo(n: int)
    requires 0 <= n < 100
    ensures PadStart2(IntToDecimal(n)) == Two(n)
  {
    if n >= 10 {
      assert NatToDecimal(n) == NatToDecimal(n / 10) + [Digit(n % 10)];
      assert NatToDecimal(n / 10) == [Digit(n / 10)];
    } else {
      assert NatToDecimal(n) == [Digit(n)];
      assert n / 10 == 0 && n % 10 == n;
      assert Digit(0) == '0';
    }
  }

  /** A four-digit year renders as two two-digit blocks. */
  lemma YearBlocks(y: int)
    requires 1000 <= y <= 9999
    ensures IntToDecimal(y) == Two(y / 100) + Two(y % 100)
  {
    var q, r := y / 100, y % 100;
    assert y == 100 * q + r;
    assert y / 10 == 10 * q + r / 10;
    assert (y / 10) / 10 == q;
    assert (y / 10) % 10 == r / 10;
    assert y % 10 == r % 10;
    assert NatToDecimal(y) == NatToDecimal(y / 10) + [Digit(y % 10)];
    assert NatToDecimal(y / 10) == NatToDecimal(q) + [Digit(r / 10)];
    assert NatToDecimal(q) == NatToDecimal(q / 10) + [Digit(q % 10)];
    assert NatToDecimal(q / 10) == [Digit(q / 10)];
  }

  /** Four-digit years compare as their two blocks do. */
  lemma YearOrder(y1: int, y2: int)
    requires 1000 <= y1 <= 9999 && 1000 <= y2 <= 9999
    ensures y1 < y2 <==> y1 / 100 < y2 / 100 || (y1 / 100 == y2 / 100 && y1 % 100 < y2 % 100)
    ensures y1 == y2 <==> y1 / 100 == y2 / 100 && y1 % 100 == y2 % 100
  {
    assert y1 == 100 * (y1 / 100) + y1 % 100;
    assert y2 == 100 * (y2 / 100) + y2 % 100;
  }

  /** The key of a valid date, block by block. */
  function KeyBlocks(year: int, month: int, day: int): string
    requires ValidDate(year, month, day)
  {
    Two(year / 100) + (Two(year % 100) + (['-'] + (Two(month + 1) + (['-'] + Two(day)))))
  }

  lemma KeyIsBlocks(year: int, month: int, day: int)
    requires ValidDate(year, month, day)
    ensures IntToDecimal(year) + "-" + PadStart2(IntToDecimal(month + 1)) + "-" + PadStart2(IntToDecimal(day))
         == KeyBlocks(year, month, day)
  {
    var ys, ms, ds := IntToDecimal(year), PadStart2(IntToDecimal(month + 1)), PadStart2(IntToDecimal(day));
    YearBlocks(year);
    PaddedTwo(month + 1);
    PaddedTwo(day);
    JoinBlocks(Two(year / 100), Two(year % 100), ms, ds);
    assert ys + "-" + ms + "-" + ds == Two(year / 100) + Two(year % 100) + "-" + ms + "-" + ds;
  }

  /** Joining the blocks of a key, regrouped to the right. */
  lemma JoinBlocks(a: string, b: string, m: string, d: string)
    ensures a + b + "-" + m + "-" + d == a + (b + (['-'] + (m + (['-'] + d))))
  {
  }

  lemma DateKeyShape(year: int, month: int, day: int)
    requires ValidDate(year, month, day)
    ensures IsDateKey(IntToDecimal(year) + "-" + PadStart2(IntToDecimal(month + 1)) + "-" + PadStart2(IntToDecimal(day)))
  {
    KeyIsBlocks(year, month, day);
    BlocksShape(Two(year / 100), Two(year % 100), Two(month + 1), Two(day));
  }

  lemma BlocksShape(a: string, b: string, m: string, d: string)
    requires |a| == |b| == |m| == |d| == 2
    requires forall i :: 0 <= i < 2 ==> '0' <= a[i] <= '9' && '0' <= b[i] <= '9'
    requires forall i :: 0 <= i < 2 ==> '0' <= m[i] <= '9' && '0' <= d[i] <= '9'
    ensures IsDateKey(a + (b + (['-'] + (m + (['-'] + d)))))
  {
    var k := a + (b + (['-'] + (m + (['-'] + d))));
    assert k == [a[0], a[1], b[0], b[1], '-', m[0], m[1], '-', d[0], d[1]];
  }

  lemma ToDateStringIsBlocks(year: int, month: int, day: int)
    requires ValidDate(year, month, day)
    ensures ToDateString(year, month, day) == KeyBlocks(year, month, day)
  {
    KeyIsBlocks(year, month, day);
  }

  lemma DashTwoOrder(x: nat, y: nat)
    requires x < 100 && y < 100
    ensures StrLess(['-'] + Two(x), ['-'] + Two(y)) <==> x < y
    ensures ['-'] + Two(x) == ['-'] + Two(y) <==> x == y
  {
    TwoOrder(x, y);
    StrLessIrreflexive(['-']);
    StrLessAppend(['-'], Two(x), ['-'], Two(y));
    assert (['-'] + Two(x))[1..] == Two(x) && (['-'] + Two(y))[1..] == Two(y);
  }

  /** The `MM-DD` tail of a key. */
  function MonthDay(month: int, day: int): string
    requires 0 <= month <= 11 && 1 <= day <= 31
  {
    Two(month + 1) + (['-'] + Two(day))
  }

  lemma MonthDayOrder(m1: int, d1: int, m2: int, d2: int)
    requires 0 <= m1 <= 11 && 1 <= d1 <= 31 && 0 <= m2 <= 11 && 1 <= d2 <= 31
    ensures StrLess(MonthDay(m1, d1), MonthDay(m2, d2)) <==> m1 < m2 || (m1 == m2 && d1 < d2)
    ensures MonthDay(m1, d1) == MonthDay(m2, d2) <==> m1 == m2 && d1 == d2
  {
    TwoOrder(m1 + 1, m2 + 1);
    DashTwoOrder(d1, d2);
    StrLessAppend(Two(m1 + 1), ['-'] + Two(d1), Two(m2 + 1), ['-'] + Two(d2));
    var a, b := MonthDay(m1, d1), MonthDay(m2, d2);
    assert a == b ==> a[..2] == b[..2] && a[2..] == b[2..];
    assert a[..2] == Two(m1 + 1) && a[2..] == ['-'] + Two(d1);
    assert b[..2] == Two(m2 + 1) && b[2..] == ['-'] + Two(d2);
  }

  lemma DashMonthDayOrder(m1: int, d1: int, m2: int, d2: int)
    requires 0 <= m1 <= 11 && 1 <= d1 <= 31 && 0 <= m2 <= 11 && 1 <= d2 <= 31
    ensures StrLess(['-'] + MonthDay(m1, d1), ['-'] + MonthDay(m2, d2)) <==> m1 < m2 || (m1 == m2 && d1 < d2)
  {
    MonthDayOrder(m1, d1, m2, d2);
    StrLessIrreflexive(['-']);
    StrLessAppend(['-'], MonthDay(m1, d1), ['-'], MonthDay(m2, d2));
  }

  lemma YearLowOrder(y1: int, m1: int, d1: int, y2: int, m2: int, d2: int)
    requires ValidDate(y1, m1, d1) && ValidDate(y2, m2, d2)
    ensures StrLess(Two(y1 % 100) + (['-'] + MonthDay(m1, d1)), Two(y2 % 100) + (['-'] + MonthDay(m2, d2)))
        <==> y1 % 100 < y2 % 100 || (y1 % 100 == y2 % 100 && (m1 < m2 || (m1 == m2 && d1 < d2)))
    ensures Two(y1 % 100) + (['-'] + MonthDay(m1, d1)) == Two(y2 % 100) + (['-'] + MonthDay(m2, d2))
        <==> y1 % 100 == y2 % 100 && m1 == m2 && d1 == d2
  {
    TwoOrder(y1 % 100, y2 % 100);
    DashMonthDayOrder(m1, d1, m2, d2);
    MonthDayOrder(m1, d1, m2, d2);
    StrLessAppend(Two(y1 % 100), ['-'] + MonthDay(m1, d1), Two(y2 % 100), ['-'] + MonthDay(m2, d2));
    var a, b := Two(y1 % 100) + (['-'] + MonthDay(m1, d1)), Two(y2 % 100) + (['-'] + MonthDay(m2, d2));
    assert a == b ==> a[..2] == b[..2] && a[3..] == b[3..];
    assert a[..2] == Two(y1 % 100) && a[3..] == MonthDay(m1, d1);
    assert b[..2] == Two(y2 % 100) && b[3..] == MonthDay(m2, d2);
  }

  /** Order preservation: comparing two valid keys as strings is comparing
      the dates in calendar order. This is what makes `isBeforeDate` a date
      comparison. */
  lemma ToDateStringOrder(y1: int, m1: int, d1: int, y2: int, m2: int, d2: int)
    requires ValidDate(y1, m1, d1) && ValidDate(y2, m2, d2)
    ensures IsBeforeDate(ToDateString(y1, m1, d1), ToDateString(y2, m2, d2))
        <==> DateLess(y1, m1, d1, y2, m2, d2)
  {
    ToDateStringIsBlocks(y1, m1, d1);
    ToDateStringIsBlocks(y2, m2, d2);
    KeyBlocksOrder(y1, m1, d1, y2, m2, d2);
  }

  /** The block form compares century first, then the rest. */
  lemma KeyBlocksOrder(y1: int, m1: int, d1: int, y2: int, m2: int, d2: int)
    requires ValidDate(y1, m1, d1) && ValidDate(y2, m2, d2)
    ensures StrLess(KeyBlocks(y1, m1, d1), KeyBlocks(y2, m2, d2)) <==> DateLess(y1, m1, d1, y2, m2, d2)
  {
    var lo1, lo2 := Two(y1 % 100) + (['-'] + MonthDay(m1, d1)), Two(y2 % 100) + (['-'] + MonthDay(m2, d2));
    assert KeyBlocks(y1, m1, d1) == Two(y1 / 100) + lo1;
    assert KeyBlocks(y2, m2, d2) == Two(y2 / 100) + lo2;
    StrLessAppend(Two(y1 / 100), lo1, Two(y2 / 100), lo2);
    TwoOrder(y1 / 100, y2 / 100);
    YearLowOrder(y1, m1, d1, y2, m2, d2);
    YearOrder(y1, y2);
  }

  /** Different valid dates have different keys. */
  lemma ToDateStringInjective(y1: int, m1: int, d1: int, y2: int, m2: int, d2: int)
    requires ValidDate(y1, m1, d1) && ValidDate(y2, m2, d2)
    requires ToDateString(y1, m1, d1) == ToDateString(y2, m2, d2)
    ensures y1 == y2 && m1 == m2 && d1 == d2
  {
    var k := ToDateString(y1, m1, d1);
    StrLessIrreflexive(k);
    ToDateStringOrder(y1, m1, d1, y2, m2, d2);
    ToDateStringOrder(y2, m2, d2, y1, m1, d1);
  }

  /** The month field is `getMonth() + 1` padded: months 0..11 give
      "01".."12"; the day field gives "01".."31". */
  lemma ToDateStringFields(year: int, month: int, day: int)
    requires ValidDate(year, month, day)
    ensures ToDateString(year, month, day)[5..7] == Two(month + 1)
    ensures ToDateString(year, month, day)[8..10] == Two(day)
    ensures ToDateString(year, month, day)[..4] == NatToDecimal(year)
  {
    ToDateStringIsBlocks(year, month, day);
    YearBlocks(year);
    BlocksSlices(Two(year / 100), Two(year % 100), Two(month + 1), Two(day));
  }

  lemma BlocksSlices(a: string, b: string, m: string, d: string)
    requires |a| == |b| == |m| == |d| == 2
    ensures var k := a + (b + (['-'] + (m + (['-'] + d))));
      k[..4] == a + b && k[5..7] == m && k[8..10] == d
  {
  }
}
