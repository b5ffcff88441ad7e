// Calendar dates for request signing (src/s3/sigv4.rs): days since 1970-01-01 to
// year, month and day, checked against the Gregorian calendar itself.
module Civil {
  import opened Common
  import opened Decimal
  import opened Text
  import Coord
  import Utf8

  datatype Date = Date(y: int, m: int, d: int)

  // ---- the conversion ------------------------------------------------------

  // Division of machine integers: rounds toward zero.
  function TruncDiv(a: int, b: int): (q: int)
    requires b > 0
  {
    if a >= 0 then a / b else -(-a / b)
  }

  const ERA: int := 146097

  function EraOf(z: int): (era: int) {
    TruncDiv(if z >= 0 then z else z - 146096, ERA)
  }

  function YearOfEra(doe: int): (yoe: int) {
    (doe - doe / 1460 + doe / 36524 - doe / 146096) / 365
  }

  // Month (March is 0) and day of a year that starts in March.
  function MarchMonth(doy: int): (mp: int) { (5 * doy + 2) / 153 }

  function MarchDay(doy: int): (d: int) { doy - (153 * MarchMonth(doy) + 2) / 5 + 1 }

  function DateAt(era: int, yoe: int, doy: int): (r: Date) {
    var mp := MarchMonth(doy);
    var m := if mp < 10 then mp + 3 else mp - 9;
    var y := yoe + era * 400;
    Date(if m <= 2 then y + 1 else y, m, MarchDay(doy))
  }

  // First day, within its era, of a year-of-era.
  function MarchYearStart(yoe: int): (n: int) { 365 * yoe + yoe / 4 - yoe / 100 }

  function DateInEra(era: int, doe: int): (r: Date) {
    var yoe := YearOfEra(doe);
    DateAt(era, yoe, doe - MarchYearStart(yoe))
  }

  function CivilFromDays(days: int): (r: Date) {
    var z := days + 719468;
    DateInEra(EraOf(z), z - EraOf(z) * ERA)
  }

  // ---- the Gregorian calendar ----------------------------------------------

  predicate IsLeap(y: int) { y % 4 == 0 && (y % 100 != 0 || y % 400 == 0) }

  function DaysIn(y: int, m: int): (n: int)
    requires 1 <= m <= 12
    ensures 28 <= n <= 31
  {
    if m == 2 then (if IsLeap(y) then 29 else 28)
    else if m == 4 || m == 6 || m == 9 || m == 11 then 30
    else 31
  }

  predicate ValidDate(t: Date) { 1 <= t.m <= 12 && 1 <= t.d <= DaysIn(t.y, t.m) }

  function NextDay(t: Date): (r: Date)
    requires ValidDate(t)
    ensures ValidDate(r)
  {
    if t.d < DaysIn(t.y, t.m) then t.(d := t.d + 1)
    else if t.m < 12 then Date(t.y, t.m + 1, 1)
    else Date(t.y + 1, 1, 1)
  }

  predicate Before(s: Date, t: Date) {
    s.y < t.y || (s.y == t.y && (s.m < t.m || (s.m == t.m && s.d < t.d)))
  }

  // Days of year `y` before month `m`.
  function MonthStart(y: int, m: int): (n: int)
    requires 1 <= m <= 13
    decreases m
  {
    if m == 1 then 0 else MonthStart(y, m - 1) + DaysIn(y, m - 1)
  }

  // Days from 1970-01-01 to the first of January of year `y`.
  function YearStart(y: int): (n: int) {
    365 * (y - 1) + (y - 1) / 4 - (y - 1) / 100 + (y - 1) / 400 - 719162
  }

  function DayCount(t: Date): (n: int)
    requires ValidDate(t)
  {
    YearStart(t.y) + MonthStart(t.y, t.m) + t.d - 1
  }

  // ---- the conversion is the calendar --------------------------------------

  lemma EraIsFloor(z: int)
    ensures EraOf(z) == z / ERA && 0 <= z - EraOf(z) * ERA < ERA
  {}

  // Length of the year-of-era that ends with the February of the next one.
  function MarchYearLength(yoe: int): (n: int) {
    if IsLeap(yoe + 1) then 366 else 365
  }

  lemma CenturyParts(doe: int) returns (c: int, q: int, a: int, doy: int)
    requires 0 <= doe < ERA
    ensures 0 <= c <= 3 && 0 <= q <= 24 && 0 <= a <= 3 && 0 <= doy <= 365
    ensures doe == 36524 * c + 1461 * q + 365 * a + doy
    ensures doy == 365 ==> a == 3 && (q == 24 ==> c == 3)
  {
    c := if doe / 36524 > 3 then 3 else doe / 36524;
    var r := doe - 36524 * c;
    q := r / 1461;
    var s := r - 1461 * q;
    a := if s / 365 > 3 then 3 else s / 365;
    doy := s - 365 * a;
  }

  lemma YearOfParts(c: int, q: int, a: int, doy: int)
    requires 0 <= c <= 3 && 0 <= q <= 24 && 0 <= a <= 3 && 0 <= doy <= 365
    requires doy == 365 ==> a == 3 && (q == 24 ==> c == 3)
    ensures var yoe := 100 * c + 4 * q + a;
      && YearOfEra(36524 * c + 1461 * q + 365 * a + doy) == yoe
      && MarchYearStart(yoe) == 36524 * c + 1461 * q + 365 * a
      && doy < MarchYearLength(yoe)
  {
    var yoe := 100 * c + 4 * q + a;
    var doe := 36524 * c + 1461 * q + 365 * a + doy;
    var e := if 24 * c + q + 365 * a + doy >= 1460 then 1 else 0;
    assert doe / 1460 == 25 * c + q + e;
    var last := if doe == 146096 then 1 else 0;
    assert doe / 36524 == c + last;
    assert doe / 146096 == last;
    assert yoe / 4 == 25 * c + q && yoe / 100 == c;
  }

  // A day of the era lies in the year-of-era the shift formula names.
  lemma EraYear(doe: int)
    requires 0 <= doe < ERA
    ensures var yoe := YearOfEra(doe);
      0 <= yoe < 400 && 0 <= doe - MarchYearStart(yoe) < MarchYearLength(yoe)
  {
    var c, q, a, doy := CenturyParts(doe);
    YearOfParts(c, q, a, doy);
  }

  lemma MarchYearsAbut(yoe: int)
    ensures 0 <= yoe < 399 ==> MarchYearStart(yoe + 1) == MarchYearStart(yoe) + MarchYearLength(yoe)
    ensures MarchYearStart(399) + MarchYearLength(399) == ERA && MarchYearStart(0) == 0
  {
    NextQuarter(yoe);
    NextCentury(yoe);
    CenturiesAreQuarters(yoe + 1);
  }

  lemma NextQuarter(y: int)
    ensures (y + 1) / 4 == y / 4 + if (y + 1) % 4 == 0 then 1 else 0
  {}

  lemma NextCentury(y: int)
    ensures (y + 1) / 100 == y / 100 + if (y + 1) % 100 == 0 then 1 else 0
  {}

  lemma CenturiesAreQuarters(y: int)
    ensures y % 100 == 0 ==> y % 4 == 0
    ensures 0 < y < 400 ==> y % 400 != 0
  {}

  lemma {:induction false} MarchYearsGrow(i: int, j: int)
    requires 0 <= i < j < 400
    ensures MarchYearStart(i) + MarchYearLength(i) <= MarchYearStart(j)
    decreases j - i
  {
    hide MarchYearStart, IsLeap;
    MarchYearsAbut(i);
    if i + 1 < j {
      MarchYearsGrow(i + 1, j);
    }
  }

  // The next day of the era: the same year's next, or the next year's first.
  lemma EraSuccessor(doe: int)
    requires 0 <= doe < ERA - 1
    ensures var yoe := YearOfEra(doe);
      var doy := doe - MarchYearStart(yoe);
      if doy + 1 < MarchYearLength(yoe) then YearOfEra(doe + 1) == yoe
      else YearOfEra(doe + 1) == yoe + 1 && MarchYearStart(yoe + 1) == doe + 1
  {
    EraYear(doe);
    EraYear(doe + 1);
    hide YearOfEra;
    var y1, y2 := YearOfEra(doe), YearOfEra(doe + 1);
    MarchYearsAbut(y1);
    if y1 < y2 {
      MarchYearsGrow(y1, y2);
      if y1 + 1 < y2 {
        MarchYearsGrow(y1 + 1, y2);
      }
    } else if y2 < y1 {
      MarchYearsGrow(y2, y1);
    }
  }

  // The months of a year that starts in March, by their first days.
  lemma MonthTable(doy: int)
    requires 0 <= doy <= 365
    ensures var mp := MarchMonth(doy);
      0 <= mp <= 11 && (153 * mp + 2) / 5 <= doy && (mp < 11 ==> doy < (153 * (mp + 1) + 2) / 5)
  {}

  function MarchLength(mp: int): (n: int)
    requires 0 <= mp <= 10
  {
    if mp == 1 || mp == 3 || mp == 6 || mp == 8 then 30 else 31
  }

  lemma MonthLengths(mp: int)
    requires 0 <= mp <= 10
    ensures (153 * (mp + 1) + 2) / 5 == (153 * mp + 2) / 5 + MarchLength(mp)
  {}

  lemma DayOfMonth(doy: int)
    requires 0 <= doy <= 365
    ensures var mp := MarchMonth(doy);
      && 0 <= mp <= 11 && 1 <= MarchDay(doy)
      && (mp < 11 ==> MarchDay(doy) <= MarchLength(mp))
      && (mp == 11 ==> MarchDay(doy) == doy - 336)
      && (doy < 365 ==>
            if mp < 11 && MarchDay(doy) == MarchLength(mp) then MarchMonth(doy + 1) == mp + 1 && MarchDay(doy + 1) == 1
            else MarchMonth(doy + 1) == mp && MarchDay(doy + 1) == MarchDay(doy) + 1)
  {
    MonthTable(doy);
    if MarchMonth(doy) < 11 {
      MonthLengths(MarchMonth(doy));
    }
    if doy < 365 {
      MonthTable(doy + 1);
    }
  }

  lemma LeapPeriod(y: int, era: int)
    ensures IsLeap(y + era * 400) <==> IsLeap(y)
  {
    SameRemainder(y, era, 400);
    SameRemainder(y, 4 * era, 100);
    SameRemainder(y, 100 * era, 4);
  }

  lemma SameRemainder(y: int, k: int, n: int)
    requires n > 0
    ensures (y + k * n) % n == y % n
  {
    var a, q := y + k * n, y / n + k;
    assert a == q * n + y % n by {
      assert (y / n + k) * n == y / n * n + k * n;
    }
    DivideExact(a, n, q, y % n);
    assert a % n == a - a / n * n;
  }

  // Within a March year the days follow each other as in the calendar.
  lemma MarchYearDays(era: int, yoe: int, doy: int)
    requires 0 <= yoe < 400 && 0 <= doy < MarchYearLength(yoe)
    ensures ValidDate(DateAt(era, yoe, doy))
    ensures NextDay(DateAt(era, yoe, doy)) ==
      if doy + 1 < MarchYearLength(yoe) then DateAt(era, yoe, doy + 1)
      else Date(yoe + 1 + era * 400, 3, 1)
  {
    LeapPeriod(yoe + 1, era);
    DayOfMonth(doy);
    hide IsLeap, MarchMonth, MarchDay;
  }

  lemma MarchFirst(era: int, yoe: int)
    ensures DateAt(era, yoe, 0) == Date(yoe + era * 400, 3, 1)
  {}

  lemma CivilOf(days: int, era: int, doe: int)
    requires days + 719468 == era * ERA + doe && 0 <= doe < ERA
    ensures CivilFromDays(days) == DateInEra(era, doe)
  {
    EraIsFloor(days + 719468);
    hide EraOf, DateInEra;
    var e := EraOf(days + 719468);
    assert e == era;
  }

  lemma EraDayNext(era: int, doe: int)
    requires 0 <= doe < ERA
    ensures ValidDate(DateInEra(era, doe))
    ensures NextDay(DateInEra(era, doe)) ==
      if doe + 1 < ERA then DateInEra(era, doe + 1) else DateInEra(era + 1, 0)
  {
    hide YearOfEra, DateAt, ValidDate, NextDay, MarchYearLength, MarchYearStart, IsLeap;
    EraYear(doe);
    var yoe := YearOfEra(doe);
    MarchYearDays(era, yoe, doe - MarchYearStart(yoe));
    if doe + 1 < ERA {
      EraSuccessor(doe);
      MarchFirst(era, yoe + 1);
    } else {
      LastDayOfEra();
      FirstDayOfEra();
      MarchFirst(era + 1, 0);
    }
  }

  // Day 0 is the epoch, every day is a valid date, and each is followed by the next.
  lemma CivilSuccession(days: int)
    ensures CivilFromDays(0) == Date(1970, 1, 1)
    ensures ValidDate(CivilFromDays(days))
    ensures CivilFromDays(days + 1) == NextDay(CivilFromDays(days))
  {
    var z := days + 719468;
    EraIsFloor(z);
    var era, doe := EraOf(z), z - EraOf(z) * ERA;
    EpochDay();
    hide EraOf, DateInEra, ValidDate, NextDay, CivilFromDays;
    CivilOf(days, era, doe);
    EraDayNext(era, doe);
    if doe + 1 < ERA {
      CivilOf(days + 1, era, doe + 1);
    } else {
      CivilOf(days + 1, era + 1, 0);
    }
  }

  lemma EpochDay()
    ensures CivilFromDays(0) == Date(1970, 1, 1)
  {}

  lemma FirstDayOfEra()
    ensures YearOfEra(0) == 0 && MarchYearStart(0) == 0
  {}

  lemma LastDayOfEra()
    ensures YearOfEra(ERA - 1) == 399 && ERA - 1 - MarchYearStart(399) + 1 == MarchYearLength(399)
  {}

  // ---- counting days -------------------------------------------------------

  lemma YearLength(y: int)
    ensures YearStart(y + 1) == YearStart(y) + MonthStart(y, 13)
    ensures MonthStart(y, 13) == if IsLeap(y) then 366 else 365
  {
    MonthSums(y);
    LeapDays(y);
  }

  lemma MonthSums(y: int)
    ensures MonthStart(y, 13) == if IsLeap(y) then 366 else 365
  {
    assert MonthStart(y, 4) == MonthStart(y, 3) + 31;
    assert MonthStart(y, 7) == MonthStart(y, 4) + 91;
    assert MonthStart(y, 10) == MonthStart(y, 7) + 92;
    assert MonthStart(y, 13) == MonthStart(y, 10) + 92;
  }

  lemma LeapDays(y: int)
    ensures y / 4 - y / 100 + y / 400
      == (y - 1) / 4 - (y - 1) / 100 + (y - 1) / 400 + if IsLeap(y) then 1 else 0
  {
    Steps(y, 4);
    Steps(y, 100);
    Steps(y, 400);
    assert y % 400 == 0 ==> y % 100 == 0;
    assert y % 100 == 0 ==> y % 4 == 0;
  }

  lemma Steps(y: int, n: int)
    requires n > 1
    ensures y / n == (y - 1) / n + if y % n == 0 then 1 else 0
  {
    var q, r := y / n, y % n;
    assert y == q * n + r;
    if r == 0 {
      assert y - 1 == (q - 1) * n + (n - 1);
      DivideExact(y - 1, n, q - 1, n - 1);
    } else {
      DivideExact(y - 1, n, q, r - 1);
    }
  }

  lemma DivideExact(a: int, n: int, q: int, r: int)
    requires n > 0 && a == q * n + r && 0 <= r < n
    ensures a / n == q
  {
    var e := a / n - q;
    assert e * n == r - a % n;
    Multiple(e, n);
  }

  lemma Multiple(e: int, n: int)
    requires n > 0
    ensures e >= 1 ==> e * n >= n
    ensures e <= -1 ==> e * n <= -n
  {}

  lemma CountNext(t: Date)
    requires ValidDate(t)
    ensures DayCount(NextDay(t)) == DayCount(t) + 1
  {
    YearLength(t.y);
    hide YearStart, IsLeap;
  }

  // The date counts back to the day number it came from.
  lemma {:induction false} CivilCounts(days: int)
    ensures ValidDate(CivilFromDays(days)) && DayCount(CivilFromDays(days)) == days
    decreases if days < 0 then -days else days
  {
    CivilSuccession(days);
    CivilSuccession(days - 1);
    hide CivilFromDays, ValidDate, NextDay, DayCount;
    if days > 0 {
      CivilCounts(days - 1);
      CountNext(CivilFromDays(days - 1));
    } else if days < 0 {
      CivilCounts(days + 1);
      CountNext(CivilFromDays(days));
    } else {
      EpochCount();
    }
  }

  lemma EpochCount()
    ensures DayCount(Date(1970, 1, 1)) == 0
  {
    hide MonthStart;
    assert YearStart(1970) == 0;
    NoMonths(1970);
  }

  lemma NoMonths(y: int)
    ensures MonthStart(y, 1) == 0
  {}

  lemma {:induction false} MonthsGrow(y: int, m: int, n: int)
    requires 1 <= m < n <= 13
    ensures MonthStart(y, m) + DaysIn(y, m) <= MonthStart(y, n)
    decreases n
  {
    if m + 1 < n {
      MonthsGrow(y, m, n - 1);
    }
  }

  lemma {:induction false} YearsGrow(y: int, z: int)
    requires y < z
    ensures YearStart(y) + MonthStart(y, 13) <= YearStart(z)
    decreases z - y
  {
    YearLength(y);
    hide YearStart;
    if y + 1 < z {
      YearLength(y + 1);
      YearsGrow(y + 1, z);
    }
  }

  lemma {:induction false} MonthStartNat(y: int, m: int)
    requires 1 <= m <= 13
    ensures MonthStart(y, m) >= 0
    decreases m
  {
    if m > 1 {
      MonthStartNat(y, m - 1);
    }
  }

  // Earlier dates have smaller counts.
  lemma CountOrders(s: Date, t: Date)
    requires ValidDate(s) && ValidDate(t) && Before(s, t)
    ensures DayCount(s) < DayCount(t)
  {
    MonthStartNat(t.y, t.m);
    MonthsGrow(s.y, s.m, 13);
    hide YearStart;
    if s.y < t.y {
      YearsGrow(s.y, t.y);
    } else if s.m < t.m {
      MonthsGrow(s.y, s.m, t.m);
    }
  }

  // The conversion is the inverse of counting days, and keeps their order.
  lemma CivilInverse(t: Date)
    requires ValidDate(t)
    ensures CivilFromDays(DayCount(t)) == t
  {
    var s := CivilFromDays(DayCount(t));
    CivilCounts(DayCount(t));
    hide DayCount, CivilFromDays, ValidDate;
    if Before(s, t) {
      CountOrders(s, t);
    } else if Before(t, s) {
      CountOrders(t, s);
    }
  }

  lemma CivilMonotone(days: int, later: int)
    requires days < later
    ensures Before(CivilFromDays(days), CivilFromDays(later))
  {
    CivilCounts(days);
    CivilCounts(later);
    hide DayCount, CivilFromDays, ValidDate;
    var s, t := CivilFromDays(days), CivilFromDays(later);
    if Before(t, s) {
      CountOrders(t, s);
    }
  }

  // ---- time stamps ---------------------------------------------------------

  predicate Ascii(s: string) { forall i :: 0 <= i < |s| ==> s[i] as int < 0x80 }

  // `{:0w}`: zeros between the sign and the digits, up to the width.
  function Pad(n: int, w: nat): (s: string)
    ensures Ascii(s)
  {
    var sign := if n < 0 then "-" else "";
    var digits := PrintNat(if n < 0 then -n else n);
    sign + seq(if |sign| + |digits| < w then w - |sign| - |digits| else 0, _ => '0') + digits
  }

  // `u64 as i64`.
  function Wrapped(secs: nat): (n: int)
    requires secs < U64_LIMIT
  {
    if secs <= I64_MAX then secs else secs - U64_LIMIT
  }

  function DateText(t: Date): (s: string)
    ensures Ascii(s)
  {
    Pad(t.y, 4) + (Pad(t.m, 2) + Pad(t.d, 2))
  }

  function TimeText(rem: nat): (s: string)
    ensures Ascii(s)
  {
    Pad(rem / 3600, 2) + (Pad(rem % 3600 / 60, 2) + Pad(rem % 60, 2))
  }

  datatype Stamps = Stamps(full: string, date: string)

  function AmzDates(secs: nat): (r: Stamps)
    requires secs < U64_LIMIT
  {
    var n := Wrapped(secs);
    var date := DateText(CivilFromDays(n / 86400));
    Stamps(date + ("T" + (TimeText(n % 86400) + "Z")), date)
  }

  // The order of strings, byte by byte.
  predicate Less(s: string, t: string) { Coord.CmpStr(s, t) == Coord.Less }

  lemma LessStep(s: string, t: string)
    requires s != "" && t != "" && s[0] as int < 0x80 && t[0] as int < 0x80
    ensures Less(s, t) <==> s[0] < t[0] || (s[0] == t[0] && Less(s[1..], t[1..]))
  {
    assert Utf8.Encode(s) == [s[0] as int] + Utf8.Encode(s[1..]);
    assert Utf8.Encode(t) == [t[0] as int] + Utf8.Encode(t[1..]);
  }

  lemma {:induction false} LessConcat(a: string, x: string, b: string, y: string)
    requires |a| == |b| && Ascii(a) && Ascii(b)
    ensures Less(a + x, b + y) <==> Less(a, b) || (a == b && Less(x, y))
    decreases |a|
  {
    hide Less;
    if a == "" {
      assert a + x == x && b + y == y && a == b;
      LessIrreflexive(a);
    } else {
      assert (a + x)[1..] == a[1..] + x && (b + y)[1..] == b[1..] + y;
      LessStep(a, b);
      LessStep(a + x, b + y);
      LessConcat(a[1..], x, b[1..], y);
      assert a == [a[0]] + a[1..] && b == [b[0]] + b[1..];
    }
  }

  lemma LessIrreflexive(s: string)
    ensures !Less(s, s)
  {
    Coord.CmpEqual(Utf8.Encode(s), Utf8.Encode(s));
  }

  lemma LessAsymmetric(s: string, t: string)
    requires Less(s, t)
    ensures !Less(t, s)
  {
    Coord.CmpFlip(Utf8.Encode(s), Utf8.Encode(t));
  }

  // The last `w` decimal digits of `n`.
  function Digits(n: nat, w: nat): (s: string)
    ensures |s| == w && Ascii(s)
    decreases w
  {
    if w == 0 then "" else Digits(n / 10, w - 1) + [DigitChar(n % 10)]
  }

  function Pow10(w: nat): (p: nat) { if w == 0 then 1 else 10 * Pow10(w - 1) }

  lemma {:induction false} PadIsDigits(n: nat, w: nat)
    requires n < Pow10(w) && w > 0
    ensures Pad(n, w) == Digits(n, w)
    decreases w
  {
    var digits := PrintNat(n);
    if n < 10 {
      ZeroDigits(w - 1);
      assert n / 10 == 0;
    } else {
      PadIsDigits(n / 10, w - 1);
    }
  }

  lemma {:induction false} ZeroDigits(w: nat)
    ensures Digits(0, w) == seq(w, _ => '0')
  {
    if w > 0 {
      ZeroDigits(w - 1);
    }
  }

  // Fixed-width numbers sort as numbers.
  lemma {:induction false} DigitsSort(m: nat, n: nat, w: nat)
    requires m < n < Pow10(w)
    ensures Less(Digits(m, w), Digits(n, w))
    decreases w
  {
    hide Less;
    var a, b := m / 10, n / 10;
    if w > 0 {
      LessConcat(Digits(a, w - 1), [DigitChar(m % 10)], Digits(b, w - 1), [DigitChar(n % 10)]);
      LessStep([DigitChar(m % 10)], [DigitChar(n % 10)]);
      if a < b {
        DigitsSort(a, b, w - 1);
      }
    }
  }

  lemma PadSorts(m: nat, n: nat, w: nat)
    requires m < Pow10(w) && n < Pow10(w) && w > 0
    ensures |Pad(m, w)| == w == |Pad(n, w)|
    ensures m < n ==> Less(Pad(m, w), Pad(n, w))
  {
    PadIsDigits(m, w);
    PadIsDigits(n, w);
    if m < n {
      DigitsSort(m, n, w);
    }
  }

  lemma Widths()
    ensures Pow10(2) == 100 && Pow10(4) == 10000
  {
    assert Pow10(3) == 10 * Pow10(2);
  }

  lemma DatesSort(s: Date, t: Date)
    requires ValidDate(s) && ValidDate(t) && 0 <= s.y <= 9999 && 0 <= t.y <= 9999
    ensures |DateText(s)| == 8
    ensures Before(s, t) ==> Less(DateText(s), DateText(t))
  {
    Widths();
    PadSorts(s.y, t.y, 4);
    PadSorts(s.m, t.m, 2);
    PadSorts(s.d, t.d, 2);
    hide Pad, Less, Pow10;
    LessConcat(Pad(s.m, 2), Pad(s.d, 2), Pad(t.m, 2), Pad(t.d, 2));
    LessConcat(Pad(s.y, 4), Pad(s.m, 2) + Pad(s.d, 2), Pad(t.y, 4), Pad(t.m, 2) + Pad(t.d, 2));
  }

  lemma ClockParts(r: nat, q: nat)
    requires r < 86400 && q < 86400
    ensures r / 3600 < 100 && r % 3600 / 60 < 100 && r % 60 < 100
    ensures r < q ==>
      || r / 3600 < q / 3600
      || (r / 3600 == q / 3600
          && (r % 3600 / 60 < q % 3600 / 60 || (r % 3600 / 60 == q % 3600 / 60 && r % 60 < q % 60)))
  {
    assert r == r / 3600 * 3600 + r % 3600 / 60 * 60 + r % 60 by { ClockSplit(r); }
    assert q == q / 3600 * 3600 + q % 3600 / 60 * 60 + q % 60 by { ClockSplit(q); }
  }

  lemma ClockSplit(r: nat)
    ensures r == r / 3600 * 3600 + r % 3600 / 60 * 60 + r % 60
  {
    var h, s := r / 3600, r % 3600;
    assert r == h * 3600 + s && s == s / 60 * 60 + s % 60;
    SameRemainder(s, 60 * h, 60);
    assert s + 60 * h * 60 == r;
  }

  lemma TriplesSort(a: string, b: string, c: string, x: string, y: string, z: string)
    requires |a| == |x| && |b| == |y| && |c| == |z| && Ascii(a) && Ascii(x) && Ascii(b) && Ascii(y)
    ensures Less(a + (b + c), x + (y + z)) <==>
      Less(a, x) || (a == x && (Less(b, y) || (b == y && Less(c, z))))
  {
    hide Less;
    LessConcat(b, c, y, z);
    LessConcat(a, b + c, x, y + z);
  }

  lemma TimesSort(r: nat, q: nat)
    requires r < 86400 && q < 86400
    ensures |TimeText(r)| == 6 == |TimeText(q)|
    ensures r < q ==> Less(TimeText(r), TimeText(q))
  {
    hide Pad, Less, Pow10;
    Widths();
    ClockParts(r, q);
    ClockParts(q, r);
    PadSorts(r / 3600, q / 3600, 2);
    PadSorts(r % 3600 / 60, q % 3600 / 60, 2);
    PadSorts(r % 60, q % 60, 2);
    TriplesSort(Pad(r / 3600, 2), Pad(r % 3600 / 60, 2), Pad(r % 60, 2),
                Pad(q / 3600, 2), Pad(q % 3600 / 60, 2), Pad(q % 60, 2));
  }

  // First second of the year 10000.
  const YEAR_10000: nat := 253402300800

  lemma LastDayOf9999()
    ensures CivilFromDays(YEAR_10000 / 86400 - 1) == Date(9999, 12, 31)
  {
    hide CivilFromDays;
    CivilOf(YEAR_10000 / 86400 - 1, 24, 146036);
    assert YearOfEra(146036) == 399 && MarchYearStart(399) == 145731;
    assert MarchMonth(305) == 9 && MarchDay(305) == 31;
  }

  lemma FourDigitYear(days: int)
    requires 0 <= days < YEAR_10000 / 86400
    ensures 1970 <= CivilFromDays(days).y <= 9999 && ValidDate(CivilFromDays(days))
  {
    hide CivilFromDays, ValidDate;
    LastDayOf9999();
    CivilSuccession(days);
    if days < YEAR_10000 / 86400 - 1 {
      CivilMonotone(days, YEAR_10000 / 86400 - 1);
    }
    if days > 0 {
      CivilMonotone(0, days);
    }
  }

  lemma DaysSort(d: int, e: int)
    requires 0 <= d <= e < YEAR_10000 / 86400
    ensures |DateText(CivilFromDays(d))| == |DateText(CivilFromDays(e))|
    ensures d < e ==> Less(DateText(CivilFromDays(d)), DateText(CivilFromDays(e)))
  {
    hide Less, CivilFromDays, DateText, ValidDate;
    FourDigitYear(d);
    FourDigitYear(e);
    DatesSort(CivilFromDays(d), CivilFromDays(e));
    DatesSort(CivilFromDays(e), CivilFromDays(d));
    if d < e {
      CivilMonotone(d, e);
    }
  }

  lemma StampLess(d: string, a: string, e: string, b: string)
    requires |d| == |e| && |a| == |b| && Ascii(d) && Ascii(a) && Ascii(e) && Ascii(b)
    requires Less(d, e) || (d == e && Less(a, b))
    ensures Less(d + ("T" + (a + "Z")), e + ("T" + (b + "Z")))
  {
    hide Less;
    LessConcat(a, "Z", b, "Z");
    LessConcat("T", a + "Z", "T", b + "Z");
    LessConcat(d, "T" + (a + "Z"), e, "T" + (b + "Z"));
  }

  lemma StampsAscend(s: nat, t: nat)
    requires s < t < YEAR_10000
    ensures Less(AmzDates(s).full, AmzDates(t).full)
    ensures if s / 86400 < t / 86400 then Less(AmzDates(s).date, AmzDates(t).date)
      else AmzDates(s).date == AmzDates(t).date
  {
    hide Less, CivilFromDays, DateText, TimeText;
    DaysSort(s / 86400, t / 86400);
    TimesSort(s % 86400, t % 86400);
    StampLess(DateText(CivilFromDays(s / 86400)), TimeText(s % 86400),
              DateText(CivilFromDays(t / 86400)), TimeText(t % 86400));
  }

  // Through the year 9999 the stamps sort exactly as the times do.
  lemma StampsSort(s: nat, t: nat)
    requires s < YEAR_10000 && t < YEAR_10000
    ensures Less(AmzDates(s).full, AmzDates(t).full) <==> s < t
    ensures Less(AmzDates(s).date, AmzDates(t).date) <==> s / 86400 < t / 86400
  {
    hide Less, AmzDates;
    LessIrreflexive(AmzDates(s).full);
    LessIrreflexive(AmzDates(s).date);
    if s < t {
      StampsAscend(s, t);
    } else if t < s {
      StampsAscend(t, s);
      LessAsymmetric(AmzDates(t).full, AmzDates(s).full);
      if t / 86400 < s / 86400 {
        LessAsymmetric(AmzDates(t).date, AmzDates(s).date);
      }
    }
  }

  // The year after ends it.
  lemma YearTenThousandBreaksOrder()
    ensures Less(AmzDates(YEAR_10000).full, AmzDates(YEAR_10000 - 1).full)
  {
    hide CivilFromDays, TimeText, Pad, Less;
    LastDayOf9999();
    CivilSuccession(YEAR_10000 / 86400 - 1);
    FirstDigits();
    FirstDecides(DateText(Date(10000, 1, 1)) + ("T" + (TimeText(0) + "Z")),
                 DateText(Date(9999, 12, 31)) + ("T" + (TimeText(86399) + "Z")));
  }

  lemma FirstDecides(s: string, t: string)
    requires s != "" && t != "" && s[0] < t[0] && t[0] as int < 0x80
    ensures Less(s, t)
  {
    LessStep(s, t);
  }

  lemma FirstDigits()
    ensures FirstIs(Pad(10000, 4), '1') && FirstIs(Pad(9999, 4), '9')
  {
    assert FirstIs(PrintNat(9), '9') && FirstIs(PrintNat(99), '9') && FirstIs(PrintNat(999), '9');
    assert FirstIs(PrintNat(9999), '9') && |PrintNat(9999)| == 4;
    assert FirstIs(PrintNat(1), '1') && FirstIs(PrintNat(10), '1') && FirstIs(PrintNat(100), '1');
    assert FirstIs(PrintNat(1000), '1') && FirstIs(PrintNat(10000), '1') && |PrintNat(10000)| == 5;
  }

  // The stamp of 24 May 2013, midnight.
  lemma StampExample()
    ensures AmzDates(1369353600) == Stamps("20130524T000000Z", "20130524")
  {
    hide CivilFromDays, Pad;
    CivilOf(15849, 5, 4832);
    assert YearOfEra(4832) == 13 && MarchYearStart(13) == 4748;
    assert MarchMonth(84) == 2 && MarchDay(84) == 24;
    PaddedNumbers();
    assert "2013" + ("05" + "24") == "20130524" && "00" + ("00" + "00") == "000000";
    assert "20130524" + ("T" + ("000000" + "Z")) == "20130524T000000Z";
  }

  lemma PaddedNumbers()
    ensures Pad(2013, 4) == "2013" && Pad(5, 2) == "05" && Pad(24, 2) == "24" && Pad(0, 2) == "00"
  {
    assert PrintNat(2) == "2" && PrintNat(20) == "20" && PrintNat(201) == "201" && PrintNat(2013) == "2013";
    assert PrintNat(24) == "24" && PrintNat(5) == "5" && PrintNat(0) == "0";
  }

  // Seconds beyond the signed range count backwards from the epoch.
  lemma WrappedStamp()
    ensures AmzDates(U64_LIMIT - 1).date == "19691231"
  {
    hide CivilFromDays, Pad, TimeText;
    CivilOf(-1, 4, 135079);
    assert YearOfEra(135079) == 369 && MarchYearStart(369) == 134774;
    assert MarchMonth(305) == 9 && MarchDay(305) == 31;
    assert (-1) / 86400 == -1;
    PaddedDay();
    assert "1969" + ("12" + "31") == "19691231";
  }

  lemma PaddedDay()
    ensures Pad(1969, 4) == "1969" && Pad(12, 2) == "12" && Pad(31, 2) == "31"
  {
    assert PrintNat(1) == "1" && PrintNat(19) == "19" && PrintNat(196) == "196" && PrintNat(1969) == "1969";
    assert PrintNat(12) == "12" && PrintNat(3) == "3" && PrintNat(31) == "31";
  }
}
