/**
 RFC 3339 timestamps as sort keys. `ListFiles` and `pruneLocalCopies` sort modification times as
 strings and treat the result as newest first (rclone/client.go, backup/local_retention.go).
 Instants are nanoseconds since 0000-01-01T00:00:00Z.
 */
module Timestamps {
  import opened Text

  // ----- decimal fields

  function Pow10(n: nat): (p: nat)
    ensures p >= 1
  {
    if n == 0 then 1 else 10 * Pow10(n - 1)
  }

  const DIGITS := "0123456789"

  /** The `w` lowest decimal digits of `n`, zero-padded. */
  function Digits(n: nat, w: nat): (s: string)
    ensures |s| == w
  {
    if w == 0 then "" else Digits(n / 10, w - 1) + [DIGITS[n % 10]]
  }

  function DigitValue(c: char): Option<nat> {
    if '0' <= c <= '9' then Some((c - '0') as nat) else None
  }

  function Number(s: string): Option<nat> {
    if s == "" then Some(0)
    else
      match (Number(s[..|s| - 1]), DigitValue(s[|s| - 1]))
      case (Some(hi), Some(lo)) => Some(10 * hi + lo)
      case _ => None
  }

  lemma {:induction false} NumberOfDigits(n: nat, w: nat)
    requires n < Pow10(w)
    ensures Number(Digits(n, w)) == Some(n)
  {
    if w > 0 {
      var s := Digits(n, w);
      NumberOfDigits(n / 10, w - 1);
      assert s[..|s| - 1] == Digits(n / 10, w - 1);
    }
  }

  lemma {:induction false} DigitsOrder(a: nat, b: nat, w: nat)
    requires a < Pow10(w) && b < Pow10(w)
    ensures LexLess(Digits(a, w), Digits(b, w)) <==> a < b
    ensures Digits(a, w) == Digits(b, w) <==> a == b
  {
    if w > 0 {
      var x, y := [DIGITS[a % 10]], [DIGITS[b % 10]];
      DigitsOrder(a / 10, b / 10, w - 1);
      LexConcat(Digits(a / 10, w - 1), Digits(b / 10, w - 1), x, y);
      assert LexLess(x, y) <==> a % 10 < b % 10 by { assert LexLess(x[1..], y[1..]) == false; }
      NumberOfDigits(a, w);
      NumberOfDigits(b, w);
    }
  }

  // ----- the calendar

  datatype Civil = Civil(year: nat, month: nat, day: nat, hour: nat, minute: nat, second: nat)

  predicate IsLeap(y: nat) {
    y % 4 == 0 && (y % 100 != 0 || y % 400 == 0)
  }

  function DaysInMonth(y: nat, m: nat): nat {
    if m == 2 then (if IsLeap(y) then 29 else 28)
    else if m == 4 || m == 6 || m == 9 || m == 11 then 30 else 31
  }

  predicate ValidCivil(t: Civil) {
    && t.year <= 9999 && 1 <= t.month <= 12 && 1 <= t.day <= DaysInMonth(t.year, t.month)
    && t.hour < 24 && t.minute < 60 && t.second < 60
  }

  function DaysBeforeYear(y: nat): nat {
    365 * y + (y + 3) / 4 - (y + 99) / 100 + (y + 399) / 400
  }

  function DaysBeforeMonth(y: nat, m: nat): nat {
    if m <= 1 then 0 else DaysBeforeMonth(y, m - 1) + DaysInMonth(y, m - 1)
  }

  function DayNumber(t: Civil): nat {
    DaysBeforeYear(t.year) + DaysBeforeMonth(t.year, t.month) + if t.day == 0 then 0 else t.day - 1
  }

  function Seconds(t: Civil): nat {
    86400 * DayNumber(t) + 3600 * t.hour + 60 * t.minute + t.second
  }

  /** The day after, by the calendar's own rule. */
  function NextDay(t: Civil): Civil {
    if t.day < DaysInMonth(t.year, t.month) then t.(day := t.day + 1)
    else if t.month < 12 then t.(month := t.month + 1, day := 1)
    else t.(year := t.year + 1, month := 1, day := 1)
  }

  lemma MonthLengths(y: nat)
    ensures forall m :: m in {1, 3, 5, 7, 8, 10, 12} ==> DaysInMonth(y, m) == 31
    ensures forall m :: m in {4, 6, 9, 11} ==> DaysInMonth(y, m) == 30
    ensures DaysInMonth(y, 2) == if (y % 4 == 0 && y % 100 != 0) || y % 400 == 0 then 29 else 28
  {
    assert y % 400 == 0 ==> y % 4 == 0 by { EveryFourHundredth(y); EveryHundredth(y); }
  }

  lemma YearLength(y: nat)
    ensures DaysBeforeMonth(y, 13) == if IsLeap(y) then 366 else 365
    ensures DaysBeforeYear(y + 1) == DaysBeforeYear(y) + DaysBeforeMonth(y, 13)
  {
    MonthTable(y);
    EveryFourth(y);
    EveryHundredth(y);
    EveryFourHundredth(y);
  }

  lemma EveryFourth(y: nat)
    ensures (y + 4) / 4 == (y + 3) / 4 + if y % 4 == 0 then 1 else 0
  {
  }

  lemma EveryHundredth(y: nat)
    ensures (y + 100) / 100 == (y + 99) / 100 + if y % 100 == 0 then 1 else 0
    ensures y % 100 == 0 ==> y % 4 == 0
  {
    assert y == 4 * (25 * (y / 100)) + y % 100;
  }

  lemma EveryFourHundredth(y: nat)
    ensures (y + 400) / 400 == (y + 399) / 400 + if y % 400 == 0 then 1 else 0
    ensures y % 400 == 0 ==> y % 100 == 0
  {
    assert y == 100 * (4 * (y / 400)) + y % 400;
  }

  lemma MonthTable(y: nat)
    ensures DaysBeforeMonth(y, 13) == 337 + DaysInMonth(y, 2)
  {
    assert DaysBeforeMonth(y, 2) == 31;
    assert DaysBeforeMonth(y, 3) == 31 + DaysInMonth(y, 2);
    assert DaysBeforeMonth(y, 5) == DaysBeforeMonth(y, 3) + 61;
    assert DaysBeforeMonth(y, 7) == DaysBeforeMonth(y, 5) + 61;
    assert DaysBeforeMonth(y, 9) == DaysBeforeMonth(y, 7) + 62;
    assert DaysBeforeMonth(y, 11) == DaysBeforeMonth(y, 9) + 61;
    assert DaysBeforeMonth(y, 13) == DaysBeforeMonth(y, 11) + 61;
  }

  /** The closed form counts days: it starts at zero and goes up by one with every calendar day. */
  lemma DayNumberCounts(t: Civil)
    requires ValidCivil(t)
    ensures DayNumber(NextDay(t)) == DayNumber(t) + 1
    ensures t.year < 9999 ==> ValidCivil(NextDay(t))
    ensures DayNumber(Civil(0, 1, 1, 0, 0, 0)) == 0
  {
    if t.month == 12 { YearLength(t.year); }
  }

  lemma {:induction false} YearsBefore(a: nat, b: nat)
    requires a < b
    ensures DaysBeforeYear(a) + DaysBeforeMonth(a, 13) <= DaysBeforeYear(b)
    decreases b
  {
    YearLength(b - 1);
    if a < b - 1 { YearsBefore(a, b - 1); }
    YearLength(a);
  }

  lemma {:induction false} MonthsBefore(y: nat, a: nat, b: nat)
    requires 1 <= a < b
    ensures DaysBeforeMonth(y, a) + DaysInMonth(y, a) <= DaysBeforeMonth(y, b)
    decreases b
  {
    if a < b - 1 { MonthsBefore(y, a, b - 1); }
  }

  /** Field by field, most significant first. */
  predicate CivilLess(a: Civil, b: Civil) {
    || a.year < b.year
    || (a.year == b.year && a.month < b.month)
    || (a.year == b.year && a.month == b.month && a.day < b.day)
    || (a.year == b.year && a.month == b.month && a.day == b.day && TimeOfDay(a) < TimeOfDay(b))
  }

  function TimeOfDay(t: Civil): nat {
    3600 * t.hour + 60 * t.minute + t.second
  }

  lemma CivilLessIsEarlier(a: Civil, b: Civil)
    requires ValidCivil(a) && ValidCivil(b) && CivilLess(a, b)
    ensures Seconds(a) < Seconds(b)
  {
    if a.year < b.year {
      YearsBefore(a.year, b.year);
      if a.month < 13 { MonthsBefore(a.year, a.month, 13); }
      assert DayNumber(a) < DayNumber(b);
    } else if a.month < b.month {
      MonthsBefore(a.year, a.month, b.month);
      assert DayNumber(a) < DayNumber(b);
    }
  }

  lemma CivilTotal(a: Civil, b: Civil)
    requires ValidCivil(a) && ValidCivil(b)
    ensures CivilLess(a, b) || CivilLess(b, a) || a == b
    ensures !(CivilLess(a, b) && CivilLess(b, a)) && !CivilLess(a, a)
  {
  }

  lemma Trichotomy(less: bool, more: bool, same: bool, x: int, y: int)
    requires less || more || same
    requires (less ==> x < y) && (more ==> y < x) && (same ==> x == y)
    ensures (x < y <==> less) && (x == y ==> same)
  {
  }

  lemma EarlierIsCivilLess(a: Civil, b: Civil)
    requires ValidCivil(a) && ValidCivil(b)
    ensures Seconds(a) < Seconds(b) <==> CivilLess(a, b)
    ensures Seconds(a) == Seconds(b) <==> a == b
  {
    CivilTotal(a, b);
    var x, y := SecondsOf(a, b);
    Trichotomy(CivilLess(a, b), CivilLess(b, a), a == b, x, y);
  }

  lemma SecondsOf(a: Civil, b: Civil) returns (x: int, y: int)
    requires ValidCivil(a) && ValidCivil(b)
    ensures x == Seconds(a) && y == Seconds(b)
    ensures (CivilLess(a, b) ==> x < y) && (CivilLess(b, a) ==> y < x) && (a == b ==> x == y)
  {
    x, y := Seconds(a), Seconds(b);
    if CivilLess(a, b) { CivilLessIsEarlier(a, b); }
    if CivilLess(b, a) { CivilLessIsEarlier(b, a); }
  }

  // ----- the text form

  datatype Zone = Zulu | Offset(negative: bool, hours: nat, minutes: nat)

  /** Number of fractional digits and zone: what two timestamps of one listing may differ in. */
  datatype Form = Form(width: nat, zone: Zone)

  datatype Stamp = Stamp(civil: Civil, fraction: nat, form: Form)

  predicate ValidForm(f: Form) {
    f.width <= 9 && (f.zone.Offset? ==> f.zone.hours < 24 && f.zone.minutes < 60)
  }

  predicate ValidStamp(s: Stamp) {
    ValidCivil(s.civil) && ValidForm(s.form) && s.fraction < Pow10(s.form.width)
  }

  function DateText(t: Civil): (s: string)
    ensures |s| == 10
  {
    Digits(t.year, 4) + ("-" + (Digits(t.month, 2) + ("-" + Digits(t.day, 2))))
  }

  function TimeText(t: Civil): (s: string)
    ensures |s| == 8
  {
    Digits(t.hour, 2) + (":" + (Digits(t.minute, 2) + (":" + Digits(t.second, 2))))
  }

  function CivilText(t: Civil): (s: string)
    ensures |s| == 19
  {
    DateText(t) + ("T" + TimeText(t))
  }

  function FractionText(s: Stamp): string {
    if s.form.width == 0 then "" else "." + Digits(s.fraction, s.form.width)
  }

  function ZoneText(z: Zone): string {
    match z
    case Zulu => "Z"
    case Offset(negative, hours, minutes) =>
      (if negative then "-" else "+") + (Digits(hours, 2) + (":" + Digits(minutes, 2)))
  }

  function StampText(s: Stamp): string {
    CivilText(s.civil) + (FractionText(s) + ZoneText(s.form.zone))
  }

  const NANOS: nat := 1_000_000_000

  function ZoneMinutes(z: Zone): int {
    match z
    case Zulu => 0
    case Offset(negative, hours, minutes) => if negative then -(60 * hours + minutes) else 60 * hours + minutes
  }

  function FractionNanos(s: Stamp): nat {
    if s.form.width <= 9 then s.fraction * Pow10(9 - s.form.width) else 0
  }

  function Instant(s: Stamp): int {
    (Seconds(s.civil) - 60 * ZoneMinutes(s.form.zone)) * NANOS + FractionNanos(s)
  }

  // ----- lexical order within one form is the order of instants

  lemma SmallPowers()
    ensures Pow10(2) == 100 && Pow10(4) == 10000
  {
    assert Pow10(1) == 10;
    assert Pow10(3) == 1000;
  }

  /** One more field in front. */
  lemma FieldOrder(a: nat, b: nat, w: nat, sep: string, x: string, y: string)
    requires a < Pow10(w) && b < Pow10(w)
    ensures LexLess(Digits(a, w) + (sep + x), Digits(b, w) + (sep + y)) <==> a < b || (a == b && LexLess(x, y))
  {
    LexConcat(Digits(a, w), Digits(b, w), sep + x, sep + y);
    LexConcat(sep, sep, x, y);
    LexIrreflexive(sep);
    DigitsOrder(a, b, w);
  }

  lemma DateOrder(a: Civil, b: Civil)
    requires ValidCivil(a) && ValidCivil(b)
    ensures LexLess(DateText(a), DateText(b)) <==>
            a.year < b.year || (a.year == b.year && (a.month < b.month || (a.month == b.month && a.day < b.day)))
    ensures DateText(a) == DateText(b) ==> a.year == b.year && a.month == b.month && a.day == b.day
  {
    SmallPowers();
    FieldOrder(a.year, b.year, 4, "-", Digits(a.month, 2) + ("-" + Digits(a.day, 2)),
               Digits(b.month, 2) + ("-" + Digits(b.day, 2)));
    FieldOrder(a.month, b.month, 2, "-", Digits(a.day, 2), Digits(b.day, 2));
    DigitsOrder(a.day, b.day, 2);
    LexIrreflexive(DateText(a));
    FieldOrder(b.year, a.year, 4, "-", Digits(b.month, 2) + ("-" + Digits(b.day, 2)),
               Digits(a.month, 2) + ("-" + Digits(a.day, 2)));
    FieldOrder(b.month, a.month, 2, "-", Digits(b.day, 2), Digits(a.day, 2));
    DigitsOrder(b.day, a.day, 2);
  }

  lemma TimeOrder(a: Civil, b: Civil)
    requires ValidCivil(a) && ValidCivil(b)
    ensures LexLess(TimeText(a), TimeText(b)) <==> TimeOfDay(a) < TimeOfDay(b)
  {
    SmallPowers();
    FieldOrder(a.hour, b.hour, 2, ":", Digits(a.minute, 2) + (":" + Digits(a.second, 2)),
               Digits(b.minute, 2) + (":" + Digits(b.second, 2)));
    FieldOrder(a.minute, b.minute, 2, ":", Digits(a.second, 2), Digits(b.second, 2));
    DigitsOrder(a.second, b.second, 2);
  }

  lemma CivilTextOrder(a: Civil, b: Civil)
    requires ValidCivil(a) && ValidCivil(b)
    ensures LexLess(CivilText(a), CivilText(b)) <==> CivilLess(a, b)
    ensures CivilText(a) == CivilText(b) <==> a == b
  {
    LexConcat(DateText(a), DateText(b), "T" + TimeText(a), "T" + TimeText(b));
    LexConcat("T", "T", TimeText(a), TimeText(b));
    LexIrreflexive("T");
    DateOrder(a, b);
    TimeOrder(a, b);
    LexIrreflexive(CivilText(a));
    LexConcat(DateText(b), DateText(a), "T" + TimeText(b), "T" + TimeText(a));
    LexConcat("T", "T", TimeText(b), TimeText(a));
    DateOrder(b, a);
    TimeOrder(b, a);
    if CivilText(a) == CivilText(b) {
      EarlierIsCivilLess(a, b);
      EarlierIsCivilLess(b, a);
    }
  }

  lemma ScaledOrder(a: nat, b: nat, p: nat)
    requires p > 0
    ensures a * p < b * p <==> a < b
  {
    if a < b { assert b * p == a * p + (b - a) * p; }
    if a > b { assert a * p == b * p + (a - b) * p; }
  }

  lemma {:induction false} PowerSum(a: nat, b: nat)
    ensures Pow10(a + b) == Pow10(a) * Pow10(b)
  {
    if a > 0 {
      PowerSum(a - 1, b);
      assert Pow10(a + b) == 10 * (Pow10(a - 1) * Pow10(b)) == Pow10(a) * Pow10(b);
    }
  }

  lemma FractionBelowOne(s: Stamp)
    requires ValidStamp(s)
    ensures FractionNanos(s) < NANOS
  {
    var w := s.form.width;
    PowerSum(w, 9 - w);
    ScaledOrder(s.fraction, Pow10(w), Pow10(9 - w));
    NanosIsPower();
  }

  lemma NanosIsPower()
    ensures Pow10(9) == NANOS
  {
    assert Pow10(3) == 1000;
    assert Pow10(6) == 1000_000;
  }

  /** Earlier by the calendar, or at the same second with the smaller fraction. */
  predicate StampLess(a: Stamp, b: Stamp) {
    CivilLess(a.civil, b.civil) || (a.civil == b.civil && a.fraction < b.fraction)
  }

  lemma OneFormText(a: Stamp, b: Stamp)
    requires ValidStamp(a) && ValidStamp(b) && a.form == b.form
    ensures LexLess(StampText(a), StampText(b)) <==> StampLess(a, b)
  {
    var w, z := a.form.width, ZoneText(a.form.zone);
    LexConcat(CivilText(a.civil), CivilText(b.civil), FractionText(a) + z, FractionText(b) + z);
    LexConcat(FractionText(a), FractionText(b), z, z);
    LexIrreflexive(z);
    LexConcat(".", ".", Digits(a.fraction, w), Digits(b.fraction, w));
    LexIrreflexive(".");
    DigitsOrder(a.fraction, b.fraction, w);
    CivilTextOrder(a.civil, b.civil);
    assert w == 0 ==> LexLess(FractionText(a), FractionText(b)) == LexLess("", "");
  }

  lemma OneFormTime(a: Stamp, b: Stamp)
    requires ValidStamp(a) && ValidStamp(b) && a.form == b.form
    ensures Instant(a) < Instant(b) <==> StampLess(a, b)
  {
    EarlierIsCivilLess(a.civil, b.civil);
    FractionBelowOne(a);
    FractionBelowOne(b);
    ScaledOrder(a.fraction, b.fraction, Pow10(9 - a.form.width));
  }

  /** Section 5.1 of RFC 3339: timestamps of one form sort as strings the way they sort in time. */
  lemma OneFormSortsInTime(a: Stamp, b: Stamp)
    requires ValidStamp(a) && ValidStamp(b) && a.form == b.form
    ensures LexLess(StampText(a), StampText(b)) <==> Instant(a) < Instant(b)
  {
    OneFormText(a, b);
    OneFormTime(a, b);
  }

  // ----- which forms may be mixed in one listing

  /** A lexical sort never puts timestamps of these two forms against the order of time. */
  ghost predicate SortsInTime(f: Form, g: Form) {
    forall a, b ::
      ValidStamp(a) && ValidStamp(b) && a.form == f && b.form == g ==>
        && (LexLess(StampText(a), StampText(b)) ==> Instant(a) <= Instant(b))
        && (LexLess(StampText(b), StampText(a)) ==> Instant(b) <= Instant(a))
  }

  /** Same offset, and a `Z` form has at least as many fractional digits as the other. */
  predicate Mixable(f: Form, g: Form) {
    && ZoneMinutes(f.zone) == ZoneMinutes(g.zone)
    && (f.zone.Zulu? ==> g.width <= f.width)
    && (g.zone.Zulu? ==> f.width <= g.width)
  }

  /** Drop the `k` lowest decimal digits. */
  function Shift(n: nat, k: nat): nat {
    if k == 0 then n else Shift(n / 10, k - 1)
  }

  lemma {:induction false} ShiftBound(n: nat, k: nat)
    ensures Shift(n, k) * Pow10(k) <= n < (Shift(n, k) + 1) * Pow10(k)
  {
    if k > 0 {
      ShiftBound(n / 10, k - 1);
      Regroup(Shift(n, k), 10, Pow10(k - 1));
      Regroup(Shift(n, k) + 1, 10, Pow10(k - 1));
    }
  }

  lemma Regroup(a: nat, p: nat, q: nat)
    ensures a * (p * q) == p * (a * q) == (a * p) * q
  {
  }

  /** The `w + k` lowest digits are the `w` above the lowest `k`, then the lowest `k`. */
  lemma {:induction false} DigitsSplit(n: nat, w: nat, k: nat)
    ensures Digits(n, w + k) == Digits(Shift(n, k), w) + Digits(n, k)
  {
    if k > 0 {
      DigitsSplit(n / 10, w, k - 1);
      assert Digits(n, w + k) == Digits(n / 10, w + (k - 1)) + [DIGITS[n % 10]];
    }
  }

  /** The civil text decides unless it is the same. */
  lemma CivilDecides(a: Stamp, b: Stamp)
    requires ValidStamp(a) && ValidStamp(b) && ZoneMinutes(a.form.zone) == ZoneMinutes(b.form.zone)
    ensures LexLess(StampText(a), StampText(b)) <==>
              CivilLess(a.civil, b.civil) ||
              (a.civil == b.civil &&
               LexLess(FractionText(a) + ZoneText(a.form.zone), FractionText(b) + ZoneText(b.form.zone)))
    ensures CivilLess(a.civil, b.civil) ==> Instant(a) < Instant(b)
    ensures a.civil == b.civil ==> (Instant(a) <= Instant(b) <==> FractionNanos(a) <= FractionNanos(b))
  {
    LexConcat(CivilText(a.civil), CivilText(b.civil),
              FractionText(a) + ZoneText(a.form.zone), FractionText(b) + ZoneText(b.form.zone));
    CivilTextOrder(a.civil, b.civil);
    EarlierIsCivilLess(a.civil, b.civil);
    FractionBelowOne(a);
    FractionBelowOne(b);
  }

  /** The fraction of the stamp with more digits, cut to the digits of the other one. */
  function Head(a: Stamp, b: Stamp): nat
    requires a.form.width <= b.form.width
  {
    Shift(b.fraction, b.form.width - a.form.width)
  }

  /** Fractions of different width, in nanoseconds. */
  lemma WidthsOrder(a: Stamp, b: Stamp)
    requires ValidStamp(a) && ValidStamp(b) && a.form.width < b.form.width
    ensures a.fraction > Head(a, b) <==> FractionNanos(a) > FractionNanos(b)
  {
    var w, v := a.form.width, b.form.width;
    var p, q := Pow10(v - w), Pow10(9 - v);
    PowerSum(v - w, 9 - v);
    ShiftBound(b.fraction, v - w);
    assert v - w + (9 - v) == 9 - w && Pow10(9 - w) == p * q;
    Truncated(a.fraction, Head(a, b), b.fraction, p, q);
  }

  lemma Truncated(f: nat, h: nat, n: nat, p: nat, q: nat)
    requires q > 0 && h * p <= n < (h + 1) * p
    ensures f > h <==> f * (p * q) > n * q
  {
    Regroup(f, p, q);
    ScaledOrder(n, f * p, q);
    if f > h { Monotone(h + 1, f, p); } else { Monotone(f, h, p); }
  }

  lemma Monotone(a: nat, b: nat, p: nat)
    requires a <= b
    ensures a * p <= b * p
  {
    assert b * p == a * p + (b - a) * p;
  }

  lemma HeadBound(a: Stamp, b: Stamp)
    requires ValidStamp(a) && ValidStamp(b) && a.form.width < b.form.width
    ensures Head(a, b) < Pow10(a.form.width)
  {
    var w, v := a.form.width, b.form.width;
    PowerSum(w, v - w);
    ShiftBound(b.fraction, v - w);
    ScaledOrder(Head(a, b), Pow10(w), Pow10(v - w));
  }

  /** What follows the shared digits: a zone on one side, a digit on the other. */
  lemma ZoneAgainstDigit(z: Zone, low: string, rest: string)
    requires low != "" && low[0] in DIGITS
    ensures LexLess(ZoneText(z), low + rest) <==> !z.Zulu?
    ensures LexLess(low + rest, ZoneText(z)) <==> z.Zulu?
    ensures LexLess(ZoneText(z), "." + rest) <==> !z.Zulu?
    ensures LexLess("." + rest, ZoneText(z)) <==> z.Zulu?
  {
    assert (low + rest)[0] == low[0] && ("." + rest)[0] == '.';
    assert ZoneText(z)[0] == if z.Zulu? then 'Z' else if z.negative then '-' else '+';
  }

  /** Fractions of different width, as text: past the shared digits a `Z` loses and an offset wins. */
  lemma WidthsText(a: Stamp, b: Stamp)
    requires ValidStamp(a) && ValidStamp(b) && a.form.width < b.form.width
    ensures var x, y := FractionText(a) + ZoneText(a.form.zone), FractionText(b) + ZoneText(b.form.zone);
            && (LexLess(x, y) <==> a.fraction < Head(a, b) || (a.fraction == Head(a, b) && !a.form.zone.Zulu?))
            && (LexLess(y, x) <==> a.fraction > Head(a, b) || (a.fraction == Head(a, b) && a.form.zone.Zulu?))
  {
    HeadBound(a, b);
    if a.form.width == 0 {
      var rest := Digits(b.fraction, b.form.width) + ZoneText(b.form.zone);
      ZoneAgainstDigit(a.form.zone, "0", rest);
      assert FractionText(a) + ZoneText(a.form.zone) == ZoneText(a.form.zone);
      assert FractionText(b) + ZoneText(b.form.zone) == "." + rest;
    } else {
      SharedDigits(a, b, FractionText(a) + ZoneText(a.form.zone), FractionText(b) + ZoneText(b.form.zone));
    }
  }

  lemma SharedDigits(a: Stamp, b: Stamp, x: string, y: string)
    requires ValidStamp(a) && ValidStamp(b) && 0 < a.form.width < b.form.width
    requires x == FractionText(a) + ZoneText(a.form.zone) && y == FractionText(b) + ZoneText(b.form.zone)
    ensures LexLess(x, y) <==> a.fraction < Head(a, b) || (a.fraction == Head(a, b) && !a.form.zone.Zulu?)
    ensures LexLess(y, x) <==> a.fraction > Head(a, b) || (a.fraction == Head(a, b) && a.form.zone.Zulu?)
  {
    HeadBound(a, b);
    SharedTexts(a, b);
    SharedCompare(a.fraction, Head(a, b), b.fraction, a.form.width, b.form.width - a.form.width, a.form.zone,
                  ZoneText(b.form.zone), x, y);
  }

  lemma SharedTexts(a: Stamp, b: Stamp)
    requires 0 < a.form.width < b.form.width
    ensures FractionText(a) + ZoneText(a.form.zone) == "." + (Digits(a.fraction, a.form.width) + ZoneText(a.form.zone))
    ensures FractionText(b) + ZoneText(b.form.zone) ==
            "." + (Digits(Head(a, b), a.form.width) +
                   (Digits(b.fraction, b.form.width - a.form.width) + ZoneText(b.form.zone)))
  {
    DigitsSplit(b.fraction, a.form.width, b.form.width - a.form.width);
    Associative(".", Digits(a.fraction, a.form.width), ZoneText(a.form.zone));
    var high, low := Digits(Head(a, b), a.form.width), Digits(b.fraction, b.form.width - a.form.width);
    var zb := ZoneText(b.form.zone);
    Associative(".", high + low, zb);
    Associative(high, low, zb);
  }

  lemma Associative(a: string, b: string, c: string)
    ensures (a + b) + c == a + (b + c)
  {
  }

  lemma SharedCompare(f: nat, h: nat, n: nat, w: nat, k: nat, z: Zone, rest: string, x: string, y: string)
    requires f < Pow10(w) && h < Pow10(w) && k > 0
    requires x == "." + (Digits(f, w) + ZoneText(z)) && y == "." + (Digits(h, w) + (Digits(n, k) + rest))
    ensures LexLess(x, y) <==> f < h || (f == h && !z.Zulu?)
    ensures LexLess(y, x) <==> f > h || (f == h && z.Zulu?)
  {
    DigitsAreDigits(n, k);
    ZoneAgainstDigit(z, Digits(n, k), rest);
    AfterShared(Digits(f, w), Digits(h, w), ZoneText(z), Digits(n, k) + rest);
    AfterShared(Digits(h, w), Digits(f, w), Digits(n, k) + rest, ZoneText(z));
    DigitsOrder(f, h, w);
    DigitsOrder(h, f, w);
  }

  lemma AfterShared(a: string, b: string, x: string, y: string)
    requires |a| == |b|
    ensures LexLess("." + (a + x), "." + (b + y)) <==> LexLess(a, b) || (a == b && LexLess(x, y))
  {
    LexConcat(".", ".", a + x, b + y);
    LexIrreflexive(".");
    LexConcat(a, b, x, y);
  }

  lemma {:induction false} DigitsAreDigits(n: nat, w: nat)
    ensures forall c :: c in Digits(n, w) ==> c in DIGITS
  {
    if w > 0 { DigitsAreDigits(n / 10, w - 1); }
  }

  /** With equal civil text: fractions of mixable forms compare as text the way they compare as numbers. */
  lemma FractionsInTime(a: Stamp, b: Stamp)
    requires ValidStamp(a) && ValidStamp(b) && Mixable(a.form, b.form)
    requires LexLess(FractionText(a) + ZoneText(a.form.zone), FractionText(b) + ZoneText(b.form.zone))
    ensures FractionNanos(a) <= FractionNanos(b)
  {
    if a.form.width < b.form.width {
      WidthsText(a, b);
      WidthsOrder(a, b);
    } else if b.form.width < a.form.width {
      WidthsText(b, a);
      WidthsOrder(b, a);
    } else {
      EqualWidths(a, b);
      Monotone(a.fraction, b.fraction, Pow10(9 - a.form.width));
    }
  }

  lemma EqualWidths(a: Stamp, b: Stamp)
    requires ValidStamp(a) && ValidStamp(b) && a.form.width == b.form.width
    requires LexLess(FractionText(a) + ZoneText(a.form.zone), FractionText(b) + ZoneText(b.form.zone))
    ensures a.fraction <= b.fraction
  {
    LexConcat(FractionText(a), FractionText(b), ZoneText(a.form.zone), ZoneText(b.form.zone));
    LexConcat(".", ".", Digits(a.fraction, a.form.width), Digits(b.fraction, b.form.width));
    LexIrreflexive(".");
    DigitsOrder(a.fraction, b.fraction, a.form.width);
    LexIrreflexive("");
  }

  lemma MixableInTime(a: Stamp, b: Stamp)
    requires ValidStamp(a) && ValidStamp(b) && Mixable(a.form, b.form)
    requires LexLess(StampText(a), StampText(b))
    ensures Instant(a) <= Instant(b)
  {
    CivilDecides(a, b);
    if a.civil == b.civil { FractionsInTime(a, b); }
  }

  /** A second apart, on clocks at least a minute apart: the later text is the earlier instant. */
  lemma OffsetsAgainstTime(t: Civil, f: Form, g: Form)
    requires ValidCivil(t) && t.second == 0
    requires ValidForm(f) && ValidForm(g) && ZoneMinutes(f.zone) < ZoneMinutes(g.zone)
    ensures var a, b := Stamp(t, 0, f), Stamp(t.(second := 1), 0, g);
            ValidStamp(a) && ValidStamp(b) && LexLess(StampText(a), StampText(b)) && Instant(a) > Instant(b)
  {
    var a, b := Stamp(t, 0, f), Stamp(t.(second := 1), 0, g);
    LaterText(a, b);
    assert Seconds(b.civil) == Seconds(a.civil) + 1;
    assert FractionNanos(a) == 0 && FractionNanos(b) == 0;
  }

  lemma LaterText(a: Stamp, b: Stamp)
    requires ValidStamp(a) && ValidStamp(b) && CivilLess(a.civil, b.civil)
    ensures LexLess(StampText(a), StampText(b))
  {
    LexConcat(CivilText(a.civil), CivilText(b.civil),
              FractionText(a) + ZoneText(a.form.zone), FractionText(b) + ZoneText(b.form.zone));
    CivilTextOrder(a.civil, b.civil);
  }

  /** `...00Z` sorts after `...00.1+00:00` and after `...00.1Z`. */
  lemma ShortZuluAgainstTime(t: Civil, f: Form, g: Form)
    requires ValidCivil(t)
    requires ValidForm(f) && ValidForm(g) && ZoneMinutes(f.zone) == ZoneMinutes(g.zone)
    requires f.zone.Zulu? && f.width < g.width
    ensures var a, b := Stamp(t, 0, f), Stamp(t, 1, g);
            ValidStamp(a) && ValidStamp(b) && LexLess(StampText(b), StampText(a)) && Instant(a) < Instant(b)
  {
    var a, b := Stamp(t, 0, f), Stamp(t, 1, g);
    assert Pow10(g.width) >= 10;
    ZuluAfterFraction(a, b);
    LaterFraction(a, b);
  }

  lemma ZuluAfterFraction(a: Stamp, b: Stamp)
    requires ValidStamp(a) && ValidStamp(b) && a.civil == b.civil && a.fraction == 0 && b.fraction == 1
    requires a.form.zone.Zulu? && ZoneMinutes(b.form.zone) == 0 && a.form.width < b.form.width
    ensures LexLess(StampText(b), StampText(a))
  {
    CivilDecides(b, a);
    WidthsText(a, b);
    ShiftOne(b.form.width - a.form.width);
  }

  lemma LaterFraction(a: Stamp, b: Stamp)
    requires ValidStamp(a) && ValidStamp(b) && a.civil == b.civil
    requires ZoneMinutes(a.form.zone) == ZoneMinutes(b.form.zone) && a.fraction == 0 && b.fraction == 1
    ensures Instant(a) < Instant(b)
  {
    assert FractionNanos(a) == 0 && FractionNanos(b) == Pow10(9 - b.form.width);
  }

  lemma Clash(t: Civil, f: Form, g: Form)
    requires ValidCivil(t) && t.second == 0
    requires ValidForm(f) && ValidForm(g) && !Mixable(f, g)
    ensures !SortsInTime(f, g)
  {
    if ZoneMinutes(f.zone) < ZoneMinutes(g.zone) {
      OffsetsAgainstTime(t, f, g);
    } else if ZoneMinutes(g.zone) < ZoneMinutes(f.zone) {
      OffsetsAgainstTime(t, g, f);
    } else if f.zone.Zulu? && f.width < g.width {
      ShortZuluAgainstTime(t, f, g);
    } else {
      ShortZuluAgainstTime(t, g, f);
    }
  }

  lemma ShiftOne(k: nat)
    requires k > 0
    ensures Shift(1, k) == 0
  {
    ShiftBound(1, k);
    if Shift(1, k) > 0 { Monotone(1, Shift(1, k), Pow10(k)); }
  }

  /** The string sort of a listing is newest first exactly when the forms in it are mixable. */
  lemma ExactForms(f: Form, g: Form)
    requires ValidForm(f) && ValidForm(g)
    ensures SortsInTime(f, g) <==> Mixable(f, g)
  {
    if Mixable(f, g) {
      forall a, b | ValidStamp(a) && ValidStamp(b) && a.form == f && b.form == g
        ensures LexLess(StampText(a), StampText(b)) ==> Instant(a) <= Instant(b)
        ensures LexLess(StampText(b), StampText(a)) ==> Instant(b) <= Instant(a)
      {
        if LexLess(StampText(a), StampText(b)) { MixableInTime(a, b); }
        if LexLess(StampText(b), StampText(a)) { MixableInTime(b, a); }
      }
    } else {
      Clash(Civil(2026, 1, 1, 0, 0, 0), f, g);
    }
  }

  // ----- the form local pruning writes: an instant in UTC, whole seconds

  const UTC_SECONDS := Form(0, Zulu)

  /** Seconds from 0000-01-01T00:00:00Z to 10000-01-01T00:00:00Z. */
  const RANGE: nat := 86400 * 3652425

  function YearOf(day: nat, y: nat): (r: nat)
    requires DaysBeforeYear(y) <= day
    ensures r >= y && DaysBeforeYear(r) <= day < DaysBeforeYear(r + 1)
    decreases day - DaysBeforeYear(y)
  {
    YearLength(y);
    if day < DaysBeforeYear(y + 1) then y else YearOf(day, y + 1)
  }

  function MonthOf(rest: nat, y: nat, m: nat): (r: nat)
    requires 1 <= m <= 12 && DaysBeforeMonth(y, m) <= rest < DaysBeforeMonth(y, 13)
    ensures 1 <= r <= 12 && DaysBeforeMonth(y, r) <= rest < DaysBeforeMonth(y, r + 1)
    decreases 12 - m
  {
    if rest < DaysBeforeMonth(y, m + 1) then m else MonthOf(rest, y, m + 1)
  }

  /** `Time.UTC` in calendar fields. */
  function CivilOf(seconds: nat): (t: Civil)
    requires seconds < RANGE
    ensures ValidCivil(t) && Seconds(t) == seconds
  {
    var day := seconds / 86400;
    var y := YearOf(day, 0);
    LastYear(y);
    YearLength(y);
    var m := MonthOf(day - DaysBeforeYear(y), y, 1);
    AtTime(Civil(y, m, day - DaysBeforeYear(y) - DaysBeforeMonth(y, m) + 1, 0, 0, 0), seconds % 86400)
  }

  function AtTime(date: Civil, rest: nat): (t: Civil)
    requires ValidCivil(date) && date.hour == date.minute == date.second == 0 && rest < 86400
    ensures ValidCivil(t) && Seconds(t) == Seconds(date) + rest
  {
    ClockParts(rest);
    date.(hour := rest / 3600, minute := rest % 3600 / 60, second := rest % 60)
  }

  lemma ClockParts(rest: nat)
    requires rest < 86400
    ensures rest / 3600 < 24 && rest % 3600 / 60 < 60
    ensures 3600 * (rest / 3600) + 60 * (rest % 3600 / 60) + rest % 60 == rest
  {
    var hour, r := rest / 3600, rest % 3600;
    assert rest == 3600 * hour + r && r % 60 == rest % 60;
  }

  lemma LastYear(y: nat)
    ensures y > 9999 ==> DaysBeforeYear(y) >= 3652425
  {
    assert DaysBeforeYear(10000) == 3652425;
    if y > 10000 { YearsBefore(10000, y); }
  }

  /** `ModTime().UTC().Format(time.RFC3339)`: the sub-second part is dropped. */
  function FormatUtc(nanos: nat): string
    requires nanos / NANOS < RANGE
  {
    StampText(Stamp(CivilOf(nanos / NANOS), 0, UTC_SECONDS))
  }

  /** Formatted instants compare as their whole seconds do. */
  lemma FormattedOrder(a: nat, b: nat)
    requires a / NANOS < RANGE && b / NANOS < RANGE
    ensures LexLess(FormatUtc(a), FormatUtc(b)) <==> a / NANOS < b / NANOS
  {
    var x, y := Stamp(CivilOf(a / NANOS), 0, UTC_SECONDS), Stamp(CivilOf(b / NANOS), 0, UTC_SECONDS);
    OneFormSortsInTime(x, y);
  }

  // ----- `time.Parse(time.RFC3339, ...)`

  function ParseDate(s: string): Option<(nat, nat, nat)>
    requires |s| == 10
  {
    match (Number(s[..4]), Number(s[5..7]), Number(s[8..]))
    case (Some(y), Some(m), Some(d)) => if s[4] == s[7] == '-' then Some((y, m, d)) else None
    case _ => None
  }

  function ParseTime(s: string): Option<(nat, nat, nat)>
    requires |s| == 8
  {
    match (Number(s[..2]), Number(s[3..5]), Number(s[6..]))
    case (Some(h), Some(m), Some(sec)) => if s[2] == s[5] == ':' then Some((h, m, sec)) else None
    case _ => None
  }

  function ParseCivil(s: string): (r: Option<Civil>)
    requires |s| == 19
    ensures r.Some? ==> ValidCivil(r.value)
  {
    match (ParseDate(s[..10]), ParseTime(s[11..]))
    case (Some((y, mo, d)), Some((h, mi, sec))) =>
      var t := Civil(y, mo, d, h, mi, sec);
      if s[10] == 'T' && ValidCivil(t) then Some(t) else None
    case _ => None
  }

  function ParseZone(s: string): Option<Zone> {
    if s == "Z" then Some(Zulu)
    else if |s| != 6 || s[0] !in "+-" || s[3] != ':' then None
    else
      match (Number(s[1..3]), Number(s[4..]))
      case (Some(h), Some(m)) => if h < 24 && m < 60 then Some(Offset(s[0] == '-', h, m)) else None
      case _ => None
  }

  function LeadingDigits(s: string): (r: string)
    ensures r <= s && forall c :: c in r ==> c in DIGITS
  {
    if s != "" && s[0] in DIGITS then [s[0]] + LeadingDigits(s[1..]) else ""
  }

  /** The kept fractional digits, at most nine of them, and what follows the fraction. */
  function SplitFraction(s: string): (r: Option<(string, string)>) {
    if s == "" || s[0] != '.' then Some(("", s))
    else
      var digits := LeadingDigits(s[1..]);
      if digits == "" then None
      else Some((if |digits| > 9 then digits[..9] else digits, s[1..][|digits|..]))
  }

  function Parse(s: string): Option<Stamp> {
    if |s| < 20 then None
    else
      match SplitFraction(s[19..])
      case None => None
      case Some((digits, tail)) =>
        match (ParseCivil(s[..19]), Number(digits), ParseZone(tail))
        case (Some(t), Some(f), Some(z)) => Some(Stamp(t, f, Form(|digits|, z)))
        case _ => None
  }

  lemma ParseDateText(t: Civil)
    requires ValidCivil(t)
    ensures ParseDate(DateText(t)) == Some((t.year, t.month, t.day))
  {
    var s := DateText(t);
    SmallPowers();
    NumberOfDigits(t.year, 4);
    NumberOfDigits(t.month, 2);
    NumberOfDigits(t.day, 2);
    assert s[..4] == Digits(t.year, 4) && s[5..7] == Digits(t.month, 2) && s[8..] == Digits(t.day, 2);
  }

  lemma ParseTimeText(t: Civil)
    requires ValidCivil(t)
    ensures ParseTime(TimeText(t)) == Some((t.hour, t.minute, t.second))
  {
    var s := TimeText(t);
    SmallPowers();
    NumberOfDigits(t.hour, 2);
    NumberOfDigits(t.minute, 2);
    NumberOfDigits(t.second, 2);
    assert s[..2] == Digits(t.hour, 2) && s[3..5] == Digits(t.minute, 2) && s[6..] == Digits(t.second, 2);
  }

  lemma ParseCivilText(t: Civil)
    requires ValidCivil(t)
    ensures ParseCivil(CivilText(t)) == Some(t)
  {
    var s := CivilText(t);
    ParseDateText(t);
    ParseTimeText(t);
    assert s[..10] == DateText(t) && s[11..] == TimeText(t);
  }

  lemma ParseZoneText(z: Zone)
    requires z.Offset? ==> z.hours < 24 && z.minutes < 60
    ensures ParseZone(ZoneText(z)) == Some(z)
  {
    if z.Offset? {
      var s := ZoneText(z);
      SmallPowers();
      NumberOfDigits(z.hours, 2);
      NumberOfDigits(z.minutes, 2);
      assert s[1..3] == Digits(z.hours, 2) && s[4..] == Digits(z.minutes, 2);
    }
  }

  lemma {:induction false} LeadingDigitsStop(digits: string, rest: string)
    requires forall c :: c in digits ==> c in DIGITS
    requires rest == "" || rest[0] !in DIGITS
    ensures LeadingDigits(digits + rest) == digits
  {
    if digits == "" {
      assert digits + rest == rest;
    } else {
      assert (digits + rest)[1..] == digits[1..] + rest;
      LeadingDigitsStop(digits[1..], rest);
    }
  }

  lemma SplitDigits(digits: string, zone: string)
    requires 0 < |digits| <= 9 && (forall c :: c in digits ==> c in DIGITS) && (zone == "" || zone[0] !in DIGITS)
    ensures SplitFraction("." + digits + zone) == Some((digits, zone))
  {
    var text := "." + digits + zone;
    LeadingDigitsStop(digits, zone);
    assert text[1..] == digits + zone;
    assert text[1..][|digits|..] == zone;
  }

  lemma ZoneIsNoFraction(z: Zone)
    ensures var zone := ZoneText(z); zone != "" && zone[0] !in DIGITS && zone[0] != '.'
  {
  }

  lemma SplitFractionText(s: Stamp)
    requires s.form.width <= 9
    ensures SplitFraction(FractionText(s) + ZoneText(s.form.zone)) ==
            Some((Digits(s.fraction, s.form.width), ZoneText(s.form.zone)))
  {
    var digits, zone := Digits(s.fraction, s.form.width), ZoneText(s.form.zone);
    ZoneIsNoFraction(s.form.zone);
    if s.form.width == 0 {
      assert FractionText(s) + zone == zone;
    } else {
      DigitsAreDigits(s.fraction, s.form.width);
      SplitDigits(digits, zone);
    }
  }

  /** Every timestamp of every valid form parses back to itself. */
  lemma ParseStampText(s: Stamp)
    requires ValidStamp(s)
    ensures Parse(StampText(s)) == Some(s)
  {
    var text := StampText(s);
    ParseCivilText(s.civil);
    ParseZoneText(s.form.zone);
    NumberOfDigits(s.fraction, s.form.width);
    SplitFractionText(s);
    assert text[..19] == CivilText(s.civil);
    assert text[19..] == FractionText(s) + ZoneText(s.form.zone);
    assert |ZoneText(s.form.zone)| >= 1;
  }

  // ----- exactly what parses

  lemma {:induction false} NumberIsDigits(s: string)
    requires Number(s).Some?
    ensures Number(s).value < Pow10(|s|) && s == Digits(Number(s).value, |s|)
  {
    if s != "" {
      var init, c := s[..|s| - 1], s[|s| - 1];
      NumberIsDigits(init);
      var lo := DigitValue(c).value;
      assert lo < 10 && DIGITS[lo] == c;
      assert s == init + [c];
    }
  }

  lemma DateParsed(s: string)
    requires |s| == 10 && ParseDate(s).Some?
    ensures var (y, m, d) := ParseDate(s).value; s == DateText(Civil(y, m, d, 0, 0, 0))
  {
    NumberIsDigits(s[..4]);
    NumberIsDigits(s[5..7]);
    NumberIsDigits(s[8..]);
    assert s == s[..4] + ("-" + (s[5..7] + ("-" + s[8..])));
  }

  lemma TimeParsed(s: string)
    requires |s| == 8 && ParseTime(s).Some?
    ensures var (h, m, sec) := ParseTime(s).value; s == TimeText(Civil(0, 1, 1, h, m, sec))
  {
    NumberIsDigits(s[..2]);
    NumberIsDigits(s[3..5]);
    NumberIsDigits(s[6..]);
    assert s == s[..2] + (":" + (s[3..5] + (":" + s[6..])));
  }

  lemma CivilParsed(s: string)
    requires |s| == 19 && ParseCivil(s).Some?
    ensures s == CivilText(ParseCivil(s).value)
  {
    DateParsed(s[..10]);
    TimeParsed(s[11..]);
    assert s == s[..10] + ("T" + s[11..]);
  }

  lemma ZoneParsed(s: string)
    requires ParseZone(s).Some?
    ensures s == ZoneText(ParseZone(s).value)
    ensures var z := ParseZone(s).value; z.Offset? ==> z.hours < 24 && z.minutes < 60
  {
    if s != "Z" {
      NumberIsDigits(s[1..3]);
      NumberIsDigits(s[4..]);
      assert s == [s[0]] + (s[1..3] + (":" + s[4..]));
    }
  }

  /** Fractional digits past the ninth. */
  predicate Excess(s: Stamp, more: string) {
    (forall c :: c in more ==> c in DIGITS) && (more != "" ==> s.form.width == 9)
  }

  lemma FractionParsed(s: string, digits: string, tail: string)
    requires SplitFraction(s) == Some((digits, tail))
    ensures |digits| <= 9
    ensures exists more :: (forall c :: c in more ==> c in DIGITS) && (more != "" ==> |digits| == 9) &&
                           s == (if digits == "" then "" else "." + digits) + (more + tail)
  {
    if s == "" || s[0] != '.' {
      assert s == "" + ("" + tail);
    } else {
      var all := LeadingDigits(s[1..]);
      var more := all[|digits|..];
      assert all == digits + more && s[1..] == all + tail;
      assert forall c :: c in more ==> c in all;
      assert s == "." + digits + (more + tail);
    }
  }

  lemma SplitExcess(digits: string, more: string, zone: string)
    requires 0 < |digits| <= 9 && (forall c :: c in digits + more ==> c in DIGITS)
    requires (more != "" ==> |digits| == 9) && (zone == "" || zone[0] !in DIGITS)
    ensures SplitFraction("." + digits + (more + zone)) == Some((digits, zone))
  {
    var text, all := "." + digits + (more + zone), digits + more;
    LeadingDigitsStop(all, zone);
    assert text[0] == '.' && text[1..] == all + zone && all != "";
    assert (all + zone)[|all|..] == zone;
    assert (if |all| > 9 then all[..9] else all) == digits;
  }

  lemma ExcessSplits(s: Stamp, more: string)
    requires s.form.width <= 9 && Excess(s, more)
    ensures SplitFraction(FractionText(s) + (more + ZoneText(s.form.zone))) ==
            Some((Digits(s.fraction, s.form.width), ZoneText(s.form.zone)))
  {
    var digits, zone := Digits(s.fraction, s.form.width), ZoneText(s.form.zone);
    ZoneIsNoFraction(s.form.zone);
    if s.form.width == 0 {
      assert FractionText(s) + (more + zone) == zone;
    } else {
      DigitsAreDigits(s.fraction, s.form.width);
      SplitExcess(digits, more, zone);
    }
  }

  /** Nothing parses but the text of a valid timestamp, with any number of fractional digits past the ninth. */
  lemma ParseExactly(text: string, s: Stamp)
    ensures Parse(text) == Some(s) <==>
            ValidStamp(s) && exists more :: Excess(s, more) && text == WithExcess(s, more)
  {
    if Parse(text) == Some(s) { ParsedText(text, s); }
    if ValidStamp(s) {
      if more :| Excess(s, more) && text == WithExcess(s, more) { ExcessParses(s, more); }
    }
  }

  function WithExcess(s: Stamp, more: string): string {
    CivilText(s.civil) + (FractionText(s) + (more + ZoneText(s.form.zone)))
  }

  lemma ExcessParses(s: Stamp, more: string)
    requires ValidStamp(s) && Excess(s, more)
    ensures Parse(WithExcess(s, more)) == Some(s)
  {
    var text := WithExcess(s, more);
    ParseCivilText(s.civil);
    ParseZoneText(s.form.zone);
    NumberOfDigits(s.fraction, s.form.width);
    ExcessSplits(s, more);
    assert text[..19] == CivilText(s.civil);
    assert text[19..] == FractionText(s) + (more + ZoneText(s.form.zone));
    assert |ZoneText(s.form.zone)| >= 1;
  }

  lemma ParsedText(text: string, s: Stamp)
    requires Parse(text) == Some(s)
    ensures ValidStamp(s) && exists more :: Excess(s, more) && text == WithExcess(s, more)
  {
    var (digits, tail) := SplitFraction(text[19..]).value;
    FractionParsed(text[19..], digits, tail);
    CivilParsed(text[..19]);
    ZoneParsed(tail);
    NumberIsDigits(digits);
    var more :| (forall c :: c in more ==> c in DIGITS) && (more != "" ==> |digits| == 9) &&
                text[19..] == (if digits == "" then "" else "." + digits) + (more + tail);
    assert Excess(s, more) && text == WithExcess(s, more) by { assert text == text[..19] + text[19..]; }
  }

  /** A clock that is `hours` and `minutes` ahead of UTC shows a later time at the same instant. */
  lemma ZoneShifts(t: Civil, fraction: nat, width: nat, negative: bool, hours: nat, minutes: nat)
    ensures var shift := (3600 * hours + 60 * minutes) * 1_000_000_000;
            Instant(Stamp(t, fraction, Form(width, Offset(negative, hours, minutes)))) ==
            Instant(Stamp(t, fraction, Form(width, Zulu))) + if negative then shift else -shift
  {
  }

  /** The clock's zero: 719528 days before the epoch of Unix time. */
  lemma UnixEpoch()
    ensures Seconds(Civil(1970, 1, 1, 0, 0, 0)) == 719_528 * 86_400
  {
  }

  /** The local form: calendar fields of the whole second in UTC, and a `Z`. */
  lemma FormatUtcText(nanos: nat)
    requires nanos / NANOS < RANGE
    ensures var c := CivilOf(nanos / NANOS);
            ValidCivil(c) && Seconds(c) == nanos / 1_000_000_000 && FormatUtc(nanos) == CivilText(c) + "Z"
  {
  }
}
