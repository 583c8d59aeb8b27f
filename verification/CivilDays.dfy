/** Days since the civil epoch, in pure integer arithmetic, count calendar days. */
module CivilDays {

  datatype Date = Date(year: int, month: int, day: int)

  predicate Leap(y: int) { y % 4 == 0 && (y % 100 != 0 || y % 400 == 0) }

  function MonthDays(y: int, m: int): int
  {
    if m == 2 then (if Leap(y) then 29 else 28)
    else if m == 4 || m == 6 || m == 9 || m == 11 then 30
    else 31
  }

  predicate OnCalendar(d: Date)
  {
    1 <= d.month <= 12 && 1 <= d.day <= MonthDays(d.year, d.month)
  }

  /** The next day of the proleptic Gregorian calendar. */
  function NextDay(d: Date): Date
  {
    if d.day < MonthDays(d.year, d.month) then Date(d.year, d.month, d.day + 1)
    else if d.month < 12 then Date(d.year, d.month + 1, 1)
    else Date(d.year + 1, 1, 1)
  }

  /** Division truncating toward zero. */
  function TruncDiv(a: int, b: int): int
    requires b > 0
  {
    if a >= 0 then a / b else -(-a / b)
  }

  function DaysSinceEpoch(d: Date): int
  {
    var y := if d.month <= 2 then d.year - 1 else d.year;
    var era := TruncDiv(if y >= 0 then y else y - 399, 400);
    var yoe := y - era * 400;
    var mp := if d.month > 2 then d.month - 3 else d.month + 9;
    var doy := TruncDiv(153 * mp + 2, 5) + d.day - 1;
    var doe := yoe * 365 + TruncDiv(yoe, 4) - TruncDiv(yoe, 100) + doy;
    era * 146097 + doe - 719468
  }

  /** The days before a March-based year. */
  function YearStart(y: int): int
  {
    y / 400 * 146097 + y % 400 * 365 + y % 400 / 4 - y % 400 / 100
  }

  lemma EraFloors(y: int)
    ensures TruncDiv(if y >= 0 then y else y - 399, 400) == y / 400
  {
  }

  /** The March-based year a month lies in, and the days of it before the month. */
  function MarchYear(d: Date): int { if d.month <= 2 then d.year - 1 else d.year }

  function MarchMonth(m: int): int { if m > 2 then m - 3 else m + 9 }

  function MonthStart(m: int): int { (153 * MarchMonth(m) + 2) / 5 }

  lemma MarchBased(d: Date)
    requires 1 <= d.month <= 12
    ensures DaysSinceEpoch(d) == YearStart(MarchYear(d)) + MonthStart(d.month) + d.day - 1 - 719468
  {
    var y := MarchYear(d);
    EraFloors(y);
    assert y - y / 400 * 400 == y % 400;
  }

  /** Months follow one another by their lengths, within a March-based year. */
  lemma MonthLength(y: int, m: int)
    requires 1 <= m <= 12 && m != 2
    ensures MonthStart(if m == 12 then 1 else m + 1) == MonthStart(m) + MonthDays(y, m)
  {
  }

  /** Whether a year leaps depends on its place in its 400-year era alone. */
  lemma LeapInEra(era: int, k: int)
    requires 0 <= k < 400
    ensures Leap(400 * era + k) <==> k % 4 == 0 && (k % 100 != 0 || k == 0)
  {
    PlaceInFour(100 * era, k);
    PlaceInHundred(4 * era, k);
    EraOf(400 * era + k, era, k);
  }

  lemma PlaceInFour(q: int, k: int)
    ensures (4 * q + k) % 4 == k % 4
  {
  }

  lemma PlaceInHundred(q: int, k: int)
    ensures (100 * q + k) % 100 == k % 100
  {
  }

  lemma EraOf(y: int, era: int, k: int)
    requires y == 400 * era + k && 0 <= k < 400
    ensures y / 400 == era && y % 400 == k
  {
  }

  lemma PlaceStep(k: int)
    requires 0 <= k < 399
    ensures (k + 1) / 4 - k / 4 == if (k + 1) % 4 == 0 then 1 else 0
    ensures (k + 1) / 100 - k / 100 == if (k + 1) % 100 == 0 then 1 else 0
    ensures (k + 1) % 100 == 0 ==> (k + 1) % 4 == 0
  {
  }

  /** A March-based year has the length of the calendar year its February lies in. */
  lemma YearLength(y: int)
    ensures YearStart(y + 1) == YearStart(y) + if Leap(y + 1) then 366 else 365
  {
    var era, k := y / 400, y % 400;
    EraOf(y, era, k);
    if k == 399 {
      EraOf(y + 1, era + 1, 0);
      LeapInEra(era + 1, 0);
    } else {
      EraOf(y + 1, era, k + 1);
      LeapInEra(era, k + 1);
      PlaceStep(k);
    }
  }

  /** Each calendar day is one more than the day before it. */
  lemma NextDayIsOneMore(d: Date)
    requires OnCalendar(d)
    ensures OnCalendar(NextDay(d)) && DaysSinceEpoch(NextDay(d)) == DaysSinceEpoch(d) + 1
  {
    var e := NextDay(d);
    MarchBased(d);
    MarchBased(e);
    if d.day == MonthDays(d.year, d.month) {
      if d.month == 2 {
        YearLength(d.year - 1);
        assert MonthStart(3) == 0 && MonthStart(2) == 337;
      } else {
        MonthLength(d.year, d.month);
        assert MarchYear(e) == MarchYear(d);
      }
    }
  }

  function Later(d: Date, n: nat): Date
  {
    if n == 0 then d else NextDay(Later(d, n - 1))
  }

  /** The epoch is day zero, and the difference of two dates is the number of days between them. */
  lemma {:induction false} CountsDays(d: Date, n: nat)
    requires OnCalendar(d)
    ensures OnCalendar(Later(d, n)) && DaysSinceEpoch(Later(d, n)) - DaysSinceEpoch(d) == n
  {
    if n > 0 {
      CountsDays(d, n - 1);
      NextDayIsOneMore(Later(d, n - 1));
    }
  }

  lemma EpochIsZero()
    ensures DaysSinceEpoch(Date(1970, 1, 1)) == 0
  {
  }
}
