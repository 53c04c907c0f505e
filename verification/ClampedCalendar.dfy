/** A calendar in which amounts of months do not add up: a day that a month does not have becomes its last one. */
module ClampedCalendar {
  import opened Bytes
  import opened CalendarDifference

  const MONTH: Field := 3
  const DAY: Field := 4

  /** Where the months of a common year start, and where the next year does. */
  function MonthStart(m: nat): (day: nat) {
    match m
    case 0 => 0 case 1 => 31 case 2 => 59 case 3 => 90 case 4 => 120 case 5 => 151
    case 6 => 181 case 7 => 212 case 8 => 243 case 9 => 273 case 10 => 304 case 11 => 334
    case _ => 365
  }

  /** The month in which a day of the year lies. */
  function MonthOf(day: nat): (m: nat)
    requires day < 365
    ensures m < 12 && MonthStart(m) <= day < MonthStart(m + 1)
  {
    if day < 31 then 0 else if day < 59 then 1 else if day < 90 then 2
    else if day < 120 then 3 else if day < 151 then 4 else if day < 181 then 5
    else if day < 212 then 6 else if day < 243 then 7 else if day < 273 then 8
    else if day < 304 then 9 else if day < 334 then 10 else 11
  }

  /** A day of a month, or the last one if the month is shorter; the first day of a month has number 0. */
  function DayOf(year: int, month: nat, day: nat): (t: int)
    requires month < 12
    ensures 365 * year + MonthStart(month) <= t
  {
    var length := MonthStart(month + 1) - MonthStart(month);
    365 * year + MonthStart(month) + if day < length then day else length - 1
  }

  /** Years of 365 days; instants are counted in days. */
  function AddMonths(amount: int, t: int): int {
    var year, day := t / 365, t % 365;
    var month := MonthOf(day);
    var months := 12 * year + month + amount;
    DayOf(months / 12, months % 12, day - MonthStart(month))
  }

  function Add(f: Field, amount: int, t: int): int {
    if f == MONTH then AddMonths(amount, t) else t + amount
  }

  /** January 31, February 28, March 28 and March 31. */
  lemma FromJanuary31()
    ensures Add(MONTH, 1, 30) == 58 && Add(MONTH, 1, 58) == 86 && Add(MONTH, 2, 30) == 89
    ensures forall amount :: 3 <= amount ==> 89 < Add(MONTH, amount, 30)
  {
    hide DayOf, MonthStart;
    MonthNumbers();
    forall amount | 3 <= amount
      ensures 89 < Add(MONTH, amount, 30)
    {
      assert AddMonths(amount, 30) == DayOf(amount / 12, amount % 12, 30);
      LaterMonths(amount / 12, amount % 12);
    }
  }

  lemma MonthNumbers()
    ensures MonthOf(30) == 0 && MonthOf(58) == 1 && MonthStart(0) == 0 && MonthStart(1) == 31
    ensures DayOf(0, 1, 30) == 58 && DayOf(0, 2, 27) == 86 && DayOf(0, 2, 30) == 89
  {
  }

  lemma LaterMonths(year: int, month: nat)
    requires month < 12 && (1 <= year || (year == 0 && 3 <= month))
    ensures 90 <= 365 * year + MonthStart(month)
  {
  }

  lemma MonthsDoNotAddUp()
    ensures !IsUniform(Add)
  {
    FromJanuary31();
    assert !AddsUp(Add, MONTH, 1, 1, 30);
  }

  /** Of the steps below 2^k months only that of two months fits between January 31 and March 31. */
  lemma {:induction false} TwoMonthsFit(k: nat)
    requires 2 <= k
    ensures Digits(Add, MONTH, 1, 30, 89, k) == (2, 89)
  {
    hide Add;
    FromJanuary31();
    if k == 2 {
      assert Pow2(1) == 2;
      DigitsAtGoal(Add, MONTH, 1, 89, 1);
    } else {
      Pow2Grows(2, k - 1);
      assert Pow2(2) == 2 * Pow2(1) == 4;
      TwoMonthsFit(k - 1);
    }
  }

  /** From January 31 to March 31 it is two months and no day, although a month and then another leads to March 28. */
  method UntilMarch31() returns (vector: seq<int>)
    ensures vector == [2, 0]
  {
    hide Add, Climb;
    MonthsUntilMarch();
    var fields: seq<Field> := [MONTH, DAY];
    OneMoreClimb(Add, 1, 30, 89, fields, 0, 2, 89);
    OneMoreClimb(Add, 1, 30, 89, fields, 1, 0, 89);
    assert fields[..2] == fields;
    vector := ComponentDifference(Add, 30, 89, fields);
  }

  lemma MonthsUntilMarch()
    ensures Climb(Add, MONTH, 1, 30, 89, 19) == (2, 89) && Climb(Add, DAY, 1, 89, 89, 24) == (0, 89)
  {
    hide Add, Digits, Pow2;
    FromJanuary31();
    TwoMonthsFit(19);
    Pow2Grows(2, 19);
    AtLeastFour();
  }

  lemma AtLeastFour()
    ensures Pow2(1) == 2 && Pow2(2) == 4
  {
  }
}
