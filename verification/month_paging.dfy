/**
 * Month paging: the previous/next record that the calendar base class
 * reports for the displayed month, and how the month handlers turn that
 * record into a new displayed month and year.
 */
module MonthPaging {

  /** A displayed month: `month` counts from 1 (January) to 12 (December). */
  datatype MonthYear = MonthYear(month: int, year: int)

  /** The part of the base class's month-info record the handlers read. */
  datatype MonthInfo = MonthInfo(previous: MonthYear, next: MonthYear)

  datatype Direction = Previous | Next

  predicate ValidMonth(m: int) {
    1 <= m <= 12
  }

  function Pick(info: MonthInfo, dir: Direction): MonthYear {
    match dir
    case Previous => info.previous
    case Next => info.next
  }

  /** Months counted from January of year 0: consecutive months differ by one. */
  function MonthIndex(my: MonthYear): int {
    my.year * 12 + my.month - 1
  }

  function FromMonthIndex(k: int): (my: MonthYear)
    ensures ValidMonth(my.month)
    ensures MonthIndex(my) == k
  {
    MonthYear(k % 12 + 1, k / 12)
  }

  /** A month of the calendar is determined by its index. */
  lemma FromMonthIndexOf(my: MonthYear)
    requires ValidMonth(my.month)
    ensures FromMonthIndex(MonthIndex(my)) == my
  {
    var k := MonthIndex(my);
    assert k == my.year * 12 + (my.month - 1);
    assert k / 12 == my.year && k % 12 == my.month - 1;
  }

  /**
   * Calendar arithmetic for the base class's month-info record: the month
   * before and the month after the given one, stepping across the year
   * boundary between December and January.
   */
  function CalendarMonthInfo(cur: MonthYear): (info: MonthInfo)
    ensures ValidMonth(info.previous.month) && MonthIndex(info.previous) == MonthIndex(cur) - 1
    ensures ValidMonth(info.next.month) && MonthIndex(info.next) == MonthIndex(cur) + 1
  {
    MonthInfo(FromMonthIndex(MonthIndex(cur) - 1), FromMonthIndex(MonthIndex(cur) + 1))
  }

  /** Within a year the record steps the month only; across a year boundary it wraps. */
  lemma CalendarMonthInfoCases(cur: MonthYear)
    requires ValidMonth(cur.month)
    ensures CalendarMonthInfo(cur).previous ==
      if cur.month == 1 then MonthYear(12, cur.year - 1) else MonthYear(cur.month - 1, cur.year)
    ensures CalendarMonthInfo(cur).next ==
      if cur.month == 12 then MonthYear(1, cur.year + 1) else MonthYear(cur.month + 1, cur.year)
  {
    var p := if cur.month == 1 then MonthYear(12, cur.year - 1) else MonthYear(cur.month - 1, cur.year);
    var n := if cur.month == 12 then MonthYear(1, cur.year + 1) else MonthYear(cur.month + 1, cur.year);
    FromMonthIndexOf(p);
    FromMonthIndexOf(n);
  }

  /**
   * The displayed month after paging: both fields from ONE record of the
   * current month, so the result is whole the previous or the next pair of
   * that record.
   */
  function Paged(getMonthInfo: MonthYear -> MonthInfo, cur: MonthYear, dir: Direction): (r: MonthYear)
    ensures r == getMonthInfo(cur).previous || r == getMonthInfo(cur).next
  {
    Pick(getMonthInfo(cur), dir)
  }

  /**
   * The displayed month after paging as the handlers are written: the month
   * is assigned first, and the record asked again for the year then
   * describes the NEW month in the OLD year. The month always agrees with
   * one-record paging; the year agrees whenever the second call returns the
   * same record as the first.
   */
  function PagedAsWritten(getMonthInfo: MonthYear -> MonthInfo, cur: MonthYear, dir: Direction): (r: MonthYear)
    ensures r.month == Paged(getMonthInfo, cur, dir).month
    ensures getMonthInfo(MonthYear(r.month, cur.year)) == getMonthInfo(cur) ==> r == Paged(getMonthInfo, cur, dir)
  {
    var m := Pick(getMonthInfo(cur), dir).month;
    MonthYear(m, Pick(getMonthInfo(MonthYear(m, cur.year)), dir).year)
  }

  /** With calendar arithmetic, paging moves exactly one month back or forward. */
  lemma PagedStepsOneMonth(cur: MonthYear, dir: Direction)
    ensures ValidMonth(Paged(CalendarMonthInfo, cur, dir).month)
    ensures MonthIndex(Paged(CalendarMonthInfo, cur, dir)) ==
      MonthIndex(cur) + (if dir == Previous then -1 else 1)
  {
  }

  /** Paging forward undoes paging back, and the other way round. */
  lemma PagedInverse(cur: MonthYear)
    requires ValidMonth(cur.month)
    ensures Paged(CalendarMonthInfo, Paged(CalendarMonthInfo, cur, Previous), Next) == cur
    ensures Paged(CalendarMonthInfo, Paged(CalendarMonthInfo, cur, Next), Previous) == cur
  {
    FromMonthIndexOf(cur);
  }

  /**
   * As written, the handlers agree with one-record paging exactly when
   * neither the old month nor the new one is at the year boundary being
   * crossed: backwards from March to December, forwards from January to
   * October.
   */
  lemma AsWrittenAgreesIff(cur: MonthYear, dir: Direction)
    requires ValidMonth(cur.month)
    ensures PagedAsWritten(CalendarMonthInfo, cur, dir) == Paged(CalendarMonthInfo, cur, dir) <==>
      (if dir == Previous then 3 <= cur.month else cur.month <= 10)
  {
    CalendarMonthInfoCases(cur);
    var m := Pick(CalendarMonthInfo(cur), dir).month;
    CalendarMonthInfoCases(MonthYear(m, cur.year));
  }

  /**
   * The four wrong cases of the handlers as written, for any year: backwards
   * from January or February, forwards from November or December.
   */
  lemma AsWrittenAtYearBoundary(y: int)
    ensures PagedAsWritten(CalendarMonthInfo, MonthYear(1, y), Previous) == MonthYear(12, y)
    ensures PagedAsWritten(CalendarMonthInfo, MonthYear(2, y), Previous) == MonthYear(1, y - 1)
    ensures PagedAsWritten(CalendarMonthInfo, MonthYear(11, y), Next) == MonthYear(12, y + 1)
    ensures PagedAsWritten(CalendarMonthInfo, MonthYear(12, y), Next) == MonthYear(1, y)
  {
    CalendarMonthInfoCases(MonthYear(1, y));
    CalendarMonthInfoCases(MonthYear(2, y));
    CalendarMonthInfoCases(MonthYear(11, y));
    CalendarMonthInfoCases(MonthYear(12, y));
  }

  /**
   * January 2024, previous month: December 2024 as written, December 2023
   * intended; February 2024, previous month: January 2023 as written,
   * January 2024 intended.
   */
  lemma AsWrittenCounterexample()
    ensures PagedAsWritten(CalendarMonthInfo, MonthYear(1, 2024), Previous) == MonthYear(12, 2024)
    ensures Paged(CalendarMonthInfo, MonthYear(1, 2024), Previous) == MonthYear(12, 2023)
    ensures PagedAsWritten(CalendarMonthInfo, MonthYear(2, 2024), Previous) == MonthYear(1, 2023)
    ensures Paged(CalendarMonthInfo, MonthYear(2, 2024), Previous) == MonthYear(1, 2024)
  {
    AsWrittenAtYearBoundary(2024);
    CalendarMonthInfoCases(MonthYear(1, 2024));
    CalendarMonthInfoCases(MonthYear(2, 2024));
  }
}
