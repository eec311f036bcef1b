/**
 * The calendar element's own handlers: recording a selected date in the
 * `selectedDates` string, paging the displayed month back and forward, and
 * jumping to today's month.
 *
 * Two collaborators of the calendar base class are not part of this model
 * and are taken as stated assumptions:
 *  - its date-in-string test is an exact match of the entry against the
 *    comma-separated entries of the string (DateInString below);
 *  - its month-info record describes the month and year the element shows
 *    when it is asked, and is passed to the paging handlers as a function of
 *    that month (MonthPaging.CalendarMonthInfo is calendar arithmetic for it).
 * The `selectedDates` string starts out empty.
 */
module CalendarComponent {
  import opened DateText
  import opened MonthPaging

  /** The values of the `calendar-type` attribute; an absent attribute is `None`. */
  datatype CalendarType = SinglePicker | RangePicker

  predicate IsRangePicker(calendarType: Option<CalendarType>) {
    calendarType == Some(RangePicker)
  }

  /**
   * The base class's date-in-string test, read as exact entry match: it
   * never finds anything in the empty selection, nor a text holding a comma.
   */
  predicate DateInString(date: string, datesString: string): (found: bool)
    ensures datesString == [] ==> !found
    ensures found ==> ',' !in date
  {
    date in Entries(datesString)
  }

  predicate Distinct<T(==)>(s: seq<T>) {
    forall i, j :: 0 <= i < j < |s| ==> s[i] != s[j]
  }

  /**
   * The `selectedDates` string after the date-selected handler records `d`.
   * Range-picker mode never removes text, whatever the string holds.
   */
  function Select(calendarType: Option<CalendarType>, selectedDates: string, d: DateDetail): (r: string)
    ensures IsRangePicker(calendarType) ==> selectedDates <= r
  {
    var entry := DateString(d);
    if IsRangePicker(calendarType) then
      if DateInString(entry, selectedDates) then selectedDates else selectedDates + entry + ","
    else
      entry + ","
  }

  // ---------------------------------------------------------------------
  // The selection as dates.

  /** The entries written for a sequence of selected dates. */
  function Render(dates: seq<DateDetail>): (r: seq<string>)
    ensures |r| == |dates| && NoCommas(r)
    ensures forall i :: 0 <= i < |dates| ==> r[i] == DateString(dates[i])
  {
    seq(|dates|, i requires 0 <= i < |dates| => DateString(dates[i]))
  }

  /**
   * The selected dates after selecting `d`, the reference the string form is
   * checked against: `d` is always selected afterwards, range-picker mode
   * adds `d` alone at the end and only when it is absent, and no date is
   * ever selected twice.
   */
  function SelectDates(calendarType: Option<CalendarType>, dates: seq<DateDetail>, d: DateDetail): (r: seq<DateDetail>)
    ensures d in r
    ensures IsRangePicker(calendarType) ==> r == dates || r == dates + [d]
    ensures IsRangePicker(calendarType) && d in dates ==> r == dates
    ensures !IsRangePicker(calendarType) ==> |r| == 1
    ensures Distinct(dates) ==> Distinct(r)
  {
    if !IsRangePicker(calendarType) then [d]
    else if d in dates then dates
    else dates + [d]
  }

  /** An entry is in the rendered list exactly when its date is selected. */
  lemma RenderHas(dates: seq<DateDetail>, d: DateDetail)
    ensures DateString(d) in Render(dates) <==> d in dates
  {
    if DateString(d) in Render(dates) {
      var i :| 0 <= i < |dates| && Render(dates)[i] == DateString(d);
      DateStringInjective(dates[i], d);
    }
  }

  /** The rendered list repeats an entry exactly when the dates repeat a date. */
  lemma RenderDistinct(dates: seq<DateDetail>)
    ensures Distinct(Render(dates)) <==> Distinct(dates)
  {
    forall i, j | 0 <= i < j < |dates|
      ensures Render(dates)[i] == Render(dates)[j] <==> dates[i] == dates[j]
    {
      DateStringInjective(dates[i], dates[j]);
    }
  }

  /** Every selection string written for a list of dates splits back into those dates, in order. */
  lemma DecodeSelection(dates: seq<DateDetail>)
    ensures Entries(Serialize(Render(dates))) == Render(dates)
    ensures forall i :: 0 <= i < |dates| ==> ParseDate(Entries(Serialize(Render(dates)))[i]) == Some(dates[i])
    ensures WellFormed(Serialize(Render(dates)))
  {
    EntriesOfSerialize(Render(dates));
    forall i | 0 <= i < |dates|
      ensures ParseDate(Render(dates)[i]) == Some(dates[i])
    {
      DateStringRoundTrip(dates[i]);
    }
  }

  /**
   * The string handler refines the date-level selection: recording `d` in
   * the string written for `dates` gives the string written for the
   * selected dates afterwards.
   */
  lemma SelectRefines(calendarType: Option<CalendarType>, dates: seq<DateDetail>, d: DateDetail)
    ensures Select(calendarType, Serialize(Render(dates)), d) == Serialize(Render(SelectDates(calendarType, dates, d)))
  {
    var e := DateString(d);
    if !IsRangePicker(calendarType) {
      assert Render([d]) == [e];
      assert Serialize([e]) == e + "," + Serialize([]);
    } else {
      EntriesOfSerialize(Render(dates));
      RenderHas(dates, d);
      if d !in dates {
        assert Render(dates + [d]) == Render(dates) + [e];
        SerializeAppend(Render(dates), e);
      }
    }
  }

  // ---------------------------------------------------------------------
  // Properties of the string handler.

  /** Outside range-picker mode the string holds exactly the new entry, whatever it held before. */
  lemma SelectReplaces(calendarType: Option<CalendarType>, selectedDates: string, d: DateDetail)
    requires !IsRangePicker(calendarType)
    ensures Entries(Select(calendarType, selectedDates, d)) == [DateString(d)]
    ensures WellFormed(Select(calendarType, selectedDates, d))
  {
    var e := DateString(d);
    assert Serialize([e]) == e + "," + Serialize([]);
    EntriesOfSerialize([e]);
  }

  /** Whenever the handler changes the string, it ends with the new entry and a comma. */
  lemma SelectEndsWithEntry(calendarType: Option<CalendarType>, selectedDates: string, d: DateDetail)
    ensures var r := Select(calendarType, selectedDates, d);
      r != selectedDates ==> r[|r| - |DateString(d)| - 1..] == DateString(d) + ","
  {
    var e := DateString(d);
    var r := Select(calendarType, selectedDates, d);
    if r != selectedDates {
      if IsRangePicker(calendarType) {
        assert r == selectedDates + (e + ",");
      }
      assert r[|r| - |e| - 1..] == e + ",";
    }
  }

  /**
   * In range-picker mode, on a well-formed string, the new entry is appended
   * exactly when it is not already present (that the old string stays a
   * prefix holds for every string and is stated on Select).
   */
  lemma SelectAppends(calendarType: Option<CalendarType>, selectedDates: string, d: DateDetail)
    requires IsRangePicker(calendarType) && WellFormed(selectedDates)
    ensures Entries(Select(calendarType, selectedDates, d)) ==
      if DateString(d) in Entries(selectedDates) then Entries(selectedDates)
      else Entries(selectedDates) + [DateString(d)]
    ensures WellFormed(Select(calendarType, selectedDates, d))
  {
    var e := DateString(d);
    var entries := Entries(selectedDates);
    if e !in entries {
      SerializeAppend(entries, e);
      assert NoCommas(entries + [e]);
      EntriesOfSerialize(entries + [e]);
    }
  }

  /** Selecting the same date twice leaves the same string as selecting it once. */
  lemma SelectIdempotent(calendarType: Option<CalendarType>, selectedDates: string, d: DateDetail)
    requires WellFormed(selectedDates)
    ensures Select(calendarType, Select(calendarType, selectedDates, d), d) == Select(calendarType, selectedDates, d)
  {
    if IsRangePicker(calendarType) {
      SelectAppends(calendarType, selectedDates, d);
    }
  }

  /** No selection creates a repeated entry. */
  lemma SelectKeepsDistinct(calendarType: Option<CalendarType>, selectedDates: string, d: DateDetail)
    requires WellFormed(selectedDates) && Distinct(Entries(selectedDates))
    ensures Distinct(Entries(Select(calendarType, selectedDates, d)))
  {
    if IsRangePicker(calendarType) {
      SelectAppends(calendarType, selectedDates, d);
    } else {
      SelectReplaces(calendarType, selectedDates, d);
    }
  }

  /**
   * Range picking `a`, then a different `b`, then `a` again, from the empty
   * string (as with 1-15-2024, 1-20-2024, 1-15-2024) keeps the two dates
   * once each, in the order they were picked.
   */
  lemma RangeScenario(a: DateDetail, b: DateDetail)
    requires a != b
    ensures var t := Some(RangePicker);
      Entries(Select(t, Select(t, Select(t, "", a), b), a)) == [DateString(a), DateString(b)]
  {
    var t := Some(RangePicker);
    assert Render([]) == [];
    SelectRefines(t, [], a);
    var s1 := Select(t, "", a);
    assert s1 == Serialize(Render([a]));
    assert SelectDates(t, [a], b) == [a, b];
    SelectRefines(t, [a], b);
    var s2 := Select(t, s1, b);
    assert s2 == Serialize(Render([a, b]));
    SelectRefines(t, [a, b], a);
    var s3 := Select(t, s2, a);
    assert s3 == s2;
    DecodeSelection([a, b]);
  }

  // ---------------------------------------------------------------------
  // The element.

  /** The month that `getMonth()` reports: 0 for January up to 11 for December. */
  type ZeroBasedMonth = m: int | 0 <= m < 12

  /** The clock reading the go-to-today handler uses. */
  datatype Today = Today(month: ZeroBasedMonth, fullYear: int)

  class Calendar {
    var calendarType: Option<CalendarType>
    var selectedDates: string
    var month: int
    var year: int

    /** The selected dates that `selectedDates` spells out. */
    ghost var selection: seq<DateDetail>

    ghost predicate Valid()
      reads this
    {
      selectedDates == Serialize(Render(selection)) && Distinct(selection)
    }

    constructor (calendarType: Option<CalendarType>, month: int, year: int)
      ensures Valid()
      ensures this.calendarType == calendarType && this.month == month && this.year == year
      ensures selectedDates == "" && selection == []
    {
      this.calendarType := calendarType;
      this.month := month;
      this.year := year;
      selectedDates := "";
      selection := [];
    }

    /**
     * Records a selected date: range-picker mode appends its entry unless it
     * is already present, every other mode replaces the selection with it.
     */
    method DateSelectedHandler(detail: DateDetail)
      requires Valid()
      modifies this`selectedDates, this`selection
      ensures Valid()
      ensures selectedDates == Select(calendarType, old(selectedDates), detail)
      ensures selection == SelectDates(calendarType, old(selection), detail)
      ensures Entries(selectedDates) == Render(selection)
      ensures calendarType == old(calendarType) && month == old(month) && year == old(year)
    {
      var selectedDateString := DateString(detail);
      if calendarType == Some(RangePicker) {
        if !DateInString(selectedDateString, selectedDates) {
          selectedDates := selectedDates + selectedDateString + ",";
        }
      } else {
        selectedDates := selectedDateString + ",";
      }
      ghost var oldSel := selection;
      SelectRefines(calendarType, oldSel, detail);
      assert selectedDates == Serialize(Render(SelectDates(calendarType, oldSel, detail)));
      selection := SelectDates(calendarType, selection, detail);
      RenderHas(oldSel, detail);
      assert Distinct(selection);
      DecodeSelection(selection);
    }

    /** Shows the previous month: month and year from one month-info record. */
    method PrevMonthHandler(getMonthInfo: MonthYear -> MonthInfo)
      modifies this`month, this`year
      ensures MonthYear(month, year) == Paged(getMonthInfo, MonthYear(old(month), old(year)), Previous)
      ensures calendarType == old(calendarType) && selectedDates == old(selectedDates)
      ensures Valid() <==> old(Valid())
    {
      var info := getMonthInfo(MonthYear(month, year));
      month := info.previous.month;
      year := info.previous.year;
    }

    /** Shows the next month: month and year from one month-info record. */
    method NextMonthHandler(getMonthInfo: MonthYear -> MonthInfo)
      modifies this`month, this`year
      ensures MonthYear(month, year) == Paged(getMonthInfo, MonthYear(old(month), old(year)), Next)
      ensures calendarType == old(calendarType) && selectedDates == old(selectedDates)
      ensures Valid() <==> old(Valid())
    {
      var info := getMonthInfo(MonthYear(month, year));
      month := info.next.month;
      year := info.next.year;
    }

    /** Shows today's month: the 0-based clock month plus one, and the full year. */
    method HandleGoToToday(today: Today)
      modifies this`month, this`year
      ensures month == today.month + 1 && ValidMonth(month)
      ensures year == today.fullYear
      ensures calendarType == old(calendarType) && selectedDates == old(selectedDates)
      ensures Valid() <==> old(Valid())
    {
      month := today.month + 1;
      year := today.fullYear;
    }
  }
}
