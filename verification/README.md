# Calendar selection and month paging

A Dafny model of the handlers that the Fluent `Calendar` web component
(`packages/web-components/src/calendar/calendar.ts`) adds on top of its
calendar base class:

- `dateSelectedHandler` turns the `{ day, month, year }` of a selected date
  into the entry `month-day-year`. It then records the entry in the
  `selectedDates` string, where every entry is followed by a comma. In
  `range-picker` mode the entry is appended unless it is already present.
  In any other mode, including an absent `calendar-type`, the string is
  replaced by the single new entry.
- `prevMonthHandler` and `nextMonthHandler` set the displayed `month` and
  `year` from the previous or next part of the base class's month-info record.
- `handleGoToToday` sets `month` to today's 0-based month plus one and `year`
  to today's full year.

Files:

- `date_text.dfy` (module `DateText`) covers the text forms. It holds the
  decimal rendering of a number, the `month-day-year` entry and its parser,
  and the comma-terminated selection string. `Entries` splits that string and
  `Serialize` writes it.
- `month_paging.dfy` (module `MonthPaging`) covers the month-info record. It
  holds calendar arithmetic for the record, the paging the handlers should
  perform, and the paging the handlers perform as written.
- `calendar.dfy` (module `CalendarComponent`) holds the selection function
  `Select` and its properties. It also holds the class `Calendar`, with the
  fields `calendarType`, `selectedDates`, `month` and `year` and the four
  handlers as methods. A ghost field `selection` holds the selected dates that
  `selectedDates` spells out. `Valid()` ties the two together and requires the
  dates to be distinct.

Assumptions about code that is not part of this model:

- The base class's `dateInString` is an exact match of the entry against the
  comma-separated entries of the string (`CalendarComponent.DateInString`).
- The base class's `getMonthInfo()` describes the month and year the element
  is showing when it is called. The handlers take it as a parameter
  `MonthYear -> MonthInfo` applied to the current fields.
  `MonthPaging.CalendarMonthInfo` is calendar arithmetic for it: the month
  before and after, wrapping between December and January.
- `selectedDates` starts as the empty string.
- "Today" is a parameter of `HandleGoToToday`, not a clock read.

Two details of the code that the model keeps as written:

- The serialized selection is not merely joined by commas. Every entry, the
  last one included, ends with a comma.
- The replacing behaviour is not limited to `single-picker`. It applies to
  every `calendar-type` other than `range-picker`, including none.

## Model

| member | source | states |
|---|---|---|
| `DateText.NatToString` | packages/web-components/src/calendar/calendar.ts:137 | a number renders as a non-empty run of decimal digits, with a leading `0` exactly for zero |
| `DateText.NatToStringRoundTrip` | packages/web-components/src/calendar/calendar.ts:137 | reading the rendered digits back gives the number |
| `DateText.NatToStringInjective` | packages/web-components/src/calendar/calendar.ts:137 | two numbers render the same exactly when they are equal |
| `DateText.DateString` | packages/web-components/src/calendar/calendar.ts:137 | a date's entry is non-empty and holds no comma, so it cannot split a list entry |
| `DateText.DateStringRoundTrip` | packages/web-components/src/calendar/calendar.ts:137 | the `month-day-year` entry parses back to the same day, month and year |
| `DateText.DateStringInjective` | packages/web-components/src/calendar/calendar.ts:137-140 | two dates have the same entry exactly when they are the same date, so exact string match is date equality |
| `DateText.Entries` | packages/web-components/src/calendar/calendar.ts:140 | splitting a selection string yields entries free of commas, and yields none exactly for the empty string |
| `DateText.EntriesOfSerialize` | packages/web-components/src/calendar/calendar.ts:141-144 | a list written with a comma after every entry splits back into the same entries in the same order |
| `DateText.SerializeAppend` | packages/web-components/src/calendar/calendar.ts:141 | appending `entry,` to the string is appending the entry to the list |
| `DateText.WellFormedIff` | packages/web-components/src/calendar/calendar.ts:141-144 | a string is a list in which every entry ends with a comma exactly when it is empty or ends with a comma |
| `CalendarComponent.DateInString` | packages/web-components/src/calendar/calendar.ts:140 | the assumed exact-match test of the base class: it finds nothing in the empty selection and never finds a text holding a comma |
| `CalendarComponent.Select` | packages/web-components/src/calendar/calendar.ts:137-145 | the `selectedDates` update of the handler: in range-picker mode the old string is always kept as a prefix, whatever it holds |
| `CalendarComponent.SelectEndsWithEntry` | packages/web-components/src/calendar/calendar.ts:141-144 | in every mode, whenever the string changes, it ends with the new `month-day-year` entry followed by one comma |
| `CalendarComponent.SelectDates` | packages/web-components/src/calendar/calendar.ts:139-145 | the date-level reference for the update: the date is selected afterwards; range-picker mode leaves the dates unchanged when the date is already present and otherwise appends exactly that date at the end; other modes keep exactly one date; and no date is selected twice |
| `CalendarComponent.RenderHas` | packages/web-components/src/calendar/calendar.ts:140 | a date's entry is among the rendered entries exactly when the date is selected |
| `CalendarComponent.RenderDistinct` | packages/web-components/src/calendar/calendar.ts:139-142 | the entries repeat exactly when the dates repeat |
| `CalendarComponent.DecodeSelection` | packages/web-components/src/calendar/calendar.ts:137-144 | the string written for a list of dates is well formed, splits into one entry per date in order, and each entry parses back to its date |
| `CalendarComponent.SelectRefines` | packages/web-components/src/calendar/calendar.ts:139-145 | the string update matches the date-level selection: range mode appends an absent date and keeps a present one, other modes replace with the one date |
| `CalendarComponent.SelectReplaces` | packages/web-components/src/calendar/calendar.ts:143-145 | outside range-picker mode, whatever the old string, the new one holds exactly the new entry followed by a comma |
| `CalendarComponent.SelectAppends` | packages/web-components/src/calendar/calendar.ts:139-142 | in range-picker mode, on a string where every entry ends with a comma, the entries grow by the new entry exactly when it was absent, and the result still ends every entry with a comma |
| `CalendarComponent.SelectIdempotent` | packages/web-components/src/calendar/calendar.ts:140 | in every mode, on a string where every entry ends with a comma, selecting the same date twice leaves the same string as selecting it once |
| `CalendarComponent.SelectKeepsDistinct` | packages/web-components/src/calendar/calendar.ts:139-142 | on a string where every entry ends with a comma, if the entries had no duplicates before a selection, they have none after |
| `CalendarComponent.RangeScenario` | packages/web-components/src/calendar/calendar.ts:139-142 | range picking a, b, then a again from the empty string leaves exactly the entries of a and b, in that order |
| `CalendarComponent.Calendar.constructor` | packages/web-components/src/calendar/calendar.ts:9-18 | a new element has the given type, month and year, and an empty, valid selection |
| `CalendarComponent.Calendar.DateSelectedHandler` | packages/web-components/src/calendar/calendar.ts:135-148 | keeps the selection valid and distinct, and updates `selectedDates` by the mode rule; its entries are the selected dates in order; type, month and year are unchanged |
| `CalendarComponent.Calendar.PrevMonthHandler` | packages/web-components/src/calendar/calendar.ts:150-153 | month and year become the `previous` pair of one month-info record of the current month; the selection is unchanged |
| `CalendarComponent.Calendar.NextMonthHandler` | packages/web-components/src/calendar/calendar.ts:155-158 | month and year become the `next` pair of one month-info record of the current month; the selection is unchanged |
| `CalendarComponent.Calendar.HandleGoToToday` | packages/web-components/src/calendar/calendar.ts:160-164 | month becomes today's 0-based month plus one (so 1 to 12) and year becomes today's full year; nothing else changes |
| `MonthPaging.CalendarMonthInfo` | packages/web-components/src/calendar/calendar.ts:150-158 | the assumed record: its previous and next months are valid and sit one month before and one month after |
| `MonthPaging.CalendarMonthInfoCases` | packages/web-components/src/calendar/calendar.ts:150-158 | the previous month of January is December of the year before, the next month of December is January of the year after, and otherwise only the month steps |
| `MonthPaging.FromMonthIndexOf` | packages/web-components/src/calendar/calendar.ts:150-158 | a valid month and year are determined by their month count |
| `MonthPaging.Paged` | packages/web-components/src/calendar/calendar.ts:150-158 | the intended paging: the new month and year are, whole, the previous or the next pair of one record of the current month |
| `MonthPaging.PagedAsWritten` | packages/web-components/src/calendar/calendar.ts:150-158 | the paging as written, with the year read from a second record after the month was overwritten: its month always agrees with one-record paging, and its year agrees whenever the second record equals the first |
| `MonthPaging.PagedStepsOneMonth` | packages/web-components/src/calendar/calendar.ts:150-158 | one-record paging moves exactly one month back or forward, to a valid month |
| `MonthPaging.PagedInverse` | packages/web-components/src/calendar/calendar.ts:150-158 | paging forward undoes paging back, and the other way round |
| `MonthPaging.AsWrittenAgreesIff` | packages/web-components/src/calendar/calendar.ts:150-158 | the handlers as written agree with one-record paging exactly for March to December going back and for January to October going forward |
| `MonthPaging.AsWrittenAtYearBoundary` | packages/web-components/src/calendar/calendar.ts:150-158 | as written, back from January stays in the same year, back from February drops a year, forward from November adds a year, and forward from December stays in the same year |
| `MonthPaging.AsWrittenCounterexample` | packages/web-components/src/calendar/calendar.ts:150-153 | from January 2024 the handler as written shows December 2024, not December 2023; from February 2024 it shows January 2023, not January 2024 |

## Findings

| source | as written | input that shows it | evidently intended | confidence | as-written member | corrected member |
|---|---|---|---|---|---|---|
| packages/web-components/src/calendar/calendar.ts:150-153 | `month` is assigned from `getMonthInfo().previous` first. Then `getMonthInfo()` is called again for the year, so it describes the new month in the old year | displayed month January 2024 (shows December 2024) or February 2024 (shows January 2023) | both fields from one record of the displayed month, as the template's previous-month button does at calendar.template.ts:242: December 2023, January 2024 | medium, not executed; holds if `getMonthInfo()` reads the current `month` and `year` fields | `MonthPaging.AsWrittenCounterexample` | `CalendarComponent.Calendar.PrevMonthHandler` |
| packages/web-components/src/calendar/calendar.ts:155-158 | the same double call with `next` | displayed month December 2024 (shows January 2024) or November 2024 (shows December 2025) | January 2025, December 2024, as the template's next-month button does at calendar.template.ts:248 | medium, not executed; holds if `getMonthInfo()` reads the current `month` and `year` fields | `MonthPaging.AsWrittenAtYearBoundary` | `CalendarComponent.Calendar.NextMonthHandler` |

`MonthPaging.PagedAsWritten` models the handlers as written. `MonthPaging.Paged`
models them as intended. The class methods use the intended form.

## Left out

- Listener registration in `connectedCallback` and `disconnectedCallback`, and the `console.log` of the selection. These are DOM event plumbing and output.
- The `@attr` decorators and attribute reflection. Only `calendarType` is modelled, as a field.
- The bodies of the base class's `getMonthInfo` and `dateInString`. They are not part of this model and are stated assumptions above. The base class's other navigation, disabling and keyboard logic is not part of this model either.
- The clock read `new Date()`. Today's month and year are a parameter.
- `DateText.DateDetail`: day, month and year are natural numbers. Negative or fractional numbers in the event detail, and how they would render, are not modelled. Neither are values of 2^53 or more, which JavaScript rounds (`${2**60}` is `1152921504606847000`) or, from 10^21, writes in exponent form (`1e+21`). `DateText.NatToString` and `DateText.NatToStringRoundTrip` describe the exact digits, which match the rendering only below 2^53. Calendar dates never reach that bound.
- `CalendarComponent.Calendar.PrevMonthHandler`: models the intended single-record reading, not the double call written in the source. The double call is `MonthPaging.PagedAsWritten`; see Findings.
- `CalendarComponent.Calendar.NextMonthHandler`: the same, for the next month.
- The template, styles, stories and tests. They hold markup, CSS and demo wiring, not handler logic.
