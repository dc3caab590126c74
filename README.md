# Leave admission and quota engine — a Dafny model

This project models the leave service of an administrative backend
(`LeaveService` in `src/leave/leave.service.ts`). The service keeps a table of
leave records. Each record has an id, a reason, a start date, an end date and
a staff id, as in `src/leave/entities/leave.entity.ts:13-37`.

- **create** admits or refuses a new leave. It checks, in this order:
  1. the staff member exists;
  2. the start is not after the end;
  3. the staff member's days in the current year plus the requested days do not exceed 12;
  4. the staff member has no leave starting in the same calendar month as the request.

  If every check passes, it inserts exactly one row.
- **update** patches the supplied fields of one row.
- **remove** deletes a row by id.
- **findStaffOnLeave** lists the staff members who have at least one leave.
- **findAll** and **findOne** read the table.

Modules:

- `Calendar` (Calendar.dfy): date-only values `(year, month, day)`.
  - `DayIndex` numbers the days of the proleptic Gregorian calendar.
  - Chronological comparisons go through `DayIndex`: the JavaScript `Date` comparison and TypeORM's `Between`, which includes both ends.
  - Lemmas show three facts:
    - `DayIndex` orders valid dates as the calendar does;
    - the year window `[Jan 1, Dec 31]` holds exactly the dates of that year;
    - the month window `[1st, last day]` holds exactly the dates of that month.
- `LeaveRecords` (LeaveRecords.dfy) holds:
  - the record and error types;
  - lookup by id and deletion by id;
  - the staff-to-leaves relation and the `findStaffOnLeave` filter;
  - the update patch and the decision `update` makes.
- `Quota` (Quota.dfy) holds:
  - inclusive day counting;
  - the annual history query and the usage it sums;
  - the monthly query;
  - `Decide`, the admission decision of `create`, with one lemma per rule and lemmas on what an admission preserves.
- `Service` (LeaveService.dfy): the class `LeaveService`.
  - It holds the table as a `seq` field and an id counter.
  - The methods `Create`, `Update` and `Remove` change the table.
  - `TotalDaysUsed` is the `forEach` loop that adds up the used days.
- `Scenarios` (Scenarios.dfy): concrete cases (proofs about fixed inputs), including the consequences of the code as written.

A natural reading of "12 days per year" is a quota per calendar year of each leave's start date, with every stored leave's dates in order. The code does not enforce that reading in two places. This is this model's own reading, not a rule stated in the code, and the model follows the code:

- **Annual window.** The quota is measured over the year the clock shows (`new Date().getFullYear()`), not the request's start year. `currentYear` is therefore a parameter. `Scenarios.NextYearQuotaUnchecked` shows the effect: leaves starting next year are never checked against next year's usage.
- **Range check on update.** `update` checks the range only when both dates are supplied. It does not compare a single new date with the stored one. `Scenarios.UpdateMayInvertRange` shows that a stored range can end up inverted. `Scenarios.InvertedRecordFreesQuota` shows that such a row then counts negative days.

External collaborators are parameters:

- The staff directory is a sequence of staff ids, in the order the staff repository lists them.
- The clock enters only as `currentYear`.
- Leave ids come from a counter field, which stands in for the database's uuid generator.

## Model

| member | source | states |
|---|---|---|
| `Calendar.DayIndexOrder` | src/leave/leave.service.ts:128-134 | comparing day numbers (the `startDate > endDate` test) orders valid dates exactly as the calendar does; equal day numbers mean equal dates |
| `Calendar.InYearWindow` | src/leave/leave.service.ts:141-150 | `Between(new Date(y,0,1), new Date(y,11,31))` on a start date holds iff the date lies in year y (both ends included) |
| `Calendar.InMonthWindow` | src/leave/leave.service.ts:169-179 | `Between(first of month, new Date(y, m+1, 0))` holds iff the date lies in that year and month |
| `Calendar.MonthEndRollsOver` | src/leave/leave.service.ts:172 | day 0 of the following month is a valid date, the last day of the month: the next day is the first of the next month (or of January of the next year) |
| `Calendar.NextDayIndex` | src/leave/leave.service.ts:136-138 | one calendar day later, across month and year ends, is exactly one day number later |
| `LeaveRecords.Find` | src/leave/leave.service.ts:233-237 | lookup by id yields the first row with that id, or nothing exactly when no row has it |
| `LeaveRecords.Without` | src/leave/leave.service.ts:307-311 | deletion by id leaves no row with that id, never adds rows, and keeps the length exactly when no row had that id |
| `LeaveRecords.WithoutAbsent` | src/leave/leave.service.ts:308-311 | deleting an id no row has leaves the table identical |
| `LeaveRecords.RemoveIsSplice` | src/leave/leave.service.ts:307-316 | with unique ids, deleting a present id removes exactly that row and keeps every other row in order |
| `LeaveRecords.LeavesOf` | src/leave/leave.service.ts:85-106 | the joined leaves of a staff member all carry its id and are non-empty iff the table has a row for it |
| `LeaveRecords.LeavesOfExact` | src/leave/leave.service.ts:85-106 | the joined leaves are exactly the table's rows for that staff member |
| `LeaveRecords.StaffWithLeavesSpec` | src/leave/leave.service.ts:108-113 | `findStaffOnLeave` lists only directory members with a non-empty leave list, joined with exactly their leaves, and lists every such member |
| `LeaveRecords.StaffWithLeavesConcat` | src/leave/leave.service.ts:109-111 | the filter commutes with splitting the directory, so directory order is preserved |
| `LeaveRecords.UpdateOutcomeSpec` | src/leave/leave.service.ts:232-270 | update fails with LeaveNotFound for an unknown id; otherwise it fails with StaffNotFound for a supplied unknown staff id; InvalidRange only when both dates are supplied; on success the same id with each supplied non-empty field replaced and the rest as stored; once the row and the staff id are found, two supplied dates in the wrong order give InvalidRange and every other patch succeeds, with no quota or monthly check |
| `Quota.Duration` | src/leave/leave.service.ts:136-138 | a leave from a day to itself counts 1, and the count is at least 1 exactly when the start is not after the end |
| `Quota.AnnualHistory` | src/leave/leave.service.ts:145-150 | the annual query returns at most the table's rows, only rows of this staff member starting in the year window, and nothing exactly when no row matches |
| `Quota.AnnualUsage` | src/leave/leave.service.ts:145-160 | with no row of this staff member starting in the window, the used days are 0 |
| `Quota.MonthTaken` | src/leave/leave.service.ts:174-181 | the monthly query finds a row only if this staff member has a row |
| `Quota.Decide` | src/leave/leave.service.ts:119-185 | checks in order: an unknown staff id gives StaffNotFound; then InvalidRange iff start is after end; then an annual refusal iff used + requested > 12 (carrying limit 12 and a positive requested count); then the monthly refusal for the request's start month iff the monthly query finds a row, and admission iff it finds none |
| `Calendar.Between` | src/leave/leave.service.ts:148 | a date inside the window implies the window is non-empty, and both ends of a non-empty window lie inside it (inclusive at both ends) |
| `Quota.SumDurations` | src/leave/leave.service.ts:152-160 | the total over no rows is 0, and over one row is that row's inclusive duration |
| `LeaveRecords.Patched` | src/leave/leave.service.ts:250-263 | the written record keeps its id; an empty patch changes nothing; a patch supplying every field determines the record whatever was stored |
| `LeaveRecords.UpdateOutcome` | src/leave/leave.service.ts:232-270 | a success names an existing row by the requested id; the only refusals are LeaveNotFound, StaffNotFound and InvalidRange |
| `LeaveRecords.StaffWithLeaves` | src/leave/leave.service.ts:109-111 | the result has no more entries than the directory, and is empty when the leave table is |
| `Quota.DurationOfOrderedRange` | src/leave/leave.service.ts:136-138 | a one-day leave counts 1, and the count is at least 1 exactly when the end is not before the start |
| `Quota.DurationNextDay` | src/leave/leave.service.ts:136-138 | counting is inclusive: moving the end one calendar day later adds exactly one day |
| `Quota.SumDurationsAppend` | src/leave/leave.service.ts:152-160 | the running total over one more row grows by that row's duration |
| `Quota.AnnualHistoryAppend` | src/leave/leave.service.ts:145-150 | the annual query over a table with one more row returns the old rows plus that row iff it belongs to the staff member and starts in the window |
| `Quota.AnnualUsageAppend` | src/leave/leave.service.ts:140-160 | one more row adds its duration to the usage of its own staff member and window and changes no other usage |
| `Quota.AnnualUsageIsUsageInYear` | src/leave/leave.service.ts:140-160 | the window-based usage equals the sum of durations of this staff member's rows whose start year is the given year |
| `Quota.MonthTakenBySameStartMonth` | src/leave/leave.service.ts:168-181 | the monthly query finds a row iff a row of this staff member starts in the request's start year and month, regardless of overlap |
| `Quota.StaffCheckedFirst` | src/leave/leave.service.ts:119-126 | an unknown staff id is refused with StaffNotFound before any date is examined |
| `Quota.RangeCheckedSecond` | src/leave/leave.service.ts:128-134 | a known staff member whose start is after the end is refused with InvalidRange whatever the history |
| `Quota.AnnualRule` | src/leave/leave.service.ts:162-166 | past the first two checks, the annual refusal (carrying used, requested and 12) happens iff used + requested > 12 |
| `Quota.BoundaryAdmitted` | src/leave/leave.service.ts:162-185 | used + requested == 12 with a free month is admitted |
| `Quota.LongRequestRefused` | src/leave/leave.service.ts:162-166 | a request of more than 12 days is refused with used = 0 even with no usage this year |
| `Quota.FullYearRefuses` | src/leave/leave.service.ts:162-166 | with 12 days used this year, every ordered request is refused by the annual rule |
| `Quota.MonthlyRule` | src/leave/leave.service.ts:168-185 | once the annual rule passes, the result is admission or the monthly refusal; the monthly refusal for the request's start month happens iff a row of the staff member starts in that month |
| `Quota.AdmissionKeepsAnnualQuota` | src/leave/leave.service.ts:140-196 | after an admitted insert the requester's current-year usage is at most 12 and every other staff member's usage is unchanged |
| `Quota.AdmissionKeepsOneLeavePerMonth` | src/leave/leave.service.ts:168-196 | an admitted insert keeps at most one leave per staff member and start month |
| `Service.TotalDaysUsed` | src/leave/leave.service.ts:152-160 | the `forEach` accumulation yields the sum of the inclusive durations of the queried rows |
| `Service.RemoveKeepsTableInvariant` | src/leave/leave.service.ts:307-308 | deletion keeps ids unique and issued and stored dates valid |
| `Service.LeaveService.FindAll` | src/leave/leave.service.ts:26-50 | every row, newest first |
| `Service.LeaveService.FindOne` | src/leave/leave.service.ts:53-82 | the row with that id, or LeaveNotFound exactly when no row has it |
| `Service.LeaveService.Create` | src/leave/leave.service.ts:116-196 | refuses with the error of the first failing check (staff, range, annual, monthly) and leaves the table and the id counter unchanged; otherwise appends exactly one row with a fresh id and the given reason, dates and staff id, keeping all other rows |
| `Service.LeaveService.Update` | src/leave/leave.service.ts:232-273 | returns the update decision; a refusal changes nothing; on success only the row with that id is replaced, by the patched record |
| `Service.LeaveService.Remove` | src/leave/leave.service.ts:307-316 | fails with LeaveNotFound and changes nothing iff no row has the id; otherwise the table becomes the table without that id |
| `Scenarios.FirstRequestAdmitted` | src/leave/leave.service.ts:136-196 | with no history, 2024-03-01..2024-03-05 is admitted and usage becomes 5 |
| `Scenarios.SameStartMonthRefused` | src/leave/leave.service.ts:168-185 | a second, non-overlapping leave starting in March 2024 is refused with the monthly error for 2024-03 |
| `Scenarios.NextYearQuotaUnchecked` | src/leave/leave.service.ts:141-166 | while the clock is in 2024, two 12-day leaves starting in 2025 are both admitted: 24 days start in 2025 |
| `Scenarios.UpdateMayInvertRange` | src/leave/leave.service.ts:259-270 | an update supplying only a later start date is accepted and stores a range that ends before it starts |
| `Scenarios.UpdateSkipsQuota` | src/leave/leave.service.ts:232-273 | an update stretching a 12-day leave to 20 days is accepted; the year's usage becomes 20 |
| `Scenarios.InvertedRecordFreesQuota` | src/leave/leave.service.ts:152-166 | a stored inverted range counts negative days, so a 13-day request is admitted |

## Left out

- Concurrency: the queries and the save are separate awaited calls (src/leave/leave.service.ts:145, 174, 196), so two concurrent creates can both pass the quota. `Create` is one atomic method, so the race is not modelled.
- JavaScript `Date` handling is replaced by calendar-day arithmetic. This covers parsing ISO strings, millisecond differences with `Math.ceil`, local time versus UTC, and daylight-saving shifts.
- Inputs are assumed to be date-only values that are real calendar days (`ValidDate`). The date-string validation of the request bodies does not guarantee this: it also accepts date-times with a time and an offset, and without strict mode impossible days such as 2024-02-30. With times of day, the start-after-end test and the rounded day count can differ from the model's.
- Stored `date_start` and `date_end` are taken to come back from the database as `Date` values, as the entity declares them. If the driver returns them as strings, the `getTime()` calls in the usage sum would throw. Then `create` would fail with a server error whenever the staff member has a leave starting in the clock's year. The model does not capture that failure.
- The locale month name in the monthly error message is not modelled. The error keeps only the year and month.
- Messages, the re-fetch with the staff join, and the `select` projections of findAll, findOne, create and update are not modelled. So are the `createdAt` and `updatedAt` timestamps. The methods return the stored record itself.
- Database failures rethrown by create and update (src/leave/leave.service.ts:226-229, 301-304) are not modelled. Neither is the foreign-key cascade from the staff table.
- The staff service, admin service, controllers, modules, DTO decorators, migrations and the admin seed script are not modelled. The staff directory appears only as the sequence of staff ids passed to `Create`, `Update` and `StaffWithLeaves`.
- The uuid generation of the database is replaced by a counter. Ids are naturals.
- `Service.LeaveService.Update`: an empty date string in the patch is treated as an absent date. The code skips it for the same reason, JavaScript falsiness.
- `Service.LeaveService.FindAll`: "newest first" is the reverse of insertion order. Rows created within the same timestamp are not distinguished.
- `Quota.MonthTaken`: its own contract states only that a hit is a row of this staff member; the full meaning (a row starting in the request's start month) is the lemma `Quota.MonthTakenBySameStartMonth`.
- `Quota.AnnualUsage`: its own contract states only the empty case; the full meaning (the durations of this staff member's rows starting in the year) is the lemma `Quota.AnnualUsageIsUsageInYear`.
- `LeaveRecords.StaffWithLeaves`: its own contract states only size facts; which staff members it lists, and in what order, is stated by `LeaveRecords.StaffWithLeavesSpec` and `LeaveRecords.StaffWithLeavesConcat`.
- `Quota.Duration`: its own contract states only the single-day value and when the count is positive; the inclusive count of longer ranges is the lemma `Quota.DurationNextDay`.
- `Quota.AnnualHistory`: its own contract does not say that every matching row is returned; that is the lemma `Quota.AnnualHistoryAppend`, with `Quota.AnnualUsageIsUsageInYear` for the resulting usage.
- `Quota.SumDurations`: its own contract states only the empty and one-row totals; the step of the running total is `Quota.SumDurationsAppend`, the loop is `Service.TotalDaysUsed`, and the meaning over the table is `Quota.AnnualUsageIsUsageInYear`.
- `Calendar.Between`: its own contract states only inclusiveness; which dates the year and month windows hold is stated by `Calendar.InYearWindow` and `Calendar.InMonthWindow`.
- `LeaveRecords.Without`: its own contract does not say that the rows with other ids stay; that, in order, is the lemma `LeaveRecords.RemoveIsSplice`.
- `LeaveRecords.LeavesOf`: its own contract does not say that every row of the staff member is joined; that is the lemma `LeaveRecords.LeavesOfExact`.
- `LeaveRecords.Patched`: its own contract states only the empty and the complete patch; the per-field result of any patch is stated by `LeaveRecords.UpdateOutcomeSpec`.
- `LeaveRecords.UpdateOutcome`: its own contract states only the id of a success and the possible error kinds; which outcome each input gets is stated by `LeaveRecords.UpdateOutcomeSpec`.
