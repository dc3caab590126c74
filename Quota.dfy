/**
 * The admission rules of `LeaveService.create`: inclusive day counting, the
 * annual 12-day quota measured over the clock's current year, and the
 * one-leave-per-start-month rule, checked in the order the service checks
 * them.
 */
module Quota {
  import opened Wrappers
  import opened Calendar
  import opened LeaveRecords

  /** Leave days a staff member may take per calendar year. */
  const AnnualLimit := 12

  /** Whole days from `start` to `end`, both counted. */
  function Duration(start: Date, end: Date): (r: int)
    ensures start == end ==> r == 1
    ensures r >= 1 <==> DayIndex(start) <= DayIndex(end)
  {
    DayIndex(end) - DayIndex(start) + 1
  }

  /** The durations of `rs`, added up front to back as the `forEach` does. */
  function SumDurations(rs: seq<Leave>): (r: int)
    ensures rs == [] ==> r == 0
    ensures |rs| == 1 ==> r == Duration(rs[0].dateStart, rs[0].dateEnd)
  {
    if rs == [] then 0
    else SumDurations(rs[..|rs| - 1]) + Duration(rs[|rs| - 1].dateStart, rs[|rs| - 1].dateEnd)
  }

  /** The row filter of the annual query: this staff member, start inside the year window. */
  predicate InAnnualWindow(rec: Leave, s: StaffId, year: nat)
  {
    rec.staffId == s && Between(rec.dateStart, YearStart(year), YearEnd(year))
  }

  /** The rows returned by the annual query, in table order. */
  function AnnualHistory(t: seq<Leave>, s: StaffId, year: nat): (r: seq<Leave>)
    ensures |r| <= |t|
    ensures forall k :: 0 <= k < |r| ==> InAnnualWindow(r[k], s, year)
    ensures r == [] <==> forall k :: 0 <= k < |t| ==> !InAnnualWindow(t[k], s, year)
  {
    if t == [] then []
    else AnnualHistory(t[..|t| - 1], s, year)
         + (if InAnnualWindow(t[|t| - 1], s, year) then [t[|t| - 1]] else [])
  }

  /** `totalDaysUsed`: the days this staff member has booked with a start in `year`. */
  function AnnualUsage(t: seq<Leave>, s: StaffId, year: nat): (r: int)
    ensures (forall k :: 0 <= k < |t| ==> !InAnnualWindow(t[k], s, year)) ==> r == 0
  {
    SumDurations(AnnualHistory(t, s, year))
  }

  /** The monthly query: some row of this staff member starts in the month window of `start`. */
  predicate MonthTaken(t: seq<Leave>, s: StaffId, start: Date)
    ensures MonthTaken(t, s, start) ==> exists k :: 0 <= k < |t| && t[k].staffId == s
  {
    exists k :: 0 <= k < |t| && t[k].staffId == s
      && Between(t[k].dateStart, MonthStart(start.year, start.month), MonthEnd(start.year, start.month))
  }

  /**
   * The admission decision of `create` for a request of staff member `s`
   * from `start` to `end`, made at a moment whose calendar year is
   * `currentYear`: staff existence, then range order, then the annual quota,
   * then the monthly rule; the first failing check decides.
   */
  function Decide(t: seq<Leave>, directory: seq<StaffId>, currentYear: nat,
                  s: StaffId, start: Date, end: Date): (r: Outcome<Error>)
    ensures r.Pass? ==> s in directory && Duration(start, end) >= 1
    ensures r.Fail? ==> !r.error.LeaveNotFound?
    ensures r.Fail? && r.error.AnnualLimitExceeded? ==>
              r.error.limit == 12 && r.error.used + r.error.requested > 12 && r.error.requested >= 1
    ensures r.Fail? && r.error.MonthlyLimitExceeded? ==>
              r.error.year == start.year && r.error.month == start.month
    // The four checks, in order: each applies only when the earlier ones pass.
    ensures s !in directory ==> r == Fail(StaffNotFound)
    ensures s in directory ==> (r == Fail(InvalidRange) <==> DayIndex(start) > DayIndex(end))
    ensures s in directory && DayIndex(start) <= DayIndex(end) ==>
              (r.Fail? && r.error.AnnualLimitExceeded?
               <==> AnnualUsage(t, s, currentYear) + Duration(start, end) > AnnualLimit)
    ensures s in directory && DayIndex(start) <= DayIndex(end)
            && AnnualUsage(t, s, currentYear) + Duration(start, end) <= AnnualLimit ==>
              (r == Fail(MonthlyLimitExceeded(start.year, start.month)) <==> MonthTaken(t, s, start))
              && (r == Pass <==> !MonthTaken(t, s, start))
  {
    if s !in directory then Fail(StaffNotFound)
    else if DayIndex(start) > DayIndex(end) then Fail(InvalidRange)
    else
      var used := AnnualUsage(t, s, currentYear);
      var requested := Duration(start, end);
      if used + requested > AnnualLimit then Fail(AnnualLimitExceeded(used, requested, AnnualLimit))
      else if MonthTaken(t, s, start) then Fail(MonthlyLimitExceeded(start.year, start.month))
      else Pass
  }

  // ---------------------------------------------------------------------
  // Day counting

  /** A one-day leave counts one day, and an ordered range counts at least one. */
  lemma DurationOfOrderedRange(start: Date, end: Date)
    requires ValidDate(start) && ValidDate(end)
    ensures Duration(start, start) == 1
    ensures Duration(start, end) >= 1 <==> !Precedes(end, start)
  {
    DayIndexOrder(end, start);
  }

  /** Counting is inclusive: stretching the end by one calendar day adds exactly one day. */
  lemma DurationNextDay(start: Date, end: Date)
    requires ValidDate(end)
    ensures Duration(start, NextDay(end)) == Duration(start, end) + 1
  {
    NextDayIndex(end);
  }

  // ---------------------------------------------------------------------
  // The annual window

  lemma SumDurationsAppend(rs: seq<Leave>, x: Leave)
    ensures SumDurations(rs + [x]) == SumDurations(rs) + Duration(x.dateStart, x.dateEnd)
  {
    assert (rs + [x])[..|rs|] == rs;
  }

  lemma AnnualHistoryAppend(t: seq<Leave>, x: Leave, s: StaffId, year: nat)
    ensures AnnualHistory(t + [x], s, year)
            == AnnualHistory(t, s, year) + (if InAnnualWindow(x, s, year) then [x] else [])
  {
    assert (t + [x])[..|t|] == t;
  }

  /** Appending a record adds its duration to its own staff member's usage for its window, and nothing else. */
  lemma AnnualUsageAppend(t: seq<Leave>, x: Leave, s: StaffId, year: nat)
    ensures AnnualUsage(t + [x], s, year)
            == AnnualUsage(t, s, year) + (if InAnnualWindow(x, s, year) then Duration(x.dateStart, x.dateEnd) else 0)
  {
    AnnualHistoryAppend(t, x, s, year);
    if InAnnualWindow(x, s, year) {
      SumDurationsAppend(AnnualHistory(t, s, year), x);
    } else {
      assert AnnualHistory(t, s, year) + [] == AnnualHistory(t, s, year);
    }
  }

  predicate ValidDates(t: seq<Leave>)
  {
    forall k :: 0 <= k < |t| ==> ValidDate(t[k].dateStart) && ValidDate(t[k].dateEnd)
  }

  /** Reference definition: usage as the durations of this staff member's records whose start lies in `year`. */
  function UsageInYear(t: seq<Leave>, s: StaffId, year: nat): int
  {
    if t == [] then 0
    else
      var x := t[|t| - 1];
      UsageInYear(t[..|t| - 1], s, year)
      + (if x.staffId == s && x.dateStart.year == year then Duration(x.dateStart, x.dateEnd) else 0)
  }

  /** The date-window query counts exactly the records whose start falls in the given year. */
  lemma {:induction false} AnnualUsageIsUsageInYear(t: seq<Leave>, s: StaffId, year: nat)
    requires ValidDates(t)
    ensures AnnualUsage(t, s, year) == UsageInYear(t, s, year)
  {
    if t != [] {
      var init, x := t[..|t| - 1], t[|t| - 1];
      assert t == init + [x];
      AnnualUsageIsUsageInYear(init, s, year);
      AnnualUsageAppend(init, x, s, year);
      InYearWindow(x.dateStart, year);
    }
  }

  /** The monthly query finds a row exactly when some record of this staff member starts in `start`'s calendar month. */
  lemma MonthTakenBySameStartMonth(t: seq<Leave>, s: StaffId, start: Date)
    requires ValidDates(t) && ValidDate(start)
    ensures MonthTaken(t, s, start)
        <==> exists k :: 0 <= k < |t| && t[k].staffId == s
                         && t[k].dateStart.year == start.year && t[k].dateStart.month == start.month
  {
    forall k | 0 <= k < |t|
      ensures Between(t[k].dateStart, MonthStart(start.year, start.month), MonthEnd(start.year, start.month))
          <==> t[k].dateStart.year == start.year && t[k].dateStart.month == start.month
    {
      InMonthWindow(t[k].dateStart, start.year, start.month);
    }
  }

  // ---------------------------------------------------------------------
  // The decision, check by check

  /** An unknown staff member is refused before any date is looked at. */
  lemma StaffCheckedFirst(t: seq<Leave>, directory: seq<StaffId>, currentYear: nat, s: StaffId, start: Date, end: Date)
    requires s !in directory
    ensures Decide(t, directory, currentYear, s, start, end) == Fail(StaffNotFound)
  {
  }

  /** A known staff member with start after end gets InvalidRange, whatever the history. */
  lemma RangeCheckedSecond(t: seq<Leave>, directory: seq<StaffId>, currentYear: nat, s: StaffId, start: Date, end: Date)
    requires s in directory && ValidDate(start) && ValidDate(end)
    requires Precedes(end, start)
    ensures Decide(t, directory, currentYear, s, start, end) == Fail(InvalidRange)
  {
    DayIndexOrder(end, start);
  }

  /**
   * Past the first two checks, the annual rule refuses exactly when the
   * current-year usage plus the requested days exceeds 12, reporting both.
   */
  lemma AnnualRule(t: seq<Leave>, directory: seq<StaffId>, currentYear: nat, s: StaffId, start: Date, end: Date)
    requires s in directory && ValidDate(start) && ValidDate(end) && !Precedes(end, start)
    ensures var used, requested := AnnualUsage(t, s, currentYear), Duration(start, end);
      Decide(t, directory, currentYear, s, start, end) == Fail(AnnualLimitExceeded(used, requested, 12))
      <==> used + requested > 12
  {
    DayIndexOrder(end, start);
  }

  /** Reaching exactly 12 days is allowed. */
  lemma BoundaryAdmitted(t: seq<Leave>, directory: seq<StaffId>, currentYear: nat, s: StaffId, start: Date, end: Date)
    requires s in directory && ValidDate(start) && ValidDate(end) && !Precedes(end, start)
    requires AnnualUsage(t, s, currentYear) + Duration(start, end) == 12
    requires !MonthTaken(t, s, start)
    ensures Decide(t, directory, currentYear, s, start, end) == Pass
  {
    DayIndexOrder(end, start);
  }

  /** A request longer than 12 days is refused even with no usage this year. */
  lemma LongRequestRefused(t: seq<Leave>, directory: seq<StaffId>, currentYear: nat, s: StaffId, start: Date, end: Date)
    requires s in directory && ValidDate(start) && ValidDate(end)
    requires AnnualUsage(t, s, currentYear) == 0
    requires Duration(start, end) > 12
    ensures Decide(t, directory, currentYear, s, start, end)
            == Fail(AnnualLimitExceeded(0, Duration(start, end), 12))
  {
  }

  /** With 12 days already used this year, any further ordered request is refused by the annual rule. */
  lemma FullYearRefuses(t: seq<Leave>, directory: seq<StaffId>, currentYear: nat, s: StaffId, start: Date, end: Date)
    requires s in directory && ValidDate(start) && ValidDate(end) && !Precedes(end, start)
    requires AnnualUsage(t, s, currentYear) == 12
    ensures Decide(t, directory, currentYear, s, start, end).Fail?
    ensures Decide(t, directory, currentYear, s, start, end).error.AnnualLimitExceeded?
  {
    DayIndexOrder(end, start);
  }

  /** Once the annual rule passes, the request is refused exactly when the same staff member already has a leave starting in the same calendar month, overlapping or not. */
  lemma MonthlyRule(t: seq<Leave>, directory: seq<StaffId>, currentYear: nat, s: StaffId, start: Date, end: Date)
    requires ValidDates(t) && s in directory && ValidDate(start) && ValidDate(end) && !Precedes(end, start)
    requires AnnualUsage(t, s, currentYear) + Duration(start, end) <= 12
    ensures Decide(t, directory, currentYear, s, start, end) == Fail(MonthlyLimitExceeded(start.year, start.month))
        <==> exists k :: 0 <= k < |t| && t[k].staffId == s
                         && t[k].dateStart.year == start.year && t[k].dateStart.month == start.month
    ensures Decide(t, directory, currentYear, s, start, end).Pass? || Decide(t, directory, currentYear, s, start, end).error.MonthlyLimitExceeded?
  {
    DayIndexOrder(end, start);
    MonthTakenBySameStartMonth(t, s, start);
  }

  // ---------------------------------------------------------------------
  // What an admission keeps

  /** At most one leave per staff member and start month. */
  predicate OneLeavePerMonth(t: seq<Leave>)
  {
    forall i, j :: 0 <= i < j < |t| && t[i].staffId == t[j].staffId ==>
      !(t[i].dateStart.year == t[j].dateStart.year && t[i].dateStart.month == t[j].dateStart.month)
  }

  /**
   * Committing an admitted request keeps the requester within 12 days for
   * the current year and leaves every other staff member's usage as it was.
   */
  lemma AdmissionKeepsAnnualQuota(t: seq<Leave>, directory: seq<StaffId>, currentYear: nat, x: Leave)
    requires ValidDate(x.dateStart) && ValidDate(x.dateEnd)
    requires Decide(t, directory, currentYear, x.staffId, x.dateStart, x.dateEnd) == Pass
    ensures AnnualUsage(t + [x], x.staffId, currentYear) <= 12
    ensures forall other :: other != x.staffId ==> AnnualUsage(t + [x], other, currentYear) == AnnualUsage(t, other, currentYear)
  {
    AnnualUsageAppend(t, x, x.staffId, currentYear);
    forall other | other != x.staffId
      ensures AnnualUsage(t + [x], other, currentYear) == AnnualUsage(t, other, currentYear)
    {
      AnnualUsageAppend(t, x, other, currentYear);
    }
  }

  /** Committing an admitted request keeps at most one leave per staff member and start month. */
  lemma AdmissionKeepsOneLeavePerMonth(t: seq<Leave>, directory: seq<StaffId>, currentYear: nat, x: Leave)
    requires ValidDates(t) && ValidDate(x.dateStart) && ValidDate(x.dateEnd)
    requires OneLeavePerMonth(t)
    requires Decide(t, directory, currentYear, x.staffId, x.dateStart, x.dateEnd) == Pass
    ensures OneLeavePerMonth(t + [x])
  {
    MonthTakenBySameStartMonth(t, x.staffId, x.dateStart);
    var u := t + [x];
    forall i, j | 0 <= i < j < |u| && u[i].staffId == u[j].staffId
      ensures !(u[i].dateStart.year == u[j].dateStart.year && u[i].dateStart.month == u[j].dateStart.month)
    {
      if j == |t| {
        assert u[i] == t[i];
      } else {
        assert u[i] == t[i] && u[j] == t[j];
      }
    }
  }
}
