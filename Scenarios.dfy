/**
 * Concrete cases of the admission and update rules, including the behaviours
 * that follow from the code as written: the annual window is the clock's
 * year, an update may store an inverted range, and such a range counts
 * negative days.
 */
module Scenarios {
  import opened Wrappers
  import opened Calendar
  import opened LeaveRecords
  import opened Quota

  const S: StaffId := "staff-s"

  /** A staff member with no leaves asks for 1-5 March 2024: admitted, 5 days used. */
  lemma FirstRequestAdmitted()
    ensures Decide([], [S], 2024, S, Date(2024, 3, 1), Date(2024, 3, 5)) == Pass
    ensures AnnualUsage([Leave(0, "trip", Date(2024, 3, 1), Date(2024, 3, 5), S)], S, 2024) == 5
  {
    var x := Leave(0, "trip", Date(2024, 3, 1), Date(2024, 3, 5), S);
    AnnualUsageAppend([], x, S, 2024);
    assert [] + [x] == [x];
  }

  /** A second request starting in the same month is refused even though the ranges do not overlap. */
  lemma SameStartMonthRefused()
    ensures Decide([Leave(0, "trip", Date(2024, 3, 1), Date(2024, 3, 5), S)], [S], 2024,
                   S, Date(2024, 3, 10), Date(2024, 3, 12))
            == Fail(MonthlyLimitExceeded(2024, 3))
  {
    var x := Leave(0, "trip", Date(2024, 3, 1), Date(2024, 3, 5), S);
    AnnualUsageAppend([], x, S, 2024);
    assert [] + [x] == [x];
    InMonthWindow(x.dateStart, 2024, 3);
  }

  /**
   * The annual window is the clock's year, not the request's: while the
   * clock reads 2024, two 12-day leaves in January and February 2025 are
   * both admitted, so 24 days start in 2025.
   */
  lemma NextYearQuotaUnchecked()
    ensures var a := Leave(0, "a", Date(2025, 1, 1), Date(2025, 1, 12), S);
            var b := Leave(1, "b", Date(2025, 2, 1), Date(2025, 2, 12), S);
      && Decide([], [S], 2024, S, a.dateStart, a.dateEnd) == Pass
      && Decide([a], [S], 2024, S, b.dateStart, b.dateEnd) == Pass
      && UsageInYear([a, b], S, 2025) == 24
  {
    var a := Leave(0, "a", Date(2025, 1, 1), Date(2025, 1, 12), S);
    var b := Leave(1, "b", Date(2025, 2, 1), Date(2025, 2, 12), S);
    assert [] + [a] == [a];
    AnnualUsageAppend([], a, S, 2024);
    InYearWindow(a.dateStart, 2024);
    InMonthWindow(a.dateStart, 2025, 2);
    assert [a, b][..1] == [a] && [a][..0] == [];
    assert UsageInYear([a], S, 2025) == 12;
  }

  /** Supplying only a new start date is not range-checked, so the stored range can end before it starts. */
  lemma UpdateMayInvertRange()
    ensures var t := [Leave(0, "trip", Date(2024, 3, 1), Date(2024, 3, 5), S)];
            var r := UpdateOutcome(t, [S], 0, LeavePatch(None, Some(Date(2024, 3, 10)), None, None));
      r.Success? && Precedes(r.value.dateEnd, r.value.dateStart)
  {
  }

  /** An update is never checked against the quota: stretching a 12-day leave to 20 days is accepted. */
  lemma UpdateSkipsQuota()
    ensures var t := [Leave(0, "trip", Date(2024, 3, 1), Date(2024, 3, 12), S)];
            var r := UpdateOutcome(t, [S], 0, LeavePatch(None, None, Some(Date(2024, 3, 20)), None));
      && AnnualUsage(t, S, 2024) == 12
      && r.Success?
      && AnnualUsage([r.value], S, 2024) == 20
  {
    var x := Leave(0, "trip", Date(2024, 3, 1), Date(2024, 3, 12), S);
    var y := Leave(0, "trip", Date(2024, 3, 1), Date(2024, 3, 20), S);
    assert [] + [x] == [x] && [] + [y] == [y];
    AnnualUsageAppend([], x, S, 2024);
    AnnualUsageAppend([], y, S, 2024);
  }

  /** A stored inverted range counts negative days, which lets a 13-day request through. */
  lemma InvertedRecordFreesQuota()
    ensures var t := [Leave(0, "trip", Date(2024, 1, 20), Date(2024, 1, 1), S)];
      && Duration(Date(2024, 2, 1), Date(2024, 2, 13)) == 13
      && Decide(t, [S], 2024, S, Date(2024, 2, 1), Date(2024, 2, 13)) == Pass
  {
    var x := Leave(0, "trip", Date(2024, 1, 20), Date(2024, 1, 1), S);
    assert [] + [x] == [x];
    AnnualUsageAppend([], x, S, 2024);
    InMonthWindow(x.dateStart, 2024, 2);
  }
}
