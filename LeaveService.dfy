/**
 * `LeaveService` over an in-memory leave table. The table is a sequence in
 * insertion order; leave ids come from a counter standing in for the
 * database's uuid generator. The staff directory belongs to the staff
 * service, so every operation that consults it takes it as a parameter, in
 * the order the staff repository lists it.
 */
module Service {
  import opened Wrappers
  import opened Calendar
  import opened LeaveRecords
  import opened Quota

  /** The `forEach` that adds up `totalDaysUsed` over the annual query's rows. */
  method TotalDaysUsed(history: seq<Leave>) returns (total: int)
    ensures total == SumDurations(history)
  {
    total := 0;
    for i := 0 to |history|
      invariant total == SumDurations(history[..i])
    {
      assert history[..i + 1][..i] == history[..i];
      total := total + Duration(history[i].dateStart, history[i].dateEnd);
    }
    assert history[..|history|] == history;
  }

  class LeaveService {
    /** The `leaves` table, oldest row first. */
    var leaves: seq<Leave>
    /** The next id the database would hand out. */
    var nextId: nat

    /** Ids are unique and already issued; stored dates are real calendar days. */
    ghost predicate Valid()
      reads this
    {
      && UniqueIds(leaves)
      && (forall k :: 0 <= k < |leaves| ==> leaves[k].id < nextId)
      && ValidDates(leaves)
    }

    constructor ()
      ensures Valid() && leaves == []
    {
      leaves := [];
      nextId := 0;
    }

    /** `findAll`: every row, newest first (`order: { createdAt: 'DESC' }`). */
    function FindAll(): (r: seq<Leave>)
      reads this
      ensures |r| == |leaves|
      ensures forall k :: 0 <= k < |r| ==> r[k] == leaves[|leaves| - 1 - k]
    {
      Reversed(leaves)
    }

    /** `findOne(id)`: the row with that id, or NotFound. */
    function FindOne(id: LeaveId): (r: Result<Leave, Error>)
      reads this
      ensures r.Success? ==> r.value in leaves && r.value.id == id
      ensures r.Failure? <==> forall k :: 0 <= k < |leaves| ==> leaves[k].id != id
      ensures r.Failure? ==> r.error == LeaveNotFound
    {
      match Find(leaves, id)
      case Some(i) => Success(leaves[i])
      case None => Failure(LeaveNotFound)
    }

    /**
     * `create`: admit or refuse a request of staff member `staffId` at a
     * moment whose calendar year is `currentYear`. A refusal throws the
     * error `Decide` names and leaves the table as it was; an admission
     * appends exactly one new row.
     */
    method Create(directory: seq<StaffId>, currentYear: nat, staffId: StaffId,
                  start: Date, end: Date, reason: string) returns (r: Result<Leave, Error>)
      requires Valid() && ValidDate(start) && ValidDate(end)
      modifies this
      ensures Valid()
      ensures var verdict := Decide(old(leaves), directory, currentYear, staffId, start, end);
        && (r.Failure? <==> verdict.Fail?)
        && (r.Failure? ==> r.error == verdict.error && leaves == old(leaves) && nextId == old(nextId))
      ensures r.Success? ==>
        && r.value == Leave(old(nextId), reason, start, end, staffId)
        && leaves == old(leaves) + [r.value]
        && nextId == old(nextId) + 1
    {
      if staffId !in directory {
        return Failure(StaffNotFound);
      }
      if DayIndex(start) > DayIndex(end) {
        return Failure(InvalidRange);
      }
      var daysDiff := Duration(start, end);
      var existingLeavesThisYear := AnnualHistory(leaves, staffId, currentYear);
      var totalDaysUsed := TotalDaysUsed(existingLeavesThisYear);
      if totalDaysUsed + daysDiff > AnnualLimit {
        return Failure(AnnualLimitExceeded(totalDaysUsed, daysDiff, AnnualLimit));
      }
      if MonthTaken(leaves, staffId, start) {
        return Failure(MonthlyLimitExceeded(start.year, start.month));
      }
      var leave := Leave(nextId, reason, start, end, staffId);
      leaves := leaves + [leave];
      nextId := nextId + 1;
      r := Success(leave);
    }

    /**
     * `update(id, dto)`: write the supplied fields of one row. Refusals
     * leave the table as it was; on success exactly the row with that id
     * is replaced by the record `UpdateOutcome` describes.
     */
    method Update(directory: seq<StaffId>, id: LeaveId, p: LeavePatch) returns (r: Result<Leave, Error>)
      requires Valid()
      requires p.dateStart.Some? ==> ValidDate(p.dateStart.value)
      requires p.dateEnd.Some? ==> ValidDate(p.dateEnd.value)
      modifies this
      ensures Valid() && nextId == old(nextId)
      ensures r == UpdateOutcome(old(leaves), directory, id, p)
      ensures r.Failure? ==> leaves == old(leaves)
      ensures r.Success? ==> leaves == old(leaves)[Find(old(leaves), id).value := r.value]
    {
      var found := Find(leaves, id);
      if found.None? {
        return Failure(LeaveNotFound);
      }
      var i := found.value;
      if p.staffId.Some? && p.staffId.value != "" && p.staffId.value !in directory {
        return Failure(StaffNotFound);
      }
      var updateData := LeavePatch(None, None, None, None);
      if p.reason.Some? && p.reason.value != "" {
        updateData := updateData.(reason := p.reason);
      }
      if p.dateStart.Some? {
        updateData := updateData.(dateStart := p.dateStart);
      }
      if p.dateEnd.Some? {
        updateData := updateData.(dateEnd := p.dateEnd);
      }
      if p.staffId.Some? && p.staffId.value != "" {
        updateData := updateData.(staffId := p.staffId);
      }
      if updateData.dateStart.Some? && updateData.dateEnd.Some? {
        if DayIndex(updateData.dateStart.value) > DayIndex(updateData.dateEnd.value) {
          return Failure(InvalidRange);
        }
      }
      var updated := Patched(leaves[i], updateData);
      leaves := leaves[i := updated];
      r := Success(updated);
    }

    /**
     * `remove(id)`: delete the rows with that id; when none was affected,
     * throw NotFound (and the table is unchanged).
     */
    method Remove(id: LeaveId) returns (r: Outcome<Error>)
      requires Valid()
      modifies this
      ensures Valid() && nextId == old(nextId)
      ensures r.Fail? <==> Find(old(leaves), id).None?
      ensures r.Fail? ==> r.error == LeaveNotFound && leaves == old(leaves)
      ensures r.Pass? ==> leaves == Without(old(leaves), id)
    {
      var remaining := Without(leaves, id);
      var affected := |leaves| - |remaining|;
      RemoveKeepsTableInvariant(leaves, id, nextId);
      if affected == 0 {
        WithoutAbsent(leaves, id);
      }
      leaves := remaining;
      r := if affected == 0 then Fail(LeaveNotFound) else Pass;
    }
  }

  /** Deleting rows keeps ids unique and issued, and stored dates real. */
  lemma RemoveKeepsTableInvariant(t: seq<Leave>, id: LeaveId, nextId: nat)
    requires UniqueIds(t) && ValidDates(t) && forall k :: 0 <= k < |t| ==> t[k].id < nextId
    ensures var u := Without(t, id);
      UniqueIds(u) && ValidDates(u) && forall k :: 0 <= k < |u| ==> u[k].id < nextId
  {
    var u := Without(t, id);
    match Find(t, id)
    case None =>
      WithoutAbsent(t, id);
    case Some(i) =>
      RemoveIsSplice(t, id);
      assert |u| == |t| - 1;
      forall k | 0 <= k < |u| ensures u[k] == t[Skip(k, i)] {
        if k < i {
          assert u[k] == t[..i][k];
        } else {
          assert u[k] == t[i + 1..][k - i];
        }
      }
      forall a, b | 0 <= a < b < |u| ensures u[a].id != u[b].id {
        assert u[a] == t[Skip(a, i)] && u[b] == t[Skip(b, i)];
      }
  }

  /** Position in the table of position `k` of the table with row `i` removed. */
  function Skip(k: nat, i: nat): nat
  {
    if k < i then k else k + 1
  }

  function Reversed(s: seq<Leave>): (r: seq<Leave>)
    ensures |r| == |s|
    ensures forall k :: 0 <= k < |s| ==> r[k] == s[|s| - 1 - k]
  {
    if s == [] then [] else Reversed(s[1..]) + [s[0]]
  }
}
