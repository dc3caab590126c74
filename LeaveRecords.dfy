/**
 * The leave table and the lookups the leave service runs against it: the
 * record shape, the errors the service throws, lookup and deletion by id,
 * the staff-to-leaves relation and the partial-update patch.
 */
module LeaveRecords {
  import opened Wrappers
  import opened Calendar

  /** Staff primary keys are opaque uuid strings. */
  type StaffId = string

  /** Leave primary keys; the database generates a fresh one per insert. */
  type LeaveId = nat

  /** One row of the `leaves` table (timestamps are not modelled). */
  datatype Leave = Leave(id: LeaveId, reason: string, dateStart: Date, dateEnd: Date, staffId: StaffId)

  /** The exceptions the leave service throws, by kind. */
  datatype Error =
    | StaffNotFound                                             // NotFoundException('Staff not found')
    | LeaveNotFound                                             // NotFoundException('Leave not found')
    | InvalidRange                                              // BadRequestException: start after end
    | AnnualLimitExceeded(used: int, requested: int, limit: int) // BadRequestException: annual limit
    | MonthlyLimitExceeded(year: nat, month: int)               // BadRequestException: one per month

  predicate UniqueIds(t: seq<Leave>)
  {
    forall i, j :: 0 <= i < j < |t| ==> t[i].id != t[j].id
  }

  /** `findOne({ where: { id } })`: the position of the first record with that id, if any. */
  function Find(t: seq<Leave>, id: LeaveId): (r: Option<nat>)
    ensures r.Some? ==> r.value < |t| && t[r.value].id == id
                        && forall k :: 0 <= k < r.value ==> t[k].id != id
    ensures r.None? <==> forall k :: 0 <= k < |t| ==> t[k].id != id
  {
    if t == [] then None
    else if t[0].id == id then Some(0)
    else match Find(t[1..], id)
      case None => None
      case Some(j) => Some(j + 1)
  }

  /** `delete(id)`: the table without the rows whose id is `id`. */
  function Without(t: seq<Leave>, id: LeaveId): (r: seq<Leave>)
    ensures |r| <= |t|
    ensures forall k :: 0 <= k < |r| ==> r[k].id != id
    ensures |r| == |t| <==> forall k :: 0 <= k < |t| ==> t[k].id != id
  {
    if t == [] then []
    else
      var rest := Without(t[1..], id);
      assert forall k :: 1 <= k < |t| ==> t[k] == t[1..][k - 1];
      if t[0].id == id then rest
      else
        var r := [t[0]] + rest;
        assert forall k :: 0 <= k < |rest| ==> r[k + 1] == rest[k];
        r
  }

  lemma {:induction false} WithoutAbsent(t: seq<Leave>, id: LeaveId)
    requires forall k :: 0 <= k < |t| ==> t[k].id != id
    ensures Without(t, id) == t
  {
    if t != [] {
      WithoutAbsent(t[1..], id);
    }
  }

  lemma UniqueIdsTail(t: seq<Leave>)
    requires UniqueIds(t) && t != []
    ensures UniqueIds(t[1..])
    ensures forall k :: 0 <= k < |t[1..]| ==> t[1..][k].id != t[0].id
  {
    forall a, b | 0 <= a < b < |t[1..]| ensures t[1..][a].id != t[1..][b].id {
      assert t[1..][a] == t[a + 1] && t[1..][b] == t[b + 1];
    }
    forall k | 0 <= k < |t[1..]| ensures t[1..][k].id != t[0].id {
      assert t[1..][k] == t[k + 1];
    }
  }

  /**
   * With unique ids, deleting a present id removes exactly that one record
   * and keeps every other record in its place and order.
   */
  lemma {:induction false} RemoveIsSplice(t: seq<Leave>, id: LeaveId)
    requires UniqueIds(t)
    requires Find(t, id).Some?
    ensures var i := Find(t, id).value; Without(t, id) == t[..i] + t[i + 1..]
  {
    var i := Find(t, id).value;
    var u := t[1..];
    UniqueIdsTail(t);
    if i == 0 {
      WithoutAbsent(u, id);
      assert Without(t, id) == u;
    } else {
      assert Find(u, id) == Some(i - 1);
      RemoveIsSplice(u, id);
      assert Without(t, id) == [t[0]] + Without(u, id);
      assert t[..i] == [t[0]] + u[..i - 1];
      assert t[i + 1..] == u[i..];
    }
  }

  /** The `leaves` relation of one staff member: the table's rows with that staff id, in table order. */
  function LeavesOf(t: seq<Leave>, s: StaffId): (r: seq<Leave>)
    ensures forall k :: 0 <= k < |r| ==> r[k].staffId == s
    ensures |r| > 0 <==> exists k :: 0 <= k < |t| && t[k].staffId == s
  {
    if t == [] then []
    else
      var rest := LeavesOf(t[1..], s);
      assert forall k :: 1 <= k < |t| ==> t[k] == t[1..][k - 1];
      if t[0].staffId == s then
        var r := [t[0]] + rest;
        assert forall k :: 0 <= k < |rest| ==> r[k + 1] == rest[k];
        r
      else rest
  }

  /** The joined leaves are exactly the table's rows for that staff member. */
  lemma {:induction false} LeavesOfExact(t: seq<Leave>, s: StaffId)
    ensures forall x :: x in LeavesOf(t, s) <==> x in t && x.staffId == s
  {
    if t != [] {
      LeavesOfExact(t[1..], s);
      assert t == [t[0]] + t[1..];
    }
  }

  /** A staff member together with the leaves joined to it. */
  datatype StaffLeaves = StaffLeaves(staff: StaffId, leaves: seq<Leave>)

  /** The directory entry for `s` if `s` has at least one leave, else nothing. */
  function EntryIfOnLeave(s: StaffId, t: seq<Leave>): seq<StaffLeaves>
  {
    if |LeavesOf(t, s)| > 0 then [StaffLeaves(s, LeavesOf(t, s))] else []
  }

  /**
   * `findStaffOnLeave`: every staff member of the directory, in directory
   * order, joined with their leaves, keeping only those with at least one.
   */
  function StaffWithLeaves(directory: seq<StaffId>, t: seq<Leave>): (r: seq<StaffLeaves>)
    ensures |r| <= |directory|
    ensures t == [] ==> r == []
  {
    if directory == [] then []
    else EntryIfOnLeave(directory[0], t) + StaffWithLeaves(directory[1..], t)
  }

  /**
   * The result lists only directory members with a non-empty leave list
   * (joined with exactly their leaves), and every such member appears.
   */
  lemma {:induction false} StaffWithLeavesSpec(directory: seq<StaffId>, t: seq<Leave>)
    ensures var r := StaffWithLeaves(directory, t);
      && |r| <= |directory|
      && (forall k :: 0 <= k < |r| ==>
            r[k].staff in directory && r[k].leaves == LeavesOf(t, r[k].staff) && |r[k].leaves| > 0)
      && (forall s :: s in directory && |LeavesOf(t, s)| > 0 ==>
            exists k :: 0 <= k < |r| && r[k].staff == s)
  {
    if directory != [] {
      var d := directory[0];
      var e := EntryIfOnLeave(d, t);
      var rest := StaffWithLeaves(directory[1..], t);
      StaffWithLeavesSpec(directory[1..], t);
      var r := e + rest;
      assert StaffWithLeaves(directory, t) == r;
      forall k | 0 <= k < |r|
        ensures r[k].staff in directory && r[k].leaves == LeavesOf(t, r[k].staff) && |r[k].leaves| > 0
      {
        if k >= |e| {
          assert r[k] == rest[k - |e|];
        }
      }
      forall s | s in directory && |LeavesOf(t, s)| > 0
        ensures exists k :: 0 <= k < |r| && r[k].staff == s
      {
        if s == d {
          assert r[0].staff == s;
        } else {
          assert s in directory[1..];
          var k :| 0 <= k < |rest| && rest[k].staff == s;
          assert r[k + |e|] == rest[k];
        }
      }
    }
  }

  /** Filtering the directory commutes with splitting it: the order of the directory is kept. */
  lemma {:induction false} StaffWithLeavesConcat(d1: seq<StaffId>, d2: seq<StaffId>, t: seq<Leave>)
    ensures StaffWithLeaves(d1 + d2, t) == StaffWithLeaves(d1, t) + StaffWithLeaves(d2, t)
  {
    if d1 == [] {
      assert d1 + d2 == d2;
    } else {
      assert (d1 + d2)[1..] == d1[1..] + d2;
      assert (d1 + d2)[0] == d1[0];
      StaffWithLeavesConcat(d1[1..], d2, t);
    }
  }

  /** The fields of an `UpdateLeaveDto`; each may be absent. */
  datatype LeavePatch = LeavePatch(
    reason: Option<string>,
    dateStart: Option<Date>,
    dateEnd: Option<Date>,
    staffId: Option<StaffId>)

  /** JavaScript truthiness of an optional string: present and not empty. */
  predicate Supplied(f: Option<string>)
  {
    f.Some? && f.value != ""
  }

  /** The record after `repository.update(id, updateData)` writes the supplied fields. */
  function Patched(rec: Leave, p: LeavePatch): (r: Leave)
    ensures r.id == rec.id
    ensures p == LeavePatch(None, None, None, None) ==> r == rec
    ensures Supplied(p.reason) && p.dateStart.Some? && p.dateEnd.Some? && Supplied(p.staffId) ==>
              r == Leave(rec.id, p.reason.value, p.dateStart.value, p.dateEnd.value, p.staffId.value)
  {
    Leave(rec.id,
          if Supplied(p.reason) then p.reason.value else rec.reason,
          if p.dateStart.Some? then p.dateStart.value else rec.dateStart,
          if p.dateEnd.Some? then p.dateEnd.value else rec.dateEnd,
          if Supplied(p.staffId) then p.staffId.value else rec.staffId)
  }

  /**
   * What `update(id, dto)` decides: the leave must exist, a supplied staff id
   * must exist, and the range is checked only when both dates are supplied.
   * No quota or monthly rule is consulted.
   */
  function UpdateOutcome(t: seq<Leave>, directory: seq<StaffId>, id: LeaveId, p: LeavePatch): (r: Result<Leave, Error>)
    ensures r.Success? ==> r.value.id == id && exists k :: 0 <= k < |t| && t[k].id == id
    ensures r.Failure? ==> r.error == LeaveNotFound || r.error == StaffNotFound || r.error == InvalidRange
  {
    match Find(t, id)
    case None => Failure(LeaveNotFound)
    case Some(i) =>
      if Supplied(p.staffId) && p.staffId.value !in directory then Failure(StaffNotFound)
      else if p.dateStart.Some? && p.dateEnd.Some? && DayIndex(p.dateStart.value) > DayIndex(p.dateEnd.value)
      then Failure(InvalidRange)
      else Success(Patched(t[i], p))
  }

  /**
   * The errors of `update`, in the order the code raises them, and on success
   * the record it writes: same id, each supplied field replaced, every other
   * field as stored. Once the row and the staff id are found, the only
   * refusal left is two supplied dates in the wrong order: nothing else
   * (no quota, no monthly rule) can refuse the update.
   */
  lemma UpdateOutcomeSpec(t: seq<Leave>, directory: seq<StaffId>, id: LeaveId, p: LeavePatch)
    ensures var r := UpdateOutcome(t, directory, id, p);
      && ((forall k :: 0 <= k < |t| ==> t[k].id != id) ==> r == Failure(LeaveNotFound))
      && (((exists k :: 0 <= k < |t| && t[k].id == id) && Supplied(p.staffId) && p.staffId.value !in directory)
            ==> r == Failure(StaffNotFound))
      && (r == Failure(InvalidRange) ==> p.dateStart.Some? && p.dateEnd.Some?)
      && (((exists k :: 0 <= k < |t| && t[k].id == id) && !(Supplied(p.staffId) && p.staffId.value !in directory))
            ==> if p.dateStart.Some? && p.dateEnd.Some? && DayIndex(p.dateStart.value) > DayIndex(p.dateEnd.value)
                then r == Failure(InvalidRange)
                else r.Success?)
      && (r.Success? ==>
            var old_ := t[Find(t, id).value];
            && r.value.id == id
            && r.value.reason == (if Supplied(p.reason) then p.reason.value else old_.reason)
            && r.value.dateStart == (if p.dateStart.Some? then p.dateStart.value else old_.dateStart)
            && r.value.dateEnd == (if p.dateEnd.Some? then p.dateEnd.value else old_.dateEnd)
            && r.value.staffId == (if Supplied(p.staffId) then p.staffId.value else old_.staffId))
  {
  }
}
