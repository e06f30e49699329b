/** The visit session tracker of the gate server: the `/student-status` check and
    the two `/punch` handlers, over the `visits` table seen as a sequence of rows.
    Every handler is a pure function from the table (and the request) to the new
    table and the flash message the handler leaves for the user. */
module Visits {
  import opened Common

  /** A reading of the database clock: a timestamp in seconds, and the calendar
      fields `YEAR()`, `MONTH()` and `DAY()` extract from it. */
  datatype Instant = Instant(seconds: int, year: int, month: int, day: int)

  /** One row of `visits`; `punchOut == None` is a NULL `punch_out_time`, an open visit. */
  datatype Visit = Visit(id: nat, studentId: string, purpose: string, punchIn: Instant, punchOut: Option<Instant>)

  /** The `visits` table in insertion order. */
  type Store = seq<Visit>

  /** The row matches `student_id = ? AND punch_out_time IS NULL`. */
  predicate IsOpenFor(v: Visit, sid: string) {
    v.studentId == sid && v.punchOut.None?
  }

  ghost predicate HasOpenVisit(store: Store, sid: string) {
    exists i :: 0 <= i < |store| && IsOpenFor(store[i], sid)
  }

  /** The consistency invariant of the tracker: no student has two open visits. */
  ghost predicate AtMostOneOpen(store: Store) {
    forall i, j :: 0 <= i < j < |store| && store[i].punchOut.None? && store[j].punchOut.None? ==>
      store[i].studentId != store[j].studentId
  }

  /** `id` is an AUTO_INCREMENT key: the ids are 1, 2, ... as long as no row has
      been deleted (deleting a student cascades to their visits) and no insert has
      failed or been rolled back (a failed insert still uses up its id). */
  ghost predicate IdsSequential(store: Store) {
    forall i :: 0 <= i < |store| ==> store[i].id == i + 1
  }

  /** The ids `SELECT id FROM visits WHERE student_id = ? AND punch_out_time IS NULL`
      returns; the `UPDATE` of a punch-out matches the same rows. */
  function OpenVisitIds(store: Store, sid: string): (ids: seq<nat>)
    ensures |ids| <= |store|
    ensures |ids| == 0 <==> !HasOpenVisit(store, sid)
    ensures forall i :: 0 <= i < |store| && IsOpenFor(store[i], sid) ==> store[i].id in ids
    ensures forall k :: 0 <= k < |ids| ==>
      exists i :: 0 <= i < |store| && IsOpenFor(store[i], sid) && store[i].id == ids[k]
  {
    if |store| == 0 then []
    else
      var rest := OpenVisitIds(store[1..], sid);
      assert forall i :: 1 <= i < |store| ==> store[i] == store[1..][i - 1];
      var head := if IsOpenFor(store[0], sid) then [store[0].id] else [];
      var ids := head + rest;
      assert forall k :: |head| <= k < |ids| ==> ids[k] == rest[k - |head|];
      ids
  }

  /** The positions of the rows `student_id = ? AND punch_out_time IS NULL` matches. */
  ghost function OpenRows(store: Store, sid: string): set<int> {
    set i | 0 <= i < |store| && IsOpenFor(store[i], sid)
  }

  /** A row appended to the table adds its id at the end of the query's result. */
  lemma {:induction false} OpenVisitIdsSnoc(store: Store, v: Visit, sid: string)
    ensures OpenVisitIds(store + [v], sid) ==
      OpenVisitIds(store, sid) + (if IsOpenFor(v, sid) then [v.id] else [])
  {
    if |store| == 0 {
      assert store + [v] == [v];
      assert [v][1..] == [];
    } else {
      assert (store + [v])[1..] == store[1..] + [v];
      OpenVisitIdsSnoc(store[1..], v, sid);
    }
  }

  /** The query returns one id per matching row, so a punch-out's `affectedRows`
      is the number of rows it closes. */
  lemma OpenRowsOfLast(store: Store, sid: string)
    requires |store| > 0
    ensures var n := |store| - 1;
      OpenRows(store, sid) == OpenRows(store[..n], sid) + (if IsOpenFor(store[n], sid) then {n} else {})
  {
    assert forall i :: 0 <= i < |store| - 1 ==> store[..|store| - 1][i] == store[i];
  }

  lemma OpenVisitIdsOfLast(store: Store, sid: string)
    requires |store| > 0
    ensures var n := |store| - 1;
      |OpenVisitIds(store, sid)| == |OpenVisitIds(store[..n], sid)| + (if IsOpenFor(store[n], sid) then 1 else 0)
  {
    var n := |store| - 1;
    assert store == store[..n] + [store[n]];
    OpenVisitIdsSnoc(store[..n], store[n], sid);
  }

  lemma {:induction false} OpenVisitIdsCountsOpenRows(store: Store, sid: string)
    ensures |OpenVisitIds(store, sid)| == |OpenRows(store, sid)|
  {
    if |store| > 0 {
      var n := |store| - 1;
      OpenVisitIdsCountsOpenRows(store[..n], sid);
      OpenVisitIdsOfLast(store, sid);
      OpenRowsOfLast(store, sid);
      assert n !in OpenRows(store[..n], sid);
    }
  }

  /** The reply of `/student-status`. */
  datatype StatusReply = EmptyStudentId | Status(studentId: string, isPunchedIn: bool)

  /** `/student-status`: an empty id is refused before the table is queried;
      otherwise the student is IN exactly when an open visit of theirs exists. */
  function StudentStatus(store: Store, sid: string): (r: StatusReply)
    ensures r.EmptyStudentId? <==> sid == ""
    ensures r.Status? ==> r.studentId == sid && (r.isPunchedIn <==> HasOpenVisit(store, sid))
  {
    if sid == "" then EmptyStudentId
    else Status(sid, |OpenVisitIds(store, sid)| > 0)
  }

  /** The flash message a `/punch` handler leaves before redirecting. */
  datatype Flash =
    | PunchedIn(studentId: string)
    | AlreadyPunchedIn(studentId: string)
    | PunchedOut(studentId: string)
    | NoOpenSession(studentId: string)
    | NoFlash

  datatype PunchResult = PunchResult(store: Store, flash: Flash)

  /** The largest id in the table, 0 for an empty table. */
  function MaxId(store: Store): (m: nat)
    ensures forall i :: 0 <= i < |store| ==> store[i].id <= m
    ensures |store| > 0 ==> exists i :: 0 <= i < |store| && store[i].id == m
    ensures |store| == 0 ==> m == 0
  {
    if |store| == 0 then 0
    else
      var last := store[|store| - 1].id;
      var m := MaxId(store[..|store| - 1]);
      assert forall i :: 0 <= i < |store| - 1 ==> store[..|store| - 1][i] == store[i];
      if last > m then last else m
  }

  /** While the ids are 1, 2, ..., the largest id is the number of rows. */
  lemma SequentialMaxId(store: Store)
    ensures IdsSequential(store) ==> MaxId(store) == |store|
  {
    if IdsSequential(store) && |store| > 0 {
      assert store[|store| - 1].id == |store|;
    }
  }

  /** The row `INSERT INTO visits (student_id, purpose)` adds at time `now`; its
      AUTO_INCREMENT id is larger than every id in the table. */
  function NewVisit(store: Store, sid: string, purpose: string, now: Instant): (v: Visit)
    ensures forall i :: 0 <= i < |store| ==> store[i].id < v.id
    ensures IdsSequential(store) ==> v.id == |store| + 1
    ensures v.studentId == sid && v.purpose == purpose && v.punchIn == now && v.punchOut == None
  {
    SequentialMaxId(store);
    Visit(MaxId(store) + 1, sid, purpose, now, None)
  }

  /** Punch-in of the first `/punch` handler: an unconditional insert. */
  function PunchInUnguarded(store: Store, sid: string, purpose: string, now: Instant): (r: PunchResult)
    ensures r.flash == PunchedIn(sid)
    ensures |r.store| == |store| + 1 && r.store[..|store|] == store
    ensures r.store[|store|].studentId == sid && r.store[|store|].purpose == purpose
    ensures r.store[|store|].punchIn == now && r.store[|store|].punchOut == None
    ensures forall i :: 0 <= i < |store| ==> store[i].id != r.store[|store|].id
    ensures IdsSequential(store) ==> IdsSequential(r.store)
  {
    PunchResult(store + [NewVisit(store, sid, purpose, now)], PunchedIn(sid))
  }

  /** Punch-in of the second `/punch` handler: check for an open visit, then insert. */
  function PunchInGuarded(store: Store, sid: string, purpose: string, now: Instant): (r: PunchResult)
    ensures HasOpenVisit(store, sid) ==> r == PunchResult(store, AlreadyPunchedIn(sid))
    ensures !HasOpenVisit(store, sid) ==> r == PunchInUnguarded(store, sid, purpose, now)
  {
    if |OpenVisitIds(store, sid)| > 0 then PunchResult(store, AlreadyPunchedIn(sid))
    else PunchInUnguarded(store, sid, purpose, now)
  }

  /** `SET punch_out_time = NOW()` on one row: an open visit of `sid` is closed at
      `now`, any other row is left as it is, and the row is then not open for `sid`. */
  function Close(v: Visit, sid: string, now: Instant): (r: Visit)
    ensures !IsOpenFor(r, sid)
    ensures r.id == v.id && r.studentId == v.studentId && r.purpose == v.purpose && r.punchIn == v.punchIn
    ensures IsOpenFor(v, sid) ==> r.punchOut == Some(now)
    ensures !IsOpenFor(v, sid) ==> r == v
  {
    if IsOpenFor(v, sid) then v.(punchOut := Some(now)) else v
  }

  /** Punch-out: `UPDATE visits SET punch_out_time = NOW() WHERE student_id = ? AND
      punch_out_time IS NULL`, with no LIMIT, then an error when no row was affected. */
  function PunchOut(store: Store, sid: string, now: Instant): (r: PunchResult)
    ensures |r.store| == |store|
    ensures forall i :: 0 <= i < |store| && IsOpenFor(store[i], sid) ==>
      r.store[i] == store[i].(punchOut := Some(now))
    ensures forall i :: 0 <= i < |store| && !IsOpenFor(store[i], sid) ==> r.store[i] == store[i]
    ensures !HasOpenVisit(r.store, sid)
    ensures r.flash == if HasOpenVisit(store, sid) then PunchedOut(sid) else NoOpenSession(sid)
    ensures !HasOpenVisit(store, sid) ==> r.store == store
  {
    var updated := seq(|store|, i requires 0 <= i < |store| => Close(store[i], sid, now));
    var affectedRows := |OpenVisitIds(store, sid)|;
    PunchResult(updated, if affectedRows == 0 then NoOpenSession(sid) else PunchedOut(sid))
  }

  /** The form fields of a `/punch` request. */
  datatype PunchRequest = PunchRequest(studentId: string, purpose: string, action: string)

  /** The `/punch` handler registered first (the one Express dispatches to). */
  function HandlePunchAsRegistered(store: Store, req: PunchRequest, now: Instant): (r: PunchResult)
    ensures req.action == "punch_in" ==> |r.store| == |store| + 1 && HasOpenVisit(r.store, req.studentId)
    ensures req.action == "punch_out" ==> !HasOpenVisit(r.store, req.studentId)
    ensures req.action != "punch_in" && req.action != "punch_out" ==> r == PunchResult(store, NoFlash)
    ensures IdsSequential(store) ==> IdsSequential(r.store)
  {
    if req.action == "punch_in" then
      var r := PunchInUnguarded(store, req.studentId, req.purpose, now);
      assert IsOpenFor(r.store[|store|], req.studentId);
      r
    else if req.action == "punch_out" then PunchOut(store, req.studentId, now)
    else PunchResult(store, NoFlash)
  }

  /** The guarded `/punch` handler registered second; it keeps the invariant. */
  function HandlePunch(store: Store, req: PunchRequest, now: Instant): (r: PunchResult)
    ensures req.action == "punch_in" ==> HasOpenVisit(r.store, req.studentId)
    ensures req.action == "punch_in" && HasOpenVisit(store, req.studentId) ==> r.store == store
    ensures req.action == "punch_in" && !HasOpenVisit(store, req.studentId) ==>
      |r.store| == |store| + 1 && r.store[..|store|] == store
    ensures req.action == "punch_out" ==> !HasOpenVisit(r.store, req.studentId)
    ensures req.action != "punch_in" && req.action != "punch_out" ==> r == PunchResult(store, NoFlash)
    ensures AtMostOneOpen(store) ==> AtMostOneOpen(r.store)
    ensures IdsSequential(store) ==> IdsSequential(r.store)
  {
    if req.action == "punch_in" then
      GuardedPunchInKeepsInvariant(store, req.studentId, req.purpose, now);
      var r := PunchInGuarded(store, req.studentId, req.purpose, now);
      assert HasOpenVisit(store, req.studentId) ==> HasOpenVisit(r.store, req.studentId);
      assert !HasOpenVisit(store, req.studentId) ==> IsOpenFor(r.store[|store|], req.studentId);
      r
    else if req.action == "punch_out" then
      PunchOutKeepsInvariant(store, req.studentId, now);
      PunchOut(store, req.studentId, now)
    else PunchResult(store, NoFlash)
  }

  /** Guarded punch-in keeps at most one open visit per student. */
  lemma GuardedPunchInKeepsInvariant(store: Store, sid: string, purpose: string, now: Instant)
    ensures AtMostOneOpen(store) ==> AtMostOneOpen(PunchInGuarded(store, sid, purpose, now).store)
    ensures IdsSequential(store) ==> IdsSequential(PunchInGuarded(store, sid, purpose, now).store)
  {
    if AtMostOneOpen(store) && !HasOpenVisit(store, sid) {
      var s' := PunchInGuarded(store, sid, purpose, now).store;
      forall i, j | 0 <= i < j < |s'| && s'[i].punchOut.None? && s'[j].punchOut.None?
        ensures s'[i].studentId != s'[j].studentId
      {
        if j == |store| {
          assert !IsOpenFor(store[i], sid);
        }
      }
    }
  }

  /** Unguarded punch-in of a student who is already IN leaves two open visits. */
  lemma UnguardedPunchInBreaksInvariant(store: Store, sid: string, purpose: string, now: Instant)
    requires HasOpenVisit(store, sid)
    ensures !AtMostOneOpen(PunchInUnguarded(store, sid, purpose, now).store)
  {
    var i :| 0 <= i < |store| && IsOpenFor(store[i], sid);
    var s' := PunchInUnguarded(store, sid, purpose, now).store;
    assert s'[i] == store[i];
    assert s'[i].punchOut.None? && s'[|store|].punchOut.None? && s'[i].studentId == s'[|store|].studentId;
  }

  /** Punch-out only closes visits, so it keeps the invariant. */
  lemma PunchOutKeepsInvariant(store: Store, sid: string, now: Instant)
    ensures AtMostOneOpen(store) ==> AtMostOneOpen(PunchOut(store, sid, now).store)
    ensures IdsSequential(store) ==> IdsSequential(PunchOut(store, sid, now).store)
  {
    var s' := PunchOut(store, sid, now).store;
    forall i, j | AtMostOneOpen(store) && 0 <= i < j < |s'| && s'[i].punchOut.None? && s'[j].punchOut.None?
      ensures s'[i].studentId != s'[j].studentId
    {
      assert s'[i] == store[i] && s'[j] == store[j];
    }
  }

  /** Under the invariant a punch-out affects exactly one row when the student is
      IN, although the `UPDATE` itself has no LIMIT. */
  lemma {:induction false} PunchOutAffectsOneRow(store: Store, sid: string)
    requires AtMostOneOpen(store)
    ensures |OpenVisitIds(store, sid)| == if HasOpenVisit(store, sid) then 1 else 0
  {
    if |store| > 0 {
      var rest := store[1..];
      assert AtMostOneOpen(rest) by {
        forall i, j | 0 <= i < j < |rest| && rest[i].punchOut.None? && rest[j].punchOut.None?
          ensures rest[i].studentId != rest[j].studentId
        {
          assert rest[i] == store[i + 1] && rest[j] == store[j + 1];
        }
      }
      PunchOutAffectsOneRow(rest, sid);
      if IsOpenFor(store[0], sid) {
        assert !HasOpenVisit(rest, sid) by {
          forall k | 0 <= k < |rest| ensures !IsOpenFor(rest[k], sid) {
            assert rest[k] == store[k + 1];
          }
        }
      } else {
        assert HasOpenVisit(store, sid) ==> HasOpenVisit(rest, sid) by {
          if HasOpenVisit(store, sid) {
            var k :| 0 <= k < |store| && IsOpenFor(store[k], sid);
            assert rest[k - 1] == store[k];
          }
        }
      }
    }
  }

  /** A second consecutive punch-out always reports that no session is open and
      changes nothing. */
  lemma SecondPunchOutFails(store: Store, sid: string, t1: Instant, t2: Instant)
    ensures var s1 := PunchOut(store, sid, t1).store;
      PunchOut(s1, sid, t2) == PunchResult(s1, NoOpenSession(sid))
  {
  }

  /** Punching in and then out takes the status from IN to OUT. */
  lemma SessionRoundTrip(store: Store, sid: string, purpose: string, t1: Instant, t2: Instant)
    requires sid != ""
    ensures var s1 := HandlePunch(store, PunchRequest(sid, purpose, "punch_in"), t1).store;
      && StudentStatus(s1, sid) == Status(sid, true)
      && var s2 := HandlePunch(s1, PunchRequest(sid, purpose, "punch_out"), t2).store;
      StudentStatus(s2, sid) == Status(sid, false)
  {
  }
}
