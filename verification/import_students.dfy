/** The command-line student import: one upsert per usable sheet row and a count
    of inserted and updated records. The database is an oracle `answer` giving the
    result of the k-th statement the import executes. */
module ImportStudents {
  import opened JsValues
  import opened Seqs

  /** A sheet row as `sheet_to_json` builds it from the fixed header
      `SlNo, RegisterNumber, Name, AdmissionNumber`; an empty cell is `Undefined`. */
  datatype StudentRow = StudentRow(slNo: Value, registerNumber: Value, name: Value, admissionNumber: Value)

  /** The parameters of `INSERT ... ON DUPLICATE KEY UPDATE` for one row. */
  datatype Upsert = Upsert(registerNumber: Value, name: Value, admissionNumber: Value)

  function ToUpsert(row: StudentRow): Upsert {
    Upsert(row.registerNumber, row.name, row.admissionNumber)
  }

  /** Every parameter of the statement is present. */
  predicate Complete(u: Upsert) {
    Truthy(u.registerNumber) && Truthy(u.name) && Truthy(u.admissionNumber)
  }

  /** A row lacking any of the three columns is skipped with a warning. */
  predicate Skipped(row: StudentRow): (b: bool)
    ensures !b <==> Complete(ToUpsert(row))
  {
    !Truthy(row.registerNumber) || !Truthy(row.name) || !Truthy(row.admissionNumber)
  }

  /** The statements an error-free run executes, in sheet order. */
  function Upserts(rows: seq<StudentRow>): (u: seq<Upsert>)
    ensures |u| <= |rows|
  {
    if |rows| == 0 then []
    else
      var last := rows[|rows| - 1];
      Upserts(rows[..|rows| - 1]) + (if Skipped(last) then [] else [ToUpsert(last)])
  }

  predicate Usable(row: StudentRow) {
    !Skipped(row)
  }

  /** The k-th statement carries the values of the k-th usable row: the skipped rows
      are dropped and the others keep their sheet order. */
  lemma {:induction false} UpsertsAreUsableRowsInOrder(rows: seq<StudentRow>)
    ensures Upserts(rows) == Map(ToUpsert, Filter(Usable, rows))
  {
    if |rows| > 0 {
      var init, last := rows[..|rows| - 1], rows[|rows| - 1];
      assert rows == init + [last];
      UpsertsAreUsableRowsInOrder(init);
      FilterSnoc(Usable, init, last);
      MapConcat(ToUpsert, Filter(Usable, init), Opt(Usable(last), last));
      MapOpt(ToUpsert, Usable(last), last);
    }
  }

  /** No statement carries a missing value: skipped rows issue none. */
  lemma {:induction false} UpsertsAreComplete(rows: seq<StudentRow>)
    ensures forall k :: 0 <= k < |Upserts(rows)| ==> Complete(Upserts(rows)[k])
  {
    if |rows| > 0 {
      UpsertsAreComplete(rows[..|rows| - 1]);
    }
  }

  /** The statements issued for a prefix of the sheet begin the full list. */
  lemma {:induction false} UpsertsOfPrefix(rows: seq<StudentRow>, j: nat)
    requires j <= |rows|
    ensures Upserts(rows[..j]) <= Upserts(rows)
  {
    if j < |rows| {
      assert rows[..|rows| - 1][..j] == rows[..j];
      UpsertsOfPrefix(rows[..|rows| - 1], j);
    } else {
      assert rows[..j] == rows;
    }
  }

  /** Every usable row yields exactly one statement, in order. */
  lemma {:induction false} UpsertsCountUsableRows(rows: seq<StudentRow>)
    ensures |Upserts(rows)| == |rows| - SkippedCount(rows)
  {
    if |rows| > 0 {
      UpsertsCountUsableRows(rows[..|rows| - 1]);
    }
  }

  function SkippedCount(rows: seq<StudentRow>): (n: nat)
    ensures n <= |rows|
  {
    if |rows| == 0 then 0
    else SkippedCount(rows[..|rows| - 1]) + (if Skipped(rows[|rows| - 1]) then 1 else 0)
  }

  /** The `[result]` of `connection.execute`, or the exception it throws. */
  datatype ExecResult = Executed(affectedRows: nat, insertId: int) | DbError

  /** `recordsInserted` counts affecting statements with a positive `insertId`. */
  predicate CountsAsInserted(r: ExecResult) {
    r.Executed? && r.affectedRows > 0 && r.insertId > 0
  }

  /** `recordsUpdated` counts the other affecting statements. */
  predicate CountsAsUpdated(r: ExecResult) {
    r.Executed? && r.affectedRows > 0 && r.insertId <= 0
  }

  /** How many of the first `n` statements satisfy `p`. */
  function Count(p: ExecResult -> bool, answer: nat -> ExecResult, n: nat): (c: nat)
    ensures c <= n
  {
    if n == 0 then 0 else Count(p, answer, n - 1) + (if p(answer(n - 1)) then 1 else 0)
  }

  /** An affecting statement increments exactly one of the two counters. */
  lemma {:induction false} CountersPartitionAffecting(answer: nat -> ExecResult, n: nat)
    ensures Count(CountsAsInserted, answer, n) + Count(CountsAsUpdated, answer, n)
      == Count((r: ExecResult) => r.Executed? && r.affectedRows > 0, answer, n)
  {
    if n > 0 {
      CountersPartitionAffecting(answer, n - 1);
    }
  }

  /** The first `n` statements all ran without throwing. */
  predicate AllExecuted(answer: nat -> ExecResult, n: nat) {
    forall k :: 0 <= k < n ==> answer(k).Executed?
  }

  lemma UpsertsStep(rows: seq<StudentRow>, i: nat)
    requires i < |rows|
    ensures Upserts(rows[..i + 1]) ==
      Upserts(rows[..i]) + (if Skipped(rows[i]) then [] else [ToUpsert(rows[i])])
  {
    assert rows[..i + 1][..i] == rows[..i];
  }

  /** How `importData` ends: an early return on an empty sheet, the final counts,
      or an exception after the statements already executed. */
  datatype ImportOutcome =
    | NoStudents
    | Completed(inserted: nat, updated: nat, executed: seq<Upsert>)
    | Aborted(executed: seq<Upsert>)

  /** The loop of `importData` once the connection is open: `failed` when a
      statement threw, with `executed` the statements run up to and including it. */
  method ExecuteRows(rows: seq<StudentRow>, answer: nat -> ExecResult)
    returns (inserted: nat, updated: nat, executed: seq<Upsert>, failed: bool)
    ensures !failed ==>
      && executed == Upserts(rows)
      && AllExecuted(answer, |executed|)
      && inserted == Count(CountsAsInserted, answer, |executed|)
      && updated == Count(CountsAsUpdated, answer, |executed|)
    ensures failed ==>
      && 0 < |executed| && executed <= Upserts(rows)
      && answer(|executed| - 1) == DbError
      && AllExecuted(answer, |executed| - 1)
  {
    inserted, updated, executed, failed := 0, 0, [], false;
    var i := 0;
    while i < |rows|
      invariant 0 <= i <= |rows|
      invariant executed == Upserts(rows[..i])
      invariant AllExecuted(answer, |executed|)
      invariant inserted == Count(CountsAsInserted, answer, |executed|)
      invariant updated == Count(CountsAsUpdated, answer, |executed|)
    {
      UpsertsStep(rows, i);
      var row := rows[i];
      if !Skipped(row) {
        var n := |executed|;
        var result := answer(n);
        executed := executed + [ToUpsert(row)];
        assert |executed| == n + 1;
        if result.DbError? {
          UpsertsOfPrefix(rows, i + 1);
          failed := true;
          return;
        }
        if result.affectedRows > 0 {
          if result.insertId > 0 {
            inserted := inserted + 1;
          } else {
            updated := updated + 1;
          }
        }
      }
      i := i + 1;
    }
    assert rows[..i] == rows;
  }

  /** `importData` over the rows of the sheet. */
  method ImportData(rows: seq<StudentRow>, answer: nat -> ExecResult) returns (outcome: ImportOutcome)
    ensures outcome == NoStudents <==> |rows| == 0
    ensures outcome.Completed? <==>
      |rows| > 0 && forall k :: 0 <= k < |Upserts(rows)| ==> answer(k).Executed?
    ensures outcome.Completed? ==>
      && outcome.executed == Upserts(rows)
      && outcome.inserted == Count(CountsAsInserted, answer, |Upserts(rows)|)
      && outcome.updated == Count(CountsAsUpdated, answer, |Upserts(rows)|)
      && outcome.inserted + outcome.updated <= |Upserts(rows)|
    ensures outcome.Aborted? ==>
      && 0 < |outcome.executed| && outcome.executed <= Upserts(rows)
      && answer(|outcome.executed| - 1) == DbError
      && forall k :: 0 <= k < |outcome.executed| - 1 ==> answer(k).Executed?
  {
    if |rows| == 0 {
      return NoStudents;
    }
    var inserted, updated, executed, failed := ExecuteRows(rows, answer);
    if failed {
      assert executed[|executed| - 1] == Upserts(rows)[|executed| - 1];
      return Aborted(executed);
    }
    CountersPartitionAffecting(answer, |executed|);
    return Completed(inserted, updated, executed);
  }
}
