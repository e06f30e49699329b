/** The two spreadsheet uploads of the student details page: the row checks and
    mapping of a new-student upload, and the row selection of a register-number
    update. Rows are what `sheet_to_json` returns for the first sheet. */
module StudentDetails {
  import opened Common
  import opened Text
  import opened Seqs
  import opened JsValues

  /** `row[key] || row[alternative]`: a column read under either of its two headers. */
  function EitherColumn(row: Row, key: string, alternative: string): (v: Value)
    ensures Truthy(Get(row, key)) ==> v == Get(row, key)
    ensures !Truthy(Get(row, key)) ==> v == Get(row, alternative)
  {
    Or(Get(row, key), Get(row, alternative))
  }

  function RegisterNumberOf(row: Row): Value {
    EitherColumn(row, "RegisterNumber", "Register Number")
  }

  function AdmissionNumberOf(row: Row): Value {
    EitherColumn(row, "AdmissionNumber", "Admission Number")
  }

  /** The object sent for one student of a new-student upload. */
  datatype NewStudent = NewStudent(registerNumber: Value, name: Value, admissionNumber: Value, department: Value)

  predicate HasRequiredFields(row: Row) {
    Truthy(Get(row, "Name")) && Truthy(AdmissionNumberOf(row)) && Truthy(Get(row, "Department"))
  }

  /** One row as uploaded: a missing register number is sent as `null`. */
  function ToNewStudent(row: Row): (s: NewStudent)
    ensures Truthy(s.registerNumber) <==>
      Truthy(Get(row, "RegisterNumber")) || Truthy(Get(row, "Register Number"))
    ensures Truthy(s.registerNumber) ==> s.registerNumber == RegisterNumberOf(row)
    ensures !Truthy(s.registerNumber) ==> s.registerNumber == Null
    ensures s.name == Get(row, "Name") && s.department == Get(row, "Department")
    ensures s.admissionNumber == AdmissionNumberOf(row)
  {
    NewStudent(Or(RegisterNumberOf(row), Null), Get(row, "Name"), AdmissionNumberOf(row), Get(row, "Department"))
  }

  /** The error thrown for a row without a required field; the number is the
      row's position among the parsed rows plus 2, which is its sheet row when the
      header is row 1 and no blank row precedes it. */
  datatype UploadError = MissingRequiredFields(reportedRow: nat)

  /** `excelData.map(...)` over `rows`, whose first element has index `first`:
      every row mapped in order, or the error of the first incomplete row. */
  function MapRows(rows: seq<Row>, first: nat): (r: Result<seq<NewStudent>, UploadError>)
    ensures r.Success? <==> forall i :: 0 <= i < |rows| ==> HasRequiredFields(rows[i])
    ensures r.Success? ==>
      |r.value| == |rows| && forall i :: 0 <= i < |rows| ==> r.value[i] == ToNewStudent(rows[i])
    ensures r.Failure? ==> exists k ::
      && 0 <= k < |rows| && !HasRequiredFields(rows[k])
      && (forall i :: 0 <= i < k ==> HasRequiredFields(rows[i]))
      && r.error == MissingRequiredFields(first + k + 2)
    decreases |rows|
  {
    if |rows| == 0 then Success([])
    else if !HasRequiredFields(rows[0]) then Failure(MissingRequiredFields(first + 2))
    else
      var rest := MapRows(rows[1..], first + 1);
      assert forall i :: 1 <= i < |rows| ==> rows[i] == rows[1..][i - 1];
      match rest
      case Success(students) => Success([ToNewStudent(rows[0])] + students)
      case Failure(e) =>
        var k :| 0 <= k < |rows[1..]| && !HasRequiredFields(rows[1..][k])
          && (forall i :: 0 <= i < k ==> HasRequiredFields(rows[1..][i]))
          && e == MissingRequiredFields(first + 1 + k + 2);
        assert rows[k + 1] == rows[1..][k];
        assert forall i :: 0 <= i < k + 1 ==> HasRequiredFields(rows[i]) by {
          forall i | 0 <= i < k + 1 ensures HasRequiredFields(rows[i]) {
            if i > 0 {
              assert rows[i] == rows[1..][i - 1];
            }
          }
        }
        Failure(e)
  }

  const RowPrefix := "Missing required fields in row "
  const RequiredList := ":" + " Name, Admission Number, and Department are required"

  /** The number that follows the fixed prefix reads back as the reported row. */
  function ErrorMessage(e: UploadError): (m: string)
    ensures |RowPrefix| < |m| && m[..|RowPrefix|] == RowPrefix
    ensures LeadingValue(m[|RowPrefix|..]) == e.reportedRow
    ensures |RequiredList| < |m| && m[|m| - |RequiredList|..] == RequiredList
  {
    var numeral := NatToString(e.reportedRow);
    var m := RowPrefix + numeral + RequiredList;
    assert m[|RowPrefix|..] == numeral + RequiredList;
    assert RequiredList[0] == ':';
    LeadingNumeral(e.reportedRow, RequiredList);
    m
  }

  /** What `handleNewStudentsUpload` does: post the mapped students, or show the
      error without sending anything. */
  datatype UploadAction = SendStudents(students: seq<NewStudent>) | ShowError(message: string)

  function HandleNewStudentsUpload(rows: seq<Row>): (a: UploadAction)
    ensures a.SendStudents? <==> forall i :: 0 <= i < |rows| ==> HasRequiredFields(rows[i])
    ensures a.SendStudents? ==>
      |a.students| == |rows| && forall i :: 0 <= i < |rows| ==> a.students[i] == ToNewStudent(rows[i])
    ensures a.ShowError? ==> exists k ::
      && 0 <= k < |rows| && !HasRequiredFields(rows[k])
      && (forall i :: 0 <= i < k ==> HasRequiredFields(rows[i]))
      && a.message == "Upload failed: " + ErrorMessage(MissingRequiredFields(k + 2))
  {
    match MapRows(rows, 0)
    case Success(students) => SendStudents(students)
    case Failure(e) => ShowError("Upload failed: " + ErrorMessage(e))
  }

  /** One entry of a register-number update. */
  datatype RegisterUpdate = RegisterUpdate(admissionNumber: Value, registerNumber: Value)

  /** Each number is read from its unspaced header when that cell is truthy, and
      from the spaced header otherwise. */
  function ToUpdate(row: Row): (u: RegisterUpdate)
    ensures Truthy(Get(row, "AdmissionNumber")) ==> u.admissionNumber == Get(row, "AdmissionNumber")
    ensures !Truthy(Get(row, "AdmissionNumber")) ==> u.admissionNumber == Get(row, "Admission Number")
    ensures Truthy(Get(row, "RegisterNumber")) ==> u.registerNumber == Get(row, "RegisterNumber")
    ensures !Truthy(Get(row, "RegisterNumber")) ==> u.registerNumber == Get(row, "Register Number")
  {
    RegisterUpdate(AdmissionNumberOf(row), RegisterNumberOf(row))
  }

  predicate IsComplete(u: RegisterUpdate) {
    Truthy(u.admissionNumber) && Truthy(u.registerNumber)
  }

  /** `handleUpdateRegisterNumbers`'s `updates`: the mapped rows that carry both
      numbers, in sheet order. */
  function RegisterUpdates(rows: seq<Row>): (r: seq<RegisterUpdate>)
    ensures Subseq(r, Map(ToUpdate, rows))
    ensures forall i :: 0 <= i < |r| ==> IsComplete(r[i])
  {
    Filter(IsComplete, Map(ToUpdate, rows))
  }

  /** Every complete row is sent, every sent entry comes from one row, and each
      entry is sent as often as its row occurs. */
  lemma RegisterUpdatesExactly(rows: seq<Row>)
    ensures forall i :: 0 <= i < |rows| && IsComplete(ToUpdate(rows[i])) ==>
      ToUpdate(rows[i]) in RegisterUpdates(rows)
    ensures forall u :: u in RegisterUpdates(rows) ==> exists i :: 0 <= i < |rows| && u == ToUpdate(rows[i])
    ensures forall u :: IsComplete(u) ==>
      multiset(RegisterUpdates(rows))[u] == multiset(Map(ToUpdate, rows))[u]
  {
    var mapped := Map(ToUpdate, rows);
    FilterMembers(IsComplete, mapped);
    FilterCounts(IsComplete, mapped);
    forall i | 0 <= i < |rows| ensures ToUpdate(rows[i]) in mapped {
      assert mapped[i] == ToUpdate(rows[i]);
    }
  }
}
