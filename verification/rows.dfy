/** Row shapes and enumerations of the tables the ledger reads and writes,
    following the generated database types. Columns that only the database
    fills in (`created_at`, surrogate `id`s of attendance and progress rows,
    `enrolled_at`) are left out; the key of a keyed table is the key of the
    Dafny map that holds it. Throughout, `internRef` is the system-assigned
    `interns.id` that other tables refer to and `internCode` is the
    human-assigned `interns.intern_id` (such as "DMRC001"). */
module Rows {
  import opened Common

  datatype AttendanceStatus = Present | Absent | Late
  datatype ContentType = Video | Pdf | Quiz | Assignment | Text
  datatype EnrollmentStatus = Enrolled | Completed | Dropped

  /** The database spelling of an attendance status. */
  function StatusName(s: AttendanceStatus): (name: string)
    ensures name in {"present", "absent", "late"}
  {
    match s
    case Present => "present"
    case Absent => "absent"
    case Late => "late"
  }

  /** Distinct statuses have distinct database spellings. */
  lemma StatusNameInjective(a: AttendanceStatus, b: AttendanceStatus)
    ensures StatusName(a) == StatusName(b) ==> a == b
  {
  }

  datatype InternRow = InternRow(
    id: string,
    internCode: string,
    name: string,
    email: string,
    department: string,
    phone: Option<string>,
    startDate: string,
    endDate: Option<string>,
    isActive: bool)

  datatype AttendanceRow = AttendanceRow(
    internRef: string,
    date: string,
    status: AttendanceStatus,
    checkInTime: Option<string>,
    checkOutTime: Option<string>,
    notes: Option<string>)

  datatype LessonRow = LessonRow(
    id: string,
    moduleId: string,
    title: string,
    contentType: ContentType,
    orderIndex: int,
    isRequired: bool)

  datatype ProgressRow = ProgressRow(
    internRef: string,
    lessonRef: string,
    isCompleted: bool,
    timeSpentMinutes: nat,
    notes: Option<string>,
    completedAt: Option<string>)

  datatype EnrollmentRow = EnrollmentRow(
    internRef: string,
    courseRef: string,
    status: EnrollmentStatus)

  datatype CourseRow = CourseRow(
    id: string,
    title: string,
    description: Option<string>,
    difficultyLevel: Option<string>)

  /** The statuses of a list of attendance rows, in order. */
  function Statuses(rows: seq<AttendanceRow>): (r: seq<AttendanceStatus>)
    ensures |r| == |rows|
    ensures forall i | 0 <= i < |rows| :: r[i] == rows[i].status
  {
    seq(|rows|, i requires 0 <= i < |rows| => rows[i].status)
  }

  /** `rows.filter(r => r.status === s).length` */
  function CountStatus(rows: seq<AttendanceRow>, s: AttendanceStatus): (n: nat)
    ensures n <= |rows|
  {
    Occurrences(Statuses(rows), s)
  }

  /** Every status is one of the three values, so the three counts add up to
      the number of rows. */
  lemma {:induction false} StatusCountsSum(statuses: seq<AttendanceStatus>)
    ensures Occurrences(statuses, Present) + Occurrences(statuses, Late)
            + Occurrences(statuses, Absent) == |statuses|
  {
    if statuses != [] {
      var p := statuses[..|statuses| - 1];
      StatusCountsSum(p);
      assert Occurrences(statuses, Present) == Occurrences(p, Present) + (if statuses[|statuses| - 1] == Present then 1 else 0);
      assert Occurrences(statuses, Late) == Occurrences(p, Late) + (if statuses[|statuses| - 1] == Late then 1 else 0);
      assert Occurrences(statuses, Absent) == Occurrences(p, Absent) + (if statuses[|statuses| - 1] == Absent then 1 else 0);
    }
  }

  lemma RowStatusCountsSum(rows: seq<AttendanceRow>)
    ensures CountStatus(rows, Present) + CountStatus(rows, Late)
            + CountStatus(rows, Absent) == |rows|
  {
    StatusCountsSum(Statuses(rows));
  }
}
