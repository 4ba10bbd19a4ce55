/** Today's attendance table on the dashboard (`src/components/InternsList.tsx`):
    one row per intern, showing the status and the check-in and check-out
    times of the first of today's records that names the intern, and
    "Absent" with empty times when there is none. */
module InternsList {
  import opened Common
  import opened Rows

  /** The position of the first record naming `internRef`, or `|records|`. */
  function FirstRecordIndex(records: seq<AttendanceRow>, internRef: string): (k: nat)
    ensures k <= |records|
    ensures k < |records| ==> records[k].internRef == internRef
    ensures forall j | 0 <= j < k :: records[j].internRef != internRef
  {
    if records == [] then 0
    else if records[0].internRef == internRef then 0
    else 1 + FirstRecordIndex(records[1..], internRef)
  }

  /** `getAttendanceRecord`: `attendanceData.find(record => record.intern_id === internId)` */
  function FindRecord(records: seq<AttendanceRow>, internRef: string): (r: Option<AttendanceRow>)
    ensures r.None? <==> forall i | 0 <= i < |records| :: records[i].internRef != internRef
    ensures r.Some? ==> r.value.internRef == internRef && r.value in records
  {
    var k := FirstRecordIndex(records, internRef);
    if k < |records| then Some(records[k]) else None
  }

  /** `getAttendanceStatus`: the status of the first matching record,
      'absent' when there is none. */
  function StatusOf(records: seq<AttendanceRow>, internRef: string): (s: AttendanceStatus)
    ensures FindRecord(records, internRef).None? ==> s == Absent
    ensures FindRecord(records, internRef).Some? ==> s == FindRecord(records, internRef).value.status
  {
    match FindRecord(records, internRef)
    case None => Absent
    case Some(r) => r.status
  }

  /** `getStatusBadge`: the caption of the badge for a status string. */
  function StatusLabel(status: string): (caption: string)
    ensures caption == "Unknown" <==> status !in {"present", "late", "absent"}
    ensures status == "present" ==> caption == "Present"
    ensures status == "late" ==> caption == "Late"
    ensures status == "absent" ==> caption == "Absent"
  {
    if status == "present" then "Present"
    else if status == "late" then "Late"
    else if status == "absent" then "Absent"
    else "Unknown"
  }

  /** `formatTime`: a missing or empty time is shown as "--"; any other
      time is passed to the locale formatter `fmt`. */
  function FormatTime(t: Option<string>, fmt: string -> string): (shown: string)
    ensures t.None? || t.value == "" ==> shown == "--"
    ensures t.Some? && t.value != "" ==> shown == fmt(t.value)
  {
    if t.None? || t.value == "" then "--" else fmt(t.value)
  }

  /** One row of the table. */
  datatype ListRow = ListRow(internCode: string, name: string, department: string,
                             badge: string, checkIn: string, checkOut: string)

  /** The row of one intern: its status and its two times come from the same
      first matching record. */
  function RowFor(intern: InternRow, records: seq<AttendanceRow>, fmt: string -> string): (row: ListRow)
    ensures row.internCode == intern.internCode && row.name == intern.name
            && row.department == intern.department
    ensures FindRecord(records, intern.id).None? ==>
              row.badge == "Absent" && row.checkIn == "--" && row.checkOut == "--"
    ensures FindRecord(records, intern.id).Some? ==>
              var rec := FindRecord(records, intern.id).value;
              row.badge == StatusLabel(StatusName(rec.status))
              && row.checkIn == FormatTime(rec.checkInTime, fmt)
              && row.checkOut == FormatTime(rec.checkOutTime, fmt)
  {
    var record := FindRecord(records, intern.id);
    var checkIn := if record.Some? then record.value.checkInTime else None;
    var checkOut := if record.Some? then record.value.checkOutTime else None;
    ListRow(intern.internCode, intern.name, intern.department,
            StatusLabel(StatusName(StatusOf(records, intern.id))),
            FormatTime(checkIn, fmt), FormatTime(checkOut, fmt))
  }

  /** `interns.map(...)`: one row per intern, in the given order. */
  function ListRows(interns: seq<InternRow>, records: seq<AttendanceRow>, fmt: string -> string)
    : (rows: seq<ListRow>)
    ensures |rows| == |interns|
    ensures forall i | 0 <= i < |interns| :: rows[i] == RowFor(interns[i], records, fmt)
  {
    seq(|interns|, i requires 0 <= i < |interns| => RowFor(interns[i], records, fmt))
  }

  /** "No active interns found" is shown exactly when the intern list is empty. */
  predicate ShowsNoInterns(interns: seq<InternRow>) {
    |interns| == 0
  }

  /** The empty message and the rows exclude each other. */
  lemma EmptyMessageIffNoRows(interns: seq<InternRow>, records: seq<AttendanceRow>, fmt: string -> string)
    ensures ShowsNoInterns(interns) <==> ListRows(interns, records, fmt) == []
  {
    if !ShowsNoInterns(interns) {
      assert |ListRows(interns, records, fmt)| > 0;
    }
  }

  /** A status read from a record always has a known caption, so the
      "Unknown" badge is never shown for today's records. */
  lemma BadgeNeverUnknown(intern: InternRow, records: seq<AttendanceRow>, fmt: string -> string)
    ensures RowFor(intern, records, fmt).badge in {"Present", "Late", "Absent"}
  {
  }

  /** With at most one record per intern (as the check-in upsert keeps
      today's records), the record found is the intern's only record. */
  lemma OneRecordPerInternIsFound(records: seq<AttendanceRow>, j: nat)
    requires j < |records|
    requires forall a, b | 0 <= a < b < |records| :: records[a].internRef != records[b].internRef
    ensures FindRecord(records, records[j].internRef) == Some(records[j])
    ensures StatusOf(records, records[j].internRef) == records[j].status
  {
    assert FirstRecordIndex(records, records[j].internRef) == j;
  }

  /** When several records name the same intern, the earlier one wins and
      the later one is never shown. */
  lemma EarlierRecordWins(records: seq<AttendanceRow>, i: nat, j: nat)
    requires i < j < |records| && records[i].internRef == records[j].internRef
    requires forall a | 0 <= a < i :: records[a].internRef != records[i].internRef
    ensures FindRecord(records, records[j].internRef) == Some(records[i])
  {
    assert FirstRecordIndex(records, records[j].internRef) == i;
  }
}
