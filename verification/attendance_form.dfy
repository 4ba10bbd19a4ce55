/** The attendance desk (`src/components/AttendanceForm.tsx`): an intern code is
    typed, resolved to the intern's row, and today's attendance row for that
    intern is either upserted (check-in) or updated in place (check-out). The
    attendance table is a map keyed by the table's unique pair
    (`intern_id`, `date`), so there is at most one row per intern per day by
    construction; `KeysMatchRows` says that every row carries its own key. */
module AttendanceForm {
  import opened Common
  import opened Rows
  import opened InternStore

  /** (interns.id, ISO date): the conflict target `intern_id,date`. */
  type AttendanceKey = (string, string)

  predicate KeysMatchRows(t: map<AttendanceKey, AttendanceRow>) {
    forall k | k in t :: t[k].internRef == k.0 && t[k].date == k.1
  }

  /** In a table whose rows carry their own keys, two rows for the same
      intern and date are the same row. */
  lemma AtMostOneRowPerInternPerDay(t: map<AttendanceKey, AttendanceRow>, k1: AttendanceKey, k2: AttendanceKey)
    requires KeysMatchRows(t)
    requires k1 in t && k2 in t
    requires t[k1].internRef == t[k2].internRef && t[k1].date == t[k2].date
    ensures k1 == k2 && t[k1] == t[k2]
  {
  }

  /** The check-in upsert on (intern_id, date). It writes status,
      check_in_time and notes; it does not write check_out_time, so a stored
      check-out survives and a new row has none. */
  function CheckInUpsert(t: map<AttendanceKey, AttendanceRow>, k: AttendanceKey,
                         status: AttendanceStatus, now: string, notes: Option<string>)
    : (r: map<AttendanceKey, AttendanceRow>)
    ensures r.Keys == t.Keys + {k}
    ensures r[k].internRef == k.0 && r[k].date == k.1
    ensures r[k].status == status && r[k].checkInTime == Some(now) && r[k].notes == notes
    ensures r[k].checkOutTime == if k in t then t[k].checkOutTime else None
    ensures forall k' | k' in t && k' != k :: r[k'] == t[k']
    ensures KeysMatchRows(t) ==> KeysMatchRows(r)
  {
    var checkOut := if k in t then t[k].checkOutTime else None;
    t[k := AttendanceRow(k.0, k.1, status, Some(now), checkOut, notes)]
  }

  /** The check-out update filtered on intern_id and date. It writes
      check_out_time and notes of the matching row, if there is one, and
      never creates a row. */
  function CheckOutUpdate(t: map<AttendanceKey, AttendanceRow>, k: AttendanceKey,
                          now: string, notes: Option<string>)
    : (r: map<AttendanceKey, AttendanceRow>)
    ensures r.Keys == t.Keys
    ensures k in t ==> r[k].checkOutTime == Some(now) && r[k].notes == notes
    ensures k in t ==> r[k].internRef == t[k].internRef && r[k].date == t[k].date
                       && r[k].status == t[k].status && r[k].checkInTime == t[k].checkInTime
    ensures forall k' | k' in t && k' != k :: r[k'] == t[k']
    ensures k !in t ==> r == t
    ensures KeysMatchRows(t) ==> KeysMatchRows(r)
  {
    if k in t then t[k := t[k].(checkOutTime := Some(now), notes := notes)] else t
  }

  /** One check-in as it reaches the table. */
  datatype CheckInCall = CheckInCall(key: AttendanceKey, status: AttendanceStatus, now: string, notes: Option<string>)

  /** The table after a series of check-ins, applied in order. */
  function ApplyCheckIns(t: map<AttendanceKey, AttendanceRow>, calls: seq<CheckInCall>)
    : map<AttendanceKey, AttendanceRow>
  {
    if calls == [] then t
    else
      var c := calls[|calls| - 1];
      CheckInUpsert(ApplyCheckIns(t, calls[..|calls| - 1]), c.key, c.status, c.now, c.notes)
  }

  /** Repeated check-ins never duplicate a row: for every (intern, date) the
      call that came last decides status, check-in time and notes. */
  lemma {:induction false} LastCheckInWins(t: map<AttendanceKey, AttendanceRow>, calls: seq<CheckInCall>, j: nat)
    requires j < |calls|
    requires forall i | j < i < |calls| :: calls[i].key != calls[j].key
    ensures calls[j].key in ApplyCheckIns(t, calls)
    ensures ApplyCheckIns(t, calls)[calls[j].key].status == calls[j].status
    ensures ApplyCheckIns(t, calls)[calls[j].key].checkInTime == Some(calls[j].now)
    ensures ApplyCheckIns(t, calls)[calls[j].key].notes == calls[j].notes
  {
    if j < |calls| - 1 {
      var p := calls[..|calls| - 1];
      assert forall i | j < i < |p| :: p[i] == calls[i];
      LastCheckInWins(t, p, j);
    }
  }

  /** Check-ins only add the keys they name. */
  lemma {:induction false} CheckInsAddNamedKeys(t: map<AttendanceKey, AttendanceRow>, calls: seq<CheckInCall>,
                                                k: AttendanceKey)
    ensures k in ApplyCheckIns(t, calls) <==> k in t || exists i :: 0 <= i < |calls| && calls[i].key == k
  {
    if calls != [] {
      var p, c := calls[..|calls| - 1], calls[|calls| - 1];
      assert ApplyCheckIns(t, calls).Keys == ApplyCheckIns(t, p).Keys + {c.key};
      CheckInsAddNamedKeys(t, p, k);
      NamedByPrefixOrLast(calls, k);
    }
  }

  lemma NamedByPrefixOrLast(calls: seq<CheckInCall>, k: AttendanceKey)
    requires calls != []
    ensures var p := calls[..|calls| - 1];
            (exists i :: 0 <= i < |calls| && calls[i].key == k)
            <==> (exists i :: 0 <= i < |p| && p[i].key == k) || calls[|calls| - 1].key == k
  {
    var p := calls[..|calls| - 1];
    if exists i :: 0 <= i < |calls| && calls[i].key == k {
      var i :| 0 <= i < |calls| && calls[i].key == k;
      if i < |p| {
        assert p[i] == calls[i];
      }
    }
    if exists i :: 0 <= i < |p| && p[i].key == k {
      var i :| 0 <= i < |p| && p[i].key == k;
      assert calls[i] == p[i];
    }
  }

  /** Check-ins never touch a check-out time: a stored check-out is kept and
      a row they create has none. */
  lemma {:induction false} CheckInsKeepCheckOut(t: map<AttendanceKey, AttendanceRow>, calls: seq<CheckInCall>,
                                                k: AttendanceKey)
    ensures k in t ==> k in ApplyCheckIns(t, calls)
                       && ApplyCheckIns(t, calls)[k].checkOutTime == t[k].checkOutTime
    ensures k !in t && k in ApplyCheckIns(t, calls) ==> ApplyCheckIns(t, calls)[k].checkOutTime == None
  {
    if calls != [] {
      var p, c := calls[..|calls| - 1], calls[|calls| - 1];
      var prev := ApplyCheckIns(t, p);
      assert ApplyCheckIns(t, calls) == CheckInUpsert(prev, c.key, c.status, c.now, c.notes);
      CheckInsKeepCheckOut(t, p, k);
    }
  }

  /** Codes are upper-cased before the lookup, so an intern whose stored code
      holds a lower-case letter can never be resolved, whatever is typed. */
  lemma LowerCaseCodeNeverResolves(rows: seq<InternRow>, typed: string, i: nat)
    requires i < |rows|
    requires exists c | c in rows[i].internCode :: IsAsciiLower(c)
    ensures rows[i] !in RowsWhere(rows, CodeColumn, ToUpper(typed))
  {
    var c :| c in rows[i].internCode && IsAsciiLower(c);
    var u := ToUpper(typed);
    RowsWhereMembers(rows, CodeColumn, u);
    assert forall k | 0 <= k < |u| :: !IsAsciiLower(u[k]);
    assert c !in u;
    assert rows[i].internCode != u;
  }

  datatype MarkKind = CheckIn | CheckOut

  /** What the desk reports after a click: a missing code, an unknown code
      (or a failed lookup), a failed write, or success. */
  datatype MarkOutcome = MissingCode | InternNotFound | WriteFailed | Recorded(kind: MarkKind)

  /** The write a recorded mark makes: the check-in upsert or the check-out
      update of the (intern, today) row. */
  function MarkWrite(t: map<AttendanceKey, AttendanceRow>, kind: MarkKind, key: AttendanceKey,
                     status: AttendanceStatus, now: string, notes: Option<string>): (r: map<AttendanceKey, AttendanceRow>)
    ensures KeysMatchRows(t) ==> KeysMatchRows(r)
  {
    if kind == CheckIn then CheckInUpsert(t, key, status, now, notes) else CheckOutUpdate(t, key, now, notes)
  }

  class AttendanceDesk {
    const directory: InternDirectory
    var attendance: map<AttendanceKey, AttendanceRow>
    // the three form fields
    var internCode: string
    var status: AttendanceStatus
    var notes: string

    ghost predicate Valid()
      reads this
    {
      KeysMatchRows(attendance)
    }

    constructor (directory: InternDirectory, attendance: map<AttendanceKey, AttendanceRow>)
      requires KeysMatchRows(attendance)
      ensures Valid() && this.directory == directory && this.attendance == attendance
      ensures internCode == "" && status == Present && notes == ""
    {
      this.directory := directory;
      this.attendance := attendance;
      internCode, status, notes := "", Present, "";
    }

    /** `.from('interns').select('id').eq('intern_id', internId.toUpperCase()).single()` */
    function ResolveCode(lookupFails: bool): Lookup
      reads this, directory
    {
      directory.Find(CodeColumn, ToUpper(internCode), lookupFails)
    }

    /** `markAttendance(type)`. `today` and `now` are the clock readings
        (ISO date and ISO timestamp); `lookupFails` and `writeFails` stand for
        an error answer of the store. */
    method MarkAttendance(kind: MarkKind, today: string, now: string, lookupFails: bool, writeFails: bool)
      returns (outcome: MarkOutcome)
      requires Valid()
      modifies this
      ensures Valid()
      ensures status == old(status)
      ensures IsBlank(old(internCode)) ==> outcome == MissingCode
      ensures !IsBlank(old(internCode)) && !old(ResolveCode(lookupFails)).Found? ==> outcome == InternNotFound
      ensures !IsBlank(old(internCode)) && old(ResolveCode(lookupFails)).Found? ==>
                outcome == if writeFails then WriteFailed else Recorded(kind)
      ensures !outcome.Recorded? ==>
                attendance == old(attendance) && internCode == old(internCode) && notes == old(notes)
      ensures outcome.Recorded? ==> internCode == "" && notes == ""
      ensures outcome.Recorded? && old(ResolveCode(lookupFails)).Found? ==>
                attendance == MarkWrite(old(attendance), kind, (old(ResolveCode(lookupFails)).row.id, today),
                                        old(status), now, NullIfEmpty(old(notes)))
    {
      if IsBlank(internCode) {
        return MissingCode;
      }
      var found := ResolveCode(lookupFails);
      if !found.Found? {
        return InternNotFound;
      }
      if writeFails {
        return WriteFailed;
      }
      attendance := MarkWrite(attendance, kind, (found.row.id, today), status, now, NullIfEmpty(notes));
      internCode, notes := "", "";
      outcome := Recorded(kind);
    }
  }

  /** An intern checks in late in the morning and checks out in the evening:
      one row for the day, status late, both times set. */
  method LateCheckInThenCheckOut(desk: AttendanceDesk, intern: InternRow, today: string)
    requires desk.Valid() && desk.attendance == map[]
    requires !IsBlank(desk.internCode) && desk.ResolveCode(false) == Found(intern)
    modifies desk
    ensures desk.attendance.Keys == {(intern.id, today)}
    ensures desk.attendance[(intern.id, today)].status == Late
    ensures desk.attendance[(intern.id, today)].checkInTime == Some("09:05")
    ensures desk.attendance[(intern.id, today)].checkOutTime == Some("17:30")
  {
    var code := desk.internCode;
    desk.status := Late;
    var first := desk.MarkAttendance(CheckIn, today, "09:05", false, false);
    desk.internCode := code;
    var second := desk.MarkAttendance(CheckOut, today, "17:30", false, false);
    assert first == Recorded(CheckIn) && second == Recorded(CheckOut);
  }
}
