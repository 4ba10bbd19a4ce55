/** The two dashboards (`src/pages/Index.tsx` and `src/pages/Index.js`): they
    list the active interns and today's attendance rows, and roll them up
    into today's totals and, in `Index.js`, into per-department counts. */
module Dashboard {
  import opened Common
  import opened Rows
  import opened InternStore
  import opened AttendanceForm

  // ---------------------------------------------------------------------------
  // What the dashboards fetch
  // ---------------------------------------------------------------------------

  /** `.from('interns').select('*').eq('is_active', true)`, in table order. */
  function ActiveInterns(rows: seq<InternRow>): (r: seq<InternRow>)
    ensures |r| <= |rows|
    ensures forall x :: x in r <==> x in rows && x.isActive
  {
    if rows == [] then []
    else
      var p, x := rows[..|rows| - 1], rows[|rows| - 1];
      assert rows == p + [x];
      ActiveInterns(p) + (if x.isActive then [x] else [])
  }

  /** `records` lists the rows of the attendance table dated `today`
      (`.eq('date', today)`), each once. */
  ghost predicate ListsDay(t: map<AttendanceKey, AttendanceRow>, today: string, records: seq<AttendanceRow>) {
    Distinct(records)
    && forall r :: r in records <==> exists k | k in t && k.1 == today :: t[k] == r
  }

  function InternRefs(records: seq<AttendanceRow>): (r: seq<string>)
    ensures |r| == |records| && forall i | 0 <= i < |records| :: r[i] == records[i].internRef
  {
    seq(|records|, i requires 0 <= i < |records| => records[i].internRef)
  }

  function InternIds(interns: seq<InternRow>): (r: seq<string>)
    ensures |r| == |interns| && forall i | 0 <= i < |interns| :: r[i] == interns[i].id
  {
    seq(|interns|, i requires 0 <= i < |interns| => interns[i].id)
  }

  /** Because the table has one row per intern and day, today's listing
      names every intern at most once, and every row in it is dated today. */
  lemma DayListingOnePerIntern(t: map<AttendanceKey, AttendanceRow>, today: string, records: seq<AttendanceRow>)
    requires KeysMatchRows(t) && ListsDay(t, today, records)
    ensures Distinct(InternRefs(records))
    ensures forall i | 0 <= i < |records| :: records[i].date == today
  {
    forall i | 0 <= i < |records|
      ensures records[i].date == today
    {
      assert records[i] in records;
      var k :| k in t && k.1 == today && t[k] == records[i];
    }
    forall i, j | 0 <= i < j < |records|
      ensures InternRefs(records)[i] != InternRefs(records)[j]
    {
      assert records[i] in records && records[j] in records;
      var k1 :| k1 in t && k1.1 == today && t[k1] == records[i];
      var k2 :| k2 in t && k2.1 == today && t[k2] == records[j];
      assert records[i] != records[j];
      assert k1 != k2;
    }
  }

  // ---------------------------------------------------------------------------
  // Today's totals
  // ---------------------------------------------------------------------------

  datatype TodayStats = TodayStats(total: int, present: int, late: int, absent: int)

  /** `getTodayStats()` of `Index.tsx` (and `getAttendanceStats()` of
      `Index.js`, the same computation): everyone who is neither present
      nor late counts as absent. */
  function GetTodayStats(interns: seq<InternRow>, records: seq<AttendanceRow>): (s: TodayStats)
    ensures s.total == |interns|
    ensures s.present == CountStatus(records, Present) && s.late == CountStatus(records, Late)
    ensures s.present + s.late + s.absent == s.total
  {
    var total := |interns|;
    var present := CountStatus(records, Present);
    var late := CountStatus(records, Late);
    TodayStats(total, present, late, total - present - late)
  }

  /** When today's rows belong to listed interns, one row each, the absent
      figure is the interns marked absent plus the interns with no row yet,
      and so it is never negative. */
  lemma AbsentMeansMarkedOrMissing(interns: seq<InternRow>, records: seq<AttendanceRow>)
    requires ColumnUnique(interns, IdColumn)
    requires Distinct(InternRefs(records))
    requires forall i | 0 <= i < |records| :: records[i].internRef in InternIds(interns)
    ensures |records| <= |interns|
    ensures GetTodayStats(interns, records).absent == CountStatus(records, Absent) + (|interns| - |records|)
    ensures GetTodayStats(interns, records).absent >= CountStatus(records, Absent)
  {
    RowStatusCountsSum(records);
    assert Distinct(InternIds(interns)) by {
      forall i, j | 0 <= i < j < |interns|
        ensures InternIds(interns)[i] != InternIds(interns)[j]
      {
        assert ColumnValue(interns[i], IdColumn) != ColumnValue(interns[j], IdColumn);
      }
    }
    DistinctSubsetLength(InternRefs(records), InternIds(interns));
  }

  /** The interns are filtered on `is_active` but today's rows are not: a
      deactivated intern who checked in makes the absent figure negative. */
  lemma InactiveCheckInMakesAbsentNegative(r: AttendanceRow)
    requires r.status == Present
    ensures GetTodayStats([], [r]).absent == -1
  {
    assert CountStatus([r], Present) == 1 by {
      assert Statuses([r]) == [Present];
      assert Statuses([r])[..0] == [];
    }
    assert CountStatus([r], Late) == 0 by {
      assert Late !in Statuses([r]);
    }
  }

  // ---------------------------------------------------------------------------
  // Per-department counts (Index.js)
  // ---------------------------------------------------------------------------

  datatype DeptCount = DeptCount(total: nat, present: nat)

  function Departments(interns: seq<InternRow>): (r: seq<string>)
    ensures |r| == |interns| && forall i | 0 <= i < |interns| :: r[i] == interns[i].department
  {
    seq(|interns|, i requires 0 <= i < |interns| => interns[i].department)
  }

  /** The number of listed interns in department `d`. */
  function DeptTotal(interns: seq<InternRow>, d: string): nat {
    Occurrences(Departments(interns), d)
  }

  /** `interns.find(i => i.id === ref)`: the first listed intern with that id. */
  function FindById(interns: seq<InternRow>, ref: string): (r: Option<InternRow>)
    ensures r.None? <==> forall i | 0 <= i < |interns| :: interns[i].id != ref
    ensures r.Some? ==> exists i | 0 <= i < |interns| ::
              interns[i] == r.value && r.value.id == ref && forall j | 0 <= j < i :: interns[j].id != ref
  {
    if interns == [] then None
    else if interns[0].id == ref then Some(interns[0])
    else
      var r := FindById(interns[1..], ref);
      assert forall i | 1 <= i < |interns| :: interns[i] == interns[1..][i - 1];
      if r.Some? then
        var i :| 0 <= i < |interns[1..]| && interns[1..][i] == r.value && r.value.id == ref
                 && forall j | 0 <= j < i :: interns[1..][j].id != ref;
        assert interns[i + 1] == r.value;
        r
      else r
  }

  /** A row counts towards department `d`'s present figure when it is marked
      present and its intern is listed and belongs to `d`. */
  predicate CountsPresentIn(interns: seq<InternRow>, r: AttendanceRow, d: string) {
    r.status == Present && FindById(interns, r.internRef).Some?
    && FindById(interns, r.internRef).value.department == d
  }

  /** The intern references of the rows that count towards `d`, in order. */
  function PresentRefs(interns: seq<InternRow>, records: seq<AttendanceRow>, d: string): (r: seq<string>)
    ensures |r| <= |records|
    ensures forall x | x in r :: exists i | 0 <= i < |records| ::
              records[i].internRef == x && CountsPresentIn(interns, records[i], d)
  {
    if records == [] then []
    else
      var p, last := records[..|records| - 1], records[|records| - 1];
      assert forall i | 0 <= i < |p| :: p[i] == records[i];
      PresentRefs(interns, p, d) + (if CountsPresentIn(interns, last, d) then [last.internRef] else [])
  }

  /** The number of today's rows that count towards `d`. */
  function DeptPresent(interns: seq<InternRow>, records: seq<AttendanceRow>, d: string): nat {
    |PresentRefs(interns, records, d)|
  }

  /** One more record adds one to the present figure of the department it
      counts towards and leaves the others unchanged. */
  lemma PresentStep(interns: seq<InternRow>, records: seq<AttendanceRow>, j: nat)
    requires j < |records|
    ensures forall d :: DeptPresent(interns, records[..j + 1], d)
                        == DeptPresent(interns, records[..j], d) + (if CountsPresentIn(interns, records[j], d) then 1 else 0)
  {
    assert records[..j + 1][..j] == records[..j];
  }

  /** A listed intern's department is among the departments. */
  lemma ListedDepartment(interns: seq<InternRow>, x: InternRow)
    requires x in interns
    ensures x.department in Departments(interns)
  {
    var k :| 0 <= k < |interns| && interns[k] == x;
    assert Departments(interns)[k] == x.department;
  }

  /** The first `forEach` of `getDepartmentStats()`: an entry per department
      of a listed intern, counting its interns, with nobody present yet. */
  method CountDepartments(interns: seq<InternRow>) returns (counts: map<string, DeptCount>)
    ensures forall d :: d in counts <==> d in Departments(interns)
    ensures forall d | d in counts :: counts[d] == DeptCount(DeptTotal(interns, d), 0)
  {
    counts := map[];
    var depts := Departments(interns);
    for i := 0 to |interns|
      invariant forall d :: d in counts <==> d in depts[..i]
      invariant forall d | d in counts :: counts[d] == DeptCount(Occurrences(depts[..i], d), 0)
    {
      var d := interns[i].department;
      assert depts[..i + 1] == depts[..i] + [d];
      OccurrencesSnoc(depts[..i], d);
      if d !in counts {
        counts := counts[d := DeptCount(0, 0)];
      }
      counts := counts[d := counts[d].(total := counts[d].total + 1)];
    }
    assert depts[..|interns|] == depts;
  }

  /** `getDepartmentStats()`: one entry per department of a listed intern,
      holding the department's number of interns and the number of today's
      rows that are marked present for one of them. Late rows are not
      counted, and rows of unlisted interns are skipped. */
  method GetDepartmentStats(interns: seq<InternRow>, records: seq<AttendanceRow>)
    returns (counts: map<string, DeptCount>)
    ensures forall d :: d in counts <==> d in Departments(interns)
    ensures forall d | d in counts :: counts[d] == DeptCount(DeptTotal(interns, d), DeptPresent(interns, records, d))
  {
    counts := CountDepartments(interns);
    for j := 0 to |records|
      invariant forall d :: d in counts <==> d in Departments(interns)
      invariant forall d | d in counts ::
                  counts[d] == DeptCount(DeptTotal(interns, d), DeptPresent(interns, records[..j], d))
    {
      var r := records[j];
      PresentStep(interns, records, j);
      var found := FindById(interns, r.internRef);
      if found.Some? && r.status == Present {
        var d := found.value.department;
        ListedDepartment(interns, found.value);
        counts := counts[d := counts[d].(present := counts[d].present + 1)];
      }
    }
    assert records[..|records|] == records;
  }

  /** The department totals add up to the number of listed interns: every
      intern lands in exactly one department. */
  lemma DeptTotalsPartition(interns: seq<InternRow>)
    ensures SumOccurrences(FirstAppearance(Departments(interns)), Departments(interns)) == |interns|
  {
    PartitionCount(Departments(interns));
  }

  /** Listing one more intern adds one to that intern's department. */
  lemma DeptTotalSnoc(interns: seq<InternRow>, d: string)
    requires interns != []
    ensures DeptTotal(interns, d) == DeptTotal(interns[..|interns| - 1], d)
                                     + (if interns[|interns| - 1].department == d then 1 else 0)
  {
    var ds := Departments(interns);
    assert ds[..|ds| - 1] == Departments(interns[..|interns| - 1]);
  }

  /** The ids of the listed interns of department `d`, in order. */
  function DeptIds(interns: seq<InternRow>, d: string): (r: seq<string>)
    ensures |r| == DeptTotal(interns, d)
    ensures forall i | 0 <= i < |interns| && interns[i].department == d :: interns[i].id in r
  {
    if interns == [] then []
    else
      var p, last := interns[..|interns| - 1], interns[|interns| - 1];
      DeptTotalSnoc(interns, d);
      assert forall i | 0 <= i < |p| :: p[i] == interns[i];
      DeptIds(p, d) + (if last.department == d then [last.id] else [])
  }

  lemma {:induction false} DeptIdsDistinct(interns: seq<InternRow>, d: string)
    requires ColumnUnique(interns, IdColumn)
    ensures Distinct(DeptIds(interns, d))
  {
    if interns != [] {
      var p, last := interns[..|interns| - 1], interns[|interns| - 1];
      assert ColumnUnique(p, IdColumn);
      DeptIdsDistinct(p, d);
      if last.department == d {
        var q, r := DeptIds(p, d), DeptIds(interns, d);
        assert r == q + [last.id];
        DeptIdsOf(p, d);
        forall x | x in q
          ensures x != last.id
        {
          var i :| 0 <= i < |p| && p[i].id == x;
          assert ColumnValue(interns[i], IdColumn) != ColumnValue(interns[|interns| - 1], IdColumn);
        }
        forall i, j | 0 <= i < j < |r|
          ensures r[i] != r[j]
        {
          if j < |q| {
            assert r[i] == q[i] && r[j] == q[j];
          } else {
            assert r[i] == q[i] && q[i] in q;
          }
        }
      }
    }
  }

  /** Every id in `DeptIds` is the id of a listed intern. */
  lemma {:induction false} DeptIdsOf(interns: seq<InternRow>, d: string)
    ensures forall x | x in DeptIds(interns, d) :: exists i | 0 <= i < |interns| :: interns[i].id == x
  {
    if interns != [] {
      var p := interns[..|interns| - 1];
      DeptIdsOf(p, d);
      assert forall i | 0 <= i < |p| :: p[i] == interns[i];
    }
  }

  lemma {:induction false} PresentRefsDistinct(interns: seq<InternRow>, records: seq<AttendanceRow>, d: string)
    requires Distinct(InternRefs(records))
    ensures Distinct(PresentRefs(interns, records, d))
  {
    if records != [] {
      var p, last := records[..|records| - 1], records[|records| - 1];
      assert forall i | 0 <= i < |p| :: p[i] == records[i];
      assert forall i | 0 <= i < |p| :: InternRefs(p)[i] == InternRefs(records)[i];
      PresentRefsDistinct(interns, p, d);
      if CountsPresentIn(interns, last, d) {
        var q, r := PresentRefs(interns, p, d), PresentRefs(interns, records, d);
        assert r == q + [last.internRef];
        forall x | x in q
          ensures x != last.internRef
        {
          var i :| 0 <= i < |p| && p[i].internRef == x && CountsPresentIn(interns, p[i], d);
          assert InternRefs(records)[i] != InternRefs(records)[|records| - 1];
        }
        forall i, j | 0 <= i < j < |r|
          ensures r[i] != r[j]
        {
          if j < |q| {
            assert r[i] == q[i] && r[j] == q[j];
          } else {
            assert r[i] == q[i] && q[i] in q;
          }
        }
      }
    }
  }

  /** With unique intern ids and one row per intern, no department has more
      interns present than interns. */
  lemma DeptPresentAtMostTotal(interns: seq<InternRow>, records: seq<AttendanceRow>, d: string)
    requires ColumnUnique(interns, IdColumn)
    requires Distinct(InternRefs(records))
    ensures DeptPresent(interns, records, d) <= DeptTotal(interns, d)
  {
    PresentRefsDistinct(interns, records, d);
    DeptIdsDistinct(interns, d);
    forall x | x in PresentRefs(interns, records, d)
      ensures x in DeptIds(interns, d)
    {
      var i :| 0 <= i < |records| && records[i].internRef == x && CountsPresentIn(interns, records[i], d);
      var k :| 0 <= k < |interns| && interns[k] == FindById(interns, x).value;
    }
    DistinctSubsetLength(PresentRefs(interns, records, d), DeptIds(interns, d));
  }

  /** Rows that are not marked present, and rows of interns who are not
      listed, leave every department's present figure unchanged. */
  lemma OnlyListedPresentRowsCount(interns: seq<InternRow>, records: seq<AttendanceRow>, r: AttendanceRow, d: string)
    requires r.status != Present || FindById(interns, r.internRef).None?
    ensures DeptPresent(interns, records + [r], d) == DeptPresent(interns, records, d)
  {
    assert (records + [r])[..|records|] == records;
  }
}
