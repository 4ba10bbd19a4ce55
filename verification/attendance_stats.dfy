/** The analytics card (`src/components/AttendanceStats.tsx`): shares of
    present, late and absent rows, the pie slices, and a per-department
    breakdown of today's rows. Every row carries the department of its
    intern as joined by the query (`interns(department)`), which may be
    missing. */
module AttendanceStats {
  import opened Common
  import opened Rows

  /** An attendance row with its intern's joined department. */
  datatype JoinedRecord = JoinedRecord(row: AttendanceRow, department: Option<string>)

  function RowsOf(records: seq<JoinedRecord>): (r: seq<AttendanceRow>)
    ensures |r| == |records| && forall i | 0 <= i < |records| :: r[i] == records[i].row
  {
    seq(|records|, i requires 0 <= i < |records| => records[i].row)
  }

  // ---------------------------------------------------------------------------
  // Shares
  // ---------------------------------------------------------------------------

  datatype StatsData = StatsData(total: nat, present: nat, late: nat, absent: nat,
                                 presentPercentage: real, latePercentage: real, absentPercentage: real)

  /** `(count / total) * 100`, or 0 when there are no rows. */
  function Share(count: nat, total: nat): (p: real)
    requires count <= total
    ensures 0.0 <= p <= 100.0
    ensures total == 0 ==> p == 0.0
    ensures total > 0 ==> p * total as real == 100.0 * count as real
  {
    if total > 0 then (count as real / total as real) * 100.0 else 0.0
  }

  /** `getStatsData()` */
  function GetStatsData(records: seq<JoinedRecord>): (s: StatsData)
    ensures s.total == |records|
    ensures s.present == CountStatus(RowsOf(records), Present)
    ensures s.late == CountStatus(RowsOf(records), Late)
    ensures s.absent == CountStatus(RowsOf(records), Absent)
    ensures s.present + s.late + s.absent == s.total
    ensures s.presentPercentage == Share(s.present, s.total) && s.latePercentage == Share(s.late, s.total)
            && s.absentPercentage == Share(s.absent, s.total)
  {
    var rows := RowsOf(records);
    RowStatusCountsSum(rows);
    var total, present, late, absent :=
      |records|, CountStatus(rows, Present), CountStatus(rows, Late), CountStatus(rows, Absent);
    StatsData(total, present, late, absent,
              Share(present, total), Share(late, total), Share(absent, total))
  }

  /** Three counts that make up the whole give shares that add up to 100%. */
  lemma DivAdd3(a: real, b: real, c: real, t: real)
    requires t > 0.0
    ensures a / t + b / t + c / t == (a + b + c) / t
  {
  }

  lemma SharesSum(present: nat, late: nat, absent: nat)
    requires present + late + absent > 0
    ensures var t := present + late + absent;
            Share(present, t) + Share(late, t) + Share(absent, t) == 100.0
  {
    var t := present + late + absent;
    var tr := t as real;
    DivAdd3(present as real, late as real, absent as real, tr);
    assert present as real + late as real + absent as real == tr;
    assert tr / tr == 1.0;
  }

  /** With rows, the three shares add up to 100%; without, all three are 0. */
  lemma SharesAddUp(records: seq<JoinedRecord>)
    ensures var s := GetStatsData(records);
            s.total > 0 ==> s.presentPercentage + s.latePercentage + s.absentPercentage == 100.0
    ensures var s := GetStatsData(records);
            s.total == 0 ==> s.presentPercentage == 0.0 && s.latePercentage == 0.0 && s.absentPercentage == 0.0
  {
    var s := GetStatsData(records);
    if s.total > 0 {
      SharesSum(s.present, s.late, s.absent);
    }
  }

  // ---------------------------------------------------------------------------
  // Pie chart
  // ---------------------------------------------------------------------------

  datatype Slice = Slice(name: string, value: nat)

  /** The position of a category in the pie: Present, then Late, then Absent. */
  function SliceRank(name: string): nat {
    if name == "Present" then 0 else if name == "Late" then 1 else 2
  }

  /** `pieData`: Present, Late, Absent in that order, keeping only the
      statuses that occur. */
  function PieSlices(s: StatsData): (r: seq<Slice>)
    ensures |r| <= 3
    ensures forall i | 0 <= i < |r| :: r[i].value > 0
    ensures forall x | x in r :: x == Slice("Present", s.present) || x == Slice("Late", s.late)
                                 || x == Slice("Absent", s.absent)
    ensures forall i, j | 0 <= i < j < |r| :: SliceRank(r[i].name) < SliceRank(r[j].name)
    ensures Slice("Present", s.present) in r <==> s.present > 0
    ensures Slice("Late", s.late) in r <==> s.late > 0
    ensures Slice("Absent", s.absent) in r <==> s.absent > 0
  {
    (if s.present > 0 then [Slice("Present", s.present)] else [])
    + (if s.late > 0 then [Slice("Late", s.late)] else [])
    + (if s.absent > 0 then [Slice("Absent", s.absent)] else [])
  }

  function SliceSum(r: seq<Slice>): nat {
    if r == [] then 0 else r[0].value + SliceSum(r[1..])
  }

  /** The pie shows every row exactly once: its slices add up to the number
      of rows. */
  lemma PieCoversAllRows(records: seq<JoinedRecord>)
    ensures SliceSum(PieSlices(GetStatsData(records))) == |records|
  {
    PieSumsCounts(GetStatsData(records));
  }

  /** The slices add up to the three counts. */
  lemma PieSumsCounts(s: StatsData)
    ensures SliceSum(PieSlices(s)) == s.present + s.late + s.absent
  {
    var a := if s.present > 0 then [Slice("Present", s.present)] else [];
    var b := if s.late > 0 then [Slice("Late", s.late)] else [];
    var c := if s.absent > 0 then [Slice("Absent", s.absent)] else [];
    assert SliceSum(a) == s.present && SliceSum(b) == s.late && SliceSum(c) == s.absent;
    SliceSumAppend(a, b);
    SliceSumAppend(a + b, c);
  }

  lemma {:induction false} SliceSumAppend(x: seq<Slice>, y: seq<Slice>)
    ensures SliceSum(x + y) == SliceSum(x) + SliceSum(y)
  {
    if x != [] {
      assert (x + y)[0] == x[0];
      assert (x + y)[1..] == x[1..] + y;
      SliceSumAppend(x[1..], y);
    } else {
      assert x + y == y;
    }
  }

  // ---------------------------------------------------------------------------
  // Per-department breakdown
  // ---------------------------------------------------------------------------

  /** `if (record.interns?.department)`: a missing or empty department is
      skipped. */
  predicate HasDepartment(r: JoinedRecord) {
    r.department.Some? && r.department.value != ""
  }

  /** The departments of the counted rows, in order. */
  function CountedDepts(records: seq<JoinedRecord>): (r: seq<string>)
    ensures |r| <= |records|
  {
    if records == [] then []
    else
      var last := records[|records| - 1];
      CountedDepts(records[..|records| - 1]) + (if HasDepartment(last) then [last.department.value] else [])
  }

  /** The statuses of the counted rows of department `d`, in order. */
  function DeptStatuses(records: seq<JoinedRecord>, d: string): seq<AttendanceStatus> {
    if records == [] then []
    else
      var last := records[|records| - 1];
      DeptStatuses(records[..|records| - 1], d)
      + (if HasDepartment(last) && last.department.value == d then [last.row.status] else [])
  }

  /** A department has as many counted rows as it has occurrences among the
      counted departments. */
  lemma {:induction false} DeptStatusesLength(records: seq<JoinedRecord>, d: string)
    ensures |DeptStatuses(records, d)| == Occurrences(CountedDepts(records), d)
  {
    if records != [] {
      var p, last := records[..|records| - 1], records[|records| - 1];
      DeptStatusesLength(p, d);
      if HasDepartment(last) {
        OccurrencesSnoc(CountedDepts(p), last.department.value);
        assert CountedDepts(records) == CountedDepts(p) + [last.department.value];
      } else {
        assert CountedDepts(records) == CountedDepts(p) + [];
        assert CountedDepts(p) + [] == CountedDepts(p);
        assert DeptStatuses(records, d) == DeptStatuses(p, d) + [];
        assert DeptStatuses(p, d) + [] == DeptStatuses(p, d);
      }
    }
  }

  /** One more row extends the counted departments and one department's
      statuses. */
  lemma CountStep(records: seq<JoinedRecord>, i: nat)
    requires i < |records|
    ensures HasDepartment(records[i]) ==>
              CountedDepts(records[..i + 1]) == CountedDepts(records[..i]) + [records[i].department.value]
    ensures !HasDepartment(records[i]) ==> CountedDepts(records[..i + 1]) == CountedDepts(records[..i])
    ensures forall d | HasDepartment(records[i]) && records[i].department.value == d ::
              DeptStatuses(records[..i + 1], d) == DeptStatuses(records[..i], d) + [records[i].row.status]
    ensures forall d | !(HasDepartment(records[i]) && records[i].department.value == d) ::
              DeptStatuses(records[..i + 1], d) == DeptStatuses(records[..i], d)
  {
    var r := records[i];
    assert records[..i + 1][..i] == records[..i];
    assert CountedDepts(records[..i]) + [] == CountedDepts(records[..i]);
    forall d
      ensures DeptStatuses(records[..i], d) + [] == DeptStatuses(records[..i], d)
    {
    }
  }

  datatype DeptRow = DeptRow(department: string, present: nat, late: nat, absent: nat, total: nat)

  /** How many of the statuses are present, late and absent. */
  function Tally(statuses: seq<AttendanceStatus>): (nat, nat, nat) {
    (Occurrences(statuses, Present), Occurrences(statuses, Late), Occurrences(statuses, Absent))
  }

  /** `departments[dept][record.status]++` */
  function Bump(t: (nat, nat, nat), s: AttendanceStatus): (nat, nat, nat) {
    match s
    case Present => (t.0 + 1, t.1, t.2)
    case Late => (t.0, t.1 + 1, t.2)
    case Absent => (t.0, t.1, t.2 + 1)
  }

  lemma TallySnoc(statuses: seq<AttendanceStatus>, s: AttendanceStatus)
    ensures Tally(statuses + [s]) == Bump(Tally(statuses), s)
  {
    OccurrencesSnoc(statuses, s);
  }

  /** The row of department `d`: its counted rows by status, and their total. */
  function DeptRowOf(records: seq<JoinedRecord>, d: string): (r: DeptRow)
    ensures r.department == d
    ensures (r.present, r.late, r.absent) == Tally(DeptStatuses(records, d))
    ensures r.total == Occurrences(CountedDepts(records), d)
  {
    var statuses := DeptStatuses(records, d);
    StatusCountsSum(statuses);
    DeptStatusesLength(records, d);
    var (present, late, absent) := Tally(statuses);
    DeptRow(d, present, late, absent, present + late + absent)
  }

  /** The breakdown: one row per department, in the order in which the
      departments first appear among the counted rows. */
  function DepartmentRows(records: seq<JoinedRecord>): seq<DeptRow> {
    var order := FirstAppearance(CountedDepts(records));
    seq(|order|, i requires 0 <= i < |order| => DeptRowOf(records, order[i]))
  }

  /** The tallies of the departments met among the first `i` rows. */
  ghost predicate TalliesSoFar(records: seq<JoinedRecord>, i: nat, tallies: map<string, (nat, nat, nat)>)
    requires i <= |records|
  {
    forall d | d in tallies :: tallies[d] == Tally(DeptStatuses(records[..i], d))
  }

  /** After the first `i` rows, the dictionary holds the tallies of the
      departments met so far, and `order` lists them as they were added. */
  ghost predicate Gathered(records: seq<JoinedRecord>, i: nat, tallies: map<string, (nat, nat, nat)>, order: seq<string>)
    requires i <= |records|
  {
    order == FirstAppearance(CountedDepts(records[..i]))
    && (forall d :: d in tallies <==> d in order)
    && TalliesSoFar(records, i, tallies)
  }

  /** The tally of a department met for the first time starts at zero. */
  lemma NewDeptUncounted(records: seq<JoinedRecord>, i: nat, d: string)
    requires i <= |records| && d !in FirstAppearance(CountedDepts(records[..i]))
    ensures Tally(DeptStatuses(records[..i], d)) == (0, 0, 0)
  {
    DeptStatusesLength(records[..i], d);
    assert DeptStatuses(records[..i], d) == [];
  }

  /** The bumped tally is the tally of one more row. */
  lemma TalliesStep(records: seq<JoinedRecord>, i: nat, tallies: map<string, (nat, nat, nat)>,
                    tallies': map<string, (nat, nat, nat)>)
    requires i < |records| && HasDepartment(records[i])
    requires TalliesSoFar(records, i, tallies)
    requires records[i].department.value in tallies
    requires Tally(DeptStatuses(records[..i], records[i].department.value)) == tallies[records[i].department.value]
    requires tallies' == tallies[records[i].department.value :=
                                 Bump(tallies[records[i].department.value], records[i].row.status)]
    ensures TalliesSoFar(records, i + 1, tallies')
  {
    var d := records[i].department.value;
    CountStep(records, i);
    TallySnoc(DeptStatuses(records[..i], d), records[i].row.status);
  }

  /** A row with a department appends its department to the order unless
      it is already listed. */
  lemma OrderStep(records: seq<JoinedRecord>, i: nat)
    requires i < |records| && HasDepartment(records[i])
    ensures var d, order := records[i].department.value, FirstAppearance(CountedDepts(records[..i]));
            FirstAppearance(CountedDepts(records[..i + 1])) == if d in order then order else order + [d]
  {
    CountStep(records, i);
    FirstAppearanceSnoc(CountedDepts(records[..i]), records[i].department.value);
  }

  /** A row with a department adds its department if it is new and bumps
      the department's count for the row's status. */
  lemma GatherStep(records: seq<JoinedRecord>, i: nat, tallies: map<string, (nat, nat, nat)>, order: seq<string>,
                    tallies': map<string, (nat, nat, nat)>, order': seq<string>)
    requires i < |records| && HasDepartment(records[i])
    requires Gathered(records, i, tallies, order)
    requires var d := records[i].department.value;
             var t := if d in tallies then tallies else tallies[d := (0, 0, 0)];
             tallies' == t[d := Bump(t[d], records[i].row.status)]
             && order' == if d in tallies then order else order + [d]
    ensures Gathered(records, i + 1, tallies', order')
  {
    var d := records[i].department.value;
    OrderStep(records, i);
    if d in tallies {
      TalliesStep(records, i, tallies, tallies');
    } else {
      NewDeptUncounted(records, i, d);
      TalliesStep(records, i, tallies[d := (0, 0, 0)], tallies');
    }
  }

  /** A row without a department changes nothing. */
  lemma GatherSkip(records: seq<JoinedRecord>, i: nat, tallies: map<string, (nat, nat, nat)>, order: seq<string>)
    requires i < |records| && !HasDepartment(records[i])
    requires Gathered(records, i, tallies, order)
    ensures Gathered(records, i + 1, tallies, order)
  {
    CountStep(records, i);
  }

  /** The `forEach` of `getDepartmentStats()`: the counts are gathered in a
      dictionary keyed by department; `order` is the order in which its
      keys were added. */
  method GatherTallies(records: seq<JoinedRecord>)
    returns (tallies: map<string, (nat, nat, nat)>, order: seq<string>)
    ensures order == FirstAppearance(CountedDepts(records))
    ensures forall d :: d in tallies <==> d in order
    ensures forall d | d in tallies :: tallies[d] == Tally(DeptStatuses(records, d))
  {
    tallies := map[];
    order := [];
    for i := 0 to |records|
      invariant Gathered(records, i, tallies, order)
    {
      var r := records[i];
      if HasDepartment(r) {
        var d := r.department.value;
        ghost var before, listed := tallies, order;
        if d !in tallies {
          tallies := tallies[d := (0, 0, 0)];
          order := order + [d];
        }
        tallies := tallies[d := Bump(tallies[d], r.row.status)];
        GatherStep(records, i, before, listed, tallies, order);
      } else {
        GatherSkip(records, i, tallies, order);
      }
    }
    assert records[..|records|] == records;
  }

  /** `getDepartmentStats()`: the gathered counts, one entry per department
      in insertion order, each with its total. */
  method GetDepartmentStats(records: seq<JoinedRecord>) returns (rows: seq<DeptRow>)
    ensures rows == DepartmentRows(records)
  {
    var tallies, order := GatherTallies(records);
    rows := seq(|order|, k requires 0 <= k < |order| =>
                  var (p, l, a) := tallies[order[k]];
                  DeptRow(order[k], p, l, a, p + l + a));
    forall k | 0 <= k < |order|
      ensures rows[k] == DeptRowOf(records, order[k])
    {
      var row := DeptRowOf(records, order[k]);
      assert tallies[order[k]] == (row.present, row.late, row.absent);
    }
  }

  function TotalOf(rows: seq<DeptRow>): nat {
    if rows == [] then 0 else rows[0].total + TotalOf(rows[1..])
  }

  lemma {:induction false} TotalOfRows(records: seq<JoinedRecord>, keys: seq<string>)
    ensures TotalOf(seq(|keys|, i requires 0 <= i < |keys| => DeptRowOf(records, keys[i])))
            == SumOccurrences(keys, CountedDepts(records))
  {
    var rows := seq(|keys|, i requires 0 <= i < |keys| => DeptRowOf(records, keys[i]));
    if keys != [] {
      TotalOfRows(records, keys[1..]);
      assert rows[1..] == seq(|keys[1..]|, i requires 0 <= i < |keys[1..]| => DeptRowOf(records, keys[1..][i]));
    }
  }

  /** Every row with a department is counted in exactly one department row:
      the totals of the breakdown add up to the number of such rows, and to
      all rows when every row has a department. */
  lemma BreakdownCoversCountedRows(records: seq<JoinedRecord>)
    ensures TotalOf(DepartmentRows(records)) == |CountedDepts(records)|
    ensures (forall i | 0 <= i < |records| :: HasDepartment(records[i])) ==> TotalOf(DepartmentRows(records)) == |records|
  {
    TotalOfRows(records, FirstAppearance(CountedDepts(records)));
    PartitionCount(CountedDepts(records));
    AllCounted(records);
  }

  lemma {:induction false} AllCounted(records: seq<JoinedRecord>)
    ensures (forall i | 0 <= i < |records| :: HasDepartment(records[i])) ==> |CountedDepts(records)| == |records|
  {
    if records != [] {
      var p := records[..|records| - 1];
      assert forall i | 0 <= i < |p| :: p[i] == records[i];
      AllCounted(p);
    }
  }
}
