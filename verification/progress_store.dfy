/** The two learning tables the course pages write: `lesson_progress`, a map
    keyed by (intern, lesson), and `course_enrollments`, a list of rows. Both
    pages write them on behalf of one fixed intern reference. The two
    upserts on `lesson_progress` differ in the columns they send, and an
    upsert changes only the columns it sends: that is what separates
    `ProgressUpsert` (every column) from `StartLessonUpsert` (two columns). */
module ProgressStore {
  import opened Common
  import opened Rows

  /** Every write of the learning pages is made for this intern reference. */
  const MockIntern: string := "mock-intern-id"

  /** (intern_id, lesson_id) */
  type ProgressKey = (string, string)

  predicate ProgressKeysMatch(t: map<ProgressKey, ProgressRow>) {
    forall k | k in t :: t[k].internRef == k.0 && t[k].lessonRef == k.1
  }

  /** The completion stamp is set exactly on completed rows. */
  predicate StampsPaired(t: map<ProgressKey, ProgressRow>) {
    forall k | k in t :: t[k].completedAt.Some? <==> t[k].isCompleted
  }

  /** The lesson viewer's upsert: it sends every column, stamping
      `completed_at` with `now` exactly when `is_completed` is written true. */
  function ProgressUpsert(t: map<ProgressKey, ProgressRow>, k: ProgressKey, isCompleted: bool,
                          minutes: nat, notes: string, now: string)
    : (r: map<ProgressKey, ProgressRow>)
    ensures r.Keys == t.Keys + {k}
    ensures r[k].internRef == k.0 && r[k].lessonRef == k.1
    ensures r[k].isCompleted == isCompleted && r[k].timeSpentMinutes == minutes
    ensures r[k].notes == Some(notes)
    ensures r[k].completedAt == if isCompleted then Some(now) else None
    ensures forall k' | k' in t && k' != k :: r[k'] == t[k']
    ensures ProgressKeysMatch(t) ==> ProgressKeysMatch(r)
  {
    t[k := ProgressRow(k.0, k.1, isCompleted, minutes, Some(notes), if isCompleted then Some(now) else None)]
  }

  /** `startLesson`'s upsert: it sends only `is_completed = false` and
      `time_spent_minutes = 0`, so a stored row keeps its notes and its
      completion stamp, and a new row has neither. */
  function StartLessonUpsert(t: map<ProgressKey, ProgressRow>, k: ProgressKey)
    : (r: map<ProgressKey, ProgressRow>)
    ensures r.Keys == t.Keys + {k}
    ensures r[k].internRef == (if k in t then t[k].internRef else k.0)
    ensures r[k].lessonRef == (if k in t then t[k].lessonRef else k.1)
    ensures !r[k].isCompleted && r[k].timeSpentMinutes == 0
    ensures k in t ==> r[k].notes == t[k].notes && r[k].completedAt == t[k].completedAt
    ensures k !in t ==> r[k].notes == None && r[k].completedAt == None
    ensures forall k' | k' in t && k' != k :: r[k'] == t[k']
    ensures ProgressKeysMatch(t) ==> ProgressKeysMatch(r)
  {
    if k in t then t[k := t[k].(isCompleted := false, timeSpentMinutes := 0)]
    else t[k := ProgressRow(k.0, k.1, false, 0, None, None)]
  }

  /** The viewer's upsert keeps the completion stamp paired with the flag. */
  lemma ProgressUpsertKeepsStampsPaired(t: map<ProgressKey, ProgressRow>, k: ProgressKey, isCompleted: bool,
                                        minutes: nat, notes: string, now: string)
    requires StampsPaired(t)
    ensures StampsPaired(ProgressUpsert(t, k, isCompleted, minutes, notes, now))
  {
  }

  /** Starting (or reviewing) a completed lesson un-completes it and throws
      away its minutes, while its completion stamp stays: afterwards the
      stamp no longer matches the flag. */
  lemma StartLessonUncompletes(t: map<ProgressKey, ProgressRow>, k: ProgressKey)
    requires k in t && t[k].isCompleted && t[k].completedAt.Some?
    ensures var r := StartLessonUpsert(t, k);
            !r[k].isCompleted && r[k].timeSpentMinutes == 0 && r[k].completedAt == t[k].completedAt
            && !StampsPaired(r)
  {
    var r := StartLessonUpsert(t, k);
    assert k in r && r[k].completedAt.Some? && !r[k].isCompleted;
  }

  /** Starting a lesson is idempotent: a second start changes nothing. */
  lemma StartLessonIdempotent(t: map<ProgressKey, ProgressRow>, k: ProgressKey)
    ensures StartLessonUpsert(StartLessonUpsert(t, k), k) == StartLessonUpsert(t, k)
  {
    var r := StartLessonUpsert(t, k);
    assert r[k].(isCompleted := false, timeSpentMinutes := 0) == r[k];
  }

  /** `course_enrollments` is keyed by (intern_id, course_id). */
  predicate EnrollmentsUnique(rows: seq<EnrollmentRow>) {
    forall i, j | 0 <= i < j < |rows| ::
      rows[i].internRef != rows[j].internRef || rows[i].courseRef != rows[j].courseRef
  }

  class ProgressLedger {
    var progress: map<ProgressKey, ProgressRow>
    var enrollments: seq<EnrollmentRow>

    ghost predicate Valid()
      reads this
    {
      ProgressKeysMatch(progress) && EnrollmentsUnique(enrollments)
    }

    constructor (progress: map<ProgressKey, ProgressRow>, enrollments: seq<EnrollmentRow>)
      requires ProgressKeysMatch(progress) && EnrollmentsUnique(enrollments)
      ensures Valid() && this.progress == progress && this.enrollments == enrollments
    {
      this.progress := progress;
      this.enrollments := enrollments;
    }
  }
}
