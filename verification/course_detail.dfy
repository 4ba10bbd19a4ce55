/** The course page (`src/pages/CourseDetail.tsx`): the course's lessons in
    order, the enrollment check, the progress rows of the course's lessons
    (fetched only when enrolled, and for every intern), the derived
    completion figures, and the three writes the page makes: enrolling,
    starting a lesson and "Continue Learning". */
module CourseDetail {
  import opened Common
  import opened Rows
  import opened ProgressStore

  // ---------------------------------------------------------------------------
  // Completion figures
  // ---------------------------------------------------------------------------

  /** `progress.some(p => p.lesson_id === lessonId && p.is_completed)` */
  predicate IsCompleted(progress: seq<ProgressRow>, lessonId: string) {
    exists i | 0 <= i < |progress| :: progress[i].lessonRef == lessonId && progress[i].isCompleted
  }

  /** `progress.filter(p => p.is_completed).length` */
  function CompletedCount(progress: seq<ProgressRow>): (n: nat)
    ensures n <= |progress|
    ensures n == 0 <==> forall i | 0 <= i < |progress| :: !progress[i].isCompleted
  {
    if progress == [] then 0
    else
      var p := progress[..|progress| - 1];
      assert forall i | 0 <= i < |p| :: p[i] == progress[i];
      CompletedCount(p) + (if progress[|progress| - 1].isCompleted then 1 else 0)
  }

  /** The lesson references of the completed rows, in row order. */
  function CompletedRefs(progress: seq<ProgressRow>): (r: seq<string>)
    ensures |r| == CompletedCount(progress)
    ensures forall x :: x in r <==> IsCompleted(progress, x)
  {
    if progress == [] then []
    else
      var p, last := progress[..|progress| - 1], progress[|progress| - 1];
      assert forall i | 0 <= i < |p| :: p[i] == progress[i];
      assert forall x :: IsCompleted(progress, x) <==>
        IsCompleted(p, x) || (last.lessonRef == x && last.isCompleted);
      CompletedRefs(p) + (if last.isCompleted then [last.lessonRef] else [])
  }

  function LessonRefs(progress: seq<ProgressRow>): (r: seq<string>)
    ensures |r| == |progress| && forall i | 0 <= i < |progress| :: r[i] == progress[i].lessonRef
  {
    seq(|progress|, i requires 0 <= i < |progress| => progress[i].lessonRef)
  }

  function LessonIds(lessons: seq<LessonRow>): (r: seq<string>)
    ensures |r| == |lessons| && forall i | 0 <= i < |lessons| :: r[i] == lessons[i].id
  {
    seq(|lessons|, i requires 0 <= i < |lessons| => lessons[i].id)
  }

  /** Rows of one intern name each lesson at most once, and then so do
      their completed rows. */
  lemma {:induction false} CompletedRefsDistinct(progress: seq<ProgressRow>)
    requires Distinct(LessonRefs(progress))
    ensures Distinct(CompletedRefs(progress))
  {
    if progress != [] {
      var p, last := progress[..|progress| - 1], progress[|progress| - 1];
      assert forall i | 0 <= i < |p| :: p[i] == progress[i];
      assert forall i | 0 <= i < |p| :: LessonRefs(p)[i] == LessonRefs(progress)[i];
      CompletedRefsDistinct(p);
      if last.isCompleted {
        var r, q := CompletedRefs(progress), CompletedRefs(p);
        assert r == q + [last.lessonRef];
        forall x | x in q
          ensures x != last.lessonRef
        {
          var i :| 0 <= i < |p| && p[i].lessonRef == x && p[i].isCompleted;
          assert LessonRefs(progress)[i] != LessonRefs(progress)[|progress| - 1];
        }
        forall i, j | 0 <= i < j < |r|
          ensures r[i] != r[j]
        {
          if j < |q| {
            assert r[i] == q[i] && r[j] == q[j];
          } else {
            assert r[i] == q[i] && q[i] in q;
          }
        }
      }
    }
  }

  /** `Math.round((completed / total) * 100)`, or 0 for a course without
      lessons: the whole percent nearest to 100 * completed / total, halves
      rounded up. */
  function Percentage(completed: nat, total: nat): (p: nat)
    ensures total == 0 ==> p == 0
    ensures total > 0 ==> 2 * total * p <= 200 * completed + total < 2 * total * (p + 1)
  {
    if total == 0 then 0 else (200 * completed + total) / (2 * total)
  }

  lemma MulLe(k: nat, a: nat, b: nat)
    requires a <= b
    ensures k * a <= k * b
  {
  }

  /** A share of the lessons gives a percentage between 0 and 100, with 0 for
      none and 100 for all. */
  lemma PercentageInRange(completed: nat, total: nat)
    requires completed <= total
    ensures Percentage(completed, total) <= 100
    ensures completed == 0 ==> Percentage(completed, total) == 0
    ensures 0 < total && completed == total ==> Percentage(completed, total) == 100
  {
    var p := Percentage(completed, total);
    if total > 0 {
      if p > 100 {
        MulLe(2 * total, 101, p);
      }
      if completed == total && p < 100 {
        MulLe(2 * total, p + 1, 100);
      }
    }
  }

  /** Completing more lessons never lowers the percentage. */
  lemma PercentageMonotone(c1: nat, c2: nat, total: nat)
    requires c1 <= c2
    ensures Percentage(c1, total) <= Percentage(c2, total)
  {
    var p1, p2 := Percentage(c1, total), Percentage(c2, total);
    if total > 0 && p1 > p2 {
      MulLe(2 * total, p2 + 1, p1);
    }
  }

  /** The percentage the page shows. */
  function ProgressPercentage(lessons: seq<LessonRow>, progress: seq<ProgressRow>): (p: nat)
    ensures lessons == [] ==> p == 0
    ensures |lessons| > 0 ==> 2 * |lessons| * p <= 200 * CompletedCount(progress) + |lessons|
                                                < 2 * |lessons| * (p + 1)
  {
    Percentage(CompletedCount(progress), |lessons|)
  }

  /** `lessons.find(l => !progress.some(p => p.lesson_id === l.id && p.is_completed))`:
      the first lesson, in course order, that is not completed. */
  function NextLesson(lessons: seq<LessonRow>, progress: seq<ProgressRow>): (r: Option<LessonRow>)
    ensures r.None? <==> forall i | 0 <= i < |lessons| :: IsCompleted(progress, lessons[i].id)
    ensures r.Some? ==> exists i | 0 <= i < |lessons| ::
              lessons[i] == r.value && !IsCompleted(progress, lessons[i].id)
              && forall j | 0 <= j < i :: IsCompleted(progress, lessons[j].id)
  {
    if lessons == [] then None
    else if !IsCompleted(progress, lessons[0].id) then Some(lessons[0])
    else
      var r := NextLesson(lessons[1..], progress);
      assert forall i | 1 <= i < |lessons| :: lessons[i] == lessons[1..][i - 1];
      if r.Some? then
        var i :| 0 <= i < |lessons[1..]| && lessons[1..][i] == r.value && !IsCompleted(progress, lessons[1..][i].id)
                 && forall j | 0 <= j < i :: IsCompleted(progress, lessons[1..][j].id);
        assert lessons[i + 1] == r.value;
        r
      else r
  }

  /** A full course shows 100. Below 200 lessons only a full course does;
      from 200 lessons on, one missing lesson can round up to 100. */
  lemma PercentageFull(completed: nat, total: nat)
    requires completed <= total && 0 < total
    ensures completed == total ==> Percentage(completed, total) == 100
    ensures total < 200 && Percentage(completed, total) == 100 ==> completed == total
  {
    PercentageInRange(completed, total);
  }

  /** 199 of 200 lessons is 99.5%, which the page rounds to 100%. */
  lemma RoundsUpToFullEarly()
    ensures Percentage(199, 200) == 100
  {
  }

  /** In one intern's rows every completed lesson is a lesson of the course,
      so there are no more completed rows than lessons. */
  lemma CompletedWithinCourse(lessons: seq<LessonRow>, progress: seq<ProgressRow>)
    requires Distinct(LessonIds(lessons))
    requires Distinct(LessonRefs(progress))
    requires forall i | 0 <= i < |progress| :: progress[i].lessonRef in LessonIds(lessons)
    ensures CompletedCount(progress) <= |lessons|
  {
    var done := CompletedRefs(progress);
    CompletedRefsDistinct(progress);
    DistinctSubsetLength(done, LessonIds(lessons));
  }

  /** When every lesson is completed, one intern's rows hold a completed row
      per lesson. */
  lemma AllCompletedCount(lessons: seq<LessonRow>, progress: seq<ProgressRow>)
    requires Distinct(LessonIds(lessons))
    requires Distinct(LessonRefs(progress))
    requires NextLesson(lessons, progress).None?
    ensures |lessons| <= CompletedCount(progress)
  {
    var done := CompletedRefs(progress);
    CompletedRefsDistinct(progress);
    forall x | x in LessonIds(lessons)
      ensures x in done
    {
      var i :| 0 <= i < |lessons| && LessonIds(lessons)[i] == x;
      assert IsCompleted(progress, lessons[i].id);
    }
    DistinctSubsetLength(LessonIds(lessons), done);
  }

  /** When some lesson is not completed, one intern's completed rows are
      fewer than the lessons. */
  lemma MissingLessonCount(lessons: seq<LessonRow>, progress: seq<ProgressRow>)
    requires Distinct(LessonIds(lessons))
    requires Distinct(LessonRefs(progress))
    requires forall i | 0 <= i < |progress| :: progress[i].lessonRef in LessonIds(lessons)
    requires NextLesson(lessons, progress).Some?
    ensures CompletedCount(progress) < |lessons|
  {
    var done := CompletedRefs(progress);
    CompletedRefsDistinct(progress);
    var i :| 0 <= i < |lessons| && !IsCompleted(progress, lessons[i].id);
    var missing := lessons[i].id;
    var more := done + [missing];
    forall j, k | 0 <= j < k < |more|
      ensures more[j] != more[k]
    {
      if k < |done| {
        assert more[j] == done[j] && more[k] == done[k];
      } else {
        assert more[j] == done[j] && done[j] in done;
      }
    }
    forall x | x in more
      ensures x in LessonIds(lessons)
    {
      if x != missing {
        assert x in done;
        var m :| 0 <= m < |progress| && progress[m].lessonRef == x && progress[m].isCompleted;
      } else {
        assert LessonIds(lessons)[i] == missing;
      }
    }
    DistinctSubsetLength(more, LessonIds(lessons));
  }

  /** For the rows of one intern (each lesson named at most once) restricted
      to the course's lessons, as the fetch `.in('lesson_id', ...)` returns
      them, the percentage never exceeds 100; it is 100 when "Continue
      Learning" has no lesson left to start, and for a course of fewer than
      200 lessons only then. */
  lemma OneInternPercentage(lessons: seq<LessonRow>, progress: seq<ProgressRow>)
    requires Distinct(LessonIds(lessons))
    requires Distinct(LessonRefs(progress))
    requires forall i | 0 <= i < |progress| :: progress[i].lessonRef in LessonIds(lessons)
    ensures ProgressPercentage(lessons, progress) <= 100
    ensures |lessons| > 0 && NextLesson(lessons, progress).None? ==> ProgressPercentage(lessons, progress) == 100
    ensures 0 < |lessons| < 200 && ProgressPercentage(lessons, progress) == 100 ==> NextLesson(lessons, progress).None?
  {
    CompletedWithinCourse(lessons, progress);
    PercentageInRange(CompletedCount(progress), |lessons|);
    if |lessons| > 0 {
      PercentageFull(CompletedCount(progress), |lessons|);
      if NextLesson(lessons, progress).None? {
        AllCompletedCount(lessons, progress);
      } else {
        MissingLessonCount(lessons, progress);
      }
    }
  }

  /** Progress rows are fetched for every intern. When two interns have
      completed the only lesson of a course, the page shows 200%. */
  lemma TwoInternsDoubleThePercentage(lesson: LessonRow, a: ProgressRow, b: ProgressRow)
    requires a.lessonRef == lesson.id && b.lessonRef == lesson.id
    requires a.isCompleted && b.isCompleted && a.internRef != b.internRef
    ensures ProgressPercentage([lesson], [a, b]) == 200
  {
    assert [a, b][..1] == [a];
    assert CompletedCount([a, b]) == 2;
  }

  // ---------------------------------------------------------------------------
  // Curriculum view
  // ---------------------------------------------------------------------------

  /** `lessons.filter(l => l.module_id === module.id)`, in course order. */
  function LessonsOfModule(lessons: seq<LessonRow>, moduleId: string): (r: seq<LessonRow>)
    ensures |r| <= |lessons|
    ensures forall x | x in r :: x in lessons && x.moduleId == moduleId
    ensures forall i | 0 <= i < |lessons| && lessons[i].moduleId == moduleId :: lessons[i] in r
  {
    if lessons == [] then []
    else
      var p, last := lessons[..|lessons| - 1], lessons[|lessons| - 1];
      assert forall i | 0 <= i < |p| :: p[i] == lessons[i];
      LessonsOfModule(p, moduleId) + (if last.moduleId == moduleId then [last] else [])
  }

  /** The lessons of `lessons` that some row marks completed, in order. */
  function CompletedLessons(lessons: seq<LessonRow>, progress: seq<ProgressRow>): (r: seq<LessonRow>)
    ensures |r| <= |lessons|
    ensures forall x | x in r :: x in lessons && IsCompleted(progress, x.id)
    ensures forall i | 0 <= i < |lessons| && IsCompleted(progress, lessons[i].id) :: lessons[i] in r
  {
    if lessons == [] then []
    else
      var p, last := lessons[..|lessons| - 1], lessons[|lessons| - 1];
      assert forall i | 0 <= i < |p| :: p[i] == lessons[i];
      CompletedLessons(p, progress) + (if IsCompleted(progress, last.id) then [last] else [])
  }

  /** Every lesson is kept exactly when every lesson is completed. */
  lemma {:induction false} CompletedLessonsAll(lessons: seq<LessonRow>, progress: seq<ProgressRow>)
    ensures (|CompletedLessons(lessons, progress)| == |lessons|)
            <==> forall i | 0 <= i < |lessons| :: IsCompleted(progress, lessons[i].id)
  {
    if lessons != [] {
      var p, last := lessons[..|lessons| - 1], lessons[|lessons| - 1];
      CompletedLessonsAll(p, progress);
      var r := CompletedLessons(p, progress);
      var lastDone := IsCompleted(progress, last.id);
      assert CompletedLessons(lessons, progress) == r + (if lastDone then [last] else []);
      assert |r| <= |p|;
      if forall i | 0 <= i < |lessons| :: IsCompleted(progress, lessons[i].id) {
        forall i | 0 <= i < |p|
          ensures IsCompleted(progress, p[i].id)
        {
          assert p[i] == lessons[i];
        }
        assert lastDone;
      }
      if |r| == |p| && lastDone {
        forall i | 0 <= i < |lessons|
          ensures IsCompleted(progress, lessons[i].id)
        {
          if i < |p| {
            assert lessons[i] == p[i];
          }
        }
      }
    }
  }

  /** No lesson is kept when none is completed. */
  lemma {:induction false} CompletedLessonsNone(lessons: seq<LessonRow>, progress: seq<ProgressRow>)
    requires forall i | 0 <= i < |lessons| :: !IsCompleted(progress, lessons[i].id)
    ensures CompletedLessons(lessons, progress) == []
  {
    if lessons != [] {
      var p, last := lessons[..|lessons| - 1], lessons[|lessons| - 1];
      forall i | 0 <= i < |p|
        ensures !IsCompleted(progress, p[i].id)
      {
        assert p[i] == lessons[i];
      }
      CompletedLessonsNone(p, progress);
      assert !IsCompleted(progress, last.id);
    }
  }

  /** The "k/n lessons" badge of a module: k completed lessons out of the
      module's n, with k == n exactly when every lesson of the module is
      completed. */
  function CompletedInModule(lessons: seq<LessonRow>, progress: seq<ProgressRow>, moduleId: string): (k: nat)
    ensures k <= |LessonsOfModule(lessons, moduleId)|
    ensures k == |LessonsOfModule(lessons, moduleId)| <==>
              forall x | x in LessonsOfModule(lessons, moduleId) :: IsCompleted(progress, x.id)
  {
    var m := LessonsOfModule(lessons, moduleId);
    assert (forall x | x in m :: IsCompleted(progress, x.id)) <==>
           (forall i | 0 <= i < |m| :: IsCompleted(progress, m[i].id));
    CompletedLessonsAll(m, progress);
    |CompletedLessons(m, progress)|
  }

  /** `enrollment || lesson.content_type === 'text'`: text lessons can be
      opened without enrolling, every other lesson needs the enrollment. */
  predicate CanAccess(enrolled: bool, lesson: LessonRow)
    ensures enrolled ==> CanAccess(enrolled, lesson)
    ensures !enrolled ==> (CanAccess(enrolled, lesson) <==> lesson.contentType == Text)
  {
    enrolled || lesson.contentType == Text
  }

  /** The lesson button reads "Review" on a completed lesson and "Start"
      otherwise; both start the lesson. */
  function LessonButtonLabel(progress: seq<ProgressRow>, lesson: LessonRow): (caption: string)
    ensures caption in {"Review", "Start"}
    ensures caption == "Review" <==> IsCompleted(progress, lesson.id)
  {
    if IsCompleted(progress, lesson.id) then "Review" else "Start"
  }

  /** Without an enrollment the page fetches no progress (`progressData = []`):
      nothing is completed, the percentage is 0 and "Continue Learning"
      would start the first lesson. */
  lemma NoProgressWithoutEnrollment(lessons: seq<LessonRow>, moduleId: string)
    ensures ProgressPercentage(lessons, []) == 0
    ensures CompletedInModule(lessons, [], moduleId) == 0
    ensures lessons != [] ==> NextLesson(lessons, []) == Some(lessons[0])
  {
    assert CompletedCount([]) == 0;
    PercentageInRange(0, |lessons|);
    var m := LessonsOfModule(lessons, moduleId);
    assert forall i | 0 <= i < |m| :: !IsCompleted([], m[i].id);
    CompletedLessonsNone(m, []);
    if lessons != [] {
      assert !IsCompleted([], lessons[0].id);
    }
  }

  // ---------------------------------------------------------------------------
  // Enrollment
  // ---------------------------------------------------------------------------

  /** The number of enrollment rows for a course, of any intern. */
  function CourseEnrollmentCount(enrollments: seq<EnrollmentRow>, courseId: string): (n: nat)
    ensures n <= |enrollments|
    ensures n == 0 <==> forall i | 0 <= i < |enrollments| :: enrollments[i].courseRef != courseId
  {
    if enrollments == [] then 0
    else
      var p := enrollments[..|enrollments| - 1];
      assert forall i | 0 <= i < |p| :: p[i] == enrollments[i];
      CourseEnrollmentCount(p, courseId) + (if enrollments[|enrollments| - 1].courseRef == courseId then 1 else 0)
  }

  /** `.from('course_enrollments').select('*').eq('course_id', courseId).single()`
      yields a row, and the page counts as enrolled, exactly when one row of
      any intern exists for the course. */
  predicate IsEnrolled(enrollments: seq<EnrollmentRow>, courseId: string) {
    CourseEnrollmentCount(enrollments, courseId) == 1
  }

  predicate HasEnrollment(enrollments: seq<EnrollmentRow>, internRef: string, courseId: string) {
    exists i | 0 <= i < |enrollments| :: enrollments[i].internRef == internRef && enrollments[i].courseRef == courseId
  }

  /** Enrolling in a course nobody has enrolled in unlocks it. */
  lemma EnrollUnlocksEmptyCourse(enrollments: seq<EnrollmentRow>, courseId: string)
    requires forall i | 0 <= i < |enrollments| :: enrollments[i].courseRef != courseId
    ensures IsEnrolled(enrollments + [EnrollmentRow(MockIntern, courseId, Enrolled)], courseId)
  {
    assert (enrollments + [EnrollmentRow(MockIntern, courseId, Enrolled)])[..|enrollments|] == enrollments;
  }

  /** Once two interns are enrolled in a course the page never counts as
      enrolled again: every further enrollment adds to the count. */
  lemma CrowdedCourseStaysLocked(enrollments: seq<EnrollmentRow>, courseId: string, row: EnrollmentRow)
    requires CourseEnrollmentCount(enrollments, courseId) >= 2
    ensures !IsEnrolled(enrollments, courseId)
    ensures !IsEnrolled(enrollments + [row], courseId)
  {
    assert (enrollments + [row])[..|enrollments|] == enrollments;
  }

  /** `handleEnroll()`: insert an enrollment of the fixed intern. The
      (intern, course) key rejects a second enrollment of the same intern. */
  method HandleEnroll(ledger: ProgressLedger, courseId: string, writeFails: bool) returns (ok: bool)
    requires ledger.Valid()
    modifies ledger
    ensures ledger.Valid() && ledger.progress == old(ledger.progress)
    ensures ok <==> !writeFails && !HasEnrollment(old(ledger.enrollments), MockIntern, courseId)
    ensures ledger.enrollments == if ok then old(ledger.enrollments) + [EnrollmentRow(MockIntern, courseId, Enrolled)]
                                  else old(ledger.enrollments)
  {
    if writeFails || HasEnrollment(ledger.enrollments, MockIntern, courseId) {
      return false;
    }
    ledger.enrollments := ledger.enrollments + [EnrollmentRow(MockIntern, courseId, Enrolled)];
    ok := true;
  }

  // ---------------------------------------------------------------------------
  // Starting lessons
  // ---------------------------------------------------------------------------

  /** `startLesson(lessonId)`: reset the fixed intern's row for the lesson to
      not completed with no minutes. */
  method StartLesson(ledger: ProgressLedger, lessonId: string, writeFails: bool) returns (ok: bool)
    requires ledger.Valid()
    modifies ledger
    ensures ledger.Valid() && ledger.enrollments == old(ledger.enrollments)
    ensures ok == !writeFails
    ensures ledger.progress == if ok then StartLessonUpsert(old(ledger.progress), (MockIntern, lessonId))
                               else old(ledger.progress)
  {
    if writeFails {
      return false;
    }
    ledger.progress := StartLessonUpsert(ledger.progress, (MockIntern, lessonId));
    ok := true;
  }

  /** A lesson's Start/Review button: disabled on a lesson the intern cannot
      access, so pressing it writes nothing; otherwise it starts the lesson. */
  method PressLessonButton(ledger: ProgressLedger, enrolled: bool, lesson: LessonRow, writeFails: bool)
    returns (ok: bool)
    requires ledger.Valid()
    modifies ledger
    ensures ledger.Valid() && ledger.enrollments == old(ledger.enrollments)
    ensures ok <==> CanAccess(enrolled, lesson) && !writeFails
    ensures !CanAccess(enrolled, lesson) ==> ledger.progress == old(ledger.progress)
    ensures ledger.progress == if ok then StartLessonUpsert(old(ledger.progress), (MockIntern, lesson.id))
                               else old(ledger.progress)
  {
    if !CanAccess(enrolled, lesson) {
      return false;
    }
    ok := StartLesson(ledger, lesson.id, writeFails);
  }

  /** "Continue Learning": start the first lesson not yet completed, if any.
      The answer is the lesson started. */
  method ContinueLearning(ledger: ProgressLedger, lessons: seq<LessonRow>, progress: seq<ProgressRow>,
                          writeFails: bool)
    returns (started: Option<string>)
    requires ledger.Valid()
    modifies ledger
    ensures ledger.Valid() && ledger.enrollments == old(ledger.enrollments)
    ensures NextLesson(lessons, progress).None? ==> started == None && ledger.progress == old(ledger.progress)
    ensures NextLesson(lessons, progress).Some? && writeFails ==>
              started == None && ledger.progress == old(ledger.progress)
    ensures NextLesson(lessons, progress).Some? && !writeFails ==>
              var id := NextLesson(lessons, progress).value.id;
              started == Some(id) && !IsCompleted(progress, id)
              && ledger.progress == StartLessonUpsert(old(ledger.progress), (MockIntern, id))
  {
    var next := NextLesson(lessons, progress);
    if next.None? {
      return None;
    }
    var ok := StartLesson(ledger, next.value.id, writeFails);
    started := if ok then Some(next.value.id) else None;
  }
}
