# Metro intern check-in system — a Dafny model of its core

The system is a React front end over a Supabase (PostgreSQL) database. It is
used by a metro operator's internship office in three ways:

- the attendance desk records interns' daily check-ins and check-outs;
- dashboards roll today's attendance up into totals and per-department counts;
- a small learning area lets an intern enrol in courses, open lessons and
  record progress.

Interns are registered through one of two add-intern forms, and staff sign in
through a sign-in/sign-up page.

This project models the logic under the markup: the table writes, the roll-ups
and the validators. The tables are values held by classes:

- `InternDirectory` holds the `interns` table as a sequence of rows. Its
  insert enforces the unique id, intern code and e-mail columns.
- `AttendanceDesk` holds the `attendance` table as a map keyed by
  (intern, date), which is the upsert's conflict target.
- `ProgressLedger` holds the `lesson_progress` map, keyed by (intern, lesson),
  and the `course_enrollments` rows.

Each page that changes state is a class or a method over these stores. Each
computation a page only displays is a function, and lemmas state what the
page promises about it.

Error answers of the store are boolean parameters (`lookupFails`,
`writeFails`, …), as is an auth service error (an optional message). The
lesson page never reads its progress fetch's error, so `progressFails` there
yields the same "no row" as a missing one. Clock
readings (today's ISO date, the current timestamp) are string parameters, and
so are database-assigned ids.

Files and modules:

| file | module | models |
|---|---|---|
| common.dfy | Common | JS whitespace and `trim`, ASCII case mapping, `includes`, counting helpers |
| rows.dfy | Rows | row shapes and enums of `src/integrations/supabase/types.ts` |
| intern_store.dfy | InternStore | the `interns` table, `.eq(...).single()` lookups, insert, the active-flag update |
| attendance_form.dfy | AttendanceForm | `src/components/AttendanceForm.tsx` |
| progress_store.dfy | ProgressStore | the two learning tables and their upserts |
| lesson_viewer.dfy | LessonViewer | `src/pages/LessonViewer.tsx` |
| course_detail.dfy | CourseDetail | `src/pages/CourseDetail.tsx` |
| dashboard.dfy | Dashboard | `src/pages/Index.tsx` and `src/pages/Index.js` |
| attendance_stats.dfy | AttendanceStats | `src/components/AttendanceStats.tsx` |
| interns_list.dfy | InternsList | `src/components/InternsList.tsx` |
| course_catalog.dfy | CourseCatalog | `src/pages/CourseCatalog.tsx` |
| intern_registration.dfy | InternRegistration | `src/components/AddInternForm.js` |
| add_intern_form.dfy | AddInternForm | `src/components/AddInternForm.tsx` |
| intern_management.dfy | InternManagement | `src/pages/InternManagement.tsx` |
| auth.dfy | Auth | the validation and reply handling of `src/pages/Auth.tsx` |

## Model

| member | source | states |
|---|---|---|
| Common.TrimEmptyIffBlank | src/components/AttendanceForm.tsx:25 | `trim()` leaves nothing exactly when every character is JS white space, so the desk's blank test is `!internId.trim()` |
| Rows.StatusName | src/integrations/supabase/types.ts:713 | every status is spelled as one of the three database values `present`, `absent`, `late` |
| Rows.StatusNameInjective | src/integrations/supabase/types.ts:713 | distinct statuses have distinct spellings, so a string comparison against a status tells statuses apart |
| Rows.CountStatus | src/pages/Index.tsx:68-69 | a `filter(status === s).length` count never exceeds the number of rows |
| Rows.StatusCountsSum | src/components/AttendanceStats.tsx:25-28 | because a status is one of three values, the present, late and absent counts add up to the number of rows |
| Rows.RowStatusCountsSum | src/components/AttendanceStats.tsx:25-28 | the same sum, stated over attendance rows |
| InternStore.RowsWhere | src/components/AddInternForm.js:74-78 | `.eq(col, v)` never selects more rows than the table holds |
| InternStore.RowsWhereMembers | src/components/AddInternForm.js:74-78 | the selection holds exactly the rows whose column holds `v`, and nothing when no row holds it |
| InternStore.RowsWhereAppend | src/components/AddInternForm.js:74-78 | the selection keeps table order: selecting from two stretches of the table concatenates the two selections |
| InternStore.RowsWhereOne | src/components/AddInternForm.js:74-78 | a single row is selected exactly when its column holds `v`, so with `RowsWhereAppend` the selection and its size are fixed |
| InternStore.Single | src/components/AddInternForm.js:78-82 | `.single()` finds a row only when exactly one row matches; no match, several matches and a store error give an error, and only the last is not PGRST116 |
| InternStore.UniqueColumnMatchesOnce | src/components/AddInternForm.js:74-78 | on a unique column a value matches at most one row |
| InternStore.UniqueLookup | src/components/AddInternForm.js:74-84 | on a unique column, `.single()` finds a row exactly when some row holds the value, and then finds that row |
| InternStore.WithActiveFlag | src/pages/InternManagement.tsx:56-59 | the update changes only `is_active`, only on the rows with the given id, keeps every other row and the length of the table |
| InternStore.WithActiveFlagKeepsColumns | src/pages/InternManagement.tsx:56-59 | changing the flag keeps every lookup column unchanged and keeps unique columns unique |
| InternStore.InternDirectory.constructor | src/integrations/supabase/types.ts:367-379 | a directory starts with the given rows, which have unique id, code and e-mail columns |
| InternStore.InternDirectory.Find | src/components/AttendanceForm.tsx:38-42 | a found row is in the table and holds the value looked up; an error is reported exactly when the store fails |
| InternStore.InternDirectory.Insert | src/components/AddInternForm.tsx:67-72 | an insert that repeats an id, code or e-mail is refused as a unique violation (23505), a store error as an error; otherwise the row is appended; the columns stay unique |
| InternStore.InternDirectory.SetActive | src/pages/InternManagement.tsx:56-61 | a successful update replaces the table by `WithActiveFlag` of it; a failed one leaves it as it was |
| AttendanceForm.AtMostOneRowPerInternPerDay | src/components/AttendanceForm.tsx:66-68 | in a table keyed by the conflict target, two rows for the same intern and date are the same row |
| AttendanceForm.CheckInUpsert | src/components/AttendanceForm.tsx:58-68 | check-in creates or overwrites the (intern, date) row with the status, check-in time and notes; it keeps an earlier check-out time, touches no other row and keeps the keying invariant |
| AttendanceForm.CheckOutUpdate | src/components/AttendanceForm.tsx:78-85 | check-out sets check-out time and notes of the (intern, date) row and keeps its status and check-in time; it never creates a row, and with no such row the table is unchanged |
| AttendanceForm.LastCheckInWins | src/components/AttendanceForm.tsx:58-68 | after any series of check-ins, each key's row carries the status, time and notes of the last check-in for that key |
| AttendanceForm.CheckInsAddNamedKeys | src/components/AttendanceForm.tsx:59-66 | after any series of check-ins the table holds exactly the earlier keys and the keys the calls name, one row each |
| AttendanceForm.CheckInsKeepCheckOut | src/components/AttendanceForm.tsx:59-66 | check-ins keep every stored row and its check-out time, and leave the check-out null on rows they create |
| AttendanceForm.LowerCaseCodeNeverResolves | src/components/AttendanceForm.tsx:41 | the code is upper-cased before the lookup, so an intern whose stored code has a lower-case letter is never found |
| AttendanceForm.AttendanceDesk.ResolveCode | src/components/AttendanceForm.tsx:38-42 | the typed code is upper-cased and looked up with `.single()` on the intern code column |
| AttendanceForm.LateCheckInThenCheckOut | src/components/AttendanceForm.tsx:45-79 | a late check-in then a check-out leave one row holding the late status and both times |
| AttendanceForm.AttendanceDesk.constructor | src/components/AttendanceForm.tsx:18-20 | the form starts with an empty code, empty notes and status present |
| AttendanceForm.AttendanceDesk.MarkAttendance | src/components/AttendanceForm.tsx:24-98 | a blank code is refused and an unknown code reported, both before any write; a write error changes nothing; success applies `CheckInUpsert` or `CheckOutUpdate` for (intern, today), clears code and notes and keeps the selected status |
| ProgressStore.ProgressUpsert | src/pages/LessonViewer.tsx:82-91 | the viewer's upsert writes flag, minutes and notes of (intern, lesson), sets `completed_at` exactly when the flag is true, and keeps every other row |
| ProgressStore.StartLessonUpsert | src/pages/CourseDetail.tsx:136-143 | starting a lesson writes `is_completed = false` and 0 minutes, keeps the row's notes and completion stamp, and keeps every other row |
| ProgressStore.ProgressUpsertKeepsStampsPaired | src/pages/LessonViewer.tsx:87-90 | when every row has a stamp exactly when it is completed, the viewer's upsert keeps that pairing |
| ProgressStore.StartLessonUncompletes | src/pages/CourseDetail.tsx:136-143 | starting a completed lesson turns it back to not completed, drops its minutes and leaves its old stamp behind |
| ProgressStore.StartLessonIdempotent | src/pages/CourseDetail.tsx:136-143 | starting the same lesson twice writes the same table as starting it once |
| ProgressStore.ProgressLedger.constructor | src/integrations/supabase/types.ts:406-415 | the ledger starts from a progress map keyed by its rows' (intern, lesson) and enrollments unique per (intern, course) |
| LessonViewer.LessonKeys | src/pages/LessonViewer.tsx:59 | the keys the lesson filter selects are the rows of that lesson, of every intern |
| LessonViewer.FetchProgress | src/pages/LessonViewer.tsx:56-60 | the progress fetch finds a row only when exactly one intern has a row for the lesson, and then it is that row |
| LessonViewer.NotesShown | src/pages/LessonViewer.tsx:64 | the notes box shows the stored notes, or is empty when there is no row or no notes |
| LessonViewer.FetchFindsOwnRow | src/pages/LessonViewer.tsx:56-60 | when the fixed intern alone has a row for the lesson, the fetch finds it |
| LessonViewer.SecondInternHidesProgress | src/pages/LessonViewer.tsx:56-64 | once a second intern has a row for the lesson, the page loads no progress and empty notes |
| LessonViewer.SavedRowReadsBack | src/pages/LessonViewer.tsx:82-102 | after a save the reload shows the written flag, minutes and notes |
| LessonViewer.SaveNeverLowersMinutes | src/pages/LessonViewer.tsx:88 | a save from freshly loaded data stores the earlier minutes plus the session minutes, so stored time never decreases |
| LessonViewer.LessonSession.Open | src/pages/LessonViewer.tsx:34-64 | opening the page starts the timer at 0; a loaded lesson shows the fetched progress row and its notes, or no row when the progress fetch failed; a failed lesson load leaves the lesson unloaded and no progress |
| LessonViewer.LessonSession.SessionTotal | src/pages/LessonViewer.tsx:306 | the minutes shown and written are the stored minutes (0 without a row) plus the session counter |
| LessonViewer.LessonSession.Tick | src/pages/LessonViewer.tsx:26-28 | a timer tick adds exactly one minute and changes nothing else |
| LessonViewer.LessonSession.EditNotes | src/pages/LessonViewer.tsx:17 | typing changes the notes only |
| LessonViewer.LessonSession.Reload | src/pages/LessonViewer.tsx:34-64 | a failed lesson fetch keeps everything shown; otherwise the lesson is loaded and the progress row is read back through `FetchProgress`, or as no row when its fetch failed; the timer is kept |
| LessonViewer.LessonSession.UpdateProgress | src/pages/LessonViewer.tsx:78-111 | only on a loaded lesson; a successful write applies `ProgressUpsert` with the session total and reloads; a failed write changes nothing; the timer is never reset |
| LessonViewer.LessonSession.SaveNotes | src/pages/LessonViewer.tsx:113-114 | only on a loaded lesson; saving notes writes the completion flag of the loaded row with the session total and the notes; a failed write changes nothing, a failed reload keeps the shown row and notes, a successful one shows the fetched row |
| LessonViewer.LoadedRowSaveKeepsCompletion | src/pages/LessonViewer.tsx:113-114 | when the fixed intern's row was loaded, saving notes never un-completes the lesson |
| LessonViewer.HiddenRowSaveUncompletes | src/pages/LessonViewer.tsx:113-114 | when a second intern's row hid a completed row, saving notes writes the lesson back as not completed and drops its stamp |
| LessonViewer.LessonSession.ShowsMarkComplete | src/pages/LessonViewer.tsx:132-316 | the "Mark as Complete" button is shown exactly on a loaded lesson whose loaded row is not completed |
| LessonViewer.LoadedProgress | src/pages/LessonViewer.tsx:56-60 | a failed progress fetch reads as no row; otherwise the page sees `FetchProgress` |
| LessonViewer.FailedFetchSaveUncompletes | src/pages/LessonViewer.tsx:56-114 | after a failed progress fetch, saving notes writes the lesson as not completed with only this visit's minutes |
| LessonViewer.NotFoundShowsNoButton | src/pages/LessonViewer.tsx:132-144 | when the lesson cannot be loaded, no "Mark as Complete" button is shown |
| LessonViewer.MarkCompleteHidesButton | src/pages/LessonViewer.tsx:309-316 | after marking complete, with the fixed intern alone on the lesson, the button is hidden and the row is completed and stamped |
| LessonViewer.SavingTwiceCountsSessionTwice | src/pages/LessonViewer.tsx:82-91 | two saves on one visit store the earlier minutes plus twice the session minutes |
| CourseDetail.IsCompleted | src/pages/CourseDetail.tsx:280 | a lesson is completed when some fetched progress row for it is marked completed |
| CourseDetail.CompletedCount | src/pages/CourseDetail.tsx:183 | the completed count is at most the number of rows and is 0 exactly when no row is completed |
| CourseDetail.CompletedRefs | src/pages/CourseDetail.tsx:183 | the completed rows' lessons are exactly the lessons some row marks completed |
| CourseDetail.CompletedRefsDistinct | src/pages/CourseDetail.tsx:183 | rows naming each lesson once give completed rows naming each lesson once |
| CourseDetail.Percentage | src/pages/CourseDetail.tsx:185 | 0 for an empty course, otherwise the integer nearest 100·completed/total with halves rounded up |
| CourseDetail.PercentageInRange | src/pages/CourseDetail.tsx:185 | with completed ≤ total the percentage is in 0..100, 0 for nothing done and 100 for everything done |
| CourseDetail.PercentageMonotone | src/pages/CourseDetail.tsx:185 | completing more lessons never lowers the percentage |
| CourseDetail.ProgressPercentage | src/pages/CourseDetail.tsx:183-185 | the page's figure is `Percentage` of the completed rows over all the course's lessons |
| CourseDetail.NextLesson | src/pages/CourseDetail.tsx:402 | "Continue Learning" finds the first lesson, in course order, with no completed row, and nothing exactly when every lesson is completed |
| CourseDetail.PercentageFull | src/pages/CourseDetail.tsx:185 | a full course shows 100; below 200 lessons only a full course does |
| CourseDetail.RoundsUpToFullEarly | src/pages/CourseDetail.tsx:185 | 199 of 200 lessons shows 100% |
| CourseDetail.CompletedWithinCourse | src/pages/CourseDetail.tsx:77-80 | one intern's completed rows for the course's lessons are no more than the lessons |
| CourseDetail.AllCompletedCount | src/pages/CourseDetail.tsx:183-185 | when every lesson is completed, one intern's completed rows number at least the lessons |
| CourseDetail.MissingLessonCount | src/pages/CourseDetail.tsx:183-185 | when a lesson is not completed, one intern's completed rows number fewer than the lessons |
| CourseDetail.OneInternPercentage | src/pages/CourseDetail.tsx:183-185 | for one intern's rows the percentage is at most 100, is 100 when no next lesson remains, and (below 200 lessons) 100 only then |
| CourseDetail.TwoInternsDoubleThePercentage | src/pages/CourseDetail.tsx:77-80 | progress is fetched for every intern, so two interns completing a one-lesson course show 200% |
| CourseDetail.LessonsOfModule | src/pages/CourseDetail.tsx:259 | a module's lessons are exactly the course lessons with that module id |
| CourseDetail.CompletedLessons | src/pages/CourseDetail.tsx:260-262 | the completed lessons are exactly the lessons some row marks completed, and never more than the lessons given |
| CourseDetail.CompletedLessonsAll | src/pages/CourseDetail.tsx:260-262 | every lesson is counted exactly when every lesson is completed |
| CourseDetail.CompletedLessonsNone | src/pages/CourseDetail.tsx:260-262 | no lesson is counted when none is completed |
| CourseDetail.CompletedInModule | src/pages/CourseDetail.tsx:259-262 | a module's badge counts at most its lessons, and all of them exactly when every lesson of the module is completed |
| CourseDetail.CanAccess | src/pages/CourseDetail.tsx:281 | a lesson is open when the course is enrolled, and otherwise exactly when it is a text lesson |
| CourseDetail.LessonButtonLabel | src/pages/CourseDetail.tsx:309 | the button reads "Review" exactly on a completed lesson, otherwise "Start" |
| CourseDetail.NoProgressWithoutEnrollment | src/pages/CourseDetail.tsx:74-82 | without an enrollment no progress is loaded: 0%, no module lesson completed, and the first lesson is next |
| CourseDetail.IsEnrolled | src/pages/CourseDetail.tsx:68-72 | the page counts as enrolled only when `.single()` finds exactly one enrollment of the course, whoever holds it |
| CourseDetail.CourseEnrollmentCount | src/pages/CourseDetail.tsx:68-72 | the enrollments of a course are at most all enrollments, and none exactly when no row names the course |
| CourseDetail.EnrollUnlocksEmptyCourse | src/pages/CourseDetail.tsx:102-121 | enrolling in a course nobody is enrolled in makes the page count it as enrolled |
| CourseDetail.CrowdedCourseStaysLocked | src/pages/CourseDetail.tsx:68-72 | with two enrollments for a course the `.single()` fetch finds none, and another enrollment does not change that |
| CourseDetail.HandleEnroll | src/pages/CourseDetail.tsx:102-130 | enrolling appends the fixed intern's row with status enrolled unless the write fails or the (intern, course) row exists; progress is untouched |
| CourseDetail.StartLesson | src/pages/CourseDetail.tsx:132-156 | a successful start applies `StartLessonUpsert` for the fixed intern; a failed one changes nothing; enrollments are untouched |
| CourseDetail.PressLessonButton | src/pages/CourseDetail.tsx:304-310 | the Start/Review button of a lesson the intern cannot access is disabled and writes nothing; an accessible one starts the lesson |
| CourseDetail.ContinueLearning | src/pages/CourseDetail.tsx:401-405 | the button starts `NextLesson` when there is one and does nothing when every lesson is completed |
| Dashboard.ActiveInterns | src/pages/Index.tsx:28-32 | the dashboards list exactly the active interns |
| Dashboard.DayListingOnePerIntern | src/pages/Index.tsx:37-48 | today's listing holds only rows dated today and, by the conflict target, names each intern at most once |
| Dashboard.GetTodayStats | src/pages/Index.tsx:66-73 | total is the number of listed interns, present and late count rows with that status, and present + late + absent = total; `getAttendanceStats` of `src/pages/Index.js` (lines 74-80) is the same computation |
| Dashboard.AbsentMeansMarkedOrMissing | src/pages/Index.tsx:68-70 | when today's rows belong to listed interns, one each, absent is the rows marked absent plus the interns without a row, hence non-negative |
| Dashboard.InactiveCheckInMakesAbsentNegative | src/pages/Index.tsx:70 | absent is not clamped: a present row of an unlisted intern makes it −1 |
| Dashboard.FindById | src/pages/Index.js:96 | `interns.find` returns the first listed intern with the id, and nothing exactly when none has it |
| Dashboard.DeptTotal | src/pages/Index.js:87-92 | a department's total is the number of listed interns in it |
| Dashboard.DeptPresent | src/pages/Index.js:95-100 | a department's present figure is the number of present rows of its listed interns |
| Dashboard.PresentRefs | src/pages/Index.js:95-100 | only present rows of listed interns of the department are counted, each row once |
| Dashboard.CountDepartments | src/pages/Index.js:87-92 | every listed intern's department gets exactly one entry, counting its interns, with nobody present yet |
| Dashboard.GetDepartmentStats | src/pages/Index.js:83-103 | every listed intern's department gets exactly one entry holding its number of interns and its number of present rows of listed interns |
| Dashboard.DeptTotalsPartition | src/pages/Index.js:87-92 | the department totals add up to the number of listed interns |
| Dashboard.DeptIds | src/pages/Index.js:87-92 | a department's interns number its total, and every intern of it is among them |
| Dashboard.DeptIdsDistinct | src/pages/Index.js:87-92 | with unique intern ids, a department lists each intern once |
| Dashboard.DeptIdsOf | src/pages/Index.js:87-92 | every intern of a department is a listed intern |
| Dashboard.PresentRefsDistinct | src/pages/Index.js:95-100 | one row per intern gives counted rows naming each intern once |
| Dashboard.DeptPresentAtMostTotal | src/pages/Index.js:95-100 | with one row per intern, no department has more present than interns |
| Dashboard.OnlyListedPresentRowsCount | src/pages/Index.js:96-97 | rows that are not present, or whose intern is not listed, change no department's figure |
| AttendanceStats.Share | src/components/AttendanceStats.tsx:30-32 | a share is `count/total·100` as an exact rational, 0 without rows, between 0 and 100 |
| AttendanceStats.GetStatsData | src/components/AttendanceStats.tsx:24-43 | total is the number of rows, each count the rows with that status, the counts add up to total, and each percentage is its count's share |
| AttendanceStats.SharesSum | src/components/AttendanceStats.tsx:30-32 | three counts making up the whole give shares summing to exactly 100 |
| AttendanceStats.SharesAddUp | src/components/AttendanceStats.tsx:30-32 | with rows the three percentages sum to 100; without rows all three are 0 |
| AttendanceStats.PieSlices | src/components/AttendanceStats.tsx:68-72 | the pie keeps exactly the categories with a positive count, in the order Present, Late, Absent |
| AttendanceStats.PieSumsCounts | src/components/AttendanceStats.tsx:68-72 | the slices kept add up to the present, late and absent counts |
| AttendanceStats.PieCoversAllRows | src/components/AttendanceStats.tsx:68-72 | the slices add up to the number of rows |
| AttendanceStats.DeptStatusesLength | src/components/AttendanceStats.tsx:48-55 | a department is tallied once per counted row of it |
| AttendanceStats.DeptRowOf | src/components/AttendanceStats.tsx:58-62 | a department row holds the tallies of its rows by status and their total |
| AttendanceStats.GatherTallies | src/components/AttendanceStats.tsx:46-56 | the loop gathers one tally per department, in first-appearance order, skipping rows without a department, each row bumping its own status |
| AttendanceStats.GetDepartmentStats | src/components/AttendanceStats.tsx:45-63 | the breakdown is one `DeptRowOf` row per department, in first-appearance order |
| AttendanceStats.BreakdownCoversCountedRows | src/components/AttendanceStats.tsx:48-62 | the department totals add up to the number of rows with a department, and to all rows when every row has one |
| InternsList.FirstRecordIndex | src/components/InternsList.tsx:28 | the position found is that of the first record of the intern, or past the end when there is none |
| InternsList.FindRecord | src/components/InternsList.tsx:32-34 | a record is found exactly when one names the intern, and it is one of today's records for that intern |
| InternsList.StatusOf | src/components/InternsList.tsx:27-30 | an intern without a record is absent; otherwise the status is that of the found record |
| InternsList.StatusLabel | src/components/InternsList.tsx:36-66 | present, late and absent get their capitalised captions and any other value "Unknown" |
| InternsList.FormatTime | src/components/InternsList.tsx:68-69 | a missing or empty time shows "--"; any other goes through the formatter |
| InternsList.RowFor | src/components/InternsList.tsx:102-116 | an intern's row shows code, name and department, and its badge and both times come from the same first record |
| InternsList.ListRows | src/components/InternsList.tsx:102 | one row per intern, in the given order |
| InternsList.ShowsNoInterns | src/components/InternsList.tsx:117 | the empty message is shown when there are no interns |
| InternsList.EmptyMessageIffNoRows | src/components/InternsList.tsx:117-123 | the empty message shows exactly when there are no rows |
| InternsList.BadgeNeverUnknown | src/components/InternsList.tsx:103-111 | a status read from a record or defaulted always has a known caption |
| InternsList.OneRecordPerInternIsFound | src/components/InternsList.tsx:27-34 | with one record per intern, the intern's own record and status are shown |
| InternsList.EarlierRecordWins | src/components/InternsList.tsx:28 | with several records for an intern, the first one is shown |
| CourseCatalog.MatchesSearch | src/pages/CourseCatalog.tsx:86-87 | the lower-cased title, or the lower-cased description when there is one, contains the lower-cased term |
| CourseCatalog.MatchesDifficulty | src/pages/CourseCatalog.tsx:88 | 'all' or the course's own level passes |
| CourseCatalog.Keeps | src/pages/CourseCatalog.tsx:89 | a course is kept when both tests pass |
| CourseCatalog.FilterCourses | src/pages/CourseCatalog.tsx:85-90 | a course is listed exactly when it matches the search and the difficulty, and the list is no longer than the catalogue |
| CourseCatalog.FilterAppend | src/pages/CourseCatalog.tsx:85 | filtering a concatenation filters each part, so the result keeps the fetched order |
| CourseCatalog.FilterIdempotent | src/pages/CourseCatalog.tsx:85-90 | re-filtering the listed courses lists them again |
| CourseCatalog.EmptySearchMatches | src/pages/CourseCatalog.tsx:86-87 | the empty search term, the initial one, matches every course |
| CourseCatalog.EmptySearchKeepsAll | src/pages/CourseCatalog.tsx:86-88 | an empty search lists exactly the courses that pass the difficulty test |
| CourseCatalog.EmptySearchAllLevelsListsAll | src/pages/CourseCatalog.tsx:16-17 | with the initial empty search and "all" selected, every fetched course is listed, in order |
| CourseCatalog.MissingDescriptionSearchesTitle | src/pages/CourseCatalog.tsx:87 | a course without description is found by its title alone |
| CourseCatalog.SearchIgnoresCase | src/pages/CourseCatalog.tsx:86-87 | lower-casing the search term first lists the same courses |
| CourseCatalog.AllIgnoresDifficulty | src/pages/CourseCatalog.tsx:88 | with "all" selected only the search decides |
| CourseCatalog.NoCoursesFoundIff | src/pages/CourseCatalog.tsx:220 | "No courses found" shows exactly when no fetched course passes |
| InternRegistration.ValidEmail | src/components/AddInternForm.js:52 | the address splits at its first '@' into a non-empty plain local part and a plain domain with an inner dot (equal to the pattern by `ValidEmailIffPattern`) |
| InternRegistration.IndexOf | src/components/AddInternForm.js:52 | the position found is the first occurrence of the character, or the end |
| InternRegistration.FirstAt | src/components/AddInternForm.js:52 | an '@' preceded only by plain characters is the first '@' |
| InternRegistration.ValidEmailMatches | src/components/AddInternForm.js:52-53 | every address the check accepts has the shape the pattern matches |
| InternRegistration.MatchIsValidEmail | src/components/AddInternForm.js:52-53 | every address the pattern matches is accepted |
| InternRegistration.ValidEmailIffPattern | src/components/AddInternForm.js:52-53 | the check accepts exactly the addresses matching `^[^\s@]+@[^\s@]+\.[^\s@]+$` |
| InternRegistration.ValidEmailShape | src/components/AddInternForm.js:52-53 | an accepted address has no white space and exactly one '@' |
| InternRegistration.JoinedAddressIsValid | src/components/AddInternForm.js:52-53 | a non-empty plain local part, an '@' and a plain domain with an inner dot always pass the pattern |
| InternRegistration.SampleAddressAccepted | src/components/AddInternForm.js:52-53 | "ravi@dmrc.in" is accepted |
| InternRegistration.SampleAddressRejected | src/components/AddInternForm.js:52-53 | "ravi@dmrc", with no dot after the '@', is refused |
| InternRegistration.BlankForm | src/components/AddInternForm.js:24-31 | a fresh form is empty except the start date, which is today |
| InternRegistration.ValidateForm | src/components/AddInternForm.js:42-63 | a missing code, name, e-mail or department is reported first; otherwise the form passes exactly when the e-mail matches the pattern |
| InternRegistration.PhoneAndDateUnchecked | src/components/AddInternForm.js:43-50 | the phone and the start date play no part in validation |
| InternRegistration.InsertedRow | src/components/AddInternForm.js:114-119 | the inserted row is the form's fields, the phone as typed, no end date, and active |
| InternRegistration.Decide | src/components/AddInternForm.js:65-121 | a submission is added only when neither the code nor the e-mail is taken |
| InternRegistration.DecisionOrder | src/components/AddInternForm.js:68-121 | validation, then the code lookup, then the e-mail lookup, then the insert; each outcome names the first check that stops the submission, and the e-mail is checked only once the code is free |
| InternRegistration.FreeCodeAndEmailClashOnlyOnId | src/components/AddInternForm.js:114-121 | once code and e-mail are free, the insert fails on the unique columns only when the assigned id is in use |
| InternRegistration.AppendedRowIsFound | src/components/AddInternForm.js:74-84 | after a row is appended to a table with unique columns, looking up its value finds it |
| InternRegistration.RegistrationForm.constructor | src/components/AddInternForm.js:24-31 | the form opens blank with today's start date |
| InternRegistration.RegistrationForm.Edit | src/components/AddInternForm.js:35-40 | editing replaces the form |
| InternRegistration.RegistrationForm.Submit | src/components/AddInternForm.js:65-144 | the outcome is `Decide`'s; an added intern is appended (and `AppendedRowIsFound` then finds it by code and by e-mail), the columns stay unique, and the form resets with today's date; otherwise table and form are unchanged |
| Common.NullIfEmpty | src/components/AddInternForm.tsx:61-63 | an empty field is stored as null and any other as typed (also the notes of an attendance row) |
| AddInternForm.MissingRequired | src/components/AddInternForm.tsx:44 | the code, name, e-mail, department or start date is empty |
| AddInternForm.InternData | src/components/AddInternForm.tsx:56-65 | the inserted row holds the fields as typed, empty phone and end date as null, and is active |
| AddInternForm.InternDataRoundTrip | src/components/AddInternForm.tsx:56-65 | the form can be read back from the inserted row |
| AddInternForm.NoEmailCheck | src/components/AddInternForm.tsx:44-51 | this form accepts an address the other form's pattern refuses |
| AddInternForm.NewInternForm.constructor | src/components/AddInternForm.tsx:29-37 | the form opens with every field empty |
| AddInternForm.NewInternForm.Edit | src/components/AddInternForm.tsx:109-111 | editing replaces the form |
| AddInternForm.NewInternForm.Submit | src/components/AddInternForm.tsx:41-107 | a missing code, name, e-mail, department or start date is refused; a store error fails; a clash is reported as a duplicate; a complete, clash-free form with a working store is added, appending `InternData` and clearing every field; any refusal or error changes nothing |
| InternManagement.ToggleTwiceRestores | src/pages/InternManagement.tsx:58 | with unique ids, toggling an intern twice restores the table |
| InternManagement.ToggleTouchesOneIntern | src/pages/InternManagement.tsx:56-59 | the toggle leaves every row of another id unchanged |
| InternManagement.ToggleFromListTwice | src/pages/InternManagement.tsx:54-76 | toggling an intern twice from the refreshed list restores the table |
| InternManagement.ManagementPage.constructor | src/pages/InternManagement.tsx:13-15 | the page starts with the form hidden, and so blank, and the fetched list |
| InternManagement.ManagementPage.ToggleAddForm | src/pages/InternManagement.tsx:113-130 | the header button flips the form's visibility; unmounting or mounting the form leaves its fields empty |
| InternManagement.ManagementPage.CancelAddForm | src/pages/InternManagement.tsx:123-130 | Cancel hides the form and so discards what was typed |
| InternManagement.ManagementPage.EditForm | src/components/AddInternForm.tsx:109-111 | typing goes into the shown form only |
| InternManagement.ManagementPage.InternAdded | src/pages/InternManagement.tsx:45-47 | an added intern hides, and so clears, the form and refreshes the list |
| InternManagement.ManagementPage.SubmitForm | src/pages/InternManagement.tsx:123-130 | only a shown form can be submitted; the outcome is the form's (missing fields, failure, duplicate exactly on a clash, added otherwise); success appends the row, hides the form and refreshes the list; otherwise nothing on the page changes |
| InternManagement.ManagementPage.ToggleActive | src/pages/InternManagement.tsx:54-76 | a successful toggle writes the negated flag to the rows of that id only and refreshes the list; a failed one changes nothing; no row is removed |
| Auth.SignInCheck | src/pages/Auth.tsx:55-62 | sign-in is refused before the service exactly when the e-mail or password is empty |
| Auth.SignUpCheck | src/pages/Auth.tsx:105-130 | the sign-up checks run in order (all fields, matching passwords, at least 6 characters) and only the first failure is reported |
| Auth.SignInReply | src/pages/Auth.tsx:72-96 | an error containing 'Invalid login credentials' is reported as bad credentials, any other error generically, and no error as signed in |
| Auth.SignUpReply | src/pages/Auth.tsx:145-172 | an error containing 'User already registered' is reported as an existing account, any other error generically, and no error as created |
| Auth.ContainsInside | src/pages/Auth.tsx:73 | `includes` finds a phrase wherever it sits |
| Auth.WrappedMessagesAreRecognised | src/pages/Auth.tsx:145-146 | a service message with text around the known phrase is still recognised |
| Auth.PasswordLengthBoundary | src/pages/Auth.tsx:123 | a 6-character password passes and a 5-character one fails |
| Auth.SignUpChecksCoverSignIn | src/pages/Auth.tsx:105 | whatever passes the sign-up checks passes the sign-in check |
| Auth.SignUpTwice | src/pages/Auth.tsx:102-178 | after an account is created the three fields are empty, so a second press is refused before the service |
| Auth.AuthPage.constructor | src/pages/Auth.tsx:17-20 | the page starts with empty fields and not loading |
| Auth.AuthPage.Edit | src/pages/Auth.tsx:18-20 | editing sets the three fields |
| Auth.AuthPage.SignIn | src/pages/Auth.tsx:52-100 | the service is called exactly when the check passes; a refusal returns before `loading` is set; the fields are kept and loading ends false |
| Auth.AuthPage.SignUp | src/pages/Auth.tsx:102-178 | the service is called exactly when the checks pass; a created account clears the three fields and any other outcome keeps them; loading ends false |

## Left out

- Network and authentication: every Supabase call is a transformation of the
  modelled tables. A store error is a boolean parameter. The auth service's
  answer is an optional error message. The session listener and navigation of
  `src/pages/Auth.tsx` are not part of this model.
- Concurrency: the database's atomicity and unique constraints are assumed.
  Calls are sequential, so the race between the look-ups and the insert of
  `src/components/AddInternForm.js` is not modelled.
- Refetches that the page starts without awaiting them are modelled as
  finishing before the next event.
- The clock: `new Date().toISOString()` and its date part are parameters.
- The `setInterval` timer is modelled by the `Tick` method only.
- Locale time formatting in `InternsList.tsx` is a function parameter `fmt`.
- Floating point:
  - `CourseDetail.Percentage` rounds exactly, halves up.
  - The page's `Math.round((c / t) * 100)` on doubles can differ from this at
    exact halves (for example 29 of 200, whose double product falls just
    below 14.5).
  - `AttendanceStats.Share` uses exact rationals.
  - `toFixed` display and CSS widths are not modelled.
- Characters:
  - upper- and lower-casing covers ASCII letters only;
  - strings are sequences of Unicode characters, not UTF-16 code units, so
    `password.length` for a character outside the Basic Multilingual Plane is
    counted as 1, not 2.
- Ordering: the database orders interns by name (`Index.tsx`), by intern code
  (`Index.js`) and by creation time (`InternManagement.tsx`), and lessons by
  `order_index`. The model takes the fetched sequence as given, in its order.
- ManagementPage: `InternManagement.tsx` imports `@/components/AddInternForm`
  without an extension, and both `AddInternForm.js` and `AddInternForm.tsx`
  export that component with the same props. No build configuration is part
  of this model. The page is modelled with the `.tsx` form (`NewInternForm`).
  A bundler that tries `.js` first would load the `.js` form instead
  (`InternRegistration.RegistrationForm`). That form checks the e-mail
  pattern, looks up the code and the e-mail, and does not require a start
  date.
- ManagementPage: the refetch is modelled as `interns := directory.rows`, in
  insertion order, so a new intern comes last. The page orders by
  `created_at` descending and shows it first. The page's fetch error is not
  modelled.
- HandleEnroll: it refuses a second (intern, course) enrollment, which assumes
  a unique (intern_id, course_id) constraint. `types.ts` does not show one;
  the page just inserts.
- `Object.entries` order: `AttendanceStats.GetDepartmentStats` lists
  departments in first-appearance order. That is JavaScript's order for
  non-numeric string keys; integer-like department names would be listed
  first in JavaScript.
- The `lesson_progress` upserts name no conflict target. The model keys them
  by (intern, lesson).
- ProgressUpsert, StartLessonUpsert, SavedRowReadsBack, SaveNeverLowersMinutes
  and StartLessonIdempotent hold only under that assumed (intern, lesson) key.
  `lesson_progress` has its own `id` key (`types.ts`), and the payloads never
  carry an `id`. So, as written, every save or start may insert a fresh row,
  or fail if a unique (intern, lesson) index exists. After the second save
  the `.single()` reload would then read null, as `SecondInternHidesProgress`
  shows for two rows of one lesson.
- Nullable columns: `interns.is_active`, `lesson_progress.is_completed` and
  `lesson_progress.time_spent_minutes` may be null in `types.ts` but are
  modelled as `bool` and `nat`. Every use reads null as false or 0
  (`.eq('is_active', true)`, `?.is_completed`, `|| 0`), so the behaviour
  modelled is the same.
- Every learning write uses the fixed intern reference `'mock-intern-id'`
  (`ProgressStore.MockIntern`).
- Loading flags are modelled only in `Auth`, where a refusal must return
  before `loading` is set. Toasts and console logging are not modelled.
- The database may reject an empty `start_date` inserted by
  `AddInternForm.js`. The model lets the insert through.
- Three behaviours of the code are worth noting:
  - check-out with no row for the intern and day updates nothing and still
    reports success;
  - the attendance desk's intern lookup does not filter on `is_active`;
  - the course percentage counts all lessons: `is_required` is never read.
- LearningDashboard.tsx, InternsTable.tsx and App.tsx are not part of this
  model. They only read, insert or render.
- Quizzes, badges and scores appear only as table declarations. No code
  computes them, so no logic for them is modelled.
