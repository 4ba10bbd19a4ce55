/** The lesson page (`src/pages/LessonViewer.tsx`). While the page is open a
    timer counts minutes; saving notes or marking the lesson complete
    upserts the whole progress row for the fixed intern reference, with the
    stored minutes plus the session minutes, and then reloads the row. The
    reload filters on the lesson only, not on the intern, and asks for
    exactly one row. */
module LessonViewer {
  import opened Common
  import opened Rows
  import opened ProgressStore

  /** The keys of the rows that `.eq('lesson_id', lessonId)` selects. */
  function LessonKeys(t: map<ProgressKey, ProgressRow>, lessonId: string): (ks: set<ProgressKey>)
    ensures forall k :: k in ks <==> k in t && k.1 == lessonId
  {
    set k | k in t && k.1 == lessonId
  }

  /** A set with one element holds nothing else. */
  lemma OnlyElement<T>(s: set<T>, x: T)
    requires |s| == 1 && x in s
    ensures s == {x}
  {
    assert |s - {x}| == 0;
  }

  /** The progress fetch: `.select('*').eq('lesson_id', lessonId).single()`,
      whose error is ignored, so anything but exactly one row reads as null. */
  function FetchProgress(t: map<ProgressKey, ProgressRow>, lessonId: string): (p: Option<ProgressRow>)
    ensures p.Some? <==> |LessonKeys(t, lessonId)| == 1
    ensures p.Some? ==> forall k | k in LessonKeys(t, lessonId) :: p.value == t[k]
  {
    var ks := LessonKeys(t, lessonId);
    if |ks| == 1 then
      var k :| k in ks;
      OnlyElement(ks, k);
      Some(t[k])
    else None
  }

  /** The progress fetch as the page sees it: its error is not even read,
      so a failed request leaves `progressData` null, like a missing row. */
  function LoadedProgress(t: map<ProgressKey, ProgressRow>, lessonId: string, progressFails: bool)
    : (p: Option<ProgressRow>)
    ensures progressFails ==> p == None
    ensures !progressFails ==> p == FetchProgress(t, lessonId)
  {
    if progressFails then None else FetchProgress(t, lessonId)
  }

  /** `progress?.time_spent_minutes || 0` */
  function StoredMinutes(p: Option<ProgressRow>): nat {
    if p.Some? then p.value.timeSpentMinutes else 0
  }

  /** `progress?.is_completed || false` */
  predicate IsMarkedComplete(p: Option<ProgressRow>) {
    p.Some? && p.value.isCompleted
  }

  /** `progressData?.notes || ''` */
  function NotesShown(p: Option<ProgressRow>): (s: string)
    ensures p.Some? && p.value.notes.Some? ==> s == p.value.notes.value
    ensures p.None? || p.value.notes.None? ==> s == ""
  {
    if p.Some? && p.value.notes.Some? then p.value.notes.value else ""
  }

  /** When the fixed intern is the only one with a row for the lesson, the
      fetch finds that row. */
  lemma FetchFindsOwnRow(t: map<ProgressKey, ProgressRow>, lessonId: string)
    requires (MockIntern, lessonId) in t
    requires forall k | k in t && k.1 == lessonId :: k.0 == MockIntern
    ensures FetchProgress(t, lessonId) == Some(t[(MockIntern, lessonId)])
  {
    assert LessonKeys(t, lessonId) == {(MockIntern, lessonId)};
  }

  /** As soon as a second intern has a row for the lesson, the fetch reads
      null: the page shows no progress and empty notes. */
  lemma SecondInternHidesProgress(t: map<ProgressKey, ProgressRow>, lessonId: string, other: string)
    requires (MockIntern, lessonId) in t && (other, lessonId) in t && other != MockIntern
    ensures FetchProgress(t, lessonId) == None
    ensures NotesShown(FetchProgress(t, lessonId)) == ""
  {
    var ks := LessonKeys(t, lessonId);
    assert {(MockIntern, lessonId), (other, lessonId)} <= ks;
    if |ks| == 1 {
      OnlyElement(ks, (MockIntern, lessonId));
    }
  }

  /** What the page writes it reads back: after the viewer's upsert, the
      reload shows the written flag, minutes and notes, as long as no other
      intern has a row for the lesson. */
  lemma SavedRowReadsBack(t: map<ProgressKey, ProgressRow>, lessonId: string, isCompleted: bool,
                          minutes: nat, notes: string, now: string)
    requires forall k | k in t && k.1 == lessonId :: k.0 == MockIntern
    ensures var p := FetchProgress(ProgressUpsert(t, (MockIntern, lessonId), isCompleted, minutes, notes, now), lessonId);
            p.Some? && p.value.isCompleted == isCompleted && p.value.timeSpentMinutes == minutes
            && NotesShown(p) == notes && StoredMinutes(p) == minutes && (IsMarkedComplete(p) <==> isCompleted)
  {
    var r := ProgressUpsert(t, (MockIntern, lessonId), isCompleted, minutes, notes, now);
    FetchFindsOwnRow(r, lessonId);
  }

  /** A write made from freshly fetched data stores the earlier minutes plus
      the session minutes, so the stored time never goes down. */
  lemma SaveNeverLowersMinutes(t: map<ProgressKey, ProgressRow>, lessonId: string, isCompleted: bool,
                               session: nat, notes: string, now: string)
    requires (MockIntern, lessonId) in t
    requires forall k | k in t && k.1 == lessonId :: k.0 == MockIntern
    ensures var key := (MockIntern, lessonId);
            var minutes := StoredMinutes(FetchProgress(t, lessonId)) + session;
            ProgressUpsert(t, key, isCompleted, minutes, notes, now)[key].timeSpentMinutes
              == t[key].timeSpentMinutes + session
            >= t[key].timeSpentMinutes
  {
    FetchFindsOwnRow(t, lessonId);
  }

  /** Saving notes sends the completion flag of the row the page loaded. When
      a second intern's row hid the fixed intern's completed row, the page
      loaded nothing, so the save writes the lesson back as not completed. */
  lemma HiddenRowSaveUncompletes(t: map<ProgressKey, ProgressRow>, lessonId: string, other: string,
                                 minutes: nat, notes: string, now: string)
    requires (MockIntern, lessonId) in t && (other, lessonId) in t && other != MockIntern
    requires t[(MockIntern, lessonId)].isCompleted
    ensures var key := (MockIntern, lessonId);
            var r := ProgressUpsert(t, key, IsMarkedComplete(FetchProgress(t, lessonId)), minutes, notes, now);
            !r[key].isCompleted && r[key].completedAt == None
  {
    SecondInternHidesProgress(t, lessonId, other);
  }

  /** A loaded row keeps its completion through a save of the notes. */
  lemma LoadedRowSaveKeepsCompletion(t: map<ProgressKey, ProgressRow>, lessonId: string,
                                     minutes: nat, notes: string, now: string)
    requires (MockIntern, lessonId) in t
    requires forall k | k in t && k.1 == lessonId :: k.0 == MockIntern
    ensures var key := (MockIntern, lessonId);
            var r := ProgressUpsert(t, key, IsMarkedComplete(FetchProgress(t, lessonId)), minutes, notes, now);
            r[key].isCompleted == t[key].isCompleted
  {
    FetchFindsOwnRow(t, lessonId);
  }

  class LessonSession {
    const ledger: ProgressLedger
    const lessonId: string
    /** The progress row as last fetched (`progress`). */
    var progress: Option<ProgressRow>
    /** The notes text area. */
    var notes: string
    /** Minutes counted by the timer since the page opened. */
    var timeSpent: nat
    /** Whether a lesson has been loaded (`lesson` is set); until then the
        page shows "Lesson Not Found" and none of its controls. */
    var lessonLoaded: bool

    ghost predicate Valid()
      reads this, ledger
    {
      ledger.Valid()
    }

    /** Opening the page: the timer starts at zero and the lesson data is
        fetched; when the lesson itself cannot be loaded nothing is set and
        the page shows "Lesson Not Found". */
    constructor Open(ledger: ProgressLedger, lessonId: string, lessonFails: bool, progressFails: bool)
      requires ledger.Valid()
      ensures Valid() && this.ledger == ledger && this.lessonId == lessonId && timeSpent == 0
      ensures lessonLoaded == !lessonFails
      ensures progress == if lessonFails then None else LoadedProgress(ledger.progress, lessonId, progressFails)
      ensures notes == NotesShown(progress)
    {
      this.ledger := ledger;
      this.lessonId := lessonId;
      timeSpent := 0;
      lessonLoaded := !lessonFails;
      var p := if lessonFails then None else LoadedProgress(ledger.progress, lessonId, progressFails);
      progress := p;
      notes := NotesShown(p);
    }

    /** The minutes shown on the page and sent by the next write. */
    function SessionTotal(): (m: nat)
      reads this
      ensures m >= timeSpent
      ensures m == StoredMinutes(progress) + timeSpent
    {
      StoredMinutes(progress) + timeSpent
    }

    /** The "Mark as Complete" button is shown only on a loaded lesson, and
        only while the loaded row is not completed. */
    predicate ShowsMarkComplete()
      reads this
    {
      lessonLoaded && !IsMarkedComplete(progress)
    }

    /** One tick of the minute timer. */
    method Tick()
      modifies this
      ensures timeSpent == old(timeSpent) + 1
      ensures progress == old(progress) && notes == old(notes) && lessonLoaded == old(lessonLoaded)
    {
      timeSpent := timeSpent + 1;
    }

    /** Typing in the notes area. */
    method EditNotes(text: string)
      modifies this
      ensures notes == text
      ensures progress == old(progress) && timeSpent == old(timeSpent) && lessonLoaded == old(lessonLoaded)
    {
      notes := text;
    }

    /** `fetchLessonData()` after the page is open. A failed lesson fetch
        throws before anything is set; a failed progress fetch is not
        noticed and shows as no row. */
    method Reload(lessonFails: bool, progressFails: bool)
      modifies this
      ensures timeSpent == old(timeSpent)
      ensures lessonFails ==> progress == old(progress) && notes == old(notes)
                              && lessonLoaded == old(lessonLoaded)
      ensures !lessonFails ==> lessonLoaded
                               && progress == LoadedProgress(ledger.progress, lessonId, progressFails)
                               && notes == NotesShown(progress)
    {
      if !lessonFails {
        var p := LoadedProgress(ledger.progress, lessonId, progressFails);
        lessonLoaded := true;
        progress := p;
        notes := NotesShown(p);
      }
    }

    /** `updateProgress(isCompleted)`: upsert the whole row, then reload. The
        timer is not reset, so the session minutes are sent again by every
        later write. */
    method UpdateProgress(isCompleted: bool, now: string, writeFails: bool, lessonFails: bool,
                          progressFails: bool)
      returns (ok: bool)
      requires Valid() && lessonLoaded
      modifies this, ledger
      ensures Valid()
      ensures ok == !writeFails
      ensures ledger.enrollments == old(ledger.enrollments) && timeSpent == old(timeSpent)
      ensures !ok ==> ledger.progress == old(ledger.progress)
                      && progress == old(progress) && notes == old(notes)
      ensures ok ==> ledger.progress == ProgressUpsert(old(ledger.progress), (MockIntern, lessonId),
                                                       isCompleted, old(SessionTotal()), old(notes), now)
      ensures ok && lessonFails ==> progress == old(progress) && notes == old(notes)
      ensures ok && !lessonFails ==> progress == LoadedProgress(ledger.progress, lessonId, progressFails)
                                     && notes == NotesShown(progress)
      ensures lessonLoaded
    {
      if writeFails {
        return false;
      }
      ledger.progress := ProgressUpsert(ledger.progress, (MockIntern, lessonId),
                                        isCompleted, SessionTotal(), notes, now);
      Reload(lessonFails, progressFails);
      ok := true;
    }

    /** `saveNotes()`: the same write, keeping the loaded completion flag. */
    method SaveNotes(now: string, writeFails: bool, lessonFails: bool, progressFails: bool)
      returns (ok: bool)
      requires Valid() && lessonLoaded
      modifies this, ledger
      ensures Valid()
      ensures ok == !writeFails
      ensures ledger.enrollments == old(ledger.enrollments) && timeSpent == old(timeSpent)
      ensures !ok ==> ledger.progress == old(ledger.progress)
                      && progress == old(progress) && notes == old(notes)
      ensures ok ==> ledger.progress == ProgressUpsert(old(ledger.progress), (MockIntern, lessonId),
                                                       IsMarkedComplete(old(progress)), old(SessionTotal()),
                                                       old(notes), now)
      ensures ok && lessonFails ==> progress == old(progress) && notes == old(notes)
      ensures ok && !lessonFails ==> progress == LoadedProgress(ledger.progress, lessonId, progressFails)
                                     && notes == NotesShown(progress)
      ensures lessonLoaded
    {
      ok := UpdateProgress(IsMarkedComplete(progress), now, writeFails, lessonFails, progressFails);
    }
  }

  /** Saving twice without leaving the page stores the session minutes
      twice: the second write adds the timer to minutes that already hold it. */
  method SavingTwiceCountsSessionTwice(s: LessonSession, now: string)
    requires s.Valid() && s.lessonLoaded
    requires forall k | k in s.ledger.progress && k.1 == s.lessonId :: k.0 == MockIntern
    modifies s, s.ledger
    ensures (MockIntern, s.lessonId) in s.ledger.progress
    ensures s.ledger.progress[(MockIntern, s.lessonId)].timeSpentMinutes
            == StoredMinutes(old(s.progress)) + 2 * old(s.timeSpent)
  {
    var stored, session := StoredMinutes(s.progress), s.timeSpent;
    var ok1 := s.SaveNotes(now, false, false, false);
    SavedRowReadsBack(old(s.ledger.progress), s.lessonId, IsMarkedComplete(old(s.progress)),
                      stored + session, old(s.notes), now);
    assert s.SessionTotal() == stored + 2 * session;
    var ok2 := s.SaveNotes(now, false, false, false);
  }

  /** Marking a lesson complete hides the button and stamps the row, when
      the fixed intern is the only one with a row for the lesson. */
  method MarkCompleteHidesButton(s: LessonSession, now: string)
    requires s.Valid() && s.lessonLoaded
    requires forall k | k in s.ledger.progress && k.1 == s.lessonId :: k.0 == MockIntern
    modifies s, s.ledger
    ensures !s.ShowsMarkComplete()
    ensures (MockIntern, s.lessonId) in s.ledger.progress
    ensures s.ledger.progress[(MockIntern, s.lessonId)].isCompleted
    ensures s.ledger.progress[(MockIntern, s.lessonId)].completedAt == Some(now)
  {
    var ok := s.UpdateProgress(true, now, false, false, false);
    SavedRowReadsBack(old(s.ledger.progress), s.lessonId, true, old(s.SessionTotal()), old(s.notes), now);
  }

  /** A progress fetch that failed shows the lesson as not started; saving
      the notes then writes it back as not completed, with only the minutes
      of this visit. */
  method FailedFetchSaveUncompletes(s: LessonSession, now: string)
    requires s.Valid() && s.lessonLoaded && s.progress == None
    modifies s, s.ledger
    ensures (MockIntern, s.lessonId) in s.ledger.progress
    ensures !s.ledger.progress[(MockIntern, s.lessonId)].isCompleted
    ensures s.ledger.progress[(MockIntern, s.lessonId)].timeSpentMinutes == old(s.timeSpent)
  {
    var ok := s.SaveNotes(now, false, false, true);
  }

  /** When the lesson cannot be loaded the page shows "Lesson Not Found":
      no "Mark as Complete" button, whatever progress is stored. */
  method NotFoundShowsNoButton(ledger: ProgressLedger, lessonId: string, progressFails: bool)
    returns (s: LessonSession)
    requires ledger.Valid()
    ensures !s.lessonLoaded && !s.ShowsMarkComplete()
  {
    s := new LessonSession.Open(ledger, lessonId, true, progressFails);
  }
}
