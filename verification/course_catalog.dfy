/** The course catalogue's search box and difficulty selector
    (`src/pages/CourseCatalog.tsx`): a course stays listed when its title or
    description contains the search term, ignoring case, and its difficulty
    equals the selected one or "all" is selected. */
module CourseCatalog {
  import opened Common
  import opened Rows

  /** The selector value that switches the difficulty filter off. */
  const AllLevels: string := "all"

  /** `title.toLowerCase().includes(term.toLowerCase()) ||
      description?.toLowerCase().includes(term.toLowerCase())`: a missing
      description never matches. */
  predicate MatchesSearch(course: CourseRow, term: string) {
    Contains(ToLower(course.title), ToLower(term))
    || (course.description.Some? && Contains(ToLower(course.description.value), ToLower(term)))
  }

  /** `difficultyFilter === 'all' || course.difficulty_level === difficultyFilter` */
  predicate MatchesDifficulty(course: CourseRow, level: string) {
    level == AllLevels || course.difficultyLevel == Some(level)
  }

  predicate Keeps(course: CourseRow, term: string, level: string) {
    MatchesSearch(course, term) && MatchesDifficulty(course, level)
  }

  /** `filteredCourses`: the courses that pass both tests, in their fetched order. */
  function FilterCourses(courses: seq<CourseRow>, term: string, level: string): (r: seq<CourseRow>)
    ensures |r| <= |courses|
    ensures forall c :: c in r <==> c in courses && Keeps(c, term, level)
  {
    if courses == [] then []
    else
      var p, c := courses[..|courses| - 1], courses[|courses| - 1];
      assert forall x | x in p :: x in courses;
      assert forall x | x in courses :: x in p || x == c;
      FilterCourses(p, term, level) + (if Keeps(c, term, level) then [c] else [])
  }

  /** Filtering a concatenation filters each part: the result keeps the
      fetched order, so it is a subsequence of the fetched list. */
  lemma {:induction false} FilterAppend(a: seq<CourseRow>, b: seq<CourseRow>, term: string, level: string)
    ensures FilterCourses(a + b, term, level) == FilterCourses(a, term, level) + FilterCourses(b, term, level)
    decreases |b|
  {
    if b == [] {
      assert a + b == a;
    } else {
      var q, c := b[..|b| - 1], b[|b| - 1];
      assert (a + b)[..|a + b| - 1] == a + q;
      FilterAppend(a, q, term, level);
    }
  }

  /** Re-filtering the listed courses with the same inputs lists them again. */
  lemma {:induction false} FilterIdempotent(courses: seq<CourseRow>, term: string, level: string)
    ensures FilterCourses(FilterCourses(courses, term, level), term, level) == FilterCourses(courses, term, level)
  {
    if courses != [] {
      var p, c := courses[..|courses| - 1], courses[|courses| - 1];
      var fp := FilterCourses(p, term, level);
      FilterIdempotent(p, term, level);
      if Keeps(c, term, level) {
        FilterAppend(fp, [c], term, level);
        assert FilterCourses([c], term, level) == [c] by {
          assert [c][..0] == [];
        }
      } else {
        assert FilterCourses(courses, term, level) == fp + [];
        assert fp + [] == fp;
      }
    }
  }

  /** The empty search term matches every course. */
  lemma EmptySearchMatches(c: CourseRow)
    ensures MatchesSearch(c, "")
  {
    assert ToLower("") == "";
    ContainsEmpty(ToLower(c.title));
  }

  /** An empty search term leaves only the difficulty selector to decide. */
  lemma EmptySearchKeepsAll(courses: seq<CourseRow>, level: string)
    ensures forall c :: c in FilterCourses(courses, "", level) <==> c in courses && MatchesDifficulty(c, level)
  {
    forall c: CourseRow
      ensures MatchesSearch(c, "")
    {
      EmptySearchMatches(c);
    }
  }

  /** With an empty search and "all" selected, every course is listed, in
      its fetched order. */
  lemma {:induction false} EmptySearchAllLevelsListsAll(courses: seq<CourseRow>)
    ensures FilterCourses(courses, "", AllLevels) == courses
  {
    if courses != [] {
      var p, c := courses[..|courses| - 1], courses[|courses| - 1];
      EmptySearchAllLevelsListsAll(p);
      EmptySearchMatches(c);
      assert Keeps(c, "", AllLevels);
      assert courses[..|courses| - 1] == p;
      assert FilterCourses(courses, "", AllLevels) == FilterCourses(p, "", AllLevels) + [c];
    }
  }

  /** A course without a description is found by its title alone. */
  lemma MissingDescriptionSearchesTitle(course: CourseRow, term: string)
    requires course.description.None?
    ensures MatchesSearch(course, term) <==> Contains(ToLower(course.title), ToLower(term))
  {
  }

  /** The search ignores the case of the term: lower-casing it first lists
      the same courses. */
  lemma SearchIgnoresCase(courses: seq<CourseRow>, term: string, level: string)
    ensures FilterCourses(courses, ToLower(term), level) == FilterCourses(courses, term, level)
  {
    ToLowerIdempotent(term);
    assert forall c :: Keeps(c, ToLower(term), level) == Keeps(c, term, level);
  }

  /** With "all" selected, the difficulty of a course plays no part. */
  lemma AllIgnoresDifficulty(course: CourseRow, term: string)
    ensures Keeps(course, term, AllLevels) <==> MatchesSearch(course, term)
  {
  }

  /** "No courses found" is shown exactly when no fetched course passes. */
  lemma NoCoursesFoundIff(courses: seq<CourseRow>, term: string, level: string)
    ensures FilterCourses(courses, term, level) == [] <==> forall c | c in courses :: !Keeps(c, term, level)
  {
    var r := FilterCourses(courses, term, level);
    if r != [] {
      assert r[0] in r;
    }
  }
}
