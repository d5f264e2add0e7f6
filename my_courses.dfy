/** The "My Courses" page: each purchased course with the progress read from storage, and
    the overview figures above the list. */
module MyCourses {
  import opened Common
  import opened Progress
  import LessonViewer

  const FetchFailedText := "Failed to fetch your courses"

  /** A purchased course with the two fields the page adds to it. */
  datatype Enrolled = Enrolled(course: Course, progress: nat, completedLessons: nat)

  /** The backend's answer to the request for the purchased courses. */
  datatype CoursesResponse =
    | Delivered(courses: seq<Course>)
    | Failed(serverError: Option<string>)

  /** The page's state once the request is settled. */
  datatype PageState = PageState(courses: seq<Enrolled>, message: string)

  /** `savedProgress ? JSON.parse(savedProgress) : []`, then its `length`; `None` when the
      text does not parse. The array is counted as stored, without removing repeats. */
  function StoredCount(storage: Storage, courseId: string): (count: Option<nat>)
    ensures count.None? <==> ProgressKey(courseId) in storage && storage[ProgressKey(courseId)] == Unparseable
    ensures count == Some(0) <== ProgressKey(courseId) !in storage || storage[ProgressKey(courseId)] == EmptyText
    ensures ProgressKey(courseId) in storage && storage[ProgressKey(courseId)].IndexArray? ==>
      count == Some(|storage[ProgressKey(courseId)].items|)
  {
    var key := ProgressKey(courseId);
    if key !in storage then Some(0)
    else match storage[key]
      case EmptyText => Some(0)
      case Unparseable => None
      case IndexArray(items) => Some(|items|)
  }

  /** `course.videos?.length > 0 ? Math.round((completed / course.videos.length) * 100) : 0`. */
  function GuardedPercent(completed: nat, lessons: nat): (p: nat)
    ensures lessons == 0 ==> p == 0
    ensures lessons > 0 ==> LessonPercent(completed, lessons) == Finite(p)
  {
    if lessons > 0 then RoundDiv(100 * completed, lessons) else 0
  }

  /** With 200 of 201 lessons complete the course already reads 100% and "Course Completed!". */
  lemma GuardedRoundsUpToFull()
    ensures GuardedPercent(200, 201) == 100
  {
    RoundsUpToFull();
  }

  /** The list's percentage as written agrees with the intended one for every course with
      fewer than 200 lessons and no more completions than lessons. */
  lemma GuardedAgrees(completed: nat, lessons: nat)
    requires lessons < 200 && completed <= lessons
    ensures GuardedPercent(completed, lessons) == CompletionPercent(completed, lessons)
  {
    if lessons > 0 {
      CompletionAgrees(completed, lessons);
    }
  }

  /** `{ ...course, progress, completedLessons }`, with the intended percentage. */
  function WithProgress(c: Course, count: nat): (e: Enrolled)
    ensures e.course == c && e.completedLessons == count
    ensures count <= VideoCount(c) ==> e.progress <= 100
    ensures count <= VideoCount(c) ==> (e.progress == 100 <==> 0 < VideoCount(c) && count == VideoCount(c))
    ensures count == 0 ==> e.progress == 0
  {
    CompletionPercentMeaning(count, VideoCount(c));
    Enrolled(c, CompletionPercent(count, VideoCount(c)), count)
  }

  /** `response.data.map(...)`: `None` when the stored text of any course does not parse,
      since `JSON.parse` then throws out of the whole mapping. */
  function MapProgress(courses: seq<Course>, storage: Storage): (r: Option<seq<Enrolled>>)
    ensures r.None? <==> exists i :: 0 <= i < |courses| && StoredCount(storage, courses[i].id).None?
    ensures r.Some? ==> |r.value| == |courses|
    ensures r.Some? ==> forall i :: 0 <= i < |courses| ==>
      r.value[i] == WithProgress(courses[i], StoredCount(storage, courses[i].id).value)
    decreases |courses|
  {
    if courses == [] then Some([])
    else
      match StoredCount(storage, courses[0].id)
      case None => None
      case Some(count) =>
        match MapProgress(courses[1..], storage)
        case None => None
        case Some(rest) => Some([WithProgress(courses[0], count)] + rest)
  }

  /** `fetchMyCourses`, from the initial state of an empty list and no message. */
  function FetchMyCourses(response: CoursesResponse, storage: Storage): (st: PageState)
    ensures response.Failed? ==> st == PageState([], ErrorText(response.serverError, FetchFailedText))
    ensures response.Delivered? && MapProgress(response.courses, storage).None? ==>
      st == PageState([], FetchFailedText)
    ensures response.Delivered? && MapProgress(response.courses, storage).Some? ==>
      st == PageState(MapProgress(response.courses, storage).value, [])
    ensures response.Delivered? && MapProgress(response.courses, storage).Some? ==>
      |st.courses| == |response.courses|
      && forall i :: 0 <= i < |st.courses| ==>
        st.courses[i] == WithProgress(response.courses[i], StoredCount(storage, response.courses[i].id).value)
  {
    match response
    case Failed(serverError) => PageState([], ErrorText(serverError, FetchFailedText))
    case Delivered(courses) =>
      match MapProgress(courses, storage)
      case None => PageState([], FetchFailedText)
      case Some(enrolled) => PageState(enrolled, [])
  }

  /** "Completed Lessons": `reduce((sum, course) => sum + (course.completedLessons || 0), 0)`. */
  function TotalCompleted(es: seq<Enrolled>): (total: nat)
    ensures total == 0 <==> forall i :: 0 <= i < |es| ==> es[i].completedLessons == 0
    ensures forall i :: 0 <= i < |es| ==> es[i].completedLessons <= total
    decreases |es|
  {
    if es == [] then 0
    else
      var init := es[..|es| - 1];
      assert forall i :: 0 <= i < |init| ==> init[i] == es[i];
      TotalCompleted(init) + es[|es| - 1].completedLessons
  }

  /** The sum of a concatenation is the sum of the two sums. */
  lemma {:induction false} TotalCompletedAppend(a: seq<Enrolled>, b: seq<Enrolled>)
    ensures TotalCompleted(a + b) == TotalCompleted(a) + TotalCompleted(b)
    decreases |b|
  {
    if b == [] {
      assert a + b == a;
    } else {
      assert (a + b)[..|a + b| - 1] == a + b[..|b| - 1];
      TotalCompletedAppend(a, b[..|b| - 1]);
    }
  }

  /** A single course contributes its own count: with `TotalCompletedAppend` this fixes the sum. */
  lemma TotalCompletedSingle(e: Enrolled)
    ensures TotalCompleted([e]) == e.completedLessons
  {
    assert [e][..0] == [];
  }

  function CoursesOf(es: seq<Enrolled>): (cs: seq<Course>)
    ensures |cs| == |es| && forall i :: 0 <= i < |es| ==> cs[i] == es[i].course
  {
    seq(|es|, i requires 0 <= i < |es| => es[i].course)
  }

  /** "Total Lessons": the videos of every course, a missing list counting as none. */
  function TotalLessons(es: seq<Enrolled>): (total: nat)
    ensures total == TotalVideos(CoursesOf(es))
    ensures total == 0 <==> forall i :: 0 <= i < |es| ==> VideoCount(es[i].course) == 0
    ensures forall i :: 0 <= i < |es| ==> VideoCount(es[i].course) <= total
  {
    TotalVideosZeroIff(CoursesOf(es));
    TotalVideos(CoursesOf(es))
  }

  function TotalProgress(es: seq<Enrolled>): nat {
    if es == [] then 0 else TotalProgress(es[..|es| - 1]) + es[|es| - 1].progress
  }

  /** "Average Progress": `Math.round(sum of progress / count)`, 0 for an empty list. */
  function AverageProgress(es: seq<Enrolled>): (avg: nat)
    ensures |es| == 0 ==> avg == 0
    ensures |es| > 0 ==> 2 * |es| * avg <= 2 * TotalProgress(es) + |es| < 2 * |es| * (avg + 1)
  {
    if |es| > 0 then RoundDiv(TotalProgress(es), |es|) else 0
  }

  /** No course has more completions than videos. */
  predicate Consistent(es: seq<Enrolled>) {
    forall i :: 0 <= i < |es| ==> es[i].completedLessons <= VideoCount(es[i].course)
  }

  /** Summing completions never passes summing lessons when each course is consistent. */
  lemma {:induction false} CompletedWithinLessons(es: seq<Enrolled>)
    requires Consistent(es)
    ensures TotalCompleted(es) <= TotalLessons(es)
    decreases |es|
  {
    if es != [] {
      var init := es[..|es| - 1];
      CompletedWithinLessons(init);
      assert CoursesOf(es) == CoursesOf(init) + [es[|es| - 1].course];
      TotalVideosAppend(CoursesOf(init), [es[|es| - 1].course]);
      assert TotalVideos([es[|es| - 1].course]) == VideoCount(es[|es| - 1].course) by {
        assert [es[|es| - 1].course][..0] == [];
      }
    }
  }

  /** Every progress at most 100 puts the sum at most 100 per course. */
  lemma {:induction false} TotalProgressBound(es: seq<Enrolled>)
    requires forall i :: 0 <= i < |es| ==> es[i].progress <= 100
    ensures TotalProgress(es) <= 100 * |es|
    decreases |es|
  {
    if es != [] {
      TotalProgressBound(es[..|es| - 1]);
    }
  }

  /** The average of percentages is itself a percentage. */
  lemma AverageBounded(es: seq<Enrolled>)
    requires forall i :: 0 <= i < |es| ==> es[i].progress <= 100
    ensures AverageProgress(es) <= 100
  {
    if |es| > 0 {
      TotalProgressBound(es);
      var r := AverageProgress(es);
      if r > 100 {
        MulMonotone(2 * |es|, 101, r);
      }
    }
  }

  /** The course button reads "Start Learning" at 0% and "Continue Learning" otherwise. */
  function ButtonLabel(progress: nat): (text: string)
    ensures text == "Start Learning" <==> progress == 0
  {
    if progress == 0 then "Start Learning" else "Continue Learning"
  }

  /** "Course Completed!" shows at 100%, so never beside "Start Learning". */
  function CompletedBadge(progress: nat): (shown: bool)
    ensures shown ==> ButtonLabel(progress) == "Continue Learning"
  {
    progress == 100
  }

  /** For a course whose stored array lists distinct lessons of it, the badge shows
      exactly when every lesson is in the array, and the button offers to start exactly
      when the array is empty. The page's own guarded percentage keeps the badge rule for
      fewer than 200 lessons. */
  lemma LabelsMatchStoredSet(c: Course, s: seq<int>)
    requires NoDuplicates(s) && AllBelow(s, VideoCount(c))
    ensures CompletedBadge(WithProgress(c, |s|).progress) <==>
      VideoCount(c) > 0 && forall i :: 0 <= i < VideoCount(c) ==> i in s
    ensures VideoCount(c) <= 200 ==> (ButtonLabel(WithProgress(c, |s|).progress) == "Start Learning" <==> s == [])
    ensures VideoCount(c) < 200 ==> (CompletedBadge(GuardedPercent(|s|, VideoCount(c))) <==>
      VideoCount(c) > 0 && forall i :: 0 <= i < VideoCount(c) ==> i in s)
    ensures VideoCount(c) <= 200 ==> (ButtonLabel(GuardedPercent(|s|, VideoCount(c))) == "Start Learning" <==> s == [])
  {
    var n := VideoCount(c);
    CompleteIff(s, n);
    if n < 200 {
      GuardedAgrees(|s|, n);
    }
    if n <= 200 && s != [] {
      PercentZeroIff(|s|, n);
      PercentBounds(|s|, n);
    }
  }

  /** The list shows what the lesson page last saved. After the page writes its set for a
      course, that course's entry counts the set's size, and its progress is the one the
      page shows. The page's own expressions agree with the list's for a course with
      lessons; for a course without, the list reads 0 where the page has no number. */
  lemma ListReadsLessonPage(page: LessonViewer.CourseLessonsPage, c: Course, storage: Storage)
    requires page.Valid() && page.videos.Some?
    requires c.id == page.courseId && c.videos == page.videos
    ensures StoredCount(SaveProgress(storage, c.id, page.completed), c.id) == Some(|page.completed|)
    ensures WithProgress(c, |page.completed|).progress == page.Progress()
    ensures VideoCount(c) > 0 ==>
      LessonPercent(|page.completed|, VideoCount(c)) == Finite(GuardedPercent(|page.completed|, VideoCount(c)))
    ensures VideoCount(c) == 0 ==>
      GuardedPercent(|page.completed|, 0) == 0 && !LessonPercent(|page.completed|, 0).Finite?
  {
  }
}
