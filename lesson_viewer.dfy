/** The lesson page of one course: it loads the course and the stored progress, moves
    between lessons, marks lessons complete and decides what the player area, the
    "Mark as Complete" button and the congratulations panel show. */
module LessonViewer {
  import opened Common
  import opened Progress
  import opened VideoSource

  const FetchFailedText := "Failed to fetch course lessons"

  /** The backend's answer to the request for a course's lessons. */
  datatype LessonsResponse =
    | Delivered(videos: seq<string>)
    | Failed(serverError: Option<string>)

  /** The Previous button's `Math.max(0, currentVideoIndex - 1)`. */
  function PreviousIndex(i: int): (r: int)
    ensures 0 <= r && (r == i - 1 || r == 0)
    ensures r <= i || i < 0
  {
    if i - 1 > 0 then i - 1 else 0
  }

  /** The Next button's `Math.min(course.videos.length - 1, currentVideoIndex + 1)`. */
  function NextIndex(i: int, n: nat): (r: int)
    ensures r <= n - 1 && (r == i + 1 || r == n - 1)
  {
    if n - 1 < i + 1 then n - 1 else i + 1
  }

  /** Previous is disabled on the first lesson, Next on the last. */
  predicate PreviousDisabled(i: int) { i == 0 }
  predicate NextDisabled(i: int, n: nat) { i == n - 1 }

  /** Within a course with lessons both buttons keep the index on a lesson, a disabled
      button would not move it anyway, and each button undoes the other. */
  lemma NavigationInRange(i: int, n: nat)
    requires 0 <= i < n
    ensures 0 <= PreviousIndex(i) < n && 0 <= NextIndex(i, n) < n
    ensures PreviousDisabled(i) ==> PreviousIndex(i) == i
    ensures NextDisabled(i, n) ==> NextIndex(i, n) == i
    ensures !PreviousDisabled(i) ==> NextIndex(PreviousIndex(i), n) == i
    ensures !NextDisabled(i, n) ==> PreviousIndex(NextIndex(i, n)) == i
  {
  }

  /** In a course without lessons Next is enabled on index 0 and moves to -1. */
  lemma EmptyCourseNext()
    ensures !NextDisabled(0, 0) && NextIndex(0, 0) == -1
    ensures NextDisabled(-1, 0) && PreviousIndex(-1) == 0
  {
  }

  class CourseLessonsPage {
    const courseId: string
    /** `course`: `null` until the lessons arrive; only the video list matters here. */
    var videos: Option<seq<string>>
    var loading: bool
    /** The text of the page's message; `''` shows none. */
    var message: string
    var currentVideoIndex: int
    /** `completedLessons`, a `Set` kept in insertion order. */
    var completed: seq<int>
    var videoLoadError: bool
    /** The browser's `localStorage`. */
    var storage: Storage

    /** Where the index can be: 0 before the course arrives, a lesson of a course with
        lessons, and 0 or -1 in a course without lessons. */
    predicate IndexInRange()
      reads this`videos, this`currentVideoIndex
    {
      match videos
      case None => currentVideoIndex == 0
      case Some(v) => if v == [] then -1 <= currentVideoIndex <= 0 else 0 <= currentVideoIndex < |v|
    }

    predicate Valid()
      reads this`videos, this`currentVideoIndex, this`completed, this`loading
    {
      && NoDuplicates(completed)
      && IndexInRange()
      && (loading ==> videos.None?)
    }

    constructor(courseId: string, storage: Storage)
      ensures Valid()
      ensures this.courseId == courseId && this.storage == storage
      ensures videos.None? && loading && message == [] && currentVideoIndex == 0
      ensures completed == [] && !videoLoadError
    {
      this.courseId := courseId;
      this.storage := storage;
      videos := None;
      loading := true;
      message := [];
      currentVideoIndex := 0;
      completed := [];
      videoLoadError := false;
    }

    /** `fetchCourseLessons`: the course is shown as soon as it arrives; stored progress
        then replaces the set, an absent or empty entry leaves it, and text that does not
        parse leaves it too but sets the page's error message. */
    method FetchCourseLessons(response: LessonsResponse)
      requires Valid() && loading
      modifies this`videos, this`completed, this`message, this`loading
      ensures Valid() && !loading
      ensures response.Failed? ==>
        && videos == old(videos) && completed == old(completed)
        && message == ErrorText(response.serverError, FetchFailedText)
      ensures response.Delivered? ==> videos == Some(response.videos)
      ensures response.Delivered? && ReadProgress(storage, courseId) == Keep ==>
        completed == old(completed) && message == old(message)
      ensures response.Delivered? && ReadProgress(storage, courseId).Replace? ==>
        completed == ReadProgress(storage, courseId).items && message == old(message)
      ensures response.Delivered? && ReadProgress(storage, courseId) == ParseFailure ==>
        completed == old(completed) && message == FetchFailedText
    {
      match response {
        case Failed(serverError) =>
          message := ErrorText(serverError, FetchFailedText);
        case Delivered(v) =>
          videos := Some(v);
          match ReadProgress(storage, courseId) {
            case Keep =>
            case Replace(items) =>
              completed := items;
            case ParseFailure =>
              message := FetchFailedText;
          }
      }
      loading := false;
    }

    /** `markLessonComplete`: the index joins the set and the whole set is written back
        under this course's key. */
    method MarkLessonComplete(index: int)
      requires Valid()
      modifies this`completed, this`storage
      ensures Valid()
      ensures completed == AddIndex(old(completed), index)
      ensures storage == SaveProgress(old(storage), courseId, completed)
      ensures index in completed
      ensures videos.Some? && AllBelow(old(completed), |videos.value|) && 0 <= index < |videos.value| ==>
        AllBelow(completed, |videos.value|)
    {
      completed := AddIndex(completed, index);
      storage := SaveProgress(storage, courseId, completed);
    }

    /** The effect on `currentVideoIndex`: the load error is cleared whenever the index
        takes a different value. */
    method MoveTo(index: int)
      modifies this`currentVideoIndex, this`videoLoadError
      ensures currentVideoIndex == index
      ensures videoLoadError == (old(videoLoadError) && index == old(currentVideoIndex))
    {
      if index != currentVideoIndex {
        videoLoadError := false;
      }
      currentVideoIndex := index;
    }

    method Previous()
      requires Valid() && videos.Some?
      modifies this`currentVideoIndex, this`videoLoadError
      ensures Valid()
      ensures currentVideoIndex == PreviousIndex(old(currentVideoIndex))
      ensures videoLoadError == (old(videoLoadError) && currentVideoIndex == old(currentVideoIndex))
    {
      MoveTo(PreviousIndex(currentVideoIndex));
    }

    method Next()
      requires Valid() && videos.Some?
      modifies this`currentVideoIndex, this`videoLoadError
      ensures Valid()
      ensures currentVideoIndex == NextIndex(old(currentVideoIndex), |videos.value|)
      ensures videoLoadError == (old(videoLoadError) && currentVideoIndex == old(currentVideoIndex))
    {
      MoveTo(NextIndex(currentVideoIndex, |videos.value|));
    }

    /** A click on a lesson of the sidebar, which lists exactly the course's lessons. */
    method SelectLesson(index: int)
      requires Valid() && videos.Some? && 0 <= index < |videos.value|
      modifies this`currentVideoIndex, this`videoLoadError
      ensures Valid()
      ensures currentVideoIndex == index
      ensures videoLoadError == (old(videoLoadError) && index == old(currentVideoIndex))
    {
      MoveTo(index);
    }

    /** `onError` of the frame or the video element. */
    method ReportLoadError()
      modifies this`videoLoadError
      ensures videoLoadError
    {
      videoLoadError := true;
    }

    /** `onEnded` of the native video element marks the lesson it plays. */
    method VideoEnded()
      requires Valid() && videos.Some? && Player().NativeVideo?
      modifies this`completed, this`storage
      ensures Valid()
      ensures completed == AddIndex(old(completed), currentVideoIndex)
      ensures storage == SaveProgress(old(storage), courseId, completed)
    {
      MarkLessonComplete(currentVideoIndex);
    }

    /** The player area for the current lesson. */
    function Player(): (p: Player)
      requires videos.Some?
      reads this`videos, this`currentVideoIndex, this`videoLoadError
      ensures p == Placeholder <==> CurrentVideo(videos.value, currentVideoIndex).None?
      ensures p.NativeVideo? ==> p.src == videos.value[currentVideoIndex]
      ensures p.DriveLink? ==> videoLoadError && p.href == videos.value[currentVideoIndex]
      ensures p.YouTubeFrame? || p.DriveFrame? ==> p.src == GetEmbedUrl(videos.value[currentVideoIndex])
    {
      if 0 <= currentVideoIndex < |videos.value| then
        PlayerSources(videos.value, currentVideoIndex, videoLoadError);
        SelectPlayer(videos.value, currentVideoIndex, videoLoadError)
      else
        SelectPlayer(videos.value, currentVideoIndex, videoLoadError)
    }

    /** "Mark as Complete" replaces the "Completed" mark while the current index is not
        in the set. */
    function MarkButtonShown(): (shown: bool)
      reads this`currentVideoIndex, this`completed
      ensures shown <==> currentVideoIndex !in Elements(completed)
    {
      currentVideoIndex !in completed
    }

    /** The percentage in the header and the sidebar, as intended (see `CompletionPercent`). */
    function Progress(): (p: nat)
      requires videos.Some?
      reads this`videos, this`completed
      ensures |videos.value| == 0 ==> p == 0
      ensures |completed| <= |videos.value| ==> p <= 100
      ensures |completed| <= |videos.value| ==>
        (p == 100 <==> 0 < |videos.value| && |completed| == |videos.value|)
      ensures |completed| < |videos.value| < 200 ==> LessonPercent(|completed|, |videos.value|) == Finite(p)
    {
      CompletionPercentMeaning(|completed|, |videos.value|);
      if |completed| < |videos.value| < 200 then
        CompletionAgrees(|completed|, |videos.value|);
        CompletionPercent(|completed|, |videos.value|)
      else
        CompletionPercent(|completed|, |videos.value|)
    }

    /** The congratulations panel. */
    function CongratulationsShown(): (shown: bool)
      requires videos.Some?
      reads this`videos, this`completed
      ensures |completed| <= |videos.value| ==>
        (shown <==> 0 < |videos.value| && |completed| == |videos.value|)
    {
      Progress() == 100
    }
  }

  /** On a page whose set holds only lessons of the course, the congratulations panel
      shows exactly when every lesson is complete. The page's own test on the rounded
      percentage agrees for courses with fewer than 200 lessons. */
  lemma CongratulationsIffAllComplete(page: CourseLessonsPage)
    requires page.Valid() && page.videos.Some?
    requires AllBelow(page.completed, |page.videos.value|)
    ensures page.CongratulationsShown() <==>
      |page.videos.value| > 0 && forall i :: 0 <= i < |page.videos.value| ==> i in page.completed
    ensures 0 < |page.videos.value| < 200 ==>
      (LessonPercent(|page.completed|, |page.videos.value|) == Finite(100) <==>
        forall i :: 0 <= i < |page.videos.value| ==> i in page.completed)
  {
    var n := |page.videos.value|;
    CompleteIff(page.completed, n);
    CompletionPercentMeaning(|page.completed|, n);
    if 0 < n < 200 {
      PercentFullIff(|page.completed|, n);
    }
  }

  /** The progress shown lies in 0..100 on a page whose set holds only lessons of the
      course. The page's own expression does too for a course with lessons, and is `NaN`
      for a course without. */
  lemma ProgressBounded(page: CourseLessonsPage)
    requires page.Valid() && page.videos.Some?
    requires AllBelow(page.completed, |page.videos.value|)
    ensures page.Progress() <= 100
    ensures |page.videos.value| > 0 ==>
      LessonPercent(|page.completed|, |page.videos.value|).Finite?
      && LessonPercent(|page.completed|, |page.videos.value|).value <= 100
    ensures |page.videos.value| == 0 ==> LessonPercent(|page.completed|, 0) == NotANumber
  {
    var n := |page.videos.value|;
    CompleteIff(page.completed, n);
    CompletionPercentMeaning(|page.completed|, n);
    if n > 0 {
      PercentBounds(|page.completed|, n);
    }
  }
}
