# NMS e-learning frontend: lesson viewer, course list and course form in Dafny

This project models the client-side logic of three pages of the NMS e-learning frontend, a
React application in which students buy courses made of video lessons and administrators
manage the catalogue.

- **Lesson page** (`src/pages/CourseLessonsPage.jsx`). The video-source resolver
  (`VideoSource`) classifies a lesson URL as YouTube, Google Drive or a direct video file. It
  extracts the YouTube identifier with the page's regular expression. The expression is
  greedy, so the identifier follows the rightmost marker on the first line. It extracts the
  Drive file identifier with the page's three patterns, tried in order, each taking its
  leftmost match. It then builds the embed URL and picks the player. Per-course progress
  (`Progress`) is a JavaScript `Set` of lesson indices kept in insertion order. It is
  written to the browser's storage as a JSON array under `course_<id>_progress`, and the
  completion percentage is derived from it. The page itself (`LessonViewer.CourseLessonsPage`)
  is a class holding the loaded video list, the current index, the load-error flag, the
  completed set and the storage. Its methods are the fetch, marking a lesson complete,
  Previous, Next, sidebar selection and the player's error and end events.
- **My Courses page** (`src/pages/MyCoursesPage.jsx`, module `MyCourses`). It maps each
  purchased course to its stored progress. It also computes the overview figures (completed
  lessons, total lessons, average progress) and the button and badge rules.
- **Admin dashboard** (`src/pages/AdminDashboard.jsx`, module `Admin`). It is a class for the
  course form: the three text fields, the editable list of video URLs, editing versus
  creating, and the modal flag. It also holds the student form. The submit step drops blank
  video entries and sends a create or an update request.

Backend responses are inputs to the model: a response is either delivered data or a failure
carrying an optional server error text. The browser's storage is a map from key to stored
text. That text is a JSON array of indices, the empty string, or text that does not parse.
Prices are whole numbers.

Behaviour of the code that is easy to miss:

- **Unparseable stored progress on the lesson page.** It is not treated as an empty set.
  `JSON.parse` runs inside the fetch's `try` (`src/pages/CourseLessonsPage.jsx:26-42`). A
  parse failure therefore leaves the current set as it is and also shows "Failed to fetch
  course lessons". The course is still shown, since it was set before the parse.
- **Unparseable stored progress on My Courses.** A parse failure for any one course throws
  out of the whole mapping. The list stays empty and "Failed to fetch your courses" is shown.
- **Embed refusal.** The external-link fallback exists only for Drive lessons. A load error
  on a YouTube frame or a native video changes nothing that is shown.
- **Empty stored text.** An absent key and an empty stored string both leave the lesson
  page's set unchanged. The set is empty only on a first load.

## Model

| member | source | states |
|---|---|---|
| Common.IncludesIff | src/pages/CourseLessonsPage.jsx:82-88 | `includes`, scanning from the left, holds exactly when the text occurs at some index |
| Common.TrimEmptyIffBlank | src/pages/AdminDashboard.jsx:167 | `v.trim() === ''` exactly when every character of `v` is ECMAScript white space or a line terminator |
| Common.TrimStart | src/pages/AdminDashboard.jsx:167 | the result is a suffix of the input, starts with a non-blank character, and only white space was removed |
| Common.TrimEnd | src/pages/AdminDashboard.jsx:167 | the result is a prefix of the input, ends with a non-blank character, and only white space was removed |
| Common.TotalVideosAppend | src/pages/AdminDashboard.jsx:305 | the Total Videos sum over a concatenation is the sum of the two sums, so the order of the fold does not matter |
| Common.TotalVideosZeroIff | src/pages/MyCoursesPage.jsx:100 | the total is 0 exactly when every course has no videos or a missing list |
| Common.TotalVideos | src/pages/AdminDashboard.jsx:305 | no single course counts more videos than the total |
| Common.TotalVideosSingle | src/pages/AdminDashboard.jsx:305 | one course's total is its own count, which with `TotalVideosAppend` makes the total the sum of the counts |
| Common.ErrorText | src/pages/CourseLessonsPage.jsx:36-39 | a message is the server's non-empty `error` text when there is one; with no text or an empty one it is the page's fixed text; it is never empty |
| VideoSource.GetVideoSourceType | src/pages/CourseLessonsPage.jsx:104-108 | YouTube exactly when the URL contains `youtube.com` or `youtu.be`; Google Drive exactly when it does not but contains `drive.google.com` or `docs.google.com`; Direct Video otherwise |
| VideoSource.ProviderTestsIff | src/pages/CourseLessonsPage.jsx:82-88 | `isYouTubeUrl` holds exactly when `youtube.com` or `youtu.be` occurs in the URL, `isGoogleDriveUrl` exactly when `drive.google.com` or `docs.google.com` does |
| VideoSource.Span | src/pages/CourseLessonsPage.jsx:59 | a greedy character-class run: every character kept, and the next character is not |
| VideoSource.LineEnd | src/pages/CourseLessonsPage.jsx:59 | `^.*` reaches the first line terminator, or the end of the text |
| VideoSource.MarkerAt | src/pages/CourseLessonsPage.jsx:59 | a marker match fits in the text, starts with one of `y`, `v`, `u`, `e`, `w`, `&` on the first line, and ends in `/` or `=` |
| VideoSource.LastMarkerFrom | src/pages/CourseLessonsPage.jsx:59 | greedy `^.*` backtracks to the rightmost index where a marker matches, and no marker matches after it |
| VideoSource.GetVideoId | src/pages/CourseLessonsPage.jsx:57-62 | an identifier is returned exactly when the first line has a marker and the maximal `[^#&?]*` run after the rightmost one has 11 characters, and it is that run; otherwise null |
| VideoSource.ShapeYieldsId | src/pages/CourseLessonsPage.jsx:57-62 | `youtu.be/X`, `v/X`, `embed/X` and `watch?v=X` at the end of a single line yield `X` for every 11-character identifier `X` |
| VideoSource.AmpersandParamYieldsId | src/pages/CourseLessonsPage.jsx:59-61 | `&v=X` at the end of a single line yields `X` for every 11-character identifier `X` |
| VideoSource.ShortHostAnyDot | src/pages/CourseLessonsPage.jsx:59-61 | the unescaped `.` of `youtu.be` matches any character but a line terminator: `youtu<c>be/X` yields `X`, and a line terminator for `<c>` is no marker |
| VideoSource.UserShapeYieldsId | src/pages/CourseLessonsPage.jsx:59-61 | `u/<w>/X` with `<w>` a word character yields `X` for every 11-character identifier `X` |
| VideoSource.ShortRunRejected | src/pages/CourseLessonsPage.jsx:59-61 | a final `&v=` followed by an identifier-like run of any length but 11 gives null, whatever comes before |
| VideoSource.EarlierMarkerNotRetried | src/pages/CourseLessonsPage.jsx:57-62 | `watch?v=X&v=abc` gives null although `X` is a valid identifier, and the URL is embedded as it is |
| VideoSource.YouTubeShapesExamples | src/pages/CourseLessonsPage.jsx:90-94 | `https://www.youtube.com/watch?v=X`, `https://youtu.be/X`, `.../v/X` and `.../embed/X` all embed as `https://www.youtube.com/embed/X` |
| VideoSource.YouTubeShapeEmbeds | src/pages/CourseLessonsPage.jsx:90-94 | any single-line YouTube URL ending in a shape marker and an 11-character identifier embeds as that identifier's embed URL |
| VideoSource.YouTubeEmbedStable | src/pages/CourseLessonsPage.jsx:90-94 | a YouTube embed URL resolves to itself |
| VideoSource.LeftmostMatch | src/pages/CourseLessonsPage.jsx:67-78 | the match found is the leftmost one, and none is reported when the pattern matches nowhere |
| VideoSource.MatchId | src/pages/CourseLessonsPage.jsx:67-69 | a match's capture is a non-empty run of `[a-zA-Z0-9-_]`; there is none exactly when the pattern matches nowhere |
| VideoSource.GetGoogleDriveId | src/pages/CourseLessonsPage.jsx:64-80 | the identifier is non-empty and made of `[a-zA-Z0-9-_]`; null exactly when none of the three patterns matches anywhere; a `/file/d/` match anywhere decides, else an `[?&]id=` match, else `/d/` |
| VideoSource.GetEmbedUrl | src/pages/CourseLessonsPage.jsx:90-102 | a YouTube URL becomes the embed URL of its identifier, a Drive URL the `/preview` URL of its identifier, each left as it is when no identifier is found; the YouTube test goes first; any other URL is left as it is |
| VideoSource.DriveLinkNotYouTube | src/pages/CourseLessonsPage.jsx:82-84 | a Drive file link with no `.` after its fixed part is not taken for a YouTube URL |
| VideoSource.DriveLinkId | src/pages/CourseLessonsPage.jsx:64-69 | the Drive identifier of `https://drive.google.com/file/d/<id><rest>` is `<id>` when `<rest>` does not continue the identifier |
| VideoSource.DriveLinkEmbeds | src/pages/CourseLessonsPage.jsx:96-99 | such a link is a Drive URL and embeds as `https://drive.google.com/file/d/<id>/preview` |
| VideoSource.DriveViewExample | src/pages/CourseLessonsPage.jsx:66 | `.../file/d/ABC123/view` embeds as `.../file/d/ABC123/preview` |
| VideoSource.EmbedIdempotent | src/pages/CourseLessonsPage.jsx:90-102 | resolving an already resolved URL changes nothing |
| VideoSource.EmbedPassThrough | src/pages/CourseLessonsPage.jsx:90-102 | a Direct Video URL passes through unchanged, and any URL that changes had a YouTube or Drive identifier |
| VideoSource.CurrentVideo | src/pages/CourseLessonsPage.jsx:136 | the current video is present exactly when the index is in the list and the entry is a non-empty string |
| VideoSource.SelectPlayer | src/pages/CourseLessonsPage.jsx:197-252 | placeholder exactly without a current video; a YouTube frame for a YouTube URL whatever the error flag; for a Drive URL the fallback link exactly when the load error is set, else a frame; a native video for anything else |
| VideoSource.PlayerSources | src/pages/CourseLessonsPage.jsx:199-236 | frames load the resolved URL; the fallback link and the native video use the stored URL as it is |
| VideoSource.LoadErrorOnlyAffectsDrive | src/pages/CourseLessonsPage.jsx:207-233 | the load-error flag changes what is shown exactly when the current video is a Drive URL |
| Progress.ProgressKey | src/pages/CourseLessonsPage.jsx:31 | the key `course_<id>_progress` holds the course identifier at a fixed place |
| Progress.ProgressKeyInjective | src/pages/CourseLessonsPage.jsx:52 | two courses never share a progress key |
| Progress.AddIndex | src/pages/CourseLessonsPage.jsx:46-47 | `set.add(i)` gives `old ∪ {i}`, keeps the members distinct and keeps their earlier order |
| Progress.AddIndexIdempotent | src/pages/CourseLessonsPage.jsx:46-47 | adding the same index twice is adding it once |
| Progress.Dedup | src/pages/CourseLessonsPage.jsx:33 | `new Set(array)` has distinct members, exactly the array's elements |
| Progress.DedupOfDistinct | src/pages/CourseLessonsPage.jsx:33 | a set built from a list of distinct indices lists them in the same order |
| Progress.SizeOfDistinct | src/pages/CourseLessonsPage.jsx:137 | `set.size` is the number of distinct members |
| Progress.CompleteIff | src/pages/CourseLessonsPage.jsx:137 | a set of lessons of an n-lesson course has at most n members, and has n exactly when every lesson is in it |
| Progress.ReadProgress | src/pages/CourseLessonsPage.jsx:31-34 | an absent key or empty text keeps the current set; a stored array, and only that, replaces it by a duplicate-free list of exactly its members; unparseable text, and only that, is a failure |
| Progress.SaveProgress | src/pages/CourseLessonsPage.jsx:51-54 | saving writes this course's key and leaves every other course's entry as it was |
| Progress.ReloadAfterSave | src/pages/CourseLessonsPage.jsx:31-34 | loading what was saved gives back the same set in the same order |
| Progress.RoundDiv | src/pages/CourseLessonsPage.jsx:137 | `Math.round(a / b)` is the whole number nearest `a / b`, halves rounded up |
| Progress.RoundDivUnique | src/pages/CourseLessonsPage.jsx:137 | only one whole number is that close to `a / b` |
| Progress.LessonPercent | src/pages/CourseLessonsPage.jsx:137 | the page's percentage is a finite number exactly when the course has lessons, and then it is `100·c/n` rounded; without lessons it is `NaN` with nothing complete and `Infinity` otherwise |
| Progress.NoLessonsNotANumber | src/pages/CourseLessonsPage.jsx:137 | a course without lessons shows `NaN` |
| Progress.PercentBounds | src/pages/CourseLessonsPage.jsx:137 | with `n ≥ 1` and `c ≤ n` the percentage lies in 0..100 |
| Progress.PercentOfAll | src/pages/CourseLessonsPage.jsx:137 | every lesson complete gives exactly 100 |
| Progress.PercentFullIff | src/pages/CourseLessonsPage.jsx:391 | below 200 lessons, 100 (the congratulations panel) exactly when every lesson is complete |
| Progress.PercentZeroIff | src/pages/CourseLessonsPage.jsx:137 | up to 200 lessons, 0 exactly when no lesson is complete |
| Progress.RoundsUpToFull | src/pages/CourseLessonsPage.jsx:391 | 200 of 201 lessons already shows 100% and the congratulations |
| Progress.RoundsDownToNone | src/pages/CourseLessonsPage.jsx:137 | 1 of 201 lessons still shows 0% |
| Progress.CompletionPercent | src/pages/CourseLessonsPage.jsx:137 | the intended percentage is below 100 while a lesson is open |
| Progress.CompletionPercentMeaning | src/pages/CourseLessonsPage.jsx:391 | the intended percentage lies in 0..100, is 100 exactly when the course has lessons and all are complete, and is 0 when none is |
| Progress.CompletionAgrees | src/pages/CourseLessonsPage.jsx:137 | for 1 to 199 lessons the intended percentage is the page's |
| LessonViewer.PreviousIndex | src/pages/CourseLessonsPage.jsx:293 | Previous goes one lesson back, never below 0 |
| LessonViewer.NextIndex | src/pages/CourseLessonsPage.jsx:302 | Next goes one lesson on, never past `n-1` |
| LessonViewer.NavigationInRange | src/pages/CourseLessonsPage.jsx:293-303 | both buttons keep the index in `[0,n)`, a disabled button would not move it, and each button undoes the other |
| LessonViewer.EmptyCourseNext | src/pages/CourseLessonsPage.jsx:302-303 | in a course without lessons Next is enabled at 0 and moves to -1, where it is disabled |
| LessonViewer.CourseLessonsPage.constructor | src/pages/CourseLessonsPage.jsx:9-14 | no course, loading, no message, index 0, empty set, no load error |
| LessonViewer.CourseLessonsPage.FetchCourseLessons | src/pages/CourseLessonsPage.jsx:25-43 | a failure keeps the state and shows the server's or the fixed text; a delivered course is shown, and its stored progress replaces, keeps, or on a parse failure keeps the set and shows "Failed to fetch course lessons" |
| LessonViewer.CourseLessonsPage.MarkLessonComplete | src/pages/CourseLessonsPage.jsx:45-55 | the set becomes `old ∪ {i}` and is written back whole under this course's key; lessons of the course stay lessons of the course |
| LessonViewer.CourseLessonsPage.MoveTo | src/pages/CourseLessonsPage.jsx:20-23 | a change of index clears the load error; the same index keeps it |
| LessonViewer.CourseLessonsPage.Previous | src/pages/CourseLessonsPage.jsx:293-294 | the index becomes `max(0, i-1)` and stays in range |
| LessonViewer.CourseLessonsPage.Next | src/pages/CourseLessonsPage.jsx:302-303 | the index becomes `min(n-1, i+1)` and stays in range |
| LessonViewer.CourseLessonsPage.SelectLesson | src/pages/CourseLessonsPage.jsx:331 | a sidebar click moves to that lesson |
| LessonViewer.CourseLessonsPage.ReportLoadError | src/pages/CourseLessonsPage.jsx:231 | a frame's or video's error sets the load-error flag |
| LessonViewer.CourseLessonsPage.VideoEnded | src/pages/CourseLessonsPage.jsx:239 | the end of a native video marks its lesson complete and saves the set |
| LessonViewer.CourseLessonsPage.MarkButtonShown | src/pages/CourseLessonsPage.jsx:261-273 | "Mark as Complete" shows exactly when the current index is not in the set |
| LessonViewer.CourseLessonsPage.Player | src/pages/CourseLessonsPage.jsx:197-252 | the placeholder shows exactly when there is no current URL; frames load the resolved URL, the fallback link and the native video the stored URL, and the link only after a load error |
| LessonViewer.CourseLessonsPage.Progress | src/pages/CourseLessonsPage.jsx:137 | the intended percentage: 0 without lessons, within 0..100, and 100 exactly when every lesson counts; equal to the page's own value while a lesson is open in a course of fewer than 200 lessons |
| LessonViewer.CourseLessonsPage.CongratulationsShown | src/pages/CourseLessonsPage.jsx:391 | the panel shows exactly when the course has lessons and the set has as many members as lessons |
| LessonViewer.CongratulationsIffAllComplete | src/pages/CourseLessonsPage.jsx:391 | when the set holds only lessons of the course, the panel with the intended percentage shows exactly when every lesson is complete; the page's own `progress === 100` test agrees for 1 to 199 lessons |
| LessonViewer.ProgressBounded | src/pages/CourseLessonsPage.jsx:137 | when the set holds only lessons of the course, the intended percentage lies in 0..100; the page's own expression lies in 0..100 for a course with lessons and is `NaN` for a course without |
| MyCourses.StoredCount | src/pages/MyCoursesPage.jsx:20-29 | an absent or empty entry counts 0; a stored array counts its length, repeats included; unparseable text, and only that, is a failure |
| MyCourses.GuardedPercent | src/pages/MyCoursesPage.jsx:22-24 | 0 for a course without videos, else the lesson page's rounded percentage |
| MyCourses.GuardedRoundsUpToFull | src/pages/MyCoursesPage.jsx:177-182 | 200 of 201 lessons already reads "Course Completed!" |
| MyCourses.GuardedAgrees | src/pages/MyCoursesPage.jsx:22-24 | below 200 lessons the list's percentage is the intended one |
| MyCourses.WithProgress | src/pages/MyCoursesPage.jsx:26-30 | the course keeps all its fields and gains its count and a progress that is within 0..100, 100 exactly when all its videos are counted, and 0 when none is |
| MyCourses.MapProgress | src/pages/MyCoursesPage.jsx:18-31 | the mapping keeps length and order; it fails exactly when some course's stored text does not parse |
| MyCourses.FetchMyCourses | src/pages/MyCoursesPage.jsx:15-40 | a failed request or any unparseable entry leaves the list empty with an error text; otherwise the list is the mapped courses in order, each with its stored count and progress, and no message |
| MyCourses.TotalCompleted | src/pages/MyCoursesPage.jsx:94 | the sum is 0 exactly when no course has a completed lesson, and is at least each course's count |
| MyCourses.TotalCompletedAppend | src/pages/MyCoursesPage.jsx:94 | the sum over a concatenation is the sum of the two sums |
| MyCourses.TotalCompletedSingle | src/pages/MyCoursesPage.jsx:94 | one course contributes its own count, which with `TotalCompletedAppend` makes the figure the sum of the counts |
| MyCourses.TotalLessons | src/pages/MyCoursesPage.jsx:100 | the same fold as Total Videos over the listed courses; 0 exactly when no course has a video, and at least each course's video count |
| MyCourses.AverageProgress | src/pages/MyCoursesPage.jsx:106-108 | 0 for no courses, else the sum of percentages over the number of courses rounded half up |
| MyCourses.CompletedWithinLessons | src/pages/MyCoursesPage.jsx:94 | Total Completed never exceeds Total Lessons when no course counts more completions than videos |
| MyCourses.AverageBounded | src/pages/MyCoursesPage.jsx:106-108 | the average of percentages is at most 100 |
| MyCourses.ButtonLabel | src/pages/MyCoursesPage.jsx:174 | "Start Learning" exactly at 0% |
| MyCourses.CompletedBadge | src/pages/MyCoursesPage.jsx:177-182 | the badge never shows beside "Start Learning" |
| MyCourses.LabelsMatchStoredSet | src/pages/MyCoursesPage.jsx:174-182 | for a stored set of distinct lessons, "Course Completed!" with the intended percentage shows exactly when all are in it, and with the page's guarded percentage too for fewer than 200 lessons; up to 200 lessons "Start Learning" shows exactly when the set is empty, with either percentage |
| MyCourses.ListReadsLessonPage | src/pages/MyCoursesPage.jsx:20-24 | after the lesson page saves its set, the list counts the set's size and carries the percentage that page shows; the two pages' own expressions agree for a course with lessons, and for a course without the list reads 0 where the lesson page has no number |
| Admin.WithoutIndex | src/pages/AdminDashboard.jsx:96 | the filter is one shorter when the index is in the list, else as long |
| Admin.WithoutIndexRemovesOne | src/pages/AdminDashboard.jsx:95-98 | exactly the entry at the index goes and the rest keep their order |
| Admin.FilledIffTrimmed | src/pages/AdminDashboard.jsx:167 | an entry counts as filled exactly when `trim()` leaves text |
| Admin.KeepFilled | src/pages/AdminDashboard.jsx:167 | only filled entries are sent, never more than the form has |
| Admin.KeepFilledMembers | src/pages/AdminDashboard.jsx:167 | an entry is sent exactly when it is in the form and filled |
| Admin.KeepFilledSubsequence | src/pages/AdminDashboard.jsx:167 | the entries sent keep their order in the form |
| Admin.KeepFilledAppend | src/pages/AdminDashboard.jsx:167 | filtering a list in two parts filters each part |
| Admin.KeepFilledOfFilled | src/pages/AdminDashboard.jsx:167 | a list of filled entries is sent unchanged |
| Admin.KeepFilledIdempotent | src/pages/AdminDashboard.jsx:167 | filtering twice is filtering once |
| Admin.OpenedVideos | src/pages/AdminDashboard.jsx:117 | the opened list is the course's own when non-empty and never empty |
| Admin.OpenedVideosRoundTrip | src/pages/AdminDashboard.jsx:117 | a course with filled entries opened and saved unchanged sends its own list |
| Admin.BlankFormSendsNoVideos | src/pages/AdminDashboard.jsx:105 | the blank form's single empty entry sends no videos |
| Admin.DigitChar | src/pages/AdminDashboard.jsx:116 | a decimal digit's character has that digit's value |
| Admin.NatString | src/pages/AdminDashboard.jsx:116 | decimal digits without a leading zero |
| Admin.DecimalStringRoundTrip | src/pages/AdminDashboard.jsx:116 | `price.toString()` reads back as the price |
| Admin.DecimalString | src/pages/AdminDashboard.jsx:116 | the text is non-empty and starts with `-` exactly for a negative price |
| Admin.Normalise | src/pages/AdminDashboard.jsx:164-168 | the form's fields are sent as they are, the video list filtered |
| Admin.UpdateField | src/pages/AdminDashboard.jsx:74-80 | only the named field changes, to `checked` for a checkbox and `value` otherwise |
| Admin.StudentForm | src/pages/AdminDashboard.jsx:130-145 | the student's name and email, or empty ones, and always no password reset |
| Admin.AdminDashboard.constructor | src/pages/AdminDashboard.jsx:14-29 | blank course form with one empty video entry, no modals, blank student form |
| Admin.AdminDashboard.TotalVideosStat | src/pages/AdminDashboard.jsx:305 | Total Videos is the fold `TotalVideos` over the fetched courses: 0 exactly when no course has a video, and at least each course's video count |
| Admin.AdminDashboard.FetchCourses | src/pages/AdminDashboard.jsx:36-45 | the catalogue replaces the course list; a failure keeps it and shows "Failed to fetch courses" |
| Admin.AdminDashboard.HandleInputChange | src/pages/AdminDashboard.jsx:67-72 | only the named text field changes |
| Admin.AdminDashboard.HandleVideoChange | src/pages/AdminDashboard.jsx:82-86 | only entry `index` changes; the length and every other entry stay |
| Admin.AdminDashboard.AddVideoField | src/pages/AdminDashboard.jsx:88-93 | exactly one `''` is appended after the unchanged list |
| Admin.AdminDashboard.RemoveVideoField | src/pages/AdminDashboard.jsx:95-98 | exactly entry `index` goes, the rest in order, and the list stays non-empty |
| Admin.AdminDashboard.ResetForm | src/pages/AdminDashboard.jsx:100-108 | empty fields, `['']`, no course being edited |
| Admin.AdminDashboard.OpenModal | src/pages/AdminDashboard.jsx:110-123 | a course fills the form with its fields, its price's decimal text and its videos or `['']`; no course gives the blank form; the modal shows and the list is non-empty |
| Admin.AdminDashboard.CloseModal | src/pages/AdminDashboard.jsx:125-128 | the modal hides and the form is blank |
| Admin.AdminDashboard.HandleSubmit | src/pages/AdminDashboard.jsx:159-189 | an update of the edited course or a create, with filled videos only; success shows the matching text and resets and closes the form; failure shows the error text and keeps the form |
| Admin.AdminDashboard.OpenStudentModal | src/pages/AdminDashboard.jsx:130-147 | the student form for the student, without password reset, and the modal shows |
| Admin.AdminDashboard.CloseStudentModal | src/pages/AdminDashboard.jsx:149-157 | the modal hides, no student is edited, and the form is blank |
| Admin.AdminDashboard.HandleStudentInputChange | src/pages/AdminDashboard.jsx:74-80 | the form becomes the named field's update |

## Left out

- The HTTP client, the token interceptor and every request are not modelled. A response is a parameter that is either delivered data or a failure with an optional server text.
- Routing, the layout, the course catalogue page, deleting courses or students, the student submit and `window.confirm` are not part of this model.
- JSX markup, CSS classes and icons are left out. The render is modelled only as the player choice, the "Mark as Complete" button, the congratulations panel, the course button label and the completed badge.
- Floating point is left out. `Math.round` of a quotient is whole-number rounding with halves up. A float quotient that lands just below or above an exact half is not reproduced.
- A general regular-expression engine is left out. The four patterns are written out as string functions.
- General JSON is left out. Stored progress is a well-formed array of whole numbers, the empty string, or text that does not parse. Other JSON values are not modelled, for example `null`, which gives an empty set, or a number, which makes `new Set` throw.
- `parseFloat(price)` at submit and the `toFixed` revenue figure are left out. The submitted price is the form's text.
- Prices are whole numbers, so `price.toString()` is only modelled for integers.
- The random lesson durations are left out. They are fake values drawn at each render.
- React's asynchronous state updates, stale closures and effect scheduling are left out. Each handler runs to completion on the current state.
- A re-fetch when the route's course identifier changes is not modelled. A page is built for one course, and its fetch runs once while it is loading.
- The loading flags of the dashboard and the refetch of courses, students and statistics after a save are not modelled.
- Admin.AdminDashboard.HandleInputChange: only the three rendered inputs (`title`, `description`, `price`) are modelled. The handler itself accepts any `name`.
- Admin.AdminDashboard.OpenModal: requires the course record to carry a video list. Without one, `course.videos.length` throws.
- Admin.AdminDashboard.HandleVideoChange: requires the index to be one of the list, because the page only renders inputs for existing entries.
- Admin.AdminDashboard.RemoveVideoField: requires the list to have more than one entry and the index to be one of the list. This is the rendering guard at `src/pages/AdminDashboard.jsx:556`. `Admin.WithoutIndexRemovesOne` covers every other index.
- LessonViewer.CourseLessonsPage.Progress: uses the intended percentage (see Findings). The page's own expression is `Progress.LessonPercent`.
- LessonViewer.CourseLessonsPage.CongratulationsShown: tests the intended percentage (see Findings). The page tests its rounded value, `LessonPercent(..) == Finite(100)`, which already holds at 200 of 201 lessons, where this member is false.
- MyCourses.WithProgress: stores the intended percentage (see Findings), not the page's guarded `Math.round`, which is `MyCourses.GuardedPercent`. The two agree below 200 lessons (`MyCourses.GuardedAgrees`). From 200 lessons on, the page can store 100 with a lesson open, for example 200 of 201, where this member stores 99. `MyCourses.MapProgress` and `MyCourses.FetchMyCourses` carry the same value.
- CongratulationsIffAllComplete: the page's own `progress === 100` test is tied to the complete set only for 1 to 199 lessons. From 200 lessons on it can show the panel with a lesson open (see Findings).
- LabelsMatchStoredSet: the badge rule for the page's own guarded percentage is stated only below 200 lessons. From 200 lessons on the page can show "Course Completed!" with a lesson open (see Findings).
- ListReadsLessonPage: the list and the lesson page are shown to carry the same percentage only for the intended value. With the pages' own expressions they differ for a course without lessons: 0 on the list, `NaN` on the lesson page.
- Text is a sequence of Unicode code points. JavaScript counts UTF-16 code units, so the 11-character identifier test and the unescaped `.` in `youtu.be` are modelled per code point. A URL with a character outside the Basic Multilingual Plane can therefore resolve differently. For example, ten letters and one such character count 12 in JavaScript and 11 here.

## Findings

| source | as written | input that shows it | evidently intended | confidence | as-written member | corrected member |
|---|---|---|---|---|---|---|
| src/pages/CourseLessonsPage.jsx:137 | `Math.round((size / course.videos.length) * 100)` with no guard for zero lessons | a course with an empty video list gives `NaN`, shown as "NaN% complete" | 0%, as the course list computes it with its guard at `src/pages/MyCoursesPage.jsx:22-24` | not executed | Progress.NoLessonsNotANumber | Progress.CompletionPercentMeaning |
| src/pages/CourseLessonsPage.jsx:391 | the congratulations panel shows when the rounded percentage is 100 | 200 of 201 lessons complete rounds to 100 and shows "You've completed this course!" | the panel, and "Course Completed!" on the course list, only when every lesson is complete | not executed | Progress.RoundsUpToFull | Progress.CompletionPercentMeaning |
| src/pages/MyCoursesPage.jsx:22-24 | the list stores the rounded percentage and shows "Course Completed!" when it is 100 (lines 177-182) | a stored array of 200 indices for a course with 201 videos stores 100 and shows the badge | 100 and the badge only when every lesson is complete | not executed | MyCourses.GuardedRoundsUpToFull | MyCourses.WithProgress |
