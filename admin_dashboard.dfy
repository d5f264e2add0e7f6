/** The administrator's dashboard: the course form with its editable list of video URLs,
    the submit step that turns the form into a create or update request, the student
    form, and the Total Videos figure. */
module Admin {
  import opened Common

  /** The text inputs of the course form, by their `name` attribute. */
  datatype FormField = Title | Description | Price

  /** A value of the student form: text from an input, or a checkbox's `checked`. */
  datatype FieldValue = Text(text: string) | Flag(on: bool)

  datatype Student = Student(id: string, name: string, email: string)

  /** `courseData` as sent to the backend. */
  datatype CourseData = CourseData(title: string, description: string, price: string, videos: seq<string>)

  datatype SaveRequest = Create(data: CourseData) | Update(courseId: string, data: CourseData)

  /** How the backend answered the create or update request. */
  datatype SaveOutcome = Saved | SaveFailed(serverError: Option<string>)

  const SaveFailedText := "Failed to save course"
  const UpdatedText := "Course updated successfully"
  const CreatedText := "Course created successfully"
  const FetchCoursesFailedText := "Failed to fetch courses"

  /** The backend's answer to the request for the whole catalogue. */
  datatype CatalogueResponse = Catalogue(courses: seq<Course>) | CatalogueFailed

  /** `videos.filter((_, i) => i !== index)`, built from the left as `filter` does. */
  function WithoutIndex(s: seq<string>, index: int): (r: seq<string>)
    ensures |r| == if 0 <= index < |s| then |s| - 1 else |s|
    decreases |s|
  {
    if s == [] then []
    else WithoutIndex(s[..|s| - 1], index) + (if |s| - 1 == index then [] else [s[|s| - 1]])
  }

  /** The filter removes exactly the entry at `index` and keeps the others in order; an
      index outside the list removes nothing. */
  lemma {:induction false} WithoutIndexRemovesOne(s: seq<string>, index: int)
    ensures 0 <= index < |s| ==> WithoutIndex(s, index) == s[..index] + s[index + 1..]
    ensures !(0 <= index < |s|) ==> WithoutIndex(s, index) == s
    decreases |s|
  {
    if s != [] {
      var init := s[..|s| - 1];
      WithoutIndexRemovesOne(init, index);
      if index == |s| - 1 {
        assert s[..index] + s[index + 1..] == init;
      } else if 0 <= index < |s| - 1 {
        assert s[..index] + s[index + 1..] == init[..index] + init[index + 1..] + [s[|s| - 1]];
      } else {
        assert init + [s[|s| - 1]] == s;
      }
    }
  }

  /** An entry with some text besides white space: `v.trim() !== ''` (see `FilledIffTrimmed`). */
  predicate Filled(v: string) {
    exists k :: 0 <= k < |v| && !IsJsWhiteSpace(v[k])
  }

  lemma FilledIffTrimmed(v: string)
    ensures Filled(v) <==> Trim(v) != []
  {
    TrimEmptyIffBlank(v);
  }

  /** `r` is `s` with some entries left out and the rest in their order. */
  predicate IsSubsequence(r: seq<string>, s: seq<string>)
    decreases |s|
  {
    if r == [] then true
    else if s == [] then false
    else if r[|r| - 1] == s[|s| - 1] then IsSubsequence(r[..|r| - 1], s[..|s| - 1])
    else IsSubsequence(r, s[..|s| - 1])
  }

  /** `videos.filter(video => video.trim() !== '')`. */
  function KeepFilled(videos: seq<string>): (r: seq<string>)
    ensures |r| <= |videos|
    ensures forall k :: 0 <= k < |r| ==> Filled(r[k])
    decreases |videos|
  {
    if videos == [] then []
    else
      var r, last := KeepFilled(videos[..|videos| - 1]), videos[|videos| - 1];
      if Filled(last) then r + [last] else r
  }

  /** The filter keeps exactly the filled entries. */
  lemma {:induction false} KeepFilledMembers(videos: seq<string>)
    ensures forall v :: v in KeepFilled(videos) <==> v in videos && Filled(v)
    decreases |videos|
  {
    if videos != [] {
      var init, last := videos[..|videos| - 1], videos[|videos| - 1];
      KeepFilledMembers(init);
      assert videos == init + [last];
    }
  }

  /** The filter keeps the filled entries in their order. */
  lemma {:induction false} KeepFilledSubsequence(videos: seq<string>)
    ensures IsSubsequence(KeepFilled(videos), videos)
    decreases |videos|
  {
    if videos != [] {
      var init, last := videos[..|videos| - 1], videos[|videos| - 1];
      var r := KeepFilled(init);
      KeepFilledSubsequence(init);
      if Filled(last) {
        assert (r + [last])[..|r|] == r;
      }
    }
  }

  /** Filtering a list in two parts filters each part. */
  lemma {:induction false} KeepFilledAppend(a: seq<string>, b: seq<string>)
    ensures KeepFilled(a + b) == KeepFilled(a) + KeepFilled(b)
    decreases |b|
  {
    if b == [] {
      assert a + b == a;
    } else {
      var binit := b[..|b| - 1];
      assert (a + b)[..|a + b| - 1] == a + binit;
      KeepFilledAppend(a, binit);
    }
  }

  /** A list of filled entries passes unchanged, so filtering twice is filtering once. */
  lemma {:induction false} KeepFilledOfFilled(videos: seq<string>)
    requires forall k :: 0 <= k < |videos| ==> Filled(videos[k])
    ensures KeepFilled(videos) == videos
    decreases |videos|
  {
    if videos != [] {
      KeepFilledOfFilled(videos[..|videos| - 1]);
      assert videos[..|videos| - 1] + [videos[|videos| - 1]] == videos;
    }
  }

  lemma KeepFilledIdempotent(videos: seq<string>)
    ensures KeepFilled(KeepFilled(videos)) == KeepFilled(videos)
  {
    KeepFilledOfFilled(KeepFilled(videos));
  }

  /** The list the form starts with, and the new entry "Add Video URL" appends. */
  const BlankVideos: seq<string> := [""]

  /** `course.videos.length > 0 ? course.videos : ['']`. */
  function OpenedVideos(v: seq<string>): (r: seq<string>)
    ensures |r| >= 1
    ensures v != [] ==> r == v
  {
    if v != [] then v else BlankVideos
  }

  function DigitChar(d: nat): (c: char)
    requires d < 10
    ensures '0' <= c <= '9' && c as int - '0' as int == d
  {
    ('0' as int + d) as char
  }

  predicate IsDigitString(s: string) {
    forall k :: 0 <= k < |s| ==> '0' <= s[k] <= '9'
  }

  /** The decimal text of a whole number, without leading zeros. */
  function NatString(n: nat): (s: string)
    ensures |s| >= 1 && IsDigitString(s)
    ensures s[0] == '0' ==> n == 0
    decreases n
  {
    if n < 10 then [DigitChar(n)] else NatString(n / 10) + [DigitChar(n % 10)]
  }

  /** The value of a text of decimal digits. */
  function DigitsValue(s: string): nat
    requires IsDigitString(s)
  {
    if s == [] then 0 else DigitsValue(s[..|s| - 1]) * 10 + (s[|s| - 1] as int - '0' as int)
  }

  lemma {:induction false} NatStringValue(n: nat)
    ensures DigitsValue(NatString(n)) == n
    decreases n
  {
    if n >= 10 {
      NatStringValue(n / 10);
      var s := NatString(n);
      assert s[..|s| - 1] == NatString(n / 10);
    }
  }

  /** `price.toString()` for a whole price. */
  function DecimalString(n: int): (s: string)
    ensures s != [] && (s[0] == '-' <==> n < 0)
  {
    if n < 0 then "-" + NatString(-n) else NatString(n)
  }

  /** Reading a signed decimal text back. */
  function DecimalValue(s: string): (n: int)
    requires s != [] && (s[0] == '-' ==> IsDigitString(s[1..])) && (s[0] != '-' ==> IsDigitString(s))
  {
    if s[0] == '-' then 0 - DigitsValue(s[1..]) else DigitsValue(s)
  }

  /** The price text the form opens with reads back as the course's price. */
  lemma DecimalStringRoundTrip(n: int)
    ensures DecimalValue(DecimalString(n)) == n
  {
    if n < 0 {
      NatStringValue(-n);
      assert DecimalString(n)[1..] == NatString(-n);
    } else {
      NatStringValue(n);
    }
  }

  /** The form's data at submit, with blank video entries dropped. */
  function Normalise(title: string, description: string, price: string, videos: seq<string>): (d: CourseData)
    ensures d.title == title && d.description == description && d.price == price
    ensures d.videos == KeepFilled(videos)
  {
    CourseData(title, description, price, KeepFilled(videos))
  }

  /** `{ ...studentFormData, [name]: value }` with `checked` for a checkbox. */
  function UpdateField(form: map<string, FieldValue>, name: string, inputType: string, value: string, checked: bool)
    : (r: map<string, FieldValue>)
    ensures r.Keys == form.Keys + {name}
    ensures r[name] == if inputType == "checkbox" then Flag(checked) else Text(value)
    ensures forall k :: k in form && k != name ==> r[k] == form[k]
  {
    form[name := if inputType == "checkbox" then Flag(checked) else Text(value)]
  }

  /** The student form `openStudentModal` sets up: the student's name and email, or
      empty ones, and never a password reset. */
  function StudentForm(student: Option<Student>): (f: map<string, FieldValue>)
    ensures f.Keys == {"name", "email", "resetPassword"}
    ensures f["resetPassword"] == Flag(false)
    ensures student.Some? ==> f["name"] == Text(student.value.name) && f["email"] == Text(student.value.email)
    ensures student.None? ==> f["name"] == Text("") && f["email"] == Text("")
  {
    match student
    case Some(s) => map["name" := Text(s.name), "email" := Text(s.email), "resetPassword" := Flag(false)]
    case None => map["name" := Text(""), "email" := Text(""), "resetPassword" := Flag(false)]
  }

  class AdminDashboard {
    /** The courses last fetched, for the Total Videos figure. */
    var courses: seq<Course>
    var title: string
    var description: string
    var price: string
    var videos: seq<string>
    var editingCourse: Option<Course>
    var showModal: bool
    var message: string
    var studentForm: map<string, FieldValue>
    var editingStudent: Option<Student>
    var showStudentModal: bool

    /** The video list always offers at least one input. */
    predicate Valid()
      reads this`videos
    {
      |videos| >= 1
    }

    /** The reset state of the course form. */
    predicate FormIsBlank()
      reads this`title, this`description, this`price, this`videos, this`editingCourse
    {
      title == [] && description == [] && price == [] && videos == BlankVideos && editingCourse.None?
    }

    constructor()
      ensures Valid() && FormIsBlank()
      ensures courses == [] && !showModal && message == []
      ensures studentForm == StudentForm(None) && editingStudent.None? && !showStudentModal
    {
      courses := [];
      title, description, price, videos := [], [], [], BlankVideos;
      editingCourse := None;
      showModal := false;
      message := [];
      studentForm := StudentForm(None);
      editingStudent := None;
      showStudentModal := false;
    }

    /** "Total Videos": each course's video count, a missing list counting as none. */
    function TotalVideosStat(): (total: nat)
      reads this`courses
      ensures total == TotalVideos(courses)
      ensures total == 0 <==> forall i :: 0 <= i < |courses| ==> VideoCount(courses[i]) == 0
      ensures forall i :: 0 <= i < |courses| ==> VideoCount(courses[i]) <= total
    {
      TotalVideosZeroIff(courses);
      TotalVideos(courses)
    }

    /** `fetchCourses`: the catalogue replaces the list; a failure keeps it and shows a
        fixed text. */
    method FetchCourses(response: CatalogueResponse)
      modifies this`courses, this`message
      ensures response.Catalogue? ==> courses == response.courses && message == old(message)
      ensures response.CatalogueFailed? ==> courses == old(courses) && message == FetchCoursesFailedText
    {
      match response {
        case Catalogue(cs) =>
          courses := cs;
        case CatalogueFailed =>
          message := FetchCoursesFailedText;
      }
    }

    /** `handleInputChange` on one of the three text inputs. */
    method HandleInputChange(field: FormField, value: string)
      modifies this`title, this`description, this`price
      ensures field == Title ==> title == value && description == old(description) && price == old(price)
      ensures field == Description ==> description == value && title == old(title) && price == old(price)
      ensures field == Price ==> price == value && title == old(title) && description == old(description)
    {
      match field {
        case Title => title := value;
        case Description => description := value;
        case Price => price := value;
      }
    }

    /** `handleVideoChange`: one input per entry, so the index is one of the list. */
    method HandleVideoChange(index: nat, value: string)
      requires Valid() && index < |videos|
      modifies this`videos
      ensures Valid()
      ensures |videos| == |old(videos)| && videos[index] == value
      ensures forall k :: 0 <= k < |videos| && k != index ==> videos[k] == old(videos)[k]
    {
      var updated := videos[index := value];
      videos := updated;
    }

    /** `addVideoField`. */
    method AddVideoField()
      requires Valid()
      modifies this`videos
      ensures Valid()
      ensures videos == old(videos) + BlankVideos
    {
      videos := videos + BlankVideos;
    }

    /** `removeVideoField`: its button is rendered beside each entry only while the list has
        more than one. */
    method RemoveVideoField(index: int)
      requires Valid() && |videos| > 1 && 0 <= index < |videos|
      modifies this`videos
      ensures Valid()
      ensures videos == WithoutIndex(old(videos), index)
      ensures videos == old(videos)[..index] + old(videos)[index + 1..]
    {
      WithoutIndexRemovesOne(videos, index);
      videos := WithoutIndex(videos, index);
    }

    /** `resetForm`. */
    method ResetForm()
      modifies this`title, this`description, this`price, this`videos, this`editingCourse
      ensures Valid() && FormIsBlank()
    {
      title, description, price, videos := [], [], [], BlankVideos;
      editingCourse := None;
    }

    /** `openModal(course)`: a course to edit fills the form, with one empty entry when it
        has no videos; no course opens the blank form. The course record always carries its
        video list here. */
    method OpenModal(course: Option<Course>)
      requires course.Some? ==> course.value.videos.Some?
      modifies this`title, this`description, this`price, this`videos, this`editingCourse, this`showModal
      ensures Valid() && showModal
      ensures course.None? ==> FormIsBlank()
      ensures course.Some? ==>
        && editingCourse == course
        && title == course.value.title && description == course.value.description
        && price == DecimalString(course.value.price)
        && videos == OpenedVideos(course.value.videos.value)
    {
      match course {
        case Some(c) =>
          editingCourse := course;
          title, description, price := c.title, c.description, DecimalString(c.price);
          videos := OpenedVideos(c.videos.value);
        case None =>
          ResetForm();
      }
      showModal := true;
    }

    /** `closeModal`. */
    method CloseModal()
      modifies this`title, this`description, this`price, this`videos, this`editingCourse, this`showModal
      ensures Valid() && FormIsBlank() && !showModal
    {
      showModal := false;
      ResetForm();
    }

    /** `handleSubmit`: the request built from the form, then what the backend's answer does
        to the page. A success closes and resets the form; a failure keeps it open as it is. */
    method HandleSubmit(outcome: SaveOutcome) returns (request: SaveRequest)
      modifies this`title, this`description, this`price, this`videos, this`editingCourse, this`showModal
      modifies this`message
      ensures old(editingCourse).Some? ==>
        request == Update(old(editingCourse).value.id, Normalise(old(title), old(description), old(price), old(videos)))
      ensures old(editingCourse).None? ==>
        request == Create(Normalise(old(title), old(description), old(price), old(videos)))
      ensures outcome == Saved ==>
        && message == (if old(editingCourse).Some? then UpdatedText else CreatedText)
        && Valid() && FormIsBlank() && !showModal
      ensures outcome.SaveFailed? ==>
        && message == ErrorText(outcome.serverError, SaveFailedText)
        && title == old(title) && description == old(description) && price == old(price)
        && videos == old(videos) && editingCourse == old(editingCourse) && showModal == old(showModal)
    {
      var data := Normalise(title, description, price, videos);
      match editingCourse {
        case Some(c) => request := Update(c.id, data);
        case None => request := Create(data);
      }
      match outcome {
        case Saved =>
          message := if editingCourse.Some? then UpdatedText else CreatedText;
          CloseModal();
        case SaveFailed(serverError) =>
          message := ErrorText(serverError, SaveFailedText);
      }
    }

    /** `openStudentModal`. */
    method OpenStudentModal(student: Option<Student>)
      modifies this`editingStudent, this`studentForm, this`showStudentModal
      ensures editingStudent == student && showStudentModal
      ensures studentForm == StudentForm(student)
    {
      editingStudent := student;
      studentForm := StudentForm(student);
      showStudentModal := true;
    }

    /** `closeStudentModal`. */
    method CloseStudentModal()
      modifies this`editingStudent, this`studentForm, this`showStudentModal
      ensures editingStudent.None? && !showStudentModal
      ensures studentForm == StudentForm(None)
    {
      showStudentModal := false;
      editingStudent := None;
      studentForm := StudentForm(None);
    }

    /** `handleStudentInputChange`. */
    method HandleStudentInputChange(name: string, inputType: string, value: string, checked: bool)
      modifies this`studentForm
      ensures studentForm == UpdateField(old(studentForm), name, inputType, value, checked)
    {
      studentForm := UpdateField(studentForm, name, inputType, value, checked);
    }
  }

  /** A course opened for editing and saved without changes sends back its own video
      list when every entry is filled, including an empty list. */
  lemma OpenedVideosRoundTrip(v: seq<string>)
    requires forall k :: 0 <= k < |v| ==> Filled(v[k])
    ensures KeepFilled(OpenedVideos(v)) == v
  {
    if v == [] {
      BlankFormSendsNoVideos();
    } else {
      KeepFilledOfFilled(v);
    }
  }

  /** The blank list of a new form sends no videos at all. */
  lemma BlankFormSendsNoVideos()
    ensures KeepFilled(BlankVideos) == []
  {
    assert BlankVideos[..0] == [];
  }
}
