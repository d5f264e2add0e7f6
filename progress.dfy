/** Per-course lesson progress: the set of completed lesson indices, its JSON text in the
    browser's key-value storage, and the completion percentage derived from it. */
module Progress {
  import opened Common

  /** What `localStorage.getItem` can return for a progress key, as far as the pages read it:
      the JSON text of an array of lesson indices, the empty string (falsy, so not parsed),
      or text that `JSON.parse` rejects. */
  datatype StoredText = IndexArray(items: seq<int>) | EmptyText | Unparseable

  /** The browser's storage, from key to text; a missing key reads `null`. */
  type Storage = map<string, StoredText>

  /** `course_${courseId}_progress`. */
  function ProgressKey(courseId: string): (key: string)
    ensures |key| == |courseId| + 16
    ensures key[7..7 + |courseId|] == courseId
  {
    "course_" + courseId + "_progress"
  }

  /** Different courses never share a progress key. */
  lemma ProgressKeyInjective(a: string, b: string)
    ensures ProgressKey(a) == ProgressKey(b) ==> a == b
  {
    if ProgressKey(a) == ProgressKey(b) {
      assert |a| == |b|;
      assert a == ProgressKey(a)[7..7 + |a|] == ProgressKey(b)[7..7 + |b|] == b;
    }
  }

  /** A JavaScript `Set` of indices is kept as the sequence of its members in insertion
      order, which is also the order `[...set]` lists them in. */
  predicate NoDuplicates(s: seq<int>) {
    forall i, j :: 0 <= i < j < |s| ==> s[i] != s[j]
  }

  function Elements(s: seq<int>): set<int> {
    set x | x in s
  }

  /** `set.add(x)`: a new member goes to the end, a present one changes nothing. */
  function AddIndex(s: seq<int>, x: int): (r: seq<int>)
    ensures Elements(r) == Elements(s) + {x}
    ensures NoDuplicates(s) ==> NoDuplicates(r)
    ensures |s| <= |r| && r[..|s|] == s
  {
    if x in s then s else s + [x]
  }

  /** Adding a member twice is adding it once. */
  lemma AddIndexIdempotent(s: seq<int>, x: int)
    ensures AddIndex(AddIndex(s, x), x) == AddIndex(s, x)
  {
    assert x in AddIndex(s, x);
  }

  /** `new Set(xs)`: the members of `xs`, added from the left. */
  function Dedup(xs: seq<int>): (r: seq<int>)
    ensures NoDuplicates(r) && Elements(r) == Elements(xs)
    decreases |xs|
  {
    if xs == [] then []
    else
      var init := xs[..|xs| - 1];
      assert Elements(xs) == Elements(init) + {xs[|xs| - 1]} by {
        assert xs == init + [xs[|xs| - 1]];
      }
      AddIndex(Dedup(init), xs[|xs| - 1])
  }

  /** Listing a set and building a set from the list gives the set back in the same order. */
  lemma {:induction false} DedupOfDistinct(xs: seq<int>)
    requires NoDuplicates(xs)
    ensures Dedup(xs) == xs
    decreases |xs|
  {
    if xs != [] {
      var init, last := xs[..|xs| - 1], xs[|xs| - 1];
      assert NoDuplicates(init);
      DedupOfDistinct(init);
      assert last !in init;
      assert Dedup(xs) == AddIndex(init, last) == init + [last];
      assert init + [last] == xs;
    }
  }

  /** `set.size` is the length of the member list. */
  lemma {:induction false} SizeOfDistinct(s: seq<int>)
    requires NoDuplicates(s)
    ensures |Elements(s)| == |s|
    decreases |s|
  {
    if s != [] {
      var init := s[..|s| - 1];
      SizeOfDistinct(init);
      assert s == init + [s[|s| - 1]];
      assert Elements(s) == Elements(init) + {s[|s| - 1]};
      assert s[|s| - 1] !in Elements(init);
    }
  }

  /** Every member is a lesson index of a course with `n` lessons. */
  predicate AllBelow(s: seq<int>, n: int) {
    forall k :: 0 <= k < |s| ==> 0 <= s[k] < n
  }

  /** The indices `0 .. n-1` of a course's lessons. */
  function Lessons(n: nat): (r: set<int>)
    ensures forall i :: i in r <==> 0 <= i < n
    ensures |r| == n
  {
    if n == 0 then {} else Lessons(n - 1) + {n - 1}
  }

  /** A set of distinct lesson indices has at most one member per lesson, and has one per
      lesson exactly when every lesson is in it. */
  lemma CompleteIff(s: seq<int>, n: nat)
    requires NoDuplicates(s) && AllBelow(s, n)
    ensures |s| <= n
    ensures |s| == n <==> forall i :: 0 <= i < n ==> i in s
  {
    SizeOfDistinct(s);
    var e := Elements(s);
    assert e <= Lessons(n);
    assert |Lessons(n)| == |e| + |Lessons(n) - e|;
    if |s| == n {
      assert Lessons(n) - e == {};
      forall i | 0 <= i < n ensures i in s {
        assert i in Lessons(n);
      }
    }
    if forall i :: 0 <= i < n ==> i in s {
      assert Lessons(n) <= e;
    }
  }

  /** What `fetchCourseLessons` does with the stored progress of a course. */
  datatype LoadOutcome =
    | Keep                       // key absent or empty: the current set stays
    | Replace(items: seq<int>)   // `setCompletedLessons(new Set(JSON.parse(saved)))`
    | ParseFailure               // `JSON.parse` throws inside the page's `try`

  function ReadProgress(storage: Storage, courseId: string): (o: LoadOutcome)
    ensures o == Keep <==> ProgressKey(courseId) !in storage || storage[ProgressKey(courseId)] == EmptyText
    ensures o == ParseFailure <==>
      ProgressKey(courseId) in storage && storage[ProgressKey(courseId)] == Unparseable
    ensures o.Replace? <==>
      ProgressKey(courseId) in storage && storage[ProgressKey(courseId)].IndexArray?
    ensures o.Replace? ==>
      NoDuplicates(o.items) && Elements(o.items) == Elements(storage[ProgressKey(courseId)].items)
  {
    var key := ProgressKey(courseId);
    if key !in storage then Keep
    else match storage[key]
      case EmptyText => Keep
      case Unparseable => ParseFailure
      case IndexArray(items) => Replace(Dedup(items))
  }

  /** `localStorage.setItem(key, JSON.stringify([...set]))`. */
  function SaveProgress(storage: Storage, courseId: string, s: seq<int>): (r: Storage)
    ensures ProgressKey(courseId) in r
    ensures forall other :: other != courseId && ProgressKey(other) in storage ==>
      ProgressKey(other) in r && r[ProgressKey(other)] == storage[ProgressKey(other)]
  {
    forall other | other != courseId ensures ProgressKey(other) != ProgressKey(courseId) {
      ProgressKeyInjective(other, courseId);
    }
    storage[ProgressKey(courseId) := IndexArray(s)]
  }

  /** Reading back what was saved gives the same set, in the same order. */
  lemma ReloadAfterSave(storage: Storage, courseId: string, s: seq<int>)
    requires NoDuplicates(s)
    ensures ReadProgress(SaveProgress(storage, courseId, s), courseId) == Replace(s)
  {
    DedupOfDistinct(s);
  }

  /** `Math.round(a / b)` for whole `a` and positive `b`: the nearest whole number, halves
      rounded up. */
  function RoundDiv(a: nat, b: nat): (r: nat)
    requires b > 0
    ensures 2 * b * r <= 2 * a + b < 2 * b * (r + 1)
  {
    (2 * a + b) / (2 * b)
  }

  /** Only one whole number lies that close to `a / b`. */
  lemma RoundDivUnique(a: nat, b: nat, r: nat)
    requires b > 0 && 2 * b * r <= 2 * a + b < 2 * b * (r + 1)
    ensures RoundDiv(a, b) == r
  {
    var q := RoundDiv(a, b);
    if q < r {
      MulMonotone(2 * b, q + 1, r);
    } else if q > r {
      MulMonotone(2 * b, r + 1, q);
    }
  }

  lemma MulMonotone(k: nat, x: nat, y: nat)
    requires x <= y
    ensures k * x <= k * y
  {
    assert k * y == k * x + k * (y - x);
  }

  /** A number of JavaScript: a finite value, `NaN` (from `0 / 0`) or `Infinity` (from
      `c / 0` with `c > 0`). */
  datatype Ratio = Finite(value: int) | NotANumber | Infinite

  /** The lesson page's `Math.round((completedLessons.size / course.videos.length) * 100)`,
      with no guard for a course without lessons. */
  function LessonPercent(completed: nat, lessons: nat): (p: Ratio)
    ensures lessons > 0 <==> p.Finite?
    ensures lessons == 0 ==> (p == NotANumber <==> completed == 0)
    ensures p.Finite? ==> 2 * lessons * p.value <= 200 * completed + lessons < 2 * lessons * (p.value + 1)
  {
    if lessons == 0 then (if completed == 0 then NotANumber else Infinite)
    else Finite(RoundDiv(100 * completed, lessons))
  }

  /** A course with no lessons shows `NaN%`, not a number between 0 and 100. */
  lemma NoLessonsNotANumber()
    ensures LessonPercent(0, 0) == NotANumber
  {
  }

  /** With at most as many completions as lessons the percentage lies in 0..100. */
  lemma PercentBounds(completed: nat, lessons: nat)
    requires 0 < lessons && completed <= lessons
    ensures LessonPercent(completed, lessons).Finite?
    ensures 0 <= LessonPercent(completed, lessons).value <= 100
  {
    var r := RoundDiv(100 * completed, lessons);
    MulMonotone(200, completed, lessons);
    if r > 100 {
      MulMonotone(2 * lessons, 101, r);
    }
  }

  /** Every lesson complete gives exactly 100. */
  lemma PercentOfAll(lessons: nat)
    requires 0 < lessons
    ensures LessonPercent(lessons, lessons) == Finite(100)
  {
    RoundDivUnique(100 * lessons, lessons, 100);
  }

  /** Below 200 lessons, 100 means every lesson is complete. */
  lemma PercentFullIff(completed: nat, lessons: nat)
    requires 0 < lessons < 200 && completed <= lessons
    ensures LessonPercent(completed, lessons) == Finite(100) <==> completed == lessons
  {
    if completed < lessons {
      var r := RoundDiv(100 * completed, lessons);
      MulMonotone(200, completed, lessons - 1);
      if r >= 100 {
        MulMonotone(2 * lessons, 100, r);
      }
    } else {
      PercentOfAll(lessons);
    }
  }

  /** Up to 200 lessons, 0 means no lesson is complete. */
  lemma PercentZeroIff(completed: nat, lessons: nat)
    requires 0 < lessons <= 200
    ensures LessonPercent(completed, lessons) == Finite(0) <==> completed == 0
  {
    if completed > 0 {
      MulMonotone(200, 1, completed);
    } else {
      RoundDivUnique(0, lessons, 0);
    }
  }

  /** With 200 of 201 lessons complete the page already shows 100% and its congratulations. */
  lemma RoundsUpToFull()
    ensures LessonPercent(200, 201) == Finite(100)
  {
    RoundDivUnique(20000, 201, 100);
  }

  /** With 1 of 201 lessons complete the page still shows 0%. */
  lemma RoundsDownToNone()
    ensures LessonPercent(1, 201) == Finite(0)
  {
    RoundDivUnique(100, 201, 0);
  }

  /** The completion percentage as evidently intended: 0 for a course without lessons, as
      the course list shows it, and never 100 while a lesson is still open. */
  function CompletionPercent(completed: nat, lessons: nat): (p: nat)
    ensures completed < lessons ==> p < 100
  {
    if lessons == 0 then 0
    else
      var r := RoundDiv(100 * completed, lessons);
      if completed < lessons && r >= 100 then 99 else r
  }

  /** For completions within the course, the intended percentage lies in 0..100, is 100
      exactly when every lesson is complete and 0 when none is. */
  lemma CompletionPercentMeaning(completed: nat, lessons: nat)
    ensures completed <= lessons ==> CompletionPercent(completed, lessons) <= 100
    ensures completed <= lessons ==>
      (CompletionPercent(completed, lessons) == 100 <==> 0 < lessons && completed == lessons)
    ensures completed == 0 ==> CompletionPercent(completed, lessons) == 0
  {
    if 0 < lessons && completed <= lessons {
      PercentBounds(completed, lessons);
      if completed == lessons {
        PercentOfAll(lessons);
      }
      if completed == 0 {
        RoundDivUnique(0, lessons, 0);
      }
    }
  }

  /** The intended percentage is the page's wherever the page gives a number that is not
      a premature 100: every course with at least one and fewer than 200 lessons. */
  lemma CompletionAgrees(completed: nat, lessons: nat)
    requires 0 < lessons < 200 && completed <= lessons
    ensures LessonPercent(completed, lessons) == Finite(CompletionPercent(completed, lessons))
  {
    PercentFullIff(completed, lessons);
    PercentBounds(completed, lessons);
  }
}
