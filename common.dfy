/** Vocabulary shared by the three pages: optional values, the JavaScript string
    operations the pages rely on, and the course record the backend returns. */
module Common {

  /** `null`/`undefined` versus a present value. */
  datatype Option<T> = None | Some(value: T)

  /** Line terminators of ECMAScript; `.` in a regular expression does not match them. */
  predicate IsLineTerminator(c: char) {
    c == '\n' || c == '\r' || c == '\U{2028}' || c == '\U{2029}'
  }

  /** White space as `String.prototype.trim` strips it (WhiteSpace and LineTerminator of ECMAScript). */
  predicate IsJsWhiteSpace(c: char) {
    || c == '\t' || c == '\U{000B}' || c == '\U{000C}' || c == ' '
    || c == '\U{00A0}' || c == '\U{FEFF}' || c == '\U{1680}'
    || ('\U{2000}' <= c <= '\U{200A}')
    || c == '\U{202F}' || c == '\U{205F}' || c == '\U{3000}'
    || IsLineTerminator(c)
  }

  /** `t` occurs in `s` starting at index `i`. */
  predicate OccursAt(s: string, t: string, i: nat) {
    i + |t| <= |s| && s[i..i + |t|] == t
  }

  /** An occurrence fixes every character it covers. */
  lemma OccursAtChar(s: string, t: string, i: nat, k: nat)
    requires OccursAt(s, t, i) && k < |t|
    ensures s[i + k] == t[k]
  {
    assert s[i..i + |t|][k] == s[i + k];
  }

  /** One mismatching character rules out an occurrence. */
  lemma NotOccursAt(s: string, t: string, i: nat, k: nat)
    requires k < |t| && (i + |t| <= |s| ==> s[i + k] != t[k])
    ensures !OccursAt(s, t, i)
  {
    if i + |t| <= |s| {
      assert s[i..i + |t|][k] == s[i + k];
    }
  }

  /** `s.includes(t)`, scanning from the left. */
  function Includes(s: string, t: string): bool
    decreases |s|
  {
    if |s| < |t| then false
    else s[..|t|] == t || Includes(s[1..], t)
  }

  /** The scan agrees with the definition of a substring occurrence. */
  lemma {:induction false} IncludesIff(s: string, t: string)
    ensures Includes(s, t) <==> exists i: nat :: OccursAt(s, t, i)
    decreases |s|
  {
    if |s| < |t| {
      forall i: nat ensures !OccursAt(s, t, i) { }
    } else if s[..|t|] == t {
      assert OccursAt(s, t, 0);
    } else {
      IncludesIff(s[1..], t);
      if Includes(s[1..], t) {
        var i: nat :| OccursAt(s[1..], t, i);
        assert s[1..][i..i + |t|] == s[i + 1..i + 1 + |t|];
        assert OccursAt(s, t, i + 1);
      } else {
        forall i: nat | OccursAt(s, t, i) ensures false {
          assert i != 0;
          assert s[1..][i - 1..i - 1 + |t|] == s[i..i + |t|];
          assert OccursAt(s[1..], t, i - 1);
        }
      }
    }
  }

  /** An occurrence at a known index is found by `includes`. */
  lemma IncludesAt(s: string, t: string, i: nat)
    requires OccursAt(s, t, i)
    ensures Includes(s, t)
  {
    IncludesIff(s, t);
  }

  /** Text written between two others is found in the whole. */
  lemma IncludesMiddle(a: string, t: string, b: string)
    ensures Includes(a + t + b, t)
  {
    assert (a + t + b)[|a|..|a| + |t|] == t;
    IncludesAt(a + t + b, t, |a|);
  }

  /** Appending text never removes an occurrence. */
  lemma IncludesExtend(s: string, t: string, tail: string)
    requires Includes(s, t)
    ensures Includes(s + tail, t)
  {
    IncludesIff(s, t);
    var i: nat :| OccursAt(s, t, i);
    assert (s + tail)[i..i + |t|] == s[i..i + |t|];
    IncludesAt(s + tail, t, i);
  }

  /** `s.trimStart()`. */
  function TrimStart(s: string): (r: string)
    ensures |r| <= |s| && r == s[|s| - |r|..]
    ensures r == [] || !IsJsWhiteSpace(r[0])
    ensures forall k :: 0 <= k < |s| - |r| ==> IsJsWhiteSpace(s[k])
  {
    if s != [] && IsJsWhiteSpace(s[0]) then TrimStart(s[1..]) else s
  }

  /** `s.trimEnd()`. */
  function TrimEnd(s: string): (r: string)
    ensures |r| <= |s| && r == s[..|r|]
    ensures r == [] || !IsJsWhiteSpace(r[|r| - 1])
    ensures forall k :: |r| <= k < |s| ==> IsJsWhiteSpace(s[k])
  {
    if s != [] && IsJsWhiteSpace(s[|s| - 1]) then TrimEnd(s[..|s| - 1]) else s
  }

  /** `s.trim()`. */
  function Trim(s: string): string {
    TrimEnd(TrimStart(s))
  }

  /** `s.trim() === ''` exactly when every character of `s` is white space. */
  lemma TrimEmptyIffBlank(s: string)
    ensures Trim(s) == [] <==> forall k :: 0 <= k < |s| ==> IsJsWhiteSpace(s[k])
  {
    var a := TrimStart(s);
    if Trim(s) != [] {
      var r := Trim(s);
      assert r[0] == a[0];
      assert a[0] == s[|s| - |a|];
    }
  }

  /** A course as the backend returns it. Prices are modelled as whole numbers. */
  datatype Course = Course(id: string, title: string, description: string, price: int, videos: Option<seq<string>>)

  /** `course.videos?.length || 0`. */
  function VideoCount(c: Course): nat {
    match c.videos
    case Some(v) => |v|
    case None => 0
  }

  /** `courses.reduce((sum, course) => sum + (course.videos?.length || 0), 0)`, folded from the left. */
  function TotalVideos(courses: seq<Course>): (total: nat)
    ensures forall i :: 0 <= i < |courses| ==> VideoCount(courses[i]) <= total
    decreases |courses|
  {
    if courses == [] then 0
    else
      var init := courses[..|courses| - 1];
      assert forall i :: 0 <= i < |init| ==> init[i] == courses[i];
      TotalVideos(init) + VideoCount(courses[|courses| - 1])
  }

  /** The total of a concatenation is the sum of the totals: the order of the fold does not matter. */
  lemma {:induction false} TotalVideosAppend(a: seq<Course>, b: seq<Course>)
    ensures TotalVideos(a + b) == TotalVideos(a) + TotalVideos(b)
    decreases |b|
  {
    if b == [] {
      assert a + b == a;
    } else {
      assert (a + b)[..|a + b| - 1] == a + b[..|b| - 1];
      TotalVideosAppend(a, b[..|b| - 1]);
    }
  }

  /** A single course's total is its own count: with `TotalVideosAppend` this fixes the sum. */
  lemma TotalVideosSingle(c: Course)
    ensures TotalVideos([c]) == VideoCount(c)
  {
    assert [c][..0] == [];
  }

  /** The total counts every course's videos: it is zero exactly when no course has a video. */
  lemma {:induction false} TotalVideosZeroIff(courses: seq<Course>)
    ensures TotalVideos(courses) == 0 <==> forall i :: 0 <= i < |courses| ==> VideoCount(courses[i]) == 0
    decreases |courses|
  {
    if courses != [] {
      var init := courses[..|courses| - 1];
      TotalVideosZeroIff(init);
      assert forall i :: 0 <= i < |init| ==> init[i] == courses[i];
    }
  }

  /** The error text a page shows: the server's `error` field when present and non-empty, else a fixed text. */
  function ErrorText(serverError: Option<string>, fallback: string): (text: string)
    ensures fallback != [] ==> text != []
    ensures serverError.Some? && serverError.value != [] ==> text == serverError.value
    ensures serverError.None? || serverError.value == [] ==> text == fallback
  {
    match serverError
    case Some(e) => if e != [] then e else fallback
    case None => fallback
  }
}
