/** The lesson viewer's video-source resolver: it classifies a lesson URL by provider,
    extracts the YouTube or Google Drive identifier with the page's regular expressions,
    builds the embeddable URL and picks what the player area shows. */
module VideoSource {
  import opened Common

  const YouTubeEmbedBase := "https://www.youtube.com/embed/"
  const Https := "https://"
  const YouTubeHost := Https + "www." + "youtube.com" + "/"
  const ShortHost := Https + "youtu.be" + "/"
  const DriveHost := "drive.google.com"
  const FileDPath := "/file/d/"
  const DriveEmbedBase := Https + DriveHost + FileDPath
  const DrivePreviewSuffix := "/preview"

  /** `isYouTubeUrl`. */
  predicate IsYouTubeUrl(url: string) {
    Includes(url, "youtube.com") || Includes(url, "youtu.be")
  }

  /** `isGoogleDriveUrl`. */
  predicate IsGoogleDriveUrl(url: string) {
    Includes(url, "drive.google.com") || Includes(url, "docs.google.com")
  }

  /** Both provider tests hold exactly when one of their host texts occurs in the URL. */
  lemma ProviderTestsIff(url: string)
    ensures IsYouTubeUrl(url) <==>
      (exists i: nat :: OccursAt(url, "youtube.com", i)) || (exists i: nat :: OccursAt(url, "youtu.be", i))
    ensures IsGoogleDriveUrl(url) <==>
      (exists i: nat :: OccursAt(url, "drive.google.com", i)) || (exists i: nat :: OccursAt(url, "docs.google.com", i))
  {
    IncludesIff(url, "youtube.com");
    IncludesIff(url, "youtu.be");
    IncludesIff(url, "drive.google.com");
    IncludesIff(url, "docs.google.com");
  }

  datatype SourceType = YouTube | GoogleDrive | DirectVideo

  /** `getVideoSourceType`: the YouTube test wins over the Drive test, anything else is a direct file. */
  function GetVideoSourceType(url: string): (t: SourceType)
    ensures t == YouTube <==> IsYouTubeUrl(url)
    ensures t == GoogleDrive <==> !IsYouTubeUrl(url) && IsGoogleDriveUrl(url)
    ensures t == DirectVideo <==> !IsYouTubeUrl(url) && !IsGoogleDriveUrl(url)
  {
    if IsYouTubeUrl(url) then YouTube
    else if IsGoogleDriveUrl(url) then GoogleDrive
    else DirectVideo
  }

  /** `\w`. */
  predicate IsWordChar(c: char) {
    ('a' <= c <= 'z') || ('A' <= c <= 'Z') || ('0' <= c <= '9') || c == '_'
  }

  /** `[a-zA-Z0-9-_]`: letters, digits, `-` and `_`. */
  predicate IsIdChar(c: char) {
    ('a' <= c <= 'z') || ('A' <= c <= 'Z') || ('0' <= c <= '9') || c == '-' || c == '_'
  }

  /** `[^#&?]`. */
  predicate IsQueryValueChar(c: char) {
    c != '#' && c != '&' && c != '?'
  }

  predicate IsNotLineTerminator(c: char) {
    !IsLineTerminator(c)
  }

  predicate IsIdString(x: string) {
    forall k :: 0 <= k < |x| ==> IsIdChar(x[k])
  }

  /** The longest run of characters satisfying `keep` that starts at index `i`: a greedy `[...]*`. */
  function Span(s: string, i: nat, keep: char -> bool): (r: string)
    requires i <= |s|
    ensures i + |r| <= |s| && r == s[i..i + |r|]
    ensures forall k :: 0 <= k < |r| ==> keep(r[k])
    ensures i + |r| == |s| || !keep(s[i + |r|])
    decreases |s| - i
  {
    if i < |s| && keep(s[i]) then [s[i]] + Span(s, i + 1, keep) else []
  }

  /** How far `^.*` reaches: the index of the first line terminator, or the length. */
  function LineEnd(s: string): (e: nat)
    ensures e <= |s| && (e == |s| || IsLineTerminator(s[e]))
    ensures forall k :: 0 <= k < e ==> !IsLineTerminator(s[k])
  {
    |Span(s, 0, IsNotLineTerminator)|
  }

  /** The alternative of `(youtu.be\/|v\/|u\/\w\/|embed\/|watch\?v=|&v=)` that matches at index
      `p`, tried in the order the expression lists them, given as the length of the text it
      matches. The `.` of `youtu.be` is unescaped, so it stands for any character but a line
      terminator. */
  function MarkerAt(s: string, p: nat): (len: Option<nat>)
    ensures len.Some? ==> 2 <= len.value && p + len.value <= |s|
    ensures len.Some? ==> s[p + len.value - 1] == '/' || s[p + len.value - 1] == '='
    ensures len.Some? ==> !IsLineTerminator(s[p])
    ensures len.Some? ==> s[p] in "yvuew&" && (s[p] == 'e' ==> s[p + 1] == 'm')
  {
    if OccursAt(s, "youtu", p) && p + 9 <= |s| && !IsLineTerminator(s[p + 5]) && OccursAt(s, "be/", p + 6) then
      OccursAtChar(s, "youtu", p, 0);
      OccursAtChar(s, "be/", p + 6, 2);
      Some(9)
    else if OccursAt(s, "v/", p) then
      OccursAtChar(s, "v/", p, 0);
      OccursAtChar(s, "v/", p, 1);
      Some(2)
    else if p + 4 <= |s| && s[p] == 'u' && s[p + 1] == '/' && IsWordChar(s[p + 2]) && s[p + 3] == '/' then Some(4)
    else if OccursAt(s, "embed/", p) then
      OccursAtChar(s, "embed/", p, 0);
      OccursAtChar(s, "embed/", p, 1);
      OccursAtChar(s, "embed/", p, 5);
      Some(6)
    else if OccursAt(s, "watch?v=", p) then
      OccursAtChar(s, "watch?v=", p, 0);
      OccursAtChar(s, "watch?v=", p, 7);
      Some(8)
    else if OccursAt(s, "&v=", p) then
      OccursAtChar(s, "&v=", p, 0);
      OccursAtChar(s, "&v=", p, 2);
      Some(3)
    else None
  }

  /** The rightmost index at or below `p` where a marker matches, with that marker's length:
      the position the greedy `^.*` backtracks to first. */
  function LastMarkerFrom(s: string, p: nat): (m: Option<(nat, nat)>)
    ensures m.Some? ==> m.value.0 <= p && MarkerAt(s, m.value.0) == Some(m.value.1)
    ensures m.Some? ==> forall q: nat :: m.value.0 < q <= p ==> MarkerAt(s, q).None?
    ensures m.None? ==> forall q: nat :: q <= p ==> MarkerAt(s, q).None?
    decreases p
  {
    match MarkerAt(s, p)
    case Some(len) => Some((p, len))
    case None => if p == 0 then None else LastMarkerFrom(s, p - 1)
  }

  /** `getVideoId`: `^.*(marker)([^#&?]*).*` captures the run after the rightmost marker on
      the first line, and the result is kept only when that run has exactly 11 characters. */
  function GetVideoId(url: string): (id: Option<string>)
    ensures id.Some? ==> |id.value| == 11 && forall k :: 0 <= k < 11 ==> IsQueryValueChar(id.value[k])
    ensures var m := LastMarkerFrom(url, LineEnd(url));
      id.Some? <==> m.Some? && |Span(url, m.value.0 + m.value.1, IsQueryValueChar)| == 11
    ensures var m := LastMarkerFrom(url, LineEnd(url));
      id.Some? ==> m.Some? && id.value == Span(url, m.value.0 + m.value.1, IsQueryValueChar)
  {
    match LastMarkerFrom(url, LineEnd(url))
    case None => None
    case Some((p, len)) =>
      var run := Span(url, p + len, IsQueryValueChar);
      if |run| == 11 then Some(run) else None
  }

  /** The three patterns `getGoogleDriveId` tries, in its order. */
  datatype DrivePattern = FileD | IdParam | SlashD

  /** Length of the text a pattern matches before its capture group. */
  function PrefixLength(pat: DrivePattern): nat {
    match pat
    case FileD => 8
    case IdParam => 4
    case SlashD => 3
  }

  /** `\/file\/d\/([a-zA-Z0-9-_]+)`, `[?&]id=([a-zA-Z0-9-_]+)` or `\/d\/([a-zA-Z0-9-_]+)` matches at `p`. */
  predicate DriveMatchAt(s: string, pat: DrivePattern, p: nat) {
    var n := PrefixLength(pat);
    && p + n < |s|
    && IsIdChar(s[p + n])
    && match pat
       case FileD => OccursAt(s, "/file/d/", p)
       case IdParam => (s[p] == '?' || s[p] == '&') && OccursAt(s, "id=", p + 1)
       case SlashD => OccursAt(s, "/d/", p)
  }

  /** The leftmost index at or above `p` where the pattern matches. */
  function LeftmostMatch(s: string, pat: DrivePattern, p: nat): (m: Option<nat>)
    requires p <= |s|
    ensures m.Some? ==> p <= m.value < |s| && DriveMatchAt(s, pat, m.value)
    ensures m.Some? ==> forall q: nat :: p <= q < m.value ==> !DriveMatchAt(s, pat, q)
    ensures m.None? ==> forall q: nat :: p <= q ==> !DriveMatchAt(s, pat, q)
    decreases |s| - p
  {
    if p == |s| then None
    else if DriveMatchAt(s, pat, p) then Some(p)
    else LeftmostMatch(s, pat, p + 1)
  }

  /** `url.match(pattern)[1]`: the greedy identifier run after the leftmost match. */
  function MatchId(url: string, pat: DrivePattern): (id: Option<string>)
    ensures id.Some? ==> |id.value| > 0 && IsIdString(id.value)
    ensures id.None? <==> forall q: nat :: !DriveMatchAt(url, pat, q)
  {
    match LeftmostMatch(url, pat, 0)
    case Some(p) => Some(Span(url, p + PrefixLength(pat), IsIdChar))
    case None => None
  }

  /** `getGoogleDriveId`: the first of the three patterns that matches decides. */
  function GetGoogleDriveId(url: string): (id: Option<string>)
    ensures id.Some? ==> |id.value| > 0 && IsIdString(id.value)
    ensures id.None? <==> forall pat: DrivePattern, q: nat :: !DriveMatchAt(url, pat, q)
    ensures (exists q: nat :: DriveMatchAt(url, FileD, q)) ==> id == MatchId(url, FileD)
    ensures (forall q: nat :: !DriveMatchAt(url, FileD, q)) && (exists q: nat :: DriveMatchAt(url, IdParam, q)) ==>
      id == MatchId(url, IdParam)
    ensures (forall q: nat :: !DriveMatchAt(url, FileD, q) && !DriveMatchAt(url, IdParam, q)) ==>
      id == MatchId(url, SlashD)
  {
    match MatchId(url, FileD)
    case Some(x) => Some(x)
    case None =>
      match MatchId(url, IdParam)
      case Some(x) => Some(x)
      case None => MatchId(url, SlashD)
  }

  /** `getEmbedUrl`. Both identifiers are non-empty when present, so JavaScript's truthiness
      test on them is the same as the presence test here. */
  function GetEmbedUrl(url: string): (r: string)
    ensures !IsYouTubeUrl(url) && !IsGoogleDriveUrl(url) ==> r == url
    ensures IsYouTubeUrl(url) ==> match GetVideoId(url)
      case Some(id) => r == YouTubeEmbedBase + id
      case None => r == url
    ensures !IsYouTubeUrl(url) && IsGoogleDriveUrl(url) ==> match GetGoogleDriveId(url)
      case Some(id) => r == DriveEmbedBase + id + DrivePreviewSuffix
      case None => r == url
  {
    if IsYouTubeUrl(url) then
      match GetVideoId(url)
      case Some(id) => YouTubeEmbedBase + id
      case None => url
    else if IsGoogleDriveUrl(url) then
      match GetGoogleDriveId(url)
      case Some(id) => DriveEmbedBase + id + DrivePreviewSuffix
      case None => url
    else url
  }

  /** The marker texts of the URL shapes `youtu.be/<id>`, `/v/<id>`, `/embed/<id>` and `watch?v=<id>`. */
  predicate IsShapeMarker(m: string) {
    m == "youtu.be/" || m == "v/" || m == "embed/" || m == "watch?v="
  }

  predicate NoLineTerminator(x: string) {
    forall k :: 0 <= k < |x| ==> !IsLineTerminator(x[k])
  }

  /** A marker can only start where the text it needs fits: no marker starts after the
      last `/` or `=` of a shape marker and its identifier. */
  lemma NoMarkerAfterShape(prefix: string, marker: string, id: string, q: nat)
    requires IsShapeMarker(marker) && IsIdString(id)
    requires |prefix| < q
    ensures MarkerAt(prefix + marker + id, q).None?
  {
    var s := prefix + marker + id;
    if MarkerAt(s, q).Some? {
      assert false;
    }
  }

  /** A shape marker is recognised, with its own length, where it is written. */
  lemma ShapeMarkerMatches(prefix: string, marker: string, id: string)
    requires IsShapeMarker(marker)
    ensures MarkerAt(prefix + marker + id, |prefix|) == Some(|marker|)
  {
    var s := prefix + marker + id;
    assert s[|prefix|..|prefix| + |marker|] == marker;
    MarkerOfShape(s, |prefix|, marker);
  }

  /** A shape marker written at `p` is the alternative that matches there. */
  lemma MarkerOfShape(s: string, p: nat, marker: string)
    requires IsShapeMarker(marker) && OccursAt(s, marker, p)
    ensures MarkerAt(s, p) == Some(|marker|)
  {
    OccursAtChar(s, marker, p, 0);
    OccursAtChar(s, marker, p, 1);
    if marker == "youtu.be/" {
      OccursAtChar(s, marker, p, 2);
      OccursAtChar(s, marker, p, 3);
      OccursAtChar(s, marker, p, 4);
      OccursAtChar(s, marker, p, 5);
      OccursAtChar(s, marker, p, 6);
      OccursAtChar(s, marker, p, 7);
      OccursAtChar(s, marker, p, 8);
      ShortMarkerAt(s, p);
    } else if marker == "v/" {
      NotOccursAt(s, "youtu", p, 0);
    } else if marker == "embed/" {
      NotOccursAt(s, "youtu", p, 0);
      NotOccursAt(s, "v/", p, 0);
      assert s[p..p + 6] == "embed/";
    } else {
      NotOccursAt(s, "youtu", p, 0);
      NotOccursAt(s, "v/", p, 0);
      NotOccursAt(s, "embed/", p, 0);
      assert s[p..p + 8] == "watch?v=";
    }
  }

  /** `^.*` reaches the end of a text without line terminators. */
  lemma LineEndOfSingleLine(s: string)
    requires NoLineTerminator(s)
    ensures LineEnd(s) == |s|
  {
  }

  /** Every shape yields its 11-character identifier when nothing earlier on the line breaks it. */
  lemma ShapeYieldsId(prefix: string, marker: string, id: string)
    requires NoLineTerminator(prefix) && IsShapeMarker(marker)
    requires |id| == 11 && IsIdString(id)
    ensures GetVideoId(prefix + marker + id) == Some(id)
  {
    var s := prefix + marker + id;
    var p := |prefix|;
    ShapeSingleLine(prefix, marker, id);
    LineEndOfSingleLine(s);
    ShapeMarkerMatches(prefix, marker, id);
    forall q: nat | p < q <= |s| ensures MarkerAt(s, q).None? {
      NoMarkerAfterShape(prefix, marker, id, q);
    }
    RightmostMarker(s, p, |marker|, |s|);
    TailRun(prefix + marker, id);
  }

  lemma ShapeSingleLine(prefix: string, marker: string, id: string)
    requires NoLineTerminator(prefix) && IsShapeMarker(marker) && IsIdString(id)
    ensures NoLineTerminator(prefix + marker + id)
  {
    var s := prefix + marker + id;
    var p := |prefix|;
    forall k | 0 <= k < |s| ensures !IsLineTerminator(s[k]) {
      if k < p {
        assert s[k] == prefix[k];
      } else if k < p + |marker| {
        assert s[k] == marker[k - p];
      } else {
        assert s[k] == id[k - p - |marker|];
      }
    }
  }

  /** No marker starts inside a trailing identifier: every marker ends in `/` or `=`. */
  lemma NoMarkerInId(head: string, id: string, q: nat)
    requires IsIdString(id) && |head| <= q
    ensures MarkerAt(head + id, q).None?
  {
  }

  /** A marker written at the end of a single line, followed by an identifier and with no
      marker after it, yields that identifier. */
  lemma MarkerYieldsId(head: string, len: nat, id: string)
    requires len <= |head| && NoLineTerminator(head)
    requires |id| == 11 && IsIdString(id)
    requires MarkerAt(head + id, |head| - len) == Some(len)
    requires forall q: nat :: |head| - len < q < |head| ==> MarkerAt(head + id, q).None?
    ensures GetVideoId(head + id) == Some(id)
  {
    MarkerRun(head, len, id);
  }

  /** The last marker of a single line followed by an identifier-like run that ends the
      text is the one found, and the run is what it captures. */
  lemma MarkerRun(head: string, len: nat, id: string)
    requires len <= |head| && NoLineTerminator(head)
    requires IsIdString(id)
    requires MarkerAt(head + id, |head| - len) == Some(len)
    requires forall q: nat :: |head| - len < q < |head| ==> MarkerAt(head + id, q).None?
    ensures LastMarkerFrom(head + id, LineEnd(head + id)) == Some((|head| - len, len))
    ensures Span(head + id, |head|, IsQueryValueChar) == id
  {
    var s := head + id;
    assert NoLineTerminator(s) by {
      forall k | 0 <= k < |s| ensures !IsLineTerminator(s[k]) {
        if k < |head| { assert s[k] == head[k]; } else { assert s[k] == id[k - |head|]; }
      }
    }
    LineEndOfSingleLine(s);
    forall q: nat | |head| <= q <= |s| ensures MarkerAt(s, q).None? {
      NoMarkerInId(head, id, q);
    }
    RightmostMarker(s, |head| - len, len, |s|);
    TailRun(head, id);
  }

  /** No marker starts at `q` when the next character is none of the alternatives'
      second characters. */
  lemma NoMarkerWhenNextIs(s: string, q: nat)
    requires q + 1 < |s|
    requires s[q + 1] != 'o' && s[q + 1] != '/' && s[q + 1] != 'm' && s[q + 1] != 'a' && s[q + 1] != 'v'
    ensures MarkerAt(s, q).None?
  {
    NotOccursAt(s, "youtu", q, 1);
    NotOccursAt(s, "v/", q, 1);
    NotOccursAt(s, "embed/", q, 1);
    NotOccursAt(s, "watch?v=", q, 1);
    NotOccursAt(s, "&v=", q, 1);
  }

  /** No marker starts at `q` when a `/` follows anything but `v`, unless `u/\w/` fits. */
  lemma NoMarkerSlashNext(s: string, q: nat)
    requires q + 1 < |s| && s[q + 1] == '/' && s[q] != 'v'
    requires s[q] == 'u' && q + 3 < |s| ==> s[q + 3] != '/'
    ensures MarkerAt(s, q).None?
  {
    NotOccursAt(s, "youtu", q, 1);
    NotOccursAt(s, "v/", q, 0);
    NotOccursAt(s, "embed/", q, 1);
    NotOccursAt(s, "watch?v=", q, 1);
    NotOccursAt(s, "&v=", q, 1);
  }

  /** No marker starts at a `u` three places before a character other than `/`. */
  lemma NoMarkerAtU(s: string, q: nat)
    requires q + 3 < |s| && s[q] == 'u' && s[q + 3] != '/'
    ensures MarkerAt(s, q).None?
  {
    NotOccursAt(s, "youtu", q, 0);
    NotOccursAt(s, "v/", q, 0);
    NotOccursAt(s, "embed/", q, 0);
    NotOccursAt(s, "watch?v=", q, 0);
    NotOccursAt(s, "&v=", q, 0);
  }

  /** A prefix without line terminators keeps that property when a single-line text follows. */
  lemma SingleLineAppend(prefix: string, tail: string)
    requires NoLineTerminator(prefix) && NoLineTerminator(tail)
    ensures NoLineTerminator(prefix + tail)
  {
    var s := prefix + tail;
    forall k | 0 <= k < |s| ensures !IsLineTerminator(s[k]) {
      if k < |prefix| { assert s[k] == prefix[k]; } else { assert s[k] == tail[k - |prefix|]; }
    }
  }

  /** No marker starts at a `v` that is not followed by `/`. */
  lemma NoMarkerAtV(s: string, q: nat)
    requires q + 1 < |s| && s[q] == 'v' && s[q + 1] != '/'
    ensures MarkerAt(s, q).None?
  {
    NotOccursAt(s, "youtu", q, 0);
    NotOccursAt(s, "v/", q, 1);
    NotOccursAt(s, "embed/", q, 0);
    NotOccursAt(s, "watch?v=", q, 0);
    NotOccursAt(s, "&v=", q, 0);
  }

  /** `&v=` at `p` is a marker, and none starts inside it. */
  lemma AmpersandMarkerAt(s: string, p: nat)
    requires p + 3 <= |s| && s[p] == '&' && s[p + 1] == 'v' && s[p + 2] == '='
    ensures MarkerAt(s, p) == Some(3)
    ensures forall q: nat :: p < q < p + 3 ==> MarkerAt(s, q).None?
  {
    NotOccursAt(s, "youtu", p, 0);
    NotOccursAt(s, "v/", p, 0);
    NotOccursAt(s, "embed/", p, 0);
    NotOccursAt(s, "watch?v=", p, 0);
    assert s[p..p + 3] == "&v=";
    NoMarkerAtV(s, p + 1);
    assert MarkerAt(s, p + 2).None?;
  }

  /** `youtu<c>be/` at `p`, with `c` no line terminator, is a marker, and none starts inside it. */
  lemma ShortMarkerAt(s: string, p: nat)
    requires p + 9 <= |s| && !IsLineTerminator(s[p + 5])
    requires s[p] == 'y' && s[p + 1] == 'o' && s[p + 2] == 'u' && s[p + 3] == 't' && s[p + 4] == 'u'
    requires s[p + 6] == 'b' && s[p + 7] == 'e' && s[p + 8] == '/'
    ensures MarkerAt(s, p) == Some(9)
    ensures forall q: nat :: p < q < p + 9 ==> MarkerAt(s, q).None?
  {
    assert s[p..p + 5] == "youtu";
    assert s[p + 6..p + 9] == "be/";
    NoMarkerWhenNextIs(s, p + 2);
    NoMarkerAtU(s, p + 4);
    NoMarkerWhenNextIs(s, p + 5);
    NoMarkerSlashNext(s, p + 7);
  }

  /** A line terminator in place of the dot gives no marker. */
  lemma ShortMarkerBroken(s: string, p: nat)
    requires p + 9 <= |s| && IsLineTerminator(s[p + 5]) && s[p] == 'y'
    ensures MarkerAt(s, p).None?
  {
    NotOccursAt(s, "v/", p, 0);
    NotOccursAt(s, "embed/", p, 0);
    NotOccursAt(s, "watch?v=", p, 0);
    NotOccursAt(s, "&v=", p, 0);
  }

  /** `u/<w>/` at `p`, with `w` a word character other than `v`, is a marker, and none
      starts inside it when the character two places after it is not `/`. */
  lemma UserMarkerAt(s: string, p: nat)
    requires p + 6 <= |s| && s[p] == 'u' && s[p + 1] == '/' && IsWordChar(s[p + 2]) && s[p + 3] == '/'
    requires s[p + 2] != 'v' && s[p + 5] != '/'
    ensures MarkerAt(s, p) == Some(4)
    ensures forall q: nat :: p < q < p + 4 ==> MarkerAt(s, q).None?
  {
    NotOccursAt(s, "youtu", p, 1);
    NotOccursAt(s, "v/", p, 0);
    NoMarkerSlashNext(s, p + 2);
  }

  /** `v/` at `p` is a marker, and none starts at its `/`. */
  lemma SlashVMarkerAt(s: string, p: nat)
    requires p + 2 <= |s| && s[p] == 'v' && s[p + 1] == '/'
    ensures MarkerAt(s, p) == Some(2)
    ensures MarkerAt(s, p + 1).None?
  {
    NotOccursAt(s, "youtu", p, 0);
    assert s[p..p + 2] == "v/";
  }

  /** `&v=` as the last parameter yields the identifier after it. */
  lemma AmpersandParamYieldsId(prefix: string, id: string)
    requires NoLineTerminator(prefix) && |id| == 11 && IsIdString(id)
    ensures GetVideoId(prefix + "&v=" + id) == Some(id)
  {
    var head := prefix + "&v=";
    var s := head + id;
    var p := |prefix|;
    SingleLineAppend(prefix, "&v=");
    assert s[p] == '&' && s[p + 1] == 'v' && s[p + 2] == '=';
    AmpersandMarkerAt(s, p);
    MarkerYieldsId(head, 3, id);
  }

  /** The length test runs once, on the run after the last marker: a run of any other
      length after a final `&v=` gives no identifier, and an earlier marker is not tried. */
  lemma ShortRunRejected(prefix: string, run: string)
    requires NoLineTerminator(prefix) && IsIdString(run) && |run| != 11
    ensures GetVideoId(prefix + "&v=" + run).None?
  {
    var head := prefix + "&v=";
    var s := head + run;
    var p := |prefix|;
    SingleLineAppend(prefix, "&v=");
    assert s[p] == '&' && s[p + 1] == 'v' && s[p + 2] == '=';
    AmpersandMarkerAt(s, p);
    MarkerRun(head, 3, run);
  }

  /** `watch?v=X&v=abc`: the valid identifier X before the last marker is not taken, and the
      URL passes through unchanged. */
  lemma EarlierMarkerNotRetried(x: string)
    requires |x| == 11 && IsIdString(x)
    ensures GetVideoId(YouTubeHost + "watch?v=" + x + "&v=" + "abc").None?
    ensures GetEmbedUrl(YouTubeHost + "watch?v=" + x + "&v=" + "abc") == YouTubeHost + "watch?v=" + x + "&v=" + "abc"
  {
    var prefix := YouTubeHost + "watch?v=" + x;
    var url := prefix + "&v=" + "abc";
    assert NoLineTerminator(YouTubeHost + "watch?v=");
    SingleLineAppend(YouTubeHost + "watch?v=", x);
    ShortRunRejected(prefix, "abc");
    var tail := "/" + "watch?v=" + x + "&v=" + "abc";
    IncludesMiddle(Https + "www.", "youtube.com", tail);
    assert url == Https + "www." + "youtube.com" + tail;
    assert IsYouTubeUrl(url);
  }

  /** The unescaped `.` of `youtu.be` lets any character but a line terminator stand in
      for the dot; a line terminator there does not match. */
  lemma ShortHostAnyDot(prefix: string, c: char, id: string)
    requires NoLineTerminator(prefix) && |id| == 11 && IsIdString(id)
    ensures !IsLineTerminator(c) ==> GetVideoId(prefix + ("youtu" + [c] + "be/") + id) == Some(id)
    ensures IsLineTerminator(c) ==> MarkerAt(prefix + ("youtu" + [c] + "be/") + id, |prefix|).None?
  {
    var marker := "youtu" + [c] + "be/";
    var head := prefix + marker;
    var s := head + id;
    var p := |prefix|;
    assert s[p] == 'y' && s[p + 1] == 'o' && s[p + 2] == 'u' && s[p + 3] == 't' && s[p + 4] == 'u';
    assert s[p + 5] == c && s[p + 6] == 'b' && s[p + 7] == 'e' && s[p + 8] == '/';
    if IsLineTerminator(c) {
      ShortMarkerBroken(s, p);
    } else {
      SingleLineAppend(prefix, marker);
      ShortMarkerAt(s, p);
      MarkerYieldsId(head, 9, id);
    }
  }

  /** `u/<w>/`, with `<w>` a word character, yields the identifier after it. */
  lemma UserShapeYieldsId(prefix: string, w: char, id: string)
    requires NoLineTerminator(prefix) && IsWordChar(w) && |id| == 11 && IsIdString(id)
    ensures GetVideoId(prefix + ("u/" + [w] + "/") + id) == Some(id)
  {
    var marker := "u/" + [w] + "/";
    var head := prefix + marker;
    var s := head + id;
    var p := |prefix|;
    SingleLineAppend(prefix, marker);
    assert s[p] == 'u' && s[p + 1] == '/' && s[p + 2] == w && s[p + 3] == '/';
    if w == 'v' {
      SlashVMarkerAt(s, p + 2);
      MarkerYieldsId(head, 2, id);
    } else {
      assert s[p + 5] == id[1];
      UserMarkerAt(s, p);
      MarkerYieldsId(head, 4, id);
    }
  }

  /** A marker with none after it up to `e` is the one the backtracking finds. */
  lemma RightmostMarker(s: string, p: nat, len: nat, e: nat)
    requires p <= e && MarkerAt(s, p) == Some(len)
    requires forall q: nat :: p < q <= e ==> MarkerAt(s, q).None?
    ensures LastMarkerFrom(s, e) == Some((p, len))
  {
    var m := LastMarkerFrom(s, e);
    assert m.Some?;
    assert m.value.0 <= p;
  }

  /** The query-value run after a prefix is the whole identifier that ends the text. */
  lemma TailRun(head: string, id: string)
    requires forall k :: 0 <= k < |id| ==> IsQueryValueChar(id[k])
    ensures Span(head + id, |head|, IsQueryValueChar) == id
  {
    var s := head + id;
    var run := Span(s, |head|, IsQueryValueChar);
    assert run == s[|head|..] == id;
  }

  /** Each of the four URL shapes on a YouTube URL embeds as `https://www.youtube.com/embed/<id>`. */
  lemma YouTubeShapeEmbeds(prefix: string, marker: string, id: string)
    requires IsYouTubeUrl(prefix + marker)
    requires NoLineTerminator(prefix) && IsShapeMarker(marker)
    requires |id| == 11 && IsIdString(id)
    ensures GetEmbedUrl(prefix + marker + id) == YouTubeEmbedBase + id
  {
    if Includes(prefix + marker, "youtube.com") {
      IncludesExtend(prefix + marker, "youtube.com", id);
    } else {
      IncludesExtend(prefix + marker, "youtu.be", id);
    }
    ShapeYieldsId(prefix, marker, id);
  }

  /** `watch?v=X`, `youtu.be/X`, `/v/X` and `/embed/X` with an 11-character identifier `X`
      all resolve to the embed URL of `X`. */
  lemma YouTubeShapesExamples(x: string)
    requires |x| == 11 && IsIdString(x)
    ensures GetEmbedUrl(YouTubeHost + "watch?v=" + x) == YouTubeEmbedBase + x
    ensures GetEmbedUrl(ShortHost + x) == YouTubeEmbedBase + x
    ensures GetEmbedUrl(YouTubeHost + "v/" + x) == YouTubeEmbedBase + x
    ensures GetEmbedUrl(YouTubeHost + "embed/" + x) == YouTubeEmbedBase + x
  {
    HostShapeEmbeds("watch?v=", x);
    HostShapeEmbeds("v/", x);
    HostShapeEmbeds("embed/", x);
    ShortShapeEmbeds(x);
  }

  lemma ShortShapeEmbeds(x: string)
    requires |x| == 11 && IsIdString(x)
    ensures GetEmbedUrl(ShortHost + x) == YouTubeEmbedBase + x
  {
    assert NoLineTerminator(Https);
    IncludesMiddle(Https, "youtu.be", "/");
    assert ShortHost == Https + "youtu.be/";
    YouTubeShapeEmbeds(Https, "youtu.be/", x);
  }

  /** A shape after `https://www.youtube.com/` embeds as the identifier's embed URL. */
  lemma HostShapeEmbeds(marker: string, x: string)
    requires IsShapeMarker(marker) && |x| == 11 && IsIdString(x)
    ensures GetEmbedUrl(YouTubeHost + marker + x) == YouTubeEmbedBase + x
  {
    var host := YouTubeHost;
    assert NoLineTerminator(host);
    IncludesMiddle(Https + "www.", "youtube.com", "/" + marker);
    assert host + marker == Https + "www." + "youtube.com" + ("/" + marker);
    YouTubeShapeEmbeds(host, marker, x);
  }

  /** The embed URL is a YouTube URL whose `embed/` marker sits at index 24, with no other
      marker before the identifier and no line break in its fixed part. */
  lemma EmbedBaseShape(id: string)
    ensures IsYouTubeUrl(YouTubeEmbedBase + id)
    ensures MarkerAt(YouTubeEmbedBase + id, 24) == Some(6)
    ensures forall q: nat :: 24 < q < 30 ==> MarkerAt(YouTubeEmbedBase + id, q).None?
    ensures LineEnd(YouTubeEmbedBase + id) >= 30
  {
    EmbedBaseHost(id);
    EmbedBaseMarker(id);
    EmbedBaseLine(id);
  }

  lemma EmbedBaseHost(id: string)
    ensures IsYouTubeUrl(YouTubeEmbedBase + id)
  {
    var e := YouTubeEmbedBase + id;
    assert e[12..23] == "youtube.com";
    IncludesAt(e, "youtube.com", 12);
  }

  lemma EmbedBaseMarker(id: string)
    ensures MarkerAt(YouTubeEmbedBase + id, 24) == Some(6)
    ensures forall q: nat :: 24 < q < 30 ==> MarkerAt(YouTubeEmbedBase + id, q).None?
  {
    var e := YouTubeEmbedBase + id;
    assert e[24..30] == "embed/";
    assert e[25] == 'm' && e[26] == 'b' && e[27] == 'e' && e[28] == 'd' && e[29] == '/';
  }

  lemma EmbedBaseLine(id: string)
    ensures LineEnd(YouTubeEmbedBase + id) >= 30
  {
  }

  /** Resolving a YouTube embed URL again leaves it as it is: either the identifier after
      `embed/` is found again, or a marker inside the identifier leaves too short a run and
      the URL passes through. */
  lemma YouTubeEmbedStable(id: string)
    requires |id| == 11 && forall k :: 0 <= k < 11 ==> IsQueryValueChar(id[k])
    ensures GetEmbedUrl(YouTubeEmbedBase + id) == YouTubeEmbedBase + id
  {
    var e := YouTubeEmbedBase + id;
    EmbedBaseShape(id);
    var m := LastMarkerFrom(e, LineEnd(e));
    assert m.Some? && m.value.0 >= 24;
    assert IsYouTubeUrl(e);
    if m.value.0 == 24 {
      TailRun(YouTubeEmbedBase, id);
      assert GetVideoId(e) == Some(id);
    } else {
      assert m.value.0 >= 30;
      assert GetVideoId(e).None?;
    }
  }

  /** A Drive file link with no `.` after its fixed part is not taken for a YouTube URL:
      both YouTube host texts start with a `y`, which the fixed part lacks, and need a `.`
      seven or five characters later, which the rest lacks. */
  lemma DriveLinkNotYouTube(id: string, rest: string)
    requires IsIdString(id) && '.' !in rest
    ensures !IsYouTubeUrl(DriveEmbedBase + id + rest)
  {
    var s := DriveEmbedBase + id + rest;
    assert 'y' !in Https && 'y' !in DriveHost && 'y' !in FileDPath;
    assert forall k :: 0 <= k < 32 ==> s[k] != 'y' by {
      forall k | 0 <= k < 32 ensures s[k] != 'y' {
        if k < 8 {
          assert s[k] == Https[k];
        } else if k < 24 {
          assert s[k] == DriveHost[k - 8];
        } else {
          assert s[k] == FileDPath[k - 24];
        }
      }
    }
    assert forall k :: 32 <= k < |s| ==> s[k] != '.' by {
      forall k | 32 <= k < |s| ensures s[k] != '.' {
        if k < 32 + |id| {
          assert s[k] == id[k - 32];
        } else {
          assert s[k] == rest[k - 32 - |id|];
        }
      }
    }
    forall i: nat ensures !OccursAt(s, "youtube.com", i) && !OccursAt(s, "youtu.be", i) {
      if i < 32 {
        NotOccursAt(s, "youtube.com", i, 0);
        NotOccursAt(s, "youtu.be", i, 0);
      } else {
        NotOccursAt(s, "youtube.com", i, 7);
        NotOccursAt(s, "youtu.be", i, 5);
      }
    }
    IncludesIff(s, "youtube.com");
    IncludesIff(s, "youtu.be");
  }

  /** The Drive identifier of a file link is the identifier after `/file/d/`. */
  lemma DriveLinkId(id: string, rest: string)
    requires |id| > 0 && IsIdString(id)
    requires rest == [] || !IsIdChar(rest[0])
    ensures IsGoogleDriveUrl(DriveEmbedBase + id + rest)
    ensures GetGoogleDriveId(DriveEmbedBase + id + rest) == Some(id)
  {
    var s := DriveEmbedBase + id + rest;
    assert s[8..24] == DriveHost;
    IncludesAt(s, DriveHost, 8);
    DriveLinkLeftmost(id, rest);
    DriveLinkRun(id, rest);
  }

  /** The leftmost `/file/d/` match of a file link is its own: no earlier one can start
      before it, since the part before has no `f`. */
  lemma DriveLinkLeftmost(id: string, rest: string)
    requires |id| > 0 && IsIdString(id)
    ensures LeftmostMatch(DriveEmbedBase + id + rest, FileD, 0) == Some(24)
  {
    var s := DriveEmbedBase + id + rest;
    assert s[24..32] == FileDPath == "/file/d/" && s[32] == id[0];
    assert DriveMatchAt(s, FileD, 24);
    assert 'f' !in Https && 'f' !in DriveHost;
    forall q: nat | q < 24 ensures !DriveMatchAt(s, FileD, q) {
      if q + 1 < 8 {
        assert s[q + 1] == Https[q + 1];
      } else if q + 1 < 24 {
        assert s[q + 1] == DriveHost[q + 1 - 8];
      }
      NotOccursAt(s, "/file/d/", q, 1);
    }
  }

  /** The identifier run after `/file/d/` stops where the identifier does. */
  lemma DriveLinkRun(id: string, rest: string)
    requires IsIdString(id)
    requires rest == [] || !IsIdChar(rest[0])
    ensures Span(DriveEmbedBase + id + rest, 32, IsIdChar) == id
  {
    var s := DriveEmbedBase + id + rest;
    assert forall k :: 32 <= k < 32 + |id| ==> s[k] == id[k - 32];
    assert 32 + |id| == |s| || s[32 + |id|] == rest[0];
    var run := Span(s, 32, IsIdChar);
    assert run == s[32..32 + |id|] == id;
  }

  /** A Drive file link, whatever follows its identifier, embeds as that identifier's
      preview URL. */
  lemma DriveLinkEmbeds(id: string, rest: string)
    requires |id| > 0 && IsIdString(id)
    requires '.' !in rest && (rest == [] || !IsIdChar(rest[0]))
    ensures GetVideoSourceType(DriveEmbedBase + id + rest) == GoogleDrive
    ensures GetEmbedUrl(DriveEmbedBase + id + rest) == DriveEmbedBase + id + DrivePreviewSuffix
  {
    DriveLinkNotYouTube(id, rest);
    DriveLinkId(id, rest);
  }

  /** The viewing link of a shared Drive file, `.../file/d/ABC123/view`, becomes its
      preview link `.../file/d/ABC123/preview`. */
  lemma DriveViewExample()
    ensures GetEmbedUrl(DriveEmbedBase + "ABC123" + "/view") == DriveEmbedBase + "ABC123" + DrivePreviewSuffix
  {
    DriveLinkEmbeds("ABC123", "/view");
  }

  /** Resolving an already resolved URL changes nothing: an embed URL of either provider
      resolves to itself, and a URL that was passed through is passed through again. */
  lemma EmbedIdempotent(url: string)
    ensures GetEmbedUrl(GetEmbedUrl(url)) == GetEmbedUrl(url)
  {
    if IsYouTubeUrl(url) {
      match GetVideoId(url)
      case Some(id) => YouTubeEmbedStable(id);
      case None =>
    } else if IsGoogleDriveUrl(url) {
      match GetGoogleDriveId(url)
      case Some(id) => DriveLinkEmbeds(id, DrivePreviewSuffix);
      case None =>
    }
  }

  /** A URL of neither provider is used as it is, and any URL the resolver changes was
      recognised as a YouTube or Drive URL with an identifier. */
  lemma EmbedPassThrough(url: string)
    ensures GetVideoSourceType(url) == DirectVideo ==> GetEmbedUrl(url) == url
    ensures GetEmbedUrl(url) != url ==>
      (IsYouTubeUrl(url) && GetVideoId(url).Some?) ||
      (GetVideoSourceType(url) == GoogleDrive && GetGoogleDriveId(url).Some?)
  {
  }

  /** What the player area shows. */
  datatype Player =
    | Placeholder                 // "No video available"
    | YouTubeFrame(src: string)   // an iframe of the embed URL
    | DriveFrame(src: string)     // an iframe of the preview URL
    | DriveLink(href: string)     // "Open in Google Drive", to the original URL
    | NativeVideo(src: string)    // a `<video>` element whose end marks the lesson complete

  /** `course.videos[currentVideoIndex]` when it is a non-empty string: an index outside the
      list reads `undefined`, and both it and `''` are falsy. */
  function CurrentVideo(videos: seq<string>, index: int): (v: Option<string>)
    ensures v.Some? <==> 0 <= index < |videos| && videos[index] != []
    ensures v.Some? ==> v.value == videos[index]
  {
    if 0 <= index < |videos| && videos[index] != [] then Some(videos[index]) else None
  }

  /** The player chosen for the current lesson. */
  function SelectPlayer(videos: seq<string>, index: int, loadError: bool): (r: Player)
    ensures r == Placeholder <==> CurrentVideo(videos, index).None?
    ensures r.YouTubeFrame? <==> CurrentVideo(videos, index).Some? && GetVideoSourceType(videos[index]) == YouTube
    ensures r.DriveLink? <==> CurrentVideo(videos, index).Some? && GetVideoSourceType(videos[index]) == GoogleDrive && loadError
    ensures r.DriveFrame? <==> CurrentVideo(videos, index).Some? && GetVideoSourceType(videos[index]) == GoogleDrive && !loadError
    ensures r.NativeVideo? <==> CurrentVideo(videos, index).Some? && GetVideoSourceType(videos[index]) == DirectVideo
  {
    match CurrentVideo(videos, index)
    case None => Placeholder
    case Some(url) =>
      if IsYouTubeUrl(url) then YouTubeFrame(GetEmbedUrl(url))
      else if IsGoogleDriveUrl(url) then
        if loadError then DriveLink(url) else DriveFrame(GetEmbedUrl(url))
      else NativeVideo(url)
  }

  /** Frames load the resolved URL, while the fallback link and the native player use the
      URL exactly as stored. */
  lemma PlayerSources(videos: seq<string>, index: int, loadError: bool)
    requires 0 <= index < |videos|
    ensures SelectPlayer(videos, index, loadError).YouTubeFrame? ==>
      SelectPlayer(videos, index, loadError).src == GetEmbedUrl(videos[index])
    ensures SelectPlayer(videos, index, loadError).DriveFrame? ==>
      SelectPlayer(videos, index, loadError).src == GetEmbedUrl(videos[index])
    ensures SelectPlayer(videos, index, loadError).DriveLink? ==>
      SelectPlayer(videos, index, loadError).href == videos[index]
    ensures SelectPlayer(videos, index, loadError).NativeVideo? ==>
      SelectPlayer(videos, index, loadError).src == videos[index]
  {
  }

  /** A load error changes the player only for a Drive lesson: YouTube frames and native
      videos ignore it. */
  lemma LoadErrorOnlyAffectsDrive(videos: seq<string>, index: int)
    ensures SelectPlayer(videos, index, true) != SelectPlayer(videos, index, false) <==>
      CurrentVideo(videos, index).Some? && GetVideoSourceType(videos[index]) == GoogleDrive
  {
  }
}
