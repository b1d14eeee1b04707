/**
 * The video-id extractor of the page: the fixed pattern
 *   (?:v=|youtu\.be\/|embed\/)([^&?/]+)
 * applied with a regular-expression engine's leftmost-first semantics.
 * The engine tries start positions from left to right; at each position it
 * tries the three markers in order and accepts the first one that is followed
 * by at least one id character (anything but '&', '?' and '/'); the id is the
 * greedy, maximal run of such characters after the marker.
 */
module YouTubeId {
  import opened Wrappers

  /** The three alternatives of the pattern, in the order the engine tries them. */
  const Markers: seq<string> := ["v=", "youtu.be/", "embed/"]

  /** The characters the id class `[^&?/]` excludes. */
  predicate IsDelimiter(c: char) {
    c == '&' || c == '?' || c == '/'
  }

  /** Every character of `id` belongs to the id class `[^&?/]`. */
  predicate IsIdText(id: string) {
    forall t :: 0 <= t < |id| ==> !IsDelimiter(id[t])
  }

  /** Marker `m` occurs in `s` at position `i`. */
  predicate MarkerAt(s: string, i: nat, m: string) {
    i + |m| <= |s| && s[i..i + |m|] == m
  }

  /** Marker `m` occurs at `i` and is followed by at least one id character. */
  predicate IdFollowsMarker(s: string, i: nat, m: string) {
    i + |m| < |s| && s[i..i + |m|] == m && !IsDelimiter(s[i + |m|])
  }

  /** The pattern can match when the engine starts at position `i`. */
  predicate MatchesAt(s: string, i: nat) {
    IdFollowsMarker(s, i, Markers[0]) || IdFollowsMarker(s, i, Markers[1]) || IdFollowsMarker(s, i, Markers[2])
  }

  /** No start position in `s` lets the pattern match. */
  ghost predicate NoMatch(s: string) {
    forall i: nat :: !MatchesAt(s, i)
  }

  /**
   * Reference description of a successful match: the pattern first matches at
   * `i`, using marker number `k`, and captures `id`, which is as long as the
   * greedy id class allows.
   */
  ghost predicate IsLeftmostMatch(s: string, i: nat, k: nat, id: string) {
    && k < |Markers|
    && var j := i + |Markers[k]|;
    && j + |id| <= |s|
    && s[i..j] == Markers[k]
    && s[j..j + |id|] == id
    && |id| > 0
    && IsIdText(id)
    && (j + |id| == |s| || IsDelimiter(s[j + |id|]))
    && forall i': nat :: i' < i ==> !MatchesAt(s, i')
  }

  /** The markers begin with different letters, so at most one occurs at any position. */
  lemma MarkersExclusive(s: string, i: nat, k1: nat, k2: nat)
    requires k1 < |Markers| && k2 < |Markers|
    requires MarkerAt(s, i, Markers[k1]) && MarkerAt(s, i, Markers[k2])
    ensures k1 == k2
  {
    assert s[i] == s[i..i + |Markers[k1]|][0] == Markers[k1][0];
    assert s[i] == s[i..i + |Markers[k2]|][0] == Markers[k2][0];
  }

  /** The alternative the engine accepts at position `i`, if any: the first marker followed by an id character. */
  function AlternativeAt(s: string, i: nat): (r: Option<nat>)
    ensures r.Some? ==> r.value < |Markers| && IdFollowsMarker(s, i, Markers[r.value])
    ensures r.None? <==> !MatchesAt(s, i)
  {
    if IdFollowsMarker(s, i, Markers[0]) then Some(0)
    else if IdFollowsMarker(s, i, Markers[1]) then Some(1)
    else if IdFollowsMarker(s, i, Markers[2]) then Some(2)
    else None
  }

  /**
   * The engine's scan over start positions from `from` on: the first position
   * at which the pattern matches, with the marker number used there.
   */
  function FindMatch(s: string, from: nat): (r: Option<(nat, nat)>)
    decreases |s| - from
    ensures r.None? ==> forall i: nat :: from <= i ==> !MatchesAt(s, i)
    ensures r.Some? ==>
              && from <= r.value.0 < |s|
              && r.value.1 < |Markers|
              && IdFollowsMarker(s, r.value.0, Markers[r.value.1])
              && forall i: nat :: from <= i < r.value.0 ==> !MatchesAt(s, i)
  {
    if from >= |s| then
      None
    else
      match AlternativeAt(s, from)
      case Some(k) => Some((from, k))
      case None => FindMatch(s, from + 1)
  }

  /** End of the greedy run `[^&?/]+` that starts at `j`: the first delimiter at or after `j`, or the end of `s`. */
  function RunEnd(s: string, j: nat): (e: nat)
    requires j <= |s|
    decreases |s| - j
    ensures j <= e <= |s|
    ensures forall t :: j <= t < e ==> !IsDelimiter(s[t])
    ensures e == |s| || IsDelimiter(s[e])
  {
    if j == |s| || IsDelimiter(s[j]) then j else RunEnd(s, j + 1)
  }

  /** A run that ends at the first delimiter or at the end of the string is the one `RunEnd` finds. */
  lemma {:induction false} RunEndUnique(s: string, j: nat, e: nat)
    requires j <= e <= |s|
    requires forall t :: j <= t < e ==> !IsDelimiter(s[t])
    requires e == |s| || IsDelimiter(s[e])
    ensures RunEnd(s, j) == e
    decreases e - j
  {
    if j < e {
      RunEndUnique(s, j + 1, e);
    }
  }

  /**
   * extractYouTubeID: the captured id of the leftmost match, or None when the
   * pattern matches nowhere in `url`. A returned id is never empty and holds
   * no delimiter.
   */
  function ExtractYouTubeId(url: string): (r: Option<string>)
    ensures r.Some? ==> |r.value| > 0 && IsIdText(r.value)
  {
    match FindMatch(url, 0)
    case None => None
    case Some((i, k)) =>
      var j := i + |Markers[k]|;
      var id := url[j..RunEnd(url, j)];
      assert |id| > 0 by { assert !IsDelimiter(url[j]); }
      assert IsIdText(id) by {
        forall t | 0 <= t < |id| ensures !IsDelimiter(id[t]) {
          assert id[t] == url[j + t];
        }
      }
      Some(id)
  }

  /** Extraction fails exactly when no start position lets the pattern match. */
  lemma ExtractNoneIffNoMatch(url: string)
    ensures ExtractYouTubeId(url).None? <==> NoMatch(url)
  {
    var found := FindMatch(url, 0);
    if found.Some? {
      var (i, k) := found.value;
      assert MatchesAt(url, i) by { assert IdFollowsMarker(url, i, Markers[k]); }
    }
  }

  /** A returned id is the capture of the leftmost match the scan found. */
  lemma ExtractSound(url: string)
    requires ExtractYouTubeId(url).Some?
    ensures FindMatch(url, 0).Some?
    ensures IsLeftmostMatch(url, FindMatch(url, 0).value.0, FindMatch(url, 0).value.1, ExtractYouTubeId(url).value)
  {
    var (i, k) := FindMatch(url, 0).value;
    var j := i + |Markers[k]|;
    var e := RunEnd(url, j);
    var id := ExtractYouTubeId(url).value;
    assert id == url[j..e];
    assert j + |id| == e;
    assert url[i..j] == Markers[k];
  }

  /** What a leftmost match says about the url at its start and along its id. */
  lemma LeftmostMatchFacts(url: string, i: nat, k: nat, id: string)
    requires IsLeftmostMatch(url, i, k, id)
    ensures IdFollowsMarker(url, i, Markers[k]) && MatchesAt(url, i)
    ensures forall t :: i + |Markers[k]| <= t < i + |Markers[k]| + |id| ==> !IsDelimiter(url[t])
  {
    var j := i + |Markers[k]|;
    assert url[j..j + |id|] == id;
    forall t | j <= t < j + |id| ensures !IsDelimiter(url[t]) {
      assert url[t] == id[t - j];
    }
    assert url[j] == id[0];
  }

  /** The scan stops at the start of a leftmost match, with that match's marker. */
  lemma FindMatchAtLeftmost(url: string, i: nat, k: nat, id: string)
    requires IsLeftmostMatch(url, i, k, id)
    ensures FindMatch(url, 0) == Some((i, k))
  {
    LeftmostMatchFacts(url, i, k, id);
    var found := FindMatch(url, 0);
    assert found.Some?;
    var (i', k') := found.value;
    assert i' == i by {
      assert MatchesAt(url, i') by { assert IdFollowsMarker(url, i', Markers[k']); }
    }
    MarkersExclusive(url, i, k, k');
  }

  /** A leftmost match determines the result: the same start, marker and id as the engine's. */
  lemma ExtractComplete(url: string, i: nat, k: nat, id: string)
    requires IsLeftmostMatch(url, i, k, id)
    ensures ExtractYouTubeId(url) == Some(id)
  {
    var j := i + |Markers[k]|;
    FindMatchAtLeftmost(url, i, k, id);
    LeftmostMatchFacts(url, i, k, id);
    RunEndUnique(url, j, j + |id|);
    assert url[j..RunEnd(url, j)] == id;
  }

  /** Extraction succeeds with `id` exactly when some leftmost match captures `id`. */
  lemma ExtractCharacterised(url: string, id: string)
    ensures ExtractYouTubeId(url) == Some(id) <==> exists i: nat, k: nat :: IsLeftmostMatch(url, i, k, id)
  {
    if ExtractYouTubeId(url) == Some(id) {
      ExtractSound(url);
      var (i, k) := FindMatch(url, 0).value;
      assert IsLeftmostMatch(url, i, k, id);
    }
    if exists i: nat, k: nat :: IsLeftmostMatch(url, i, k, id) {
      var i: nat, k: nat :| IsLeftmostMatch(url, i, k, id);
      ExtractComplete(url, i, k, id);
    }
  }

  /** The id is taken verbatim from the url, right after one of the markers. */
  lemma ExtractedIdFollowsMarker(url: string)
    requires ExtractYouTubeId(url).Some?
    ensures exists k :: 0 <= k < |Markers| && Contains(url, Markers[k] + ExtractYouTubeId(url).value)
  {
    ExtractSound(url);
    var id := ExtractYouTubeId(url).value;
    var (i, k) := FindMatch(url, 0).value;
    var j := i + |Markers[k]|;
    assert url[i..j + |id|] == url[i..j] + url[j..j + |id|];
    assert ContainsAt(url, Markers[k] + id, i);
  }

  /** `t` occurs in `s` at position `i`. */
  predicate ContainsAt(s: string, t: string, i: nat) {
    i + |t| <= |s| && s[i..i + |t|] == t
  }

  /** `t` is a substring of `s`. */
  ghost predicate Contains(s: string, t: string) {
    exists i: nat :: ContainsAt(s, t, i)
  }

  // Worked cases of the pattern.

  /** A position holding none of the markers' first letters 'v', 'y', 'e' starts no match. */
  lemma NoMarkerLetterAt(s: string, i: nat)
    requires i < |s| ==> s[i] != 'v' && s[i] != 'y' && s[i] != 'e'
    ensures !MatchesAt(s, i)
  {
    if i < |s| {
      assert !MarkerAt(s, i, Markers[0]) && !MarkerAt(s, i, Markers[1]) && !MarkerAt(s, i, Markers[2]);
    }
  }

  /** A mismatch at offset `t` of marker `m` rules the marker out at `i`. */
  lemma MarkerMismatch(s: string, i: nat, m: string, t: nat)
    requires t < |m| && i + t < |s| && s[i + t] != m[t]
    ensures !MarkerAt(s, i, m) && !IdFollowsMarker(s, i, m)
  {
    if i + |m| <= |s| {
      assert s[i..i + |m|][t] == s[i + t];
    }
  }

  /** `t` sits in `s` at `i` when it agrees with `s` character by character. */
  lemma SliceFromChars(s: string, i: nat, t: string)
    requires i + |t| <= |s|
    requires forall x :: 0 <= x < |t| ==> s[i + x] == t[x]
    ensures s[i..i + |t|] == t
  {
  }

  /** The watch-page form: the id ends at the next '&'. */
  lemma ExampleWatchUrl()
    ensures ExtractYouTubeId("?v=ab&t") == Some("ab")
  {
    var url := "?v=ab&t";
    forall i: nat | i < 1 ensures !MatchesAt(url, i) {
      NoMarkerLetterAt(url, i);
    }
    SliceFromChars(url, 1, "v=");
    SliceFromChars(url, 3, "ab");
    assert IsLeftmostMatch(url, 1, 0, "ab");
    ExtractComplete(url, 1, 0, "ab");
  }

  /** A marker followed directly by a delimiter does not match; the engine moves on to a later marker. */
  lemma ExampleSkipsEmptyId()
    ensures ExtractYouTubeId("v=&embed/x") == Some("x")
  {
    var url := "v=&embed/x";
    assert !MatchesAt(url, 0) by {
      assert url[2] == '&';
      assert !MarkerAt(url, 0, Markers[1]) && !MarkerAt(url, 0, Markers[2]) by { assert url[0] == 'v'; }
    }
    NoMarkerLetterAt(url, 1);
    NoMarkerLetterAt(url, 2);
    forall i: nat | i < 3 ensures !MatchesAt(url, i) {
    }
    SliceFromChars(url, 3, "embed/");
    SliceFromChars(url, 9, "x");
    assert IsLeftmostMatch(url, 3, 2, "x");
    ExtractComplete(url, 3, 2, "x");
  }

  /** The pattern is unanchored, so a marker inside a parameter name matches first. */
  lemma ExampleMarkerInsideWord()
    ensures ExtractYouTubeId("rev=5&v=ab") == Some("5")
  {
    var url := "rev=5&v=ab";
    NoMarkerLetterAt(url, 0);
    MarkerMismatch(url, 1, Markers[0], 0);
    MarkerMismatch(url, 1, Markers[1], 0);
    MarkerMismatch(url, 1, Markers[2], 1);
    forall i: nat | i < 2 ensures !MatchesAt(url, i) {
    }
    SliceFromChars(url, 2, "v=");
    SliceFromChars(url, 4, "5");
    assert IsLeftmostMatch(url, 2, 0, "5");
    ExtractComplete(url, 2, 0, "5");
  }

  /** A marker with nothing after it yields no id. */
  lemma ExampleNoId()
    ensures ExtractYouTubeId("youtu.be/") == None
  {
    var url := "youtu.be/";
    assert FindMatch(url, 9) == None;
    assert !IdFollowsMarker(url, 8, Markers[0]);
    assert FindMatch(url, 8) == None;
    MarkerMismatch(url, 7, Markers[2], 1);
    assert FindMatch(url, 7) == None;
    NoMarkerLetterAt(url, 6);
    assert FindMatch(url, 6) == None;
    NoMarkerLetterAt(url, 5);
    assert FindMatch(url, 5) == None;
    NoMarkerLetterAt(url, 4);
    assert FindMatch(url, 4) == None;
    NoMarkerLetterAt(url, 3);
    assert FindMatch(url, 3) == None;
    NoMarkerLetterAt(url, 2);
    assert FindMatch(url, 2) == None;
    NoMarkerLetterAt(url, 1);
    assert FindMatch(url, 1) == None;
    MarkerMismatch(url, 0, Markers[0], 0);
    MarkerMismatch(url, 0, Markers[2], 0);
    assert FindMatch(url, 0) == None;
    ExtractNoneIffNoMatch(url);
  }
}
