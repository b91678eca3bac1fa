/**
 * The presentation ID extractor behind the "get extraction script" button:
 * the first match of `/presentation\/d\/([a-zA-Z0-9_-]+)/` in the URL, and
 * its capture group.
 */
module SlideId {
  import opened Results

  /** The literal part of the pattern. */
  const Marker: string := "presentation/d/"

  /** The character class `[a-zA-Z0-9_-]`. */
  predicate IsIdChar(c: char) {
    ('a' <= c <= 'z') || ('A' <= c <= 'Z') || ('0' <= c <= '9') || c == '_' || c == '-'
  }

  /** A possible capture: one or more characters of the class. */
  predicate IsId(s: string) {
    |s| >= 1 && forall k :: 0 <= k < |s| ==> IsIdChar(s[k])
  }

  /** The pattern matches at `i`: the marker starts there and at least one
      class character follows it. */
  predicate MatchesAt(url: string, i: int) {
    0 <= i && i + |Marker| < |url| && url[i..i + |Marker|] == Marker && IsIdChar(url[i + |Marker|])
  }

  /** The pattern matches somewhere in `url`. */
  predicate HasMatch(url: string) {
    exists i :: 0 <= i <= |url| && MatchesAt(url, i)
  }

  /** `id` is what the pattern captures when it matches at `i`: the marker
      at `i`, then `id`, which the greedy `+` makes as long as it can be. */
  predicate CapturesAt(url: string, i: int, id: string) {
    && 0 <= i
    && i + |Marker| + |id| <= |url|
    && url[i..i + |Marker|] == Marker
    && IsId(id)
    && url[i + |Marker|..i + |Marker| + |id|] == id
    && (i + |Marker| + |id| == |url| || !IsIdChar(url[i + |Marker| + |id|]))
  }

  /** No match starts before `i`. */
  predicate NoMatchBefore(url: string, i: int) {
    forall j :: 0 <= j < i ==> !MatchesAt(url, j)
  }

  /** The end of the run of class characters starting at `k`. */
  function RunEnd(url: string, k: nat): (e: nat)
    requires k <= |url|
    ensures k <= e <= |url|
    ensures forall j :: k <= j < e ==> IsIdChar(url[j])
    ensures e == |url| || !IsIdChar(url[e])
    decreases |url| - k
  {
    if k < |url| && IsIdChar(url[k]) then RunEnd(url, k + 1) else k
  }

  /** Where the regular expression engine, trying positions left to right
      from `k`, first finds a match. */
  function FirstMatchFrom(url: string, k: nat): (r: Option<nat>)
    requires k <= |url|
    ensures r.Some? ==> k <= r.value && MatchesAt(url, r.value)
    ensures r.Some? ==> forall j :: k <= j < r.value ==> !MatchesAt(url, j)
    ensures r.None? ==> forall j :: k <= j ==> !MatchesAt(url, j)
    decreases |url| - k
  {
    if k + |Marker| >= |url| then None
    else if MatchesAt(url, k) then Some(k)
    else FirstMatchFrom(url, k + 1)
  }

  /** `url.match(regex)?.[1]`: the capture of the leftmost match, or None
      when the URL does not match (the "invalid URL" case). */
  function ExtractId(url: string): (r: Option<string>)
    ensures r.None? <==> !HasMatch(url)
    ensures r.Some? ==> IsId(r.value)
    ensures r.Some? ==> exists i :: 0 <= i <= |url| && NoMatchBefore(url, i) && CapturesAt(url, i, r.value)
  {
    match FirstMatchFrom(url, 0)
    case None => None
    case Some(i) =>
      var start := i + |Marker|;
      var id := url[start..RunEnd(url, start)];
      assert id[0] == url[start];
      assert CapturesAt(url, i, id);
      Some(id)
  }

  /** A capture runs exactly to the end of the run of class characters
      after the marker. */
  lemma CaptureEndsRun(url: string, i: int, id: string)
    requires CapturesAt(url, i, id)
    ensures i + |Marker| + |id| == RunEnd(url, i + |Marker|)
  {
    var start := i + |Marker|;
    forall k | start <= k < start + |id| ensures IsIdChar(url[k]) {
      assert url[k] == id[k - start];
    }
  }

  /** The capture of a match is determined by where the match starts. */
  lemma CaptureUnique(url: string, i: int, a: string, b: string)
    requires CapturesAt(url, i, a) && CapturesAt(url, i, b)
    ensures a == b
  {
    CaptureEndsRun(url, i, a);
    CaptureEndsRun(url, i, b);
  }

  /** Conversely, the greedy capture of the leftmost match is what
      ExtractId yields; with ExtractId's own contract this characterises it
      by the regular expression's semantics. */
  lemma ExtractIdComplete(url: string, i: int, id: string)
    requires NoMatchBefore(url, i) && CapturesAt(url, i, id)
    ensures ExtractId(url) == Some(id)
  {
    assert MatchesAt(url, i) by {
      assert url[i + |Marker|] == id[0];
    }
    var r := ExtractId(url);
    var j :| 0 <= j <= |url| && NoMatchBefore(url, j) && CapturesAt(url, j, r.value);
    assert MatchesAt(url, j) by {
      assert url[j + |Marker|] == r.value[0];
    }
    assert j == i;
    CaptureUnique(url, i, id, r.value);
  }

  /** No match can start inside `pre` when no `p` in it is followed by
      `r` (the marker's first two characters), even once the marker is
      appended. */
  predicate NoMarkerStart(pre: string) {
    forall j :: 0 <= j < |pre| ==> pre[j] != 'p' || (pre + "r")[j + 1] != 'r'
  }

  /** The typical link: text in which no match can start, the marker, an ID,
      then a character outside the class or nothing.  The ID is extracted. */
  lemma ExtractFromLink(pre: string, id: string, post: string)
    requires NoMarkerStart(pre)
    requires IsId(id)
    requires post == [] || !IsIdChar(post[0])
    ensures ExtractId(pre + Marker + id + post) == Some(id)
  {
    var url := pre + Marker + id + post;
    var n := |pre| + |Marker|;
    assert url[|pre|..n] == Marker;
    assert url[n..n + |id|] == id;
    assert n + |id| < |url| ==> url[n + |id|] == post[0];
    forall j | 0 <= j < |pre| ensures !MatchesAt(url, j) {
      if j + |Marker| < |url| {
        assert url[j..j + |Marker|][0] == url[j] == pre[j];
        assert url[j..j + |Marker|][1] == url[j + 1];
        if j + 1 < |pre| {
          assert url[j + 1] == pre[j + 1] == (pre + "r")[j + 1];
        } else {
          assert (pre + "r")[j + 1] == 'r';
        }
      }
    }
    ExtractIdComplete(url, |pre|, id);
  }

  /** A presentation link yields the ID after `/presentation/d/`, up to the
      next `/`. */
  lemma ExtractFromEditLink()
    ensures ExtractId("https://docs.google.com/" + Marker + "1AbC_x-9" + "/edit") == Some("1AbC_x-9")
  {
    var pre, id, post := "https://docs.google.com/", "1AbC_x-9", "/edit";
    assert NoMarkerStart(pre);
    assert IsId(id);
    ExtractFromLink(pre, id, post);
  }

  /** The match is the leftmost one that has an ID after it: a marker
      followed by a character outside the class is skipped. */
  lemma ExtractSkipsBareMarker()
    ensures ExtractId(Marker + "#" + Marker + "ab") == Some("ab")
  {
    var url := Marker + "#" + Marker + "ab";
    var pre := Marker + "#";
    assert url == pre + Marker + "ab" + "";
    forall j | 0 <= j < |pre| ensures !MatchesAt(url, j) {
      if j == 0 {
        assert url[|Marker|] == '#';
      } else if j + |Marker| < |url| {
        assert url[j..j + |Marker|][0] == url[j] == pre[j];
        assert url[j..j + |Marker|][1] == url[j + 1];
        assert j + 1 < |pre| ==> url[j + 1] == pre[j + 1];
      }
    }
    assert CapturesAt(url, |pre|, "ab");
    ExtractIdComplete(url, |pre|, "ab");
  }

  /** Where no `p` is followed by `r`, nothing matches. */
  lemma NoMatchWithoutMarkerStart(url: string)
    requires NoMarkerStart(url)
    ensures ExtractId(url) == None
  {
    forall j | 0 <= j <= |url| ensures !MatchesAt(url, j) {
      if j + |Marker| < |url| {
        assert url[j..j + |Marker|][0] == url[j];
        assert url[j..j + |Marker|][1] == url[j + 1] == (url + "r")[j + 1];
      }
    }
  }

  /** A link to a document, not a presentation, is rejected. */
  lemma ExtractRejectsDocumentLink()
    ensures ExtractId("https://docs.google.com/document/d/abc/edit") == None
  {
    NoMatchWithoutMarkerStart("https://docs.google.com/document/d/abc/edit");
  }
}
