/**
 Extraction of a YouTube video ID from a pasted URL.

 The application searches the URL with the pattern `(?:v=|\/)([0-9A-Za-z_-]{11}).*`
 and returns the first capture group of the leftmost match, or nothing.  This
 module states that search as a specification (MatchAt, IsLeftmostMatch) and
 implements it as a scanner that tries each start position in turn
 (TryAt, SearchFrom, ExtractVideoId), then proves the two agree.
 */
module VideoId {
  import opened Wrappers

  /** A video ID is exactly this many characters (the pattern's `{11}`). */
  const IdLength: nat := 11

  /** The character class `[0-9A-Za-z_-]`. */
  predicate IsIdChar(c: char) {
    ('0' <= c <= '9') || ('A' <= c <= 'Z') || ('a' <= c <= 'z') || c == '_' || c == '-'
  }

  /** A string of the shape the capture group accepts. */
  predicate IsId(s: string) {
    |s| == IdLength && forall k :: 0 <= k < |s| ==> IsIdChar(s[k])
  }

  // ---------------------------------------------------------------------------
  // Specification of the pattern, position by position
  // ---------------------------------------------------------------------------

  /** The group `([0-9A-Za-z_-]{11})` can match starting at index j. */
  predicate IdAt(url: string, j: int) {
    0 <= j && j + IdLength <= |url| && IsId(url[j..j + IdLength])
  }

  /** The first alternative, the two characters `v=`, sits at index i. */
  predicate VEqualsAt(url: string, i: int) {
    0 <= i && i + 2 <= |url| && url[i] == 'v' && url[i + 1] == '='
  }

  /** The second alternative, a slash, sits at index i. */
  predicate SlashAt(url: string, i: int) {
    0 <= i < |url| && url[i] == '/'
  }

  /** The whole pattern matches with its match starting at index i. */
  predicate MatchAt(url: string, i: int) {
    (VEqualsAt(url, i) && IdAt(url, i + 2)) || (SlashAt(url, i) && IdAt(url, i + 1))
  }

  /** Where the capture group begins for a match at i (the two alternatives exclude each other). */
  function IdStart(url: string, i: int): (j: int)
    requires MatchAt(url, i)
    ensures IdAt(url, j) && i < j <= i + 2
  {
    if VEqualsAt(url, i) then i + 2 else i + 1
  }

  /** One past the last character of the capture group of a match at i. */
  function MatchEnd(url: string, i: int): (e: int)
    requires MatchAt(url, i)
    ensures e <= |url| && e <= i + 2 + IdLength
  {
    IdStart(url, i) + IdLength
  }

  /** The capture group of a match at i. */
  function MatchedId(url: string, i: int): (id: string)
    requires MatchAt(url, i)
    ensures IsId(id)
  {
    url[IdStart(url, i)..MatchEnd(url, i)]
  }

  /** The pattern matches at p and at no index from `from` up to p. */
  predicate IsFirstMatchFrom(url: string, from: int, p: int) {
    from <= p < |url| && MatchAt(url, p) && forall q :: from <= q < p ==> !MatchAt(url, q)
  }

  /** The match `re.search` reports: the leftmost one in the whole URL. */
  predicate IsLeftmostMatch(url: string, p: int) {
    IsFirstMatchFrom(url, 0, p)
  }

  // ---------------------------------------------------------------------------
  // The scanner
  // ---------------------------------------------------------------------------

  /** Checks every character of s against the ID alphabet. */
  function AllIdChars(s: string): (b: bool)
    ensures b <==> forall k :: 0 <= k < |s| ==> IsIdChar(s[k])
  {
    if s == [] then true else IsIdChar(s[0]) && AllIdChars(s[1..])
  }

  /** The capture group tried at index j. */
  function GroupAt(url: string, j: nat): (r: Option<string>)
    ensures r.Some? <==> IdAt(url, j)
    ensures r.Some? ==> r.value == url[j..j + IdLength]
  {
    if j + IdLength <= |url| && AllIdChars(url[j..j + IdLength]) then
      Some(url[j..j + IdLength])
    else
      None
  }

  /** The pattern tried at index i, `v=` first and a slash second. */
  function TryAt(url: string, i: nat): (r: Option<string>)
    ensures r.Some? <==> MatchAt(url, i)
    ensures r.Some? ==> r.value == MatchedId(url, i)
  {
    var first := if i + 2 <= |url| && url[i..i + 2] == "v=" then GroupAt(url, i + 2) else None;
    if first.Some? then
      first
    else if i < |url| && url[i] == '/' then
      GroupAt(url, i + 1)
    else
      None
  }

  /**
   The search from start index i onwards.  A match needs at least one
   character, so no match can start at |url| and the scan stops there.
   */
  function SearchFrom(url: string, i: nat): (r: Option<string>)
    ensures r.Some? ==> IsId(r.value)
    decreases |url| - i
  {
    if i >= |url| then
      None
    else
      match TryAt(url, i)
      case Some(id) => Some(id)
      case None => SearchFrom(url, i + 1)
  }

  /** `extract_video_id`: the capture group of the leftmost match, or None. */
  function ExtractVideoId(url: string): (r: Option<string>)
    ensures r.Some? ==> IsId(r.value)
  {
    SearchFrom(url, 0)
  }

  // ---------------------------------------------------------------------------
  // The scanner agrees with the specification
  // ---------------------------------------------------------------------------

  /** SearchFrom(url, i) reports the first match from i, and None exactly when there is none. */
  lemma {:induction false} SearchFromIsFirstMatch(url: string, i: nat)
    requires i <= |url|
    ensures SearchFrom(url, i).None? <==> forall q :: i <= q < |url| ==> !MatchAt(url, q)
    ensures forall p :: IsFirstMatchFrom(url, i, p) ==> SearchFrom(url, i) == Some(MatchedId(url, p))
    ensures SearchFrom(url, i).Some? ==>
              exists p :: IsFirstMatchFrom(url, i, p) && SearchFrom(url, i).value == MatchedId(url, p)
    decreases |url| - i
  {
    if i < |url| {
      if TryAt(url, i).Some? {
        assert IsFirstMatchFrom(url, i, i);
      } else {
        SearchFromIsFirstMatch(url, i + 1);
        assert !MatchAt(url, i);
        forall p | IsFirstMatchFrom(url, i, p)
          ensures IsFirstMatchFrom(url, i + 1, p)
        {
        }
        if SearchFrom(url, i + 1).Some? {
          var p :| IsFirstMatchFrom(url, i + 1, p) && SearchFrom(url, i + 1).value == MatchedId(url, p);
          assert IsFirstMatchFrom(url, i, p);
        }
      }
    }
  }

  /**
   The result is the capture group of the leftmost match, and it is None
   exactly when the pattern matches at no index.
   */
  lemma ExtractIsLeftmostMatch(url: string)
    ensures ExtractVideoId(url).None? <==> forall q :: 0 <= q < |url| ==> !MatchAt(url, q)
    ensures forall p :: IsLeftmostMatch(url, p) ==> ExtractVideoId(url) == Some(MatchedId(url, p))
    ensures ExtractVideoId(url).Some? ==>
              exists p :: IsLeftmostMatch(url, p) && ExtractVideoId(url).value == MatchedId(url, p)
  {
    SearchFromIsFirstMatch(url, 0);
  }

  /** A returned ID sits in the URL right after `v=` or right after a slash. */
  lemma ExtractedIdFollowsMarker(url: string)
    requires ExtractVideoId(url).Some?
    ensures exists j ::
              IdAt(url, j) && url[j..j + IdLength] == ExtractVideoId(url).value &&
              (VEqualsAt(url, j - 2) || SlashAt(url, j - 1))
  {
    ExtractIsLeftmostMatch(url);
    var p :| IsLeftmostMatch(url, p) && ExtractVideoId(url).value == MatchedId(url, p);
    var j := IdStart(url, p);
    assert url[j..j + IdLength] == ExtractVideoId(url).value;
  }

  /** A URL with no slash and no `v=` anywhere never yields an ID. */
  lemma NoMarkerNoId(url: string)
    requires forall k :: 0 <= k < |url| ==> url[k] != '/'
    requires forall k :: 0 <= k < |url| - 1 ==> !(url[k] == 'v' && url[k + 1] == '=')
    ensures ExtractVideoId(url) == None
  {
    ExtractIsLeftmostMatch(url);
    forall q | 0 <= q < |url|
      ensures !MatchAt(url, q)
    {
      assert !SlashAt(url, q);
      assert !VEqualsAt(url, q);
    }
  }

  /** Whether the pattern matches at q, and what it captures, depends only on the characters up to the match's end. */
  lemma MatchAtCommonPrefix(a: string, b: string, q: int, n: int)
    requires 0 <= n <= |a| && n <= |b| && a[..n] == b[..n]
    requires MatchAt(a, q) && MatchEnd(a, q) <= n
    ensures MatchAt(b, q) && IdStart(b, q) == IdStart(a, q) && MatchedId(b, q) == MatchedId(a, q)
  {
    var j := IdStart(a, q);
    forall k | 0 <= k < n
      ensures a[k] == b[k]
    {
      assert a[k] == a[..n][k];
    }
    assert VEqualsAt(b, q) == VEqualsAt(a, q);
    assert SlashAt(b, q) == SlashAt(a, q);
    assert a[j..j + IdLength] == b[j..j + IdLength];
  }

  /**
   Everything after the eleventh ID character is irrelevant: cutting the URL
   right after the ID and appending any tail gives the same result.
   */
  lemma {:induction false} ExtractIgnoresTail(url: string, p: int, tail: string)
    requires IsLeftmostMatch(url, p)
    ensures ExtractVideoId(url[..MatchEnd(url, p)] + tail) == ExtractVideoId(url) == Some(MatchedId(url, p))
  {
    var e := MatchEnd(url, p);
    var w := url[..e] + tail;
    assert w[..e] == url[..e];
    MatchAtCommonPrefix(url, w, p, e);
    forall q | 0 <= q < p
      ensures !MatchAt(w, q)
    {
      if MatchAt(w, q) {
        MatchAtCommonPrefix(w, url, q, e);
        assert false;
      }
    }
    assert IsLeftmostMatch(w, p);
    ExtractIsLeftmostMatch(url);
    ExtractIsLeftmostMatch(w);
  }

  /** Appending to a URL that already yields an ID does not change the ID. */
  lemma ExtractStableUnderAppend(url: string, tail: string)
    requires ExtractVideoId(url).Some?
    ensures ExtractVideoId(url + tail) == ExtractVideoId(url)
  {
    ExtractIsLeftmostMatch(url);
    var p :| IsLeftmostMatch(url, p) && ExtractVideoId(url).value == MatchedId(url, p);
    var e := MatchEnd(url, p);
    ExtractIgnoresTail(url, p, url[e..] + tail);
    assert url[..e] + (url[e..] + tail) == url + tail;
  }
}
