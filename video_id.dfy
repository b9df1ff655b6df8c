/**
 * `extract_video_id`: `re.search` with the pattern
 * `(?:v=|\/v\/|youtu\.be\/|\/embed\/)([a-zA-Z0-9_-]{11})`, returning the
 * capture group of the leftmost match, or `None`.
 *
 * The regex engine tries start positions from left to right and, at each
 * position, the four alternatives in the order they are written; an
 * alternative succeeds when its literal prefix is there and eleven ID
 * characters follow it. Nothing anchors the end, so further ID characters
 * after the eleventh are ignored.
 */
module VideoId {
  import opened Wrappers

  /** Number of characters the capture group `{11}` takes. */
  const IdLength: nat := 11

  /** The alternatives of the non-capturing group, in pattern order. */
  const Prefixes: seq<string> := ["v=", "/v/", "youtu.be/", "/embed/"]

  /** The character class `[a-zA-Z0-9_-]`, case-sensitive and ASCII only. */
  predicate IsIdChar(c: char) {
    ('a' <= c <= 'z') || ('A' <= c <= 'Z') || ('0' <= c <= '9') || c == '_' || c == '-'
  }

  /** A well-formed video id: exactly eleven characters of the class. */
  predicate IsId(s: string) {
    |s| == IdLength && forall i :: 0 <= i < |s| ==> IsIdChar(s[i])
  }

  /** The prefix `pre` followed by eleven ID characters starts at `p`. */
  predicate MatchAt(url: string, p: nat, pre: string) {
    p + |pre| + IdLength <= |url|
    && url[p..p + |pre|] == pre
    && IsId(url[p + |pre|..p + |pre| + IdLength])
  }

  /** The capture group of a match of `pre` at `p`. */
  function GroupAt(url: string, p: nat, pre: string): string
    requires p + |pre| + IdLength <= |url|
  {
    url[p + |pre|..p + |pre| + IdLength]
  }

  /** Some alternative of the pattern matches at `p`. */
  predicate HitAt(url: string, p: nat) {
    exists k :: 0 <= k < |Prefixes| && MatchAt(url, p, Prefixes[k])
  }

  /** No alternative matches at any position in `[lo, hi)`. */
  predicate NoHitIn(url: string, lo: nat, hi: nat) {
    forall q: nat :: lo <= q < hi ==> !HitAt(url, q)
  }

  /**
   * The alternation at a fixed position: try `Prefixes[k..]` in order and
   * take the first one that is followed by eleven ID characters.
   */
  function TryAlternatives(url: string, p: nat, k: nat): (r: Option<string>)
    requires k <= |Prefixes|
    ensures r.Some? <==> exists j :: k <= j < |Prefixes| && MatchAt(url, p, Prefixes[j])
    ensures r.Some? ==> exists j :: k <= j < |Prefixes| && MatchAt(url, p, Prefixes[j]) && r.value == GroupAt(url, p, Prefixes[j])
    decreases |Prefixes| - k
  {
    if k == |Prefixes| then None
    else if MatchAt(url, p, Prefixes[k]) then Some(GroupAt(url, p, Prefixes[k]))
    else TryAlternatives(url, p, k + 1)
  }

  /**
   * `Prefixes[k]` matches at `q`, and no alternative matches at any earlier
   * position from `lo` on: the match `re.search` reports when it starts
   * scanning at `lo`.
   */
  predicate LeftmostMatch(url: string, lo: nat, q: nat, k: nat) {
    lo <= q && k < |Prefixes| && MatchAt(url, q, Prefixes[k]) && NoHitIn(url, lo, q)
  }

  /**
   * The search loop of `re.search` from start position `p` on: the group of
   * the first position at which the alternation succeeds.
   */
  function SearchFrom(url: string, p: nat): (r: Option<string>)
    requires p <= |url|
    ensures r.None? <==> NoHitIn(url, p, |url| + 1)
    ensures r.Some? ==>
      exists q: nat, k: nat :: LeftmostMatch(url, p, q, k) && r.value == GroupAt(url, q, Prefixes[k])
    decreases |url| - p
  {
    match TryAlternatives(url, p, 0)
    case Some(id) =>
      assert HitAt(url, p);
      var k :| 0 <= k < |Prefixes| && MatchAt(url, p, Prefixes[k]) && id == GroupAt(url, p, Prefixes[k]);
      assert LeftmostMatch(url, p, p, k);
      Some(id)
    case None =>
      assert !HitAt(url, p);
      if p == |url| then
        assert NoHitIn(url, p, |url| + 1);
        None
      else
        var rest := SearchFrom(url, p + 1);
        assert NoHitIn(url, p, |url| + 1) <==> NoHitIn(url, p + 1, |url| + 1);
        assert rest.Some? ==> exists q: nat, k: nat :: LeftmostMatch(url, p, q, k) && rest.value == GroupAt(url, q, Prefixes[k]) by {
          if rest.Some? {
            var q: nat, k: nat :| LeftmostMatch(url, p + 1, q, k) && rest.value == GroupAt(url, q, Prefixes[k]);
            assert LeftmostMatch(url, p, q, k);
          }
        }
        rest
  }

  /** `extract_video_id(url)`. */
  function ExtractVideoId(url: string): (r: Option<string>)
    ensures r.Some? ==> IsId(r.value)
    ensures r.None? <==> NoHitIn(url, 0, |url| + 1)
    ensures r.Some? ==>
      exists q: nat, k: nat :: LeftmostMatch(url, 0, q, k) && r.value == GroupAt(url, q, Prefixes[k])
  {
    SearchFrom(url, 0)
  }

  /**
   * At one position at most one alternative's prefix can begin: `v=` starts
   * with `v`, `youtu.be/` with `y`, and `/v/` and `/embed/` differ in their
   * second character. The order of the alternatives therefore never matters.
   */
  lemma PrefixesExclusive(url: string, p: nat, j: nat, k: nat)
    requires j < |Prefixes| && k < |Prefixes|
    requires p + |Prefixes[j]| <= |url| && url[p..p + |Prefixes[j]|] == Prefixes[j]
    requires p + |Prefixes[k]| <= |url| && url[p..p + |Prefixes[k]|] == Prefixes[k]
    ensures j == k
  {
    var a, b := Prefixes[j], Prefixes[k];
    assert url[p] == a[0] == b[0] by {
      assert url[p..p + |a|][0] == url[p];
      assert url[p..p + |b|][0] == url[p];
    }
    assert url[p + 1] == a[1] == b[1] by {
      assert url[p..p + |a|][1] == url[p + 1];
      assert url[p..p + |b|][1] == url[p + 1];
    }
  }

  /**
   * Completeness: whenever an alternative matches at `q` and no alternative
   * matches earlier, `extract_video_id` returns the eleven characters after
   * that prefix.
   */
  lemma ExtractFindsLeftmostMatch(url: string, q: nat, k: nat)
    requires LeftmostMatch(url, 0, q, k)
    ensures ExtractVideoId(url) == Some(GroupAt(url, q, Prefixes[k]))
  {
    var r := ExtractVideoId(url);
    assert HitAt(url, q);
    var q': nat, k': nat :| LeftmostMatch(url, 0, q', k') && r.value == GroupAt(url, q', Prefixes[k']);
    if q' < q {
      assert HitAt(url, q');
      assert false;
    } else if q < q' {
      assert false;
    }
    PrefixesExclusive(url, q, k, k');
  }

  /**
   * Inside a longer prefix, no position after the first holds the first
   * character of any prefix that would end before the longer one does.
   */
  lemma NoPrefixInsidePrefix(j: nat, k: nat, d: nat)
    requires j < |Prefixes| && k < |Prefixes|
    requires 0 < d && d + |Prefixes[k]| < |Prefixes[j]|
    ensures Prefixes[j][d] != Prefixes[k][0]
  {
  }

  /** A match that lies wholly within `url` is unaffected by appended text. */
  lemma MatchIgnoresAppendedText(url: string, tail: string, p: nat, pre: string)
    requires p + |pre| + IdLength <= |url|
    ensures MatchAt(url + tail, p, pre) == MatchAt(url, p, pre)
    ensures GroupAt(url + tail, p, pre) == GroupAt(url, p, pre)
  {
    var u := url + tail;
    assert u[p..p + |pre|] == url[p..p + |pre|];
    assert u[p + |pre|..p + |pre| + IdLength] == url[p + |pre|..p + |pre| + IdLength];
  }

  /**
   * Appending text cannot create a match before the leftmost match of
   * `url`: such a match would need its prefix to reach over the later one.
   */
  lemma NoEarlierHitAfterAppend(url: string, tail: string, q: nat, k: nat, q': nat)
    requires LeftmostMatch(url, 0, q, k) && q' < q
    ensures !HitAt(url + tail, q')
  {
    var u := url + tail;
    if HitAt(u, q') {
      var k': nat :| k' < |Prefixes| && MatchAt(u, q', Prefixes[k']);
      var pre, pre' := Prefixes[k], Prefixes[k'];
      if q' + |pre'| + IdLength <= |url| {
        assert !HitAt(url, q');
        MatchIgnoresAppendedText(url, tail, q', pre');
        assert false;
      } else {
        var d := q - q';
        assert u[q'..q' + |pre'|][d] == u[q] == url[q..q + |pre|][0];
        NoPrefixInsidePrefix(k', k, d);
        assert false;
      }
    }
  }

  /**
   * The pattern has no end anchor: text appended after a URL never changes
   * the id extracted from it. In particular a run of more than eleven ID
   * characters yields its first eleven.
   */
  lemma AppendKeepsExtractedId(url: string, tail: string)
    requires ExtractVideoId(url).Some?
    ensures ExtractVideoId(url + tail) == ExtractVideoId(url)
  {
    var q: nat, k: nat :| LeftmostMatch(url, 0, q, k) && ExtractVideoId(url).value == GroupAt(url, q, Prefixes[k]);
    MatchIgnoresAppendedText(url, tail, q, Prefixes[k]);
    forall q': nat | q' < q ensures !HitAt(url + tail, q') {
      NoEarlierHitAfterAppend(url, tail, q, k, q');
    }
    assert LeftmostMatch(url + tail, 0, q, k);
    ExtractFindsLeftmostMatch(url + tail, q, k);
  }

  /**
   * A character that no alternative begins with (`v`, `/` then `v` or `e`,
   * `y` with `.` five places on): a position where the scan cannot match.
   */
  predicate CannotStartPrefix(url: string, q: nat) {
    q < |url| && url[q] != 'v'
    && (url[q] == '/' ==> q + 1 < |url| && url[q + 1] != 'v' && url[q + 1] != 'e')
    && (url[q] == 'y' ==> q + 5 < |url| && url[q + 5] != '.')
  }

  /** No alternative matches where no prefix can begin. */
  lemma NoHitWhereNoPrefixStarts(url: string, q: nat)
    requires CannotStartPrefix(url, q)
    ensures !HitAt(url, q)
  {
  }

  /** The scan passes over a stretch in which no prefix can begin. */
  lemma NoHitsWhereNoPrefixStarts(url: string, lo: nat, hi: nat)
    requires forall q: nat :: lo <= q < hi ==> CannotStartPrefix(url, q)
    ensures NoHitIn(url, lo, hi)
  {
    forall q: nat | lo <= q < hi ensures !HitAt(url, q) {
      NoHitWhereNoPrefixStarts(url, q);
    }
  }

  /** The URL of the module's demonstration block. */
  const WatchUrl: string := "https://www.youtube.com/watch?v=ssYt09bCgUY"

  /** The demonstration URL yields its id. */
  lemma ExtractFromWatchUrl()
    ensures ExtractVideoId(WatchUrl) == Some("ssYt09bCgUY")
  {
    var url := WatchUrl;
    assert forall q: nat :: q < 30 ==> CannotStartPrefix(url, q);
    NoHitsWhereNoPrefixStarts(url, 0, 30);
    assert url[30..32] == "v=" && url[32..43] == "ssYt09bCgUY";
    assert LeftmostMatch(url, 0, 30, 0);
    ExtractFindsLeftmostMatch(url, 30, 0);
  }

  /** Text too short to hold a prefix and eleven ID characters yields no id. */
  lemma ExtractFromNonUrl()
    ensures ExtractVideoId("not a url") == None
  {
  }

  /** A share link yields the eleven characters after `youtu.be/`. */
  lemma ExtractFromShareLink()
    ensures ExtractVideoId("https://youtu.be/abcdefghijk") == Some("abcdefghijk")
  {
    var url := "https://youtu.be/abcdefghijk";
    assert forall q: nat :: q < 8 ==> CannotStartPrefix(url, q);
    NoHitsWhereNoPrefixStarts(url, 0, 8);
    assert url[8..17] == "youtu.be/" && url[17..28] == "abcdefghijk";
    assert LeftmostMatch(url, 0, 8, 2);
    ExtractFindsLeftmostMatch(url, 8, 2);
  }

  /** A share link whose id run is longer than eleven characters yields the first eleven. */
  lemma ExtractFromShareLinkWithLongRun()
    ensures ExtractVideoId("https://youtu.be/abcdefghijkLMN") == Some("abcdefghijk")
  {
    ExtractFromShareLink();
    AppendKeepsExtractedId("https://youtu.be/abcdefghijk", "LMN");
    assert "https://youtu.be/abcdefghijk" + "LMN" == "https://youtu.be/abcdefghijkLMN";
  }
}
