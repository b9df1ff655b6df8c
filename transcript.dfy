/**
 * `get_youtube_transcript`: extract the video id, fetch the transcript and
 * shape the outcome into the `{success, transcript, segments, error}` dict.
 *
 * The fetch itself (a network call into the transcript library) is a
 * parameter: a function from the video id to what the fetch produced, either
 * the raw segment list or the text of the exception it raised.
 */
module Transcript {
  import opened Wrappers
  import opened PyStr
  import opened VideoId

  /**
   * One entry of the raw segment list, `{text, start, duration}`. The times
   * are floats in the source; they are only carried through, never computed
   * with.
   */
  datatype Segment = Segment(text: string, start: real, duration: real)

  /** What the fetch did: the raw segment list, or `str(e)` of its exception. */
  datatype FetchOutcome = FetchOk(segments: seq<Segment>) | FetchErr(message: string)

  /** The returned dict; `None` fields are Python's `None`. */
  datatype TranscriptResult = TranscriptResult(
    success: bool,
    transcript: Option<string>,
    segments: Option<seq<Segment>>,
    error: Option<string>)

  const InvalidUrlMessage: string := "Invalid YouTube URL. Could not extract video ID."
  const DisabledMessage: string := "Transcripts are disabled for this video."
  const NoTranscriptMessage: string := "No transcript found for this video. It may not have captions available."
  const UnavailableMessage: string := "The video is unavailable. It may have been removed or is private."
  const UnexpectedPrefix: string := "An unexpected error occurred: "

  /** The four branches of the exception handler, in the order they are tested. */
  datatype FailureKind = Disabled | NoTranscript | Unavailable | Unexpected

  /** The `text` field of every segment, in order. */
  function Texts(segments: seq<Segment>): (texts: seq<string>)
    ensures |texts| == |segments|
    ensures forall i :: 0 <= i < |segments| ==> texts[i] == segments[i].text
  {
    if |segments| == 0 then [] else [segments[0].text] + Texts(segments[1..])
  }

  /**
   * `" ".join(segment["text"] for segment in segments)`: the texts in order
   * with one space between neighbours. Where each text sits is stated by
   * `TranscriptHoldsEverySegment`, and order by `FullTextAppend`.
   */
  function FullText(segments: seq<Segment>): (text: string)
    ensures |text| == TotalLength(Texts(segments)) + (if |segments| == 0 then 0 else |segments| - 1)
    ensures |segments| == 0 ==> text == ""
    ensures |segments| == 1 ==> text == segments[0].text
  {
    JoinWithSpaces(Texts(segments))
  }

  /**
   * The exception handler's tests on `str(e).lower()`: `"disabled"` first,
   * then `"no transcript"` or `"not found"`, then `"unavailable"`. Stated
   * against the original message: each test finds its word anywhere in it,
   * whatever the case of its letters.
   */
  function ClassifyFailure(message: string): (k: FailureKind)
    ensures k == Disabled <==> ContainsIgnoringCase(message, "disabled")
    ensures k == NoTranscript <==>
      !ContainsIgnoringCase(message, "disabled")
      && (ContainsIgnoringCase(message, "no transcript") || ContainsIgnoringCase(message, "not found"))
    ensures k == Unavailable <==>
      !ContainsIgnoringCase(message, "disabled")
      && !ContainsIgnoringCase(message, "no transcript") && !ContainsIgnoringCase(message, "not found")
      && ContainsIgnoringCase(message, "unavailable")
  {
    ContainsInLowered(message, "disabled");
    ContainsInLowered(message, "no transcript");
    ContainsInLowered(message, "not found");
    ContainsInLowered(message, "unavailable");
    var lowered := Lower(message);
    if Contains(lowered, "disabled") then Disabled
    else if Contains(lowered, "no transcript") || Contains(lowered, "not found") then NoTranscript
    else if Contains(lowered, "unavailable") then Unavailable
    else Unexpected
  }

  /** The `error` text each branch of the handler returns. */
  function FailureMessage(kind: FailureKind, message: string): (error: string)
    ensures |error| > 0
    ensures kind == Unexpected ==> |error| == |UnexpectedPrefix| + |message|
    ensures kind == Unexpected ==> error[..|UnexpectedPrefix|] == UnexpectedPrefix
    ensures kind == Unexpected ==> error[|UnexpectedPrefix|..] == message
  {
    match kind
    case Disabled => DisabledMessage
    case NoTranscript => NoTranscriptMessage
    case Unavailable => UnavailableMessage
    case Unexpected => UnexpectedPrefix + message
  }

  /** A failure dict: `success` is false and only `error` is set. */
  function FailureResult(error: string): (r: TranscriptResult)
    ensures !r.success && r.transcript.None? && r.segments.None? && r.error == Some(error)
  {
    TranscriptResult(false, None, None, Some(error))
  }

  /** The `try` block once the id is known: the success dict or the handler's dict. */
  function ShapeOutcome(outcome: FetchOutcome): (r: TranscriptResult)
    ensures r.success <==> outcome.FetchOk?
    ensures outcome.FetchOk? ==>
      r.transcript == Some(FullText(outcome.segments)) && r.segments == Some(outcome.segments) && r.error.None?
    ensures outcome.FetchErr? ==>
      r == FailureResult(FailureMessage(ClassifyFailure(outcome.message), outcome.message))
  {
    match outcome
    case FetchOk(segments) => TranscriptResult(true, Some(FullText(segments)), Some(segments), None)
    case FetchErr(message) => FailureResult(FailureMessage(ClassifyFailure(message), message))
  }

  /**
   * `get_youtube_transcript(video_url)`, with `fetch` standing for
   * `YouTubeTranscriptApi().fetch(video_id).to_raw_data()`. An extracted id
   * always has eleven characters, so `not video_id` holds exactly when no id
   * was extracted.
   */
  function GetYoutubeTranscript(videoUrl: string, fetch: string -> FetchOutcome): (r: TranscriptResult)
    ensures ExtractVideoId(videoUrl).None? ==> r == FailureResult(InvalidUrlMessage)
    ensures r.success <==> ExtractVideoId(videoUrl).Some? && fetch(ExtractVideoId(videoUrl).value).FetchOk?
    ensures r.success ==>
      var segments := fetch(ExtractVideoId(videoUrl).value).segments;
      r.transcript == Some(FullText(segments)) && r.segments == Some(segments) && r.error.None?
    ensures !r.success ==> r.transcript.None? && r.segments.None? && r.error.Some? && |r.error.value| > 0
  {
    match ExtractVideoId(videoUrl)
    case None => FailureResult(InvalidUrlMessage)
    case Some(videoId) => ShapeOutcome(fetch(videoId))
  }

  /**
   * When no id can be extracted the result is the same whatever the fetch
   * would do: no fetch is attempted.
   */
  lemma InvalidUrlFetchesNothing(videoUrl: string, fetch1: string -> FetchOutcome, fetch2: string -> FetchOutcome)
    requires ExtractVideoId(videoUrl).None?
    ensures GetYoutubeTranscript(videoUrl, fetch1) == GetYoutubeTranscript(videoUrl, fetch2)
    ensures !GetYoutubeTranscript(videoUrl, fetch1).success
  {
  }

  /** The fetch is consulted for the extracted id and for nothing else. */
  lemma OnlyTheExtractedIdIsFetched(videoUrl: string, fetch1: string -> FetchOutcome, fetch2: string -> FetchOutcome)
    requires ExtractVideoId(videoUrl).Some?
    requires fetch1(ExtractVideoId(videoUrl).value) == fetch2(ExtractVideoId(videoUrl).value)
    ensures GetYoutubeTranscript(videoUrl, fetch1) == GetYoutubeTranscript(videoUrl, fetch2)
  {
  }

  /** The texts of two lists one after the other are the texts of their concatenation. */
  lemma TextsAppend(xs: seq<Segment>, ys: seq<Segment>)
    ensures Texts(xs + ys) == Texts(xs) + Texts(ys)
  {
  }

  /**
   * The full text keeps segment order: the text of two consecutive runs of
   * segments is the text of the first, one space, and the text of the second.
   */
  lemma FullTextAppend(xs: seq<Segment>, ys: seq<Segment>)
    requires |xs| > 0 && |ys| > 0
    ensures FullText(xs + ys) == FullText(xs) + " " + FullText(ys)
  {
    TextsAppend(xs, ys);
    JoinAppend(Texts(xs), Texts(ys));
  }

  /**
   * The transcript holds every segment's text, unchanged and in place:
   * segment `i` starts at `PartOffset(Texts(segments), i)` and is followed by
   * a single space unless it is the last one. With `SuccessRecord`, this is
   * what a successful result's `transcript` says about its `segments`.
   */
  lemma TranscriptHoldsEverySegment(segments: seq<Segment>, i: nat)
    requires i < |segments|
    ensures
      var transcript, at := FullText(segments), PartOffset(Texts(segments), i);
      && at + |segments[i].text| <= |transcript|
      && transcript[at..at + |segments[i].text|] == segments[i].text
      && (i + 1 < |segments| ==> at + |segments[i].text| < |transcript| && transcript[at + |segments[i].text|] == ' ')
  {
    JoinContainsPart(Texts(segments), i);
  }

  /**
   * On success the transcript is as long as all segment texts together plus
   * one separating space between each two neighbours; an empty segment list
   * gives an empty transcript.
   */
  lemma TranscriptLength(videoUrl: string, fetch: string -> FetchOutcome)
    requires GetYoutubeTranscript(videoUrl, fetch).success
    ensures
      var r := GetYoutubeTranscript(videoUrl, fetch);
      var n := |r.segments.value|;
      |r.transcript.value| == TotalLength(Texts(r.segments.value)) + (if n == 0 then 0 else n - 1)
  {
  }

  /**
   * Classification ignores case: two messages that differ only in the case
   * of their letters land in the same branch.
   */
  lemma ClassificationIgnoresCase(a: string, b: string)
    requires EqualIgnoringCase(a, b)
    ensures ClassifyFailure(a) == ClassifyFailure(b)
  {
    LowerOfEqualIgnoringCase(a, b);
  }

  /**
   * Every failure, whatever the fetch's exception says, yields a non-empty
   * error: the fixed text of its branch, or, for an unrecognised message,
   * the message itself with its case intact.
   */
  lemma FailureAlwaysExplained(videoUrl: string, fetch: string -> FetchOutcome)
    requires ExtractVideoId(videoUrl).Some? && fetch(ExtractVideoId(videoUrl).value).FetchErr?
    ensures
      var message := fetch(ExtractVideoId(videoUrl).value).message;
      var r := GetYoutubeTranscript(videoUrl, fetch);
      && !r.success && r.transcript.None? && r.segments.None?
      && r.error.Some? && |r.error.value| > 0
      && (ClassifyFailure(message) == Unexpected ==> r.error.value == UnexpectedPrefix + message)
      && (ClassifyFailure(message) == Disabled ==> r.error.value == DisabledMessage)
      && (ClassifyFailure(message) == NoTranscript ==> r.error.value == NoTranscriptMessage)
      && (ClassifyFailure(message) == Unavailable ==> r.error.value == UnavailableMessage)
  {
  }

  /**
   * `"disabled"` is tested first: a message that also says "unavailable"
   * and spells the word in capitals is still classified as disabled.
   */
  lemma DisabledTakesPriority()
    ensures ClassifyFailure("Video unavailable: subtitles are DISABLED") == Disabled
  {
    var message := "Video unavailable: subtitles are DISABLED";
    assert message[33..41] == "DISABLED";
    assert OccursIgnoringCaseAt(message, "disabled", 33);
  }

  /** `"not found"` is tested before `"unavailable"`. */
  lemma NotFoundBeforeUnavailable()
    ensures ClassifyFailure("Not Found: the video is unavailable") == NoTranscript
  {
    var message := "Not Found: the video is unavailable";
    assert ContainsIgnoringCase(message, "not found") by {
      var w := message[0..9];
      assert w == "Not Found";
      assert LowerChar('N') == 'n' && LowerChar('F') == 'f';
      assert EqualIgnoringCase(w, "not found");
      assert OccursIgnoringCaseAt(message, "not found", 0);
    }
    assert !ContainsIgnoringCase(message, "disabled") by {
      assert forall i :: 0 <= i && i + 8 <= |message| ==>
        (message[i] != 'd' && message[i] != 'D') || (message[i + 1] != 'i' && message[i + 1] != 'I');
      AbsentWithoutFirstTwoLetters(message, "disabled");
    }
  }

  /**
   * A successful fetch yields exactly the success record: `success` set, the
   * joined text, the fetched list unchanged and no error.
   */
  lemma SuccessRecord(videoUrl: string, fetch: string -> FetchOutcome)
    requires ExtractVideoId(videoUrl).Some? && fetch(ExtractVideoId(videoUrl).value).FetchOk?
    ensures
      var segments := fetch(ExtractVideoId(videoUrl).value).segments;
      GetYoutubeTranscript(videoUrl, fetch) == TranscriptResult(true, Some(FullText(segments)), Some(segments), None)
  {
  }

  /** Two segments read as their texts with one space between. */
  lemma FullTextOfPair(x: Segment, y: Segment)
    ensures FullText([x, y]) == x.text + " " + y.text
  {
    assert Texts([x, y]) == [x.text, y.text];
    assert [x.text, y.text][1..] == [y.text];
    assert JoinWithSpaces([x.text, y.text]) == x.text + " " + JoinWithSpaces([y.text]);
  }

  /**
   * The demonstration URL, with a fetch that returns two segments for its
   * id, yields a success whose transcript is the two texts joined by one
   * space and whose segment list is the fetched one.
   */
  lemma WatchUrlTranscript(fetch: string -> FetchOutcome, x: Segment, y: Segment)
    requires fetch("ssYt09bCgUY") == FetchOk([x, y])
    ensures GetYoutubeTranscript(WatchUrl, fetch) == TranscriptResult(true, Some(x.text + " " + y.text), Some([x, y]), None)
  {
    ExtractFromWatchUrl();
    SuccessRecord(WatchUrl, fetch);
    FullTextOfPair(x, y);
  }
}
