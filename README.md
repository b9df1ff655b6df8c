# YouTube transcript fetch: video-id extraction and result shaping

This project models the transcript-fetching front end of a service that
downloads a YouTube video's transcript, chunks it and indexes it for
semantic search. The model covers `api/utils/transcript.py`:

- `extract_video_id(url)` runs `re.search` with
  `(?:v=|\/v\/|youtu\.be\/|\/embed\/)([a-zA-Z0-9_-]{11})` and returns the
  capture group, or `None`. The module `VideoId` (`video_id.dfy`) models it
  as the regex engine works. It scans start positions from left to right.
  At each position it tries the four alternatives in pattern order. An
  alternative succeeds when its literal prefix is there and eleven ID
  characters follow it. The first success wins.
- `get_youtube_transcript(video_url)` turns the URL into a result dict
  `{success, transcript, segments, error}`. The module `Transcript`
  (`transcript.dfy`) models it with the fetch as a parameter
  `fetch: string -> FetchOutcome`. That function maps the video id to either
  the raw segment list (`FetchOk`) or the text of the exception the fetch
  raised (`FetchErr`). The module covers the invalid-URL short-circuit, the
  success record and the exception handler's keyword classification.
- `PyStr` (`py_str.dfy`) holds the Python string operations these rely on:
  `" ".join`, `str.lower` restricted to ASCII, and the substring test `in`.
  Each comes with its own reference property.
- `Wrappers` (`wrappers.dfy`) holds `Option`, for Python's `X | None`.

The code returns fixed message strings in a dict, and the model follows it.
`FailureKind` only names the handler's four branches so that their order can
be stated.

## Model

| member | source | states |
|---|---|---|
| `VideoId.TryAlternatives` | api/utils/transcript.py:8 | At one position, the alternation succeeds exactly when some remaining alternative's prefix is followed by eleven ID characters, and it returns those eleven characters |
| `VideoId.SearchFrom` | api/utils/transcript.py:8-13 | Scanning from position p returns None exactly when no position from p to the end of the url matches. Otherwise it returns the group of a match at the first matching position |
| `VideoId.ExtractVideoId` | api/utils/transcript.py:5-14 | An extracted id has exactly 11 characters, all from `[A-Za-z0-9_-]`. The result is None exactly when no position has a prefix followed by 11 ID characters. Otherwise it is the 11 characters right after a prefix at the leftmost matching position |
| `VideoId.PrefixesExclusive` | api/utils/transcript.py:8 | At most one of `v=`, `/v/`, `youtu.be/`, `/embed/` can begin at any position, so the alternatives' order never changes the result |
| `VideoId.ExtractFindsLeftmostMatch` | api/utils/transcript.py:8-13 | Completeness: whenever a prefix with 11 ID characters after it sits at q and nothing matches earlier, the extracted id is exactly those 11 characters |
| `VideoId.NoPrefixInsidePrefix` | api/utils/transcript.py:8 | No prefix can start strictly inside a longer prefix and end before it |
| `VideoId.MatchIgnoresAppendedText` | api/utils/transcript.py:8 | A match lying wholly within a url is kept, with the same group, when text is appended |
| `VideoId.NoEarlierHitAfterAppend` | api/utils/transcript.py:8-11 | Appending text cannot create a match to the left of the url's leftmost match |
| `VideoId.AppendKeepsExtractedId` | api/utils/transcript.py:8-13 | The pattern has no end anchor: appending any text to a url from which an id was extracted leaves that id unchanged |
| `VideoId.NoHitWhereNoPrefixStarts` | api/utils/transcript.py:8 | No match starts at a position q where the character is not `v`, where a `/` is followed by a character other than `v` and `e`, and where a `y` has a character other than `.` five places on |
| `VideoId.NoHitsWhereNoPrefixStarts` | api/utils/transcript.py:8 | The same holds for every position in a stretch of such characters |
| `VideoId.ExtractFromWatchUrl` | api/utils/transcript.py:91 | `https://www.youtube.com/watch?v=ssYt09bCgUY` yields `ssYt09bCgUY` |
| `VideoId.ExtractFromNonUrl` | api/utils/transcript.py:5-14 | `not a url` yields None |
| `VideoId.ExtractFromShareLink` | api/utils/transcript.py:8 | `https://youtu.be/abcdefghijk` yields `abcdefghijk` |
| `VideoId.ExtractFromShareLinkWithLongRun` | api/utils/transcript.py:8 | A run of 14 ID characters after `youtu.be/` yields only its first 11 |
| `PyStr.JoinWithSpaces` | api/utils/transcript.py:47 | The joined text's length is the sum of the parts' lengths plus one space between each pair of neighbours, and it begins with the first part |
| `PyStr.PartOffsetIsPrefixLength` | api/utils/transcript.py:47 | A part's offset in the joined text is the total length of the parts before it plus one space for each of them |
| `PyStr.JoinContainsPart` | api/utils/transcript.py:47 | Every part occurs unchanged and contiguous at its offset in the joined text, followed by a single space unless it is the last part |
| `PyStr.JoinAppend` | api/utils/transcript.py:47 | Joining two non-empty lists one after the other equals joining each and putting one space between them |
| `PyStr.LowerChar` | api/utils/transcript.py:57 | An upper-case ASCII letter becomes the same letter in lower case (`A` to `a`, ..., `Z` to `z`). Every other character is unchanged |
| `PyStr.Lower` | api/utils/transcript.py:57 | Lower-casing keeps the length and lowers every character in place |
| `PyStr.LowerIdempotent` | api/utils/transcript.py:57 | Lowering lowered text changes nothing |
| `PyStr.LowerOfEqualIgnoringCase` | api/utils/transcript.py:57 | Texts that differ only in letter case lower-case to the same text |
| `PyStr.Contains` | api/utils/transcript.py:59 | The left-to-right scan for `needle in haystack` is true exactly when the needle occurs at some index |
| `PyStr.AbsentWithoutFirstTwoLetters` | api/utils/transcript.py:59 | A word starting with two lower-case letters does not occur, ignoring case, in a text where no position holds those two letters one after the other in either case |
| `PyStr.ContainsInLowered` | api/utils/transcript.py:57-59 | A lower-case word is in the lowered message exactly when it occurs somewhere in the original message, ignoring case |
| `Transcript.Texts` | api/utils/transcript.py:47 | The list of texts has one entry per segment, in order, each that segment's `text` |
| `Transcript.FullText` | api/utils/transcript.py:47 | The joined transcript has the texts' total length plus one space between neighbours; no segments give the empty text and one segment gives its own text. `TranscriptHoldsEverySegment` (with `PyStr.JoinContainsPart`) places every segment's text in it, and `FullTextAppend` (with `PyStr.JoinAppend`) shows it keeps their order |
| `Transcript.FailureResult` | api/utils/transcript.py:33-38 | The failure dict: success false, transcript and segments None, and the given error text |
| `Transcript.ClassifyFailure` | api/utils/transcript.py:56-86 | Stated on the original message, ignoring case: `disabled` anywhere gives Disabled. Otherwise `no transcript` or `not found` gives NoTranscript. Otherwise `unavailable` gives Unavailable. Anything else is Unexpected |
| `Transcript.FailureMessage` | api/utils/transcript.py:59-86 | Every branch's error text is non-empty, and the unexpected branch's text is its fixed prefix followed by the original, un-lowered message |
| `Transcript.ShapeOutcome` | api/utils/transcript.py:40-86 | success holds exactly when the fetch produced segments. A success carries the joined text, the list unchanged and no error. A failure is the failure dict with the classified message |
| `Transcript.GetYoutubeTranscript` | api/utils/transcript.py:17-86 | If no id is extracted, the result is the invalid-URL failure. success holds exactly when an id is extracted and its fetch succeeds. On success: the joined transcript, the fetched segments and no error. On any failure: transcript and segments are None and error is a non-empty text |
| `Transcript.InvalidUrlFetchesNothing` | api/utils/transcript.py:31-38 | With no extractable id, the result is the same whatever the fetch would return: no fetch is made |
| `Transcript.OnlyTheExtractedIdIsFetched` | api/utils/transcript.py:31-45 | The result depends on the fetch only through what it returns for the extracted id |
| `Transcript.TextsAppend` | api/utils/transcript.py:47 | The texts of a concatenation are the concatenated texts |
| `Transcript.FullTextAppend` | api/utils/transcript.py:47 | The transcript keeps segment order: the text of two runs of segments is the first run's text, one space, then the second's |
| `Transcript.TranscriptHoldsEverySegment` | api/utils/transcript.py:47 | Every segment's text occurs unchanged at its offset in the joined transcript, followed by one space unless it is the last. With `SuccessRecord` this describes every success result |
| `Transcript.TranscriptLength` | api/utils/transcript.py:47-51 | On success, for any number of segments, the transcript's length is the total length of the texts plus one for each space between neighbours (zero when there are no segments) |
| `Transcript.ClassificationIgnoresCase` | api/utils/transcript.py:57-79 | Two messages that differ only in letter case land in the same branch |
| `Transcript.FailureAlwaysExplained` | api/utils/transcript.py:56-86 | Any fetch exception gives success false, no transcript, no segments and a non-empty error. A message mentioning disabled, no transcript or not found, or unavailable is reported with that branch's fixed text, and an unrecognised one as the prefix followed by the message as raised |
| `Transcript.DisabledTakesPriority` | api/utils/transcript.py:59-65 | A message saying both "unavailable" and "DISABLED" is classified as disabled: the test for disabled comes first and ignores case |
| `Transcript.NotFoundBeforeUnavailable` | api/utils/transcript.py:66-79 | A message saying both "Not Found" and "unavailable" is classified as no transcript: that test comes before the one for unavailable |
| `Transcript.SuccessRecord` | api/utils/transcript.py:45-54 | A successful fetch gives exactly the record with success true, the joined text, the fetched list unchanged and no error |
| `Transcript.FullTextOfPair` | api/utils/transcript.py:47 | Two segments join to the first text, one space, then the second text |
| `Transcript.WatchUrlTranscript` | api/utils/transcript.py:91-93 | For the demonstration URL, with a fetch that returns two segments, the result is a success whose transcript is the two texts joined by a space |

## Left out

- `api/utils/vector_store.py`: a wrapper over a ChromaDB collection and a sentence-embedding model. Neither is visible, it draws its item ids from `uuid.uuid4()`, and its error handling only prints. It is not part of this model.
- The transcript fetch (`YouTubeTranscriptApi().fetch(video_id).to_raw_data()`, api/utils/transcript.py:41-45) is a network call into an external library. It is the `fetch` parameter, and its exception is represented only by its message text.
- PyStr.Lower: lower-cases ASCII letters only. Python's `str.lower` also folds non-ASCII letters, and may change the length of some of them, so `Lower`'s own output differs from Python's on such text. The classification is still exact for every message. Only two non-ASCII characters lower to ASCII ones: the Kelvin sign U+212A becomes `k`, and the dotted capital I U+0130 becomes `i` followed by U+0307. No keyword contains `k`, and every `i` in a keyword is followed by another ASCII letter, so neither can complete a keyword. The unexpected branch embeds the message un-lowered.
- Segment `start` and `duration` are floats in the source. They are only carried through, so the model stores them as `real` and never computes with them.
- The `__main__` block (api/utils/transcript.py:90-100) only prints to the console. Its URL appears in `ExtractFromWatchUrl` and `WatchUrlTranscript`.
- A segment without a `text` key would make the join raise, and the handler would classify that exception too. Segments here always have a text, so that path is not modelled.
- The chunking routine and the fetch, chunk and store pipeline live in files that are not part of this model.
