# YouTube transcript pipeline — a Dafny model

This project models the transcript pipeline of the Video Chatter app (bedrock-chat-with-content). A user pastes a YouTube URL. `validate_url` / `validate_youtube_url` turn it into a video id and the content type `"youtube"`. `get_content` / `get_youtube_transcript` ask the caption service for the video's tracks, try the languages `de`, `fr`, `en`, `es` in that order, and join the first track's segment texts with single spaces. `generate_prompt_from_transcript` puts the summarisation instruction in front of the text.

Beside that fixed pipeline (`utility_fixed.py`), the model covers three more parts:

- the older `utility.py`, with its German-then-English fetcher;
- the URL normalisation of the `diagnose_transcript.py` command line;
- the compatibility rule of the URL tester (`test_youtube_url.py`).

Layout (one module per source file, plus shared ones):

| file | module | contents |
|---|---|---|
| `wrappers.dfy` | `Wrappers`, `Exceptions` | `Option`, `Result`, and the Python exceptions the code can raise |
| `pystr.dfy` | `PyStr` | the Python `str` semantics used: `strip()`, `in`, `split(sep)`, `sep.join` |
| `captions.dfy` | `Captions` | the caption service as data (`Listing`, `Track`, `FetchResult`), `find_transcript`, the space join |
| `utility_fixed.dfy` | `UtilityFixed` | `validate_url`, `validate_youtube_url`, `get_content`, `get_youtube_transcript`, `generate_prompt_from_transcript` |
| `utility.dfy` | `Utility` | `get_video_id_from_url`, `get_transcript`, `generate_prompt_from_transcript` of the older file |
| `diagnose.dfy` | `Diagnose` | lines 64-69 of `main` in `diagnose_transcript.py` |
| `url_tester.dfy` | `UrlTester` | `test_single_url` steps 2-4 |

The caption service is a parameter of the model. `list_transcripts(video_id)` is a `Listing`, which has three cases:

- captions disabled;
- any other service failure;
- the tracks in listing order.

Each track carries its language code and what `fetch()` gives for it: the segment texts, or a failure. A Python exception that escapes a function is a `Failure` of a `Result`. A function's `None` is an `Option`.

Three behaviours of the code are easy to misread, and the model keeps them as written:

- **Removing the `watch?v=` marker** (utility_fixed.py:32-33). The code does not cut up to and including the marker. It tests whether `watch?v=` occurs anywhere in the piece and then drops the first eight characters, whatever they are (`UtilityFixed.WatchParamNotAtStartExample`).
- **Fetch errors** (utility_fixed.py:69-82). Captions disabled, no preferred language, and any other error all give the same `None` (`UtilityFixed.NoTranscriptCases`).
- **Missing functions.** `app.py` and `test_youtube_url.py` call `utility.validate_url` and `utility.get_content`. Those two functions exist only in `utility_fixed.py`, so the callers are modelled against `UtilityFixed`.

## Model

| member | source | states |
|---|---|---|
| PyStr.Strip | utility_fixed.py:29-31 | `strip()` is one contiguous run of the input with only whitespace cut in front of it and behind it; it is empty exactly for an all-whitespace string; otherwise its first and last characters are not whitespace; a string without surrounding whitespace is returned unchanged |
| PyStr.StripIsInfix | utility_fixed.py:29-31 | stripping leading and then trailing whitespace leaves a contiguous run of the input, with only whitespace on both sides |
| PyStr.IndexOf | diagnose_transcript.py:67-69 | a position is found exactly when the pattern occurs, and it is the leftmost occurrence: where `split(sep)` and the marker cuts take their first piece |
| PyStr.Split | utility_fixed.py:29 | `split(sep)` gives at least one piece; joining the pieces with `sep` gives back the input; no piece contains `sep`; there is one piece exactly when `sep` does not occur; the first piece is the text before the leftmost `sep`; the later pieces are the split of what follows it (`SplitAtFirst`) |
| PyStr.SplitAppendPiece | utility_fixed.py:29 | appending `"/" + b` (with no `/` in `b`) adds exactly `b` as the new last piece and keeps every earlier piece |
| PyStr.SplitJoinRoundTrip | utility_fixed.py:29 | splitting a join by a separator character that occurs in no piece gives back the pieces |
| PyStr.JoinLength | utility_fixed.py:64 | a join is as long as its pieces plus one separator between each adjacent pair |
| PyStr.JoinPiece | utility_fixed.py:64 | in a join (`PyStr.Join`, Python's `sep.join`), every piece appears verbatim at its offset, and exactly the separator stands between consecutive pieces |
| PyStr.ContainsCharIff | utility_fixed.py:22 | a one-character pattern occurs exactly when the character is in the string |
| Captions.FindTranscript | utility_fixed.py:57 | `find_transcript([code])` finds a track exactly when some listed track has that code; the track found has the code, and it is the first such track in listing order |
| Captions.FirstIndexOf | utility_fixed.py:57 | the index of a track with the code, where no earlier track has it |
| Captions.JoinedTextLength | utility_fixed.py:61-64 | the transcript (`Captions.JoinTexts`, the `' '.join` of the segment texts) is as long as the segment texts plus one space between each adjacent pair |
| Captions.JoinedTextKeepsSegments | utility_fixed.py:61-64 | every segment text appears unaltered in the transcript, in order, followed by one space unless it is the last |
| UtilityFixed.ValidateYoutubeUrl | utility_fixed.py:25-38 | the id lookup raises `IndexError` exactly for a blank URL; otherwise the content type is `"youtube"` and the id contains no `/` (the id's value is given by `LastPieceId`, `BlankLastPieceFallsBack`, `NoSlashId` and `OneSlashBlankLast`) |
| UtilityFixed.DropWatchParam | utility_fixed.py:32-33 | a piece containing `watch?v=` anywhere loses its first eight characters, so a piece starting with the marker loses exactly the marker; a piece without it is unchanged |
| UtilityFixed.BlankUrlHasOnePiece | utility_fixed.py:29-31 | the `[-2]` fallback is needed and fails exactly when the URL is blank |
| UtilityFixed.ValidateUrl | utility_fixed.py:20-23 | a URL is resolved exactly when it contains `youtu`, always with type `"youtube"` and the id `validate_youtube_url` gives; otherwise `None` |
| UtilityFixed.TrackText | utility_fixed.py:58-64 | a found track gives text exactly when its fetch succeeds, and the text is its segments joined by spaces |
| UtilityFixed.TryLanguages | utility_fixed.py:54-75 | no listed preferred code gives `None`; a text comes from some listed track whose code is preferred and whose fetch succeeded |
| UtilityFixed.GetYoutubeTranscript | utility_fixed.py:44-82 | a failed listing (disabled or any other error) gives `None`; a text is the joined segments of a preferred-language track of the video |
| UtilityFixed.GetContent | utility_fixed.py:40-42 | only the `"youtube"` content type is fetched, with the fixed language order; any other type gives `None` |
| UtilityFixed.GeneratePrompt | utility_fixed.py:84-93 | the prompt is the instruction, one space, then the transcript verbatim; its length is their sum |
| UtilityFixed.TranscriptOfPrompt | utility_fixed.py:87-88 | the inverse of prompt building: defined exactly on strings with the prompt's prefix, and building the prompt from its result gives back the input |
| UtilityFixed.PromptRoundTrip | utility_fixed.py:87-88 | the transcript can be read back from its prompt, untruncated |
| UtilityFixed.PromptInjective | utility_fixed.py:87-88 | different transcripts give different prompts |
| UtilityFixed.LastPieceId | utility_fixed.py:29-33 | for `a/b` with a non-blank, slash-free `b`, the id is `b` stripped and then with the `watch?v=` rule applied, whatever whitespace surrounds `b` |
| UtilityFixed.BlankLastPieceFallsBack | utility_fixed.py:29-33 | for `a/b/w` with a blank (empty or whitespace-only) last piece `w`, the id comes from `b` the same way |
| UtilityFixed.NoSlashId | utility_fixed.py:29-33 | a non-blank URL without `/` is one piece: the id is the whole URL stripped, with the `watch?v=` rule applied |
| UtilityFixed.OneSlashBlankLast | utility_fixed.py:29-33 | for `b/w` with a slash-free `b` and a blank last piece `w` (`youtu.be/`), the id comes from `b` |
| UtilityFixed.SlashFreeTrailingSlashSameId | utility_fixed.py:29-31 | a trailing slash on a non-blank, slash-free URL does not change its id |
| UtilityFixed.LastPieceIsTail | utility_fixed.py:29 | for `a/b` with no `/` in `b`, the last piece is `b` |
| UtilityFixed.TrailingSlashSameId | utility_fixed.py:29-31 | a trailing slash after a non-blank last piece does not change the resolved id |
| UtilityFixed.WatchUrlGivesId | utility_fixed.py:28-33 | `.../watch?v=ID` resolves to exactly `ID`, query parameters after it included |
| UtilityFixed.PlainLastPieceIsId | utility_fixed.py:29-33 | a clean last piece without `watch?v=` is the id unchanged |
| UtilityFixed.WatchParamAnywhereDropsEight | utility_fixed.py:32-33 | when `watch?v=` occurs anywhere in the last piece, the id is that piece minus its first eight characters |
| UtilityFixed.WatchParamNotAtStartExample | utility_fixed.py:32-33 | `https://youtu.be/xwatch?v=abc` resolves to the id `=abc` |
| UtilityFixed.CanonicalWatchUrlExample | utility_fixed.py:25-38 | `https://www.youtube.com/watch?v=-zF1mkBpyf4` resolves to `-zF1mkBpyf4` |
| UtilityFixed.QueryParametersKept | utility_fixed.py:28-33 | for every `.../watch?v=ID` followed by non-empty parameters (`&t=30s`, say), the parameters stay in the id, so it differs from the id of the same URL without them |
| UtilityFixed.ShortLinkExample | utility_fixed.py:29 | `https://youtu.be/abc123` resolves to `abc123` |
| UtilityFixed.ShortLinkTrailingSlashExample | utility_fixed.py:29-31 | `https://youtu.be/abc123/` resolves to `abc123` as well |
| UtilityFixed.UnsupportedHostExample | utility_fixed.py:20-23 | `https://example.com/video` is not resolved |
| UtilityFixed.WatchUrlValidatesExample | utility_fixed.py:20-23 | `validate_url` resolves the canonical watch URL to its id |
| UtilityFixed.FirstCharOfOccurrence | utility_fixed.py:22 | a string containing a pattern contains the pattern's first character |
| UtilityFixed.SelectsFirstPresent | utility_fixed.py:54-67 | the result is what the track of the first listed preferred code gives; earlier codes are skipped, later ones are never consulted |
| UtilityFixed.LaterLanguagesIgnored | utility_fixed.py:54-67 | replacing the codes after the first listed one does not change the result |
| UtilityFixed.FirstPresentIndex | utility_fixed.py:52-57 | the first preferred code some track has, or evidence that none is listed |
| UtilityFixed.NoTranscriptCases | utility_fixed.py:69-82 | `None` comes exactly from a failed listing, no listed preferred code, or a failed fetch of the first listed preferred track |
| UtilityFixed.FirstPresentUnique | utility_fixed.py:54-67 | at most one preferred code is the first listed one |
| UtilityFixed.GermanPreferred | utility_fixed.py:52-67 | with a German track listed, the German track's outcome is the result, whatever else is listed |
| UtilityFixed.UnsupportedLanguagesOnly | utility_fixed.py:73-75 | tracks only in other languages give `None` |
| Utility.GetVideoIdFromUrl | utility.py:9-21 | the older id extraction raises for exactly the same URLs as the fixed one (`IndexError`) and otherwise gives the same id |
| Utility.FetchJoined | utility.py:31-43 | one language's path succeeds exactly when that code is listed and its first track fetches, with the joined text; an unlisted code raises `NoTranscriptFound` |
| Utility.GetTranscript | utility.py:23-62 | never returns `None`; a failed listing raises `UnboundLocalError` from the handler; German wins when it fetches; otherwise English when it fetches; when both paths fail, the English path's exception escapes (`NoTranscriptFound` for English when neither code is listed) |
| Utility.GeneratePrompt | utility.py:64-74 | the older prompt equals the fixed one for every transcript |
| Utility.AgreesWithFixedOnGerman | utility.py:25-43 | where a German track fetches, the older and the fixed fetchers return the same text |
| Utility.FrenchOnlyExample | utility.py:45-58 | with only French captions the older fetcher raises `NoTranscriptFound` while the fixed one returns the French text |
| Diagnose.FirstField | diagnose_transcript.py:67 | `split(sep)[0]` is the prefix before the leftmost `sep`, or the whole string |
| Diagnose.SecondField | diagnose_transcript.py:67 | `split(sep)[1]` is the text after the first `sep` up to the next one |
| Diagnose.FieldCut | diagnose_transcript.py:67-69 | taking the second field and then cutting at a stop character is one cut at whichever comes first |
| Diagnose.NormalizeVideoArgument | diagnose_transcript.py:64-69 | a non-YouTube argument, or one with neither marker, passes unchanged; with `watch?v=` the id is the text after its first occurrence up to `&`; otherwise with `youtu.be/` it is the text after it up to `?` |
| UrlTester.BaseLanguage | test_youtube_url.py:117 | the base language is the prefix of the code before its first `-`, and contains no `-` |
| UrlTester.BaseLanguageIsFirstPiece | test_youtube_url.py:117 | the base language is `lang_code.split('-')[0]` |
| UrlTester.SupportedIffBaseOrRegion | test_youtube_url.py:105-117 | the rule `UrlTester.IsAppSupported` counts a code exactly when it is `en`, `de`, `fr` or `es`, or one of them followed by `-` and a region |
| UrlTester.BaseBeforeDash | test_youtube_url.py:117 | a code `base-...` for a supported base has that base as its base language |
| UrlTester.SupportedExamples | test_youtube_url.py:117 | `en-US` is counted; `pt` is not |
| UrlTester.SupportedLanguages | test_youtube_url.py:105-120 | the supported list holds each counted code as often as it is listed and nothing else |
| UrlTester.SupportedIsSubsequence | test_youtube_url.py:108-120 | the supported list keeps the listing order |
| UrlTester.CheckTranscripts | test_youtube_url.py:94-150 | a failed listing keeps the initial flags; otherwise the count is the number of tracks, the video has transcripts exactly when it is positive, and it is compatible exactly when some code is counted |
| UrlTester.TestSingleUrl | test_youtube_url.py:36-187 | without an id (a URL without `youtu` makes `extract_video_info` catch the failed unpacking of `None`) the report keeps its initial values; otherwise it holds the id `validate_url` gives, the content type `"youtube"`, and the supported codes step 3 found in listing order; the count reflects the listing; the app is compatible exactly when an id was found, some listed code is counted and the integration call returned a non-empty text |
| UrlTester.FetchedImpliesCompatible | test_youtube_url.py:117-121 | whenever the fixed fetcher returns a transcript, the step-3 compatibility flag is set |
| UrlTester.RegionCodeOnlyExample | test_youtube_url.py:117-121 | with only an `en-US` track the step-3 compatibility flag is set, yet the fixed fetcher returns `None` |
| UrlTester.EndToEndCompatibility | test_youtube_url.py:152-185 | when step 4 calls the fixed fetcher on the service step 3 listed, the final `app_compatible` holds exactly when the fetcher returns a non-empty transcript |
| UrlTester.RegionCodeOnlyFinalVerdict | test_youtube_url.py:152-185 | the `en-US`-only video passes step 3 but ends with `app_compatible` false |

## Left out

- The Streamlit UI of `app.py` and the Bedrock model call in `bedrock.py`: they are presentation and a foreign service. The model stops at the prompt they send.
- The network. `list_transcripts`, `fetch()`, `requests.head` and `diagnose_video` are not called. Their outcomes are data (`Listing`, `FetchResult`, `Integration`) or parameters (`CaptionService`).
- Step 1 of `test_single_url` (URL accessibility): it only adds a recommendation and does not affect any modelled flag.
- The report fields `url`, `timestamp`, `recommendations`, `processing_time` and `url_accessible`: they are free text, clock readings, or the network step above. The word and character counts and all logging and printing are omitted for the same reasons.
- The scripts `test_transcript.py` and `test_transcript_enhanced.py`: their single-video checks are the fetchers above applied to one listing.
- The track's display name and `is_generated` flag: they are only printed.
- Captions.FindTranscript: the library's preference for manually created tracks over generated ones with the same code is not modelled. The first listed track with the code is taken.
- A segment without a `'text'` key: it would raise `KeyError`; segments are modelled as their texts.
- Utility.GetTranscript: a `KeyError` or other exception from the English handler is folded into `FetchError`; only its escaping, not its type, is modelled.
