/**
  `utility_fixed.py`: the pipeline's entry points. A URL is resolved to a video id and
  content type, the transcript is fetched by language preference, and the summarisation
  prompt is built from it.
 */
module UtilityFixed {
  import opened Wrappers
  import opened Exceptions
  import opened PyStr
  import opened Captions

  /** The query marker whose first eight characters are dropped from the id segment. */
  const WatchParam := "watch?v="

  /** The host marker: it also matches shortened `youtu.be` share links. */
  const HostMarker := "youtu"

  const YoutubeContent := "youtube"

  /** Codes tried in this order by `get_youtube_transcript`. */
  const LanguagesToTry: seq<string> := ["de", "fr", "en", "es"]

  const SummarizeInstruction := "Summarize the following video:\n"

  /** A resolved URL: the video id and the content-type tag. */
  datatype Resolution = Resolution(videoId: string, contentType: string)

  // ---------------------------------------------------------------- URL resolution

  /**
    `validate_youtube_url`: the last `/`-piece, stripped; the one before it when the last
    one strips to nothing; then the first eight characters dropped when `watch?v=` occurs in it.
    Indexing `[-2]` fails with `IndexError` exactly when the URL is blank.
   */
  function ValidateYoutubeUrl(url: string): (r: Result<Resolution, PyError>)
    ensures r.Failure? <==> AllSpace(url)
    ensures r.Failure? ==> r.error == IndexError
    ensures r.Success? ==> r.value.contentType == YoutubeContent
    ensures r.Success? ==> '/' !in r.value.videoId
  {
    var segs := Split(url, "/");
    var last := Strip(segs[|segs| - 1]);
    BlankUrlHasOnePiece(url);
    if last == [] && |segs| < 2 then
      Failure(IndexError)
    else
      var id := if last != [] then last else Strip(segs[|segs| - 2]);
      assert '/' !in id by {
        ContainsCharIff(segs[|segs| - 1], '/');
        if last == [] {
          ContainsCharIff(segs[|segs| - 2], '/');
        }
      }
      Success(Resolution(DropWatchParam(id), YoutubeContent))
  }

  /** `if 'watch?v=' in video_id: video_id = video_id[len('watch?v='):]` */
  function DropWatchParam(id: string): (r: string)
    ensures StartsWith(id, WatchParam) ==> id == WatchParam + r
    ensures !Contains(id, WatchParam) ==> r == id
    ensures Contains(id, WatchParam) ==> |id| >= |WatchParam| && r == id[|WatchParam|..]
    ensures forall c :: c in r ==> c in id
  {
    if Contains(id, WatchParam) then id[|WatchParam|..] else
      assert StartsWith(id, WatchParam) ==> OccursAt(id, WatchParam, 0);
      id
  }

  /** A blank URL is one piece with no '/', so the `[-2]` lookup has nothing to find. */
  lemma BlankUrlHasOnePiece(url: string)
    ensures var segs := Split(url, "/");
      (|segs| < 2 && Strip(segs[|segs| - 1]) == []) <==> AllSpace(url)
  {
    var segs := Split(url, "/");
    ContainsCharIff(url, '/');
    if AllSpace(url) {
      assert !IsSpace('/');
      assert '/' !in url;
    }
    if |segs| < 2 {
      assert segs == [segs[0]];
      assert Join(segs, "/") == segs[0];
    }
  }

  /**
    `validate_url`: only a URL containing "youtu" is resolved, always with content type
    "youtube"; any other URL gives `None`. For a URL with the marker the `[-2]` lookup
    never fails.
   */
  function ValidateUrl(url: string): (r: Option<Resolution>)
    ensures r.Some? <==> Contains(url, HostMarker)
    ensures r.Some? ==> r.value.contentType == YoutubeContent && ValidateYoutubeUrl(url) == Success(r.value)
  {
    if Contains(url, HostMarker) then
      MarkedUrlIsNotBlank(url);
      match ValidateYoutubeUrl(url)
      case Success(res) => Some(res)
      case Failure(_) => assert false; None
    else
      None
  }

  /** A URL containing a non-space pattern is not blank. */
  lemma MarkedUrlIsNotBlank(url: string)
    requires Contains(url, HostMarker)
    ensures !AllSpace(url)
  {
    var i :| 0 <= i <= |url| && OccursAt(url, HostMarker, i);
    assert url[i] == url[i..i + |HostMarker|][0] == 'y';
  }

  // ---------------------------------------------------------------- transcript fetching

  /**
    What one found track contributes: its joined segment texts, or `None` when `fetch()`
    fails (that exception is not `NoTranscriptFound`, so it leaves the language loop and
    lands in the outer `except Exception`).
   */
  function TrackText(t: Track): (r: Option<string>)
    ensures r.Some? <==> t.fetch.Fetched?
    ensures r.Some? ==> r.value == JoinTexts(t.fetch.texts)
  {
    match t.fetch
    case Fetched(texts) => Some(JoinTexts(texts))
    case FetchFailed => None
  }

  /** The language loop: try each code in order; a missing code moves on to the next one. */
  function TryLanguages(tracks: seq<Track>, langs: seq<string>): (r: Option<string>)
    ensures (forall k :: 0 <= k < |langs| ==> !HasCode(tracks, langs[k])) ==> r.None?
    ensures r.Some? ==> exists t :: t in tracks && t.code in langs && t.fetch.Fetched? && r.value == JoinTexts(t.fetch.texts)
    decreases |langs|
  {
    if langs == [] then None
    else
      match FindTranscript(tracks, langs[0])
      case None =>
        var r := TryLanguages(tracks, langs[1..]);
        assert forall c :: c in langs[1..] ==> c in langs;
        r
      case Some(t) =>
        assert HasCode(tracks, langs[0]);
        TrackText(t)
  }

  /**
    `get_youtube_transcript` with the preference list as a parameter (the source fixes it
    to `LanguagesToTry`): the listing failures, a missing language and a failed fetch all
    give the same `None`.
   */
  function GetYoutubeTranscript(listing: Listing, langs: seq<string>): (r: Option<string>)
    ensures !listing.Listed? ==> r.None?
    ensures r.Some? ==> exists t :: t in listing.tracks && t.code in langs && t.fetch.Fetched? && r.value == JoinTexts(t.fetch.texts)
  {
    match listing
    case Listed(tracks) => TryLanguages(tracks, langs)
    case TranscriptsDisabled => None
    case ListingFailed(_) => None
  }

  /** `get_content`: only the "youtube" content type is fetched; any other gives `None`. */
  function GetContent(id: string, contentType: string, service: CaptionService): (r: Option<string>)
    ensures contentType != YoutubeContent ==> r.None?
    ensures contentType == YoutubeContent ==> r == GetYoutubeTranscript(service(id), LanguagesToTry)
  {
    if contentType == YoutubeContent then GetYoutubeTranscript(service(id), LanguagesToTry) else None
  }

  // ---------------------------------------------------------------- prompt

  /** `generate_prompt_from_transcript`: the fixed instruction, one space, then the transcript verbatim. */
  function GeneratePrompt(transcript: string): (r: string)
    ensures |r| == |SummarizeInstruction| + 1 + |transcript|
    ensures StartsWith(r, SummarizeInstruction + " ")
    ensures r[|SummarizeInstruction| + 1..] == transcript
  {
    SummarizeInstruction + " " + transcript
  }

  /** Recovers the transcript a prompt was built from, if it has the prompt's shape. */
  function TranscriptOfPrompt(prompt: string): (r: Option<string>)
    ensures r.Some? <==> StartsWith(prompt, SummarizeInstruction + " ")
    ensures r.Some? ==> |r.value| == |prompt| - |SummarizeInstruction| - 1
    ensures r.Some? ==> GeneratePrompt(r.value) == prompt
  {
    var head := SummarizeInstruction + " ";
    if StartsWith(prompt, head) then Some(prompt[|head|..]) else None
  }

  // ---------------------------------------------------------------- properties of URL resolution

  /** Resolving `a/b` reads the id from the piece `b` after the last '/'. */
  lemma LastPieceIsTail(a: string, b: string)
    requires '/' !in b
    ensures Split(a + "/" + b, "/") == Split(a, "/") + [b]
  {
    SplitAppendPiece(a, '/', b);
  }

  /**
    The id is read from the last piece `b`: stripped, then with `watch?v=` handled, whatever
    whitespace surrounds `b`, as long as `b` is not blank.
   */
  lemma LastPieceId(a: string, b: string)
    requires '/' !in b && !AllSpace(b)
    ensures ValidateYoutubeUrl(a + "/" + b) == Success(Resolution(DropWatchParam(Strip(b)), YoutubeContent))
  {
    LastPieceIsTail(a, b);
  }

  /** A blank (not only empty) last piece falls back to the piece `b` before it. */
  lemma BlankLastPieceFallsBack(a: string, b: string, w: string)
    requires '/' !in b && '/' !in w && AllSpace(w)
    ensures ValidateYoutubeUrl(a + "/" + b + "/" + w) == Success(Resolution(DropWatchParam(Strip(b)), YoutubeContent))
  {
    LastPieceIsTail(a, b);
    LastPieceIsTail(a + "/" + b, w);
  }

  /**
    A trailing slash does not change the id: `.../abc123/` and `.../abc123` resolve alike,
    provided the last piece is not blank.
   */
  lemma TrailingSlashSameId(a: string, b: string)
    requires '/' !in b && !AllSpace(b)
    ensures ValidateYoutubeUrl(a + "/" + b + "/") == ValidateYoutubeUrl(a + "/" + b)
  {
    LastPieceId(a, b);
    BlankLastPieceFallsBack(a, b, "");
    assert a + "/" + b + "/" + "" == a + "/" + b + "/";
  }

  /** A URL without any '/' is one piece: the whole URL, stripped, is the id. */
  lemma NoSlashId(url: string)
    requires '/' !in url && !AllSpace(url)
    ensures ValidateYoutubeUrl(url) == Success(Resolution(DropWatchParam(Strip(url)), YoutubeContent))
  {
    ContainsCharIff(url, '/');
    SplitWithoutSeparator(url, "/");
  }

  /** With a single '/' and a blank last piece (`youtu.be/`), the id comes from the piece before it. */
  lemma OneSlashBlankLast(b: string, w: string)
    requires '/' !in b && '/' !in w && AllSpace(w)
    ensures ValidateYoutubeUrl(b + "/" + w) == Success(Resolution(DropWatchParam(Strip(b)), YoutubeContent))
  {
    LastPieceIsTail(b, w);
    ContainsCharIff(b, '/');
    SplitWithoutSeparator(b, "/");
  }

  /** A trailing slash on a slash-free URL does not change the id either. */
  lemma SlashFreeTrailingSlashSameId(b: string)
    requires '/' !in b && !AllSpace(b)
    ensures ValidateYoutubeUrl(b + "/") == ValidateYoutubeUrl(b)
  {
    NoSlashId(b);
    OneSlashBlankLast(b, "");
    assert b + "/" + "" == b + "/";
  }

  /** For `.../watch?v=ID` the id is exactly `ID`, whatever follows it (query parameters included). */
  lemma WatchUrlGivesId(a: string, id: string)
    requires '/' !in id
    requires id == [] || !IsSpace(id[|id| - 1])
    ensures ValidateYoutubeUrl(a + "/" + (WatchParam + id)) == Success(Resolution(id, YoutubeContent))
  {
    var seg := WatchParam + id;
    WatchPieceFacts(id);
    LastPieceIsTail(a, seg);
    DropWatchOnPrefixed(id);
  }

  lemma WatchPieceFacts(id: string)
    requires '/' !in id
    requires id == [] || !IsSpace(id[|id| - 1])
    ensures '/' !in WatchParam + id
    ensures Strip(WatchParam + id) == WatchParam + id
  {
    var seg := WatchParam + id;
    assert forall i :: 0 <= i < |WatchParam| ==> seg[i] == WatchParam[i];
    assert seg[0] == 'w';
    assert seg[|seg| - 1] == if id == [] then '=' else id[|id| - 1];
  }

  lemma DropWatchOnPrefixed(id: string)
    ensures DropWatchParam(WatchParam + id) == id
  {
    var seg := WatchParam + id;
    assert StartsWith(seg, WatchParam) by {
      assert seg[..|WatchParam|] == WatchParam;
    }
    assert (WatchParam + DropWatchParam(seg))[|WatchParam|..] == DropWatchParam(seg);
  }

  /** A clean last piece that does not mention `watch?v=` is the id unchanged. */
  lemma PlainLastPieceIsId(a: string, b: string)
    requires '/' !in b && b != []
    requires !IsSpace(b[0]) && !IsSpace(b[|b| - 1])
    requires !Contains(b, WatchParam)
    ensures ValidateYoutubeUrl(a + "/" + b) == Success(Resolution(b, YoutubeContent))
  {
    LastPieceIsTail(a, b);
  }

  lemma CanonicalWatchUrlExample(url: string)
    requires url == "https://www.youtube.com/watch?v=-zF1mkBpyf4"
    ensures ValidateYoutubeUrl(url) == Success(Resolution("-zF1mkBpyf4", YoutubeContent))
  {
    assert url == "https://www.youtube.com" + "/" + (WatchParam + "-zF1mkBpyf4");
    WatchUrlGivesId("https://www.youtube.com", "-zF1mkBpyf4");
  }

  /**
    The `&...` parameters after the id are kept in it, so the same video with extra
    parameters (a start time, say) resolves to a different id.
   */
  lemma QueryParametersKept(a: string, id: string, params: string)
    requires '/' !in id && '/' !in params && params != []
    requires id == [] || !IsSpace(id[|id| - 1])
    requires !IsSpace(params[|params| - 1])
    ensures ValidateYoutubeUrl(a + "/" + (WatchParam + (id + params))) == Success(Resolution(id + params, YoutubeContent))
    ensures ValidateYoutubeUrl(a + "/" + (WatchParam + (id + params))) != ValidateYoutubeUrl(a + "/" + (WatchParam + id))
  {
    var full := id + params;
    assert full[|full| - 1] == params[|params| - 1];
    WatchUrlGivesId(a, full);
    WatchUrlGivesId(a, id);
    assert |full| != |id|;
  }

  /** A share link resolves to its last piece. */
  lemma ShortLinkExample(url: string)
    requires url == "https://youtu.be/abc123"
    ensures ValidateYoutubeUrl(url) == Success(Resolution("abc123", YoutubeContent))
  {
    ShortIdFacts("abc123");
    assert url == "https://youtu.be" + "/" + "abc123";
    PlainLastPieceIsId("https://youtu.be", "abc123");
  }

  /** ... and to the same id with a trailing slash. */
  lemma ShortLinkTrailingSlashExample(url: string, host: string, id: string)
    requires host == "https://youtu.be" && id == "abc123" && url == host + "/" + id + "/"
    ensures ValidateYoutubeUrl(url) == Success(Resolution(id, YoutubeContent))
  {
    ShortIdFacts(id);
    TrailingSlashSameId(host, id);
    PlainLastPieceIsId(host, id);
  }

  lemma ShortIdFacts(b: string)
    requires b == "abc123"
    ensures '/' !in b && b != [] && !IsSpace(b[0]) && !IsSpace(b[|b| - 1])
    ensures !AllSpace(b) && !Contains(b, WatchParam)
  {
    assert forall i :: 0 <= i <= |b| ==> !OccursAt(b, WatchParam, i);
    assert !IsSpace(b[0]);
  }

  /**
    When `watch?v=` occurs anywhere in a clean last piece, the id is that piece without its
    first eight characters, whatever they are.
   */
  lemma WatchParamAnywhereDropsEight(a: string, b: string)
    requires '/' !in b && b != []
    requires !IsSpace(b[0]) && !IsSpace(b[|b| - 1])
    requires Contains(b, WatchParam)
    ensures |b| >= |WatchParam|
    ensures ValidateYoutubeUrl(a + "/" + b) == Success(Resolution(b[|WatchParam|..], YoutubeContent))
  {
    LastPieceIsTail(a, b);
  }

  /** With `watch?v=` not at the start of the piece, the id here comes out as "=abc", not "abc". */
  lemma WatchParamNotAtStartExample(url: string)
    requires url == "https://youtu.be/xwatch?v=abc"
    ensures ValidateYoutubeUrl(url) == Success(Resolution("=abc", YoutubeContent))
  {
    var head, id := "xwatch?v", "=abc";
    var b := head + id;
    assert url == "https://youtu.be" + "/" + b;
    assert b[1..9] == WatchParam;
    assert OccursAt(b, WatchParam, 1);
    WatchParamAnywhereDropsEight("https://youtu.be", b);
    assert b[|head|..] == id;
  }

  lemma UnsupportedHostExample(url: string)
    requires url == "https://example.com/video"
    ensures ValidateUrl(url) == None
  {
    assert 'y' !in url;
    ContainsCharIff(url, 'y');
    FirstCharOfOccurrence(url, HostMarker);
  }

  lemma WatchUrlValidatesExample(url: string)
    requires url == "https://www.youtube.com/watch?v=-zF1mkBpyf4"
    ensures ValidateUrl(url) == Some(Resolution("-zF1mkBpyf4", YoutubeContent))
  {
    assert url == "https://www." + HostMarker + "be.com/watch?v=-zF1mkBpyf4";
    assert OccursAt(url, HostMarker, 12);
    CanonicalWatchUrlExample(url);
  }

  /** Any occurrence of a pattern carries its first character into the string. */
  lemma FirstCharOfOccurrence(s: string, pat: string)
    requires |pat| > 0
    ensures Contains(s, pat) ==> Contains(s, [pat[0]])
  {
    if Contains(s, pat) {
      var i :| 0 <= i <= |s| && OccursAt(s, pat, i);
      assert s[i..i + 1] == [pat[0]];
      assert OccursAt(s, [pat[0]], i);
    }
  }

  // ---------------------------------------------------------------- properties of transcript fetching

  /** `langs[k]` is the first preferred code that some listed track has. */
  ghost predicate FirstPresent(tracks: seq<Track>, langs: seq<string>, k: int) {
    && 0 <= k < |langs|
    && HasCode(tracks, langs[k])
    && forall j :: 0 <= j < k ==> !HasCode(tracks, langs[j])
  }

  /** The result is what the first present preferred code's track gives; earlier codes are skipped. */
  lemma {:induction false} SelectsFirstPresent(tracks: seq<Track>, langs: seq<string>, k: nat)
    requires FirstPresent(tracks, langs, k)
    ensures TryLanguages(tracks, langs) == TrackText(FindTranscript(tracks, langs[k]).value)
    decreases k
  {
    if k > 0 {
      assert !HasCode(tracks, langs[0]);
      var rest := langs[1..];
      assert FirstPresent(tracks, rest, k - 1) by {
        forall j | 0 <= j < k - 1 ensures !HasCode(tracks, rest[j]) {
          assert rest[j] == langs[j + 1];
        }
      }
      SelectsFirstPresent(tracks, rest, k - 1);
    }
  }

  /** Codes after the first present one are never consulted: replacing them changes nothing. */
  lemma LaterLanguagesIgnored(tracks: seq<Track>, langs: seq<string>, k: nat, others: seq<string>)
    requires FirstPresent(tracks, langs, k)
    ensures TryLanguages(tracks, langs) == TryLanguages(tracks, langs[..k + 1] + others)
  {
    var alt := langs[..k + 1] + others;
    assert FirstPresent(tracks, alt, k) by {
      assert forall j :: 0 <= j <= k ==> alt[j] == langs[j];
    }
    SelectsFirstPresent(tracks, langs, k);
    SelectsFirstPresent(tracks, alt, k);
  }

  /** The first preferred code any track has, if there is one. */
  function FirstPresentIndex(tracks: seq<Track>, langs: seq<string>): (r: Option<nat>)
    ensures r.Some? ==> FirstPresent(tracks, langs, r.value)
    ensures r.None? ==> forall k :: 0 <= k < |langs| ==> !HasCode(tracks, langs[k])
    decreases |langs|
  {
    if langs == [] then None
    else if HasCode(tracks, langs[0]) then Some(0)
    else
      match FirstPresentIndex(tracks, langs[1..])
      case None => None
      case Some(k) =>
        assert forall j :: 0 <= j < k + 1 ==> (j == 0 || langs[j] == langs[1..][j - 1]);
        Some(k + 1)
  }

  /**
    The three ways to get `None`, which the return value does not tell apart: the listing
    failed (captions disabled or any other error), no preferred code is listed, or the
    first listed preferred track fails to fetch.
   */
  lemma NoTranscriptCases(listing: Listing, langs: seq<string>)
    ensures GetYoutubeTranscript(listing, langs).None? <==>
      || !listing.Listed?
      || (forall k :: 0 <= k < |langs| ==> !HasCode(listing.tracks, langs[k]))
      || (exists k :: FirstPresent(listing.tracks, langs, k) && FindTranscript(listing.tracks, langs[k]).value.fetch.FetchFailed?)
  {
    if listing.Listed? {
      var tracks := listing.tracks;
      match FirstPresentIndex(tracks, langs)
      case None =>
      case Some(k) =>
        SelectsFirstPresent(tracks, langs, k);
        forall k' | FirstPresent(tracks, langs, k') ensures k' == k {
          FirstPresentUnique(tracks, langs, k, k');
        }
    }
  }

  lemma FirstPresentUnique(tracks: seq<Track>, langs: seq<string>, k1: int, k2: int)
    requires FirstPresent(tracks, langs, k1) && FirstPresent(tracks, langs, k2)
    ensures k1 == k2
  {
  }

  /** With the fixed order, a German track wins over every other language, English included. */
  lemma GermanPreferred(tracks: seq<Track>)
    requires HasCode(tracks, "de")
    ensures GetYoutubeTranscript(Listed(tracks), LanguagesToTry) == TrackText(FindTranscript(tracks, "de").value)
  {
    assert FirstPresent(tracks, LanguagesToTry, 0);
    SelectsFirstPresent(tracks, LanguagesToTry, 0);
  }

  /** Captions only in languages outside the list (Italian, say) give the "no content" `None`. */
  lemma UnsupportedLanguagesOnly(tracks: seq<Track>)
    requires forall i :: 0 <= i < |tracks| ==> tracks[i].code !in LanguagesToTry
    ensures GetYoutubeTranscript(Listed(tracks), LanguagesToTry) == None
  {
    forall k | 0 <= k < |LanguagesToTry| ensures !HasCode(tracks, LanguagesToTry[k]) {
      assert LanguagesToTry[k] in LanguagesToTry;
    }
  }

  // ---------------------------------------------------------------- properties of the prompt

  /** The transcript can be read back from the prompt: nothing is truncated or altered. */
  lemma PromptRoundTrip(transcript: string)
    ensures TranscriptOfPrompt(GeneratePrompt(transcript)) == Some(transcript)
  {
    var p := GeneratePrompt(transcript);
    assert p[|SummarizeInstruction| + 1..] == transcript;
  }

  /** Different transcripts give different prompts. */
  lemma PromptInjective(t1: string, t2: string)
    requires GeneratePrompt(t1) == GeneratePrompt(t2)
    ensures t1 == t2
  {
    PromptRoundTrip(t1);
    PromptRoundTrip(t2);
  }
}
