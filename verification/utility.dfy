/**
  `utility.py`: the older copy of the pipeline. Its id extraction is the same algorithm as
  `utility_fixed.py`; its fetcher tries German and, from inside the exception handler,
  English, and lets the handler's own exceptions escape.
 */
module Utility {
  import opened Wrappers
  import opened Exceptions
  import opened PyStr
  import opened Captions
  import UtilityFixed

  const LegacyInstruction := "Summarize the following video:\n"

  /** `get_video_id_from_url`, written out as in the source. */
  function GetVideoIdFromUrl(url: string): (r: Result<string, PyError>)
    ensures r.Failure? <==> UtilityFixed.ValidateYoutubeUrl(url).Failure?
    ensures r.Success? ==> r.value == UtilityFixed.ValidateYoutubeUrl(url).value.videoId
    ensures r.Failure? ==> r.error == IndexError
  {
    var segs := Split(url, "/");
    var last := Strip(segs[|segs| - 1]);
    if last == [] && |segs| < 2 then
      Failure(IndexError)
    else
      var id := if last != [] then last else Strip(segs[|segs| - 2]);
      Success(if Contains(id, "watch?v=") then id[|"watch?v="|..] else id)
  }

  /**
    One language's path inside `get_transcript`: `find_transcript([code])`, `fetch()`, join.
    Each step may raise; the first exception is what escapes.
   */
  function FetchJoined(tracks: seq<Track>, code: string): (r: Result<string, PyError>)
    ensures r.Success? <==> HasCode(tracks, code) && FindTranscript(tracks, code).value.fetch.Fetched?
    ensures r.Success? ==> r.value == JoinTexts(FindTranscript(tracks, code).value.fetch.texts)
    ensures !HasCode(tracks, code) ==> r == Failure(NoTranscriptFound(code))
  {
    match FindTranscript(tracks, code)
    case None => Failure(NoTranscriptFound(code))
    case Some(t) =>
      match t.fetch
      case Fetched(texts) => Success(JoinTexts(texts))
      case FetchFailed => Failure(FetchError)
  }

  /** What `list_transcripts` raises when it fails. */
  function ListingError(listing: Listing): PyError
    requires !listing.Listed?
  {
    match listing
    case TranscriptsDisabled => TranscriptsDisabledError
    case ListingFailed(message) => ServiceError(message)
  }

  /**
    `get_transcript`. The `try` block lists the tracks and takes German. Any exception there
    enters the first `except Exception`, which tries English; what that handler raises
    escapes, and if the listing itself had failed the handler reads the unbound
    `transcript_list`. The second handler, and its `return None`, are never reached, so
    the function returns a string or raises.
   */
  function GetTranscript(listing: Listing): (r: Result<Option<string>, PyError>)
    ensures r != Success(None)
    ensures !listing.Listed? ==> r == Failure(UnboundLocalError("transcript_list"))
    ensures listing.Listed? && FetchJoined(listing.tracks, "de").Success? ==>
      r == Success(Some(FetchJoined(listing.tracks, "de").value))
    ensures listing.Listed? && FetchJoined(listing.tracks, "de").Failure? && FetchJoined(listing.tracks, "en").Success? ==>
      r == Success(Some(FetchJoined(listing.tracks, "en").value))
    ensures listing.Listed? && !HasCode(listing.tracks, "de") && !HasCode(listing.tracks, "en") ==>
      r == Failure(NoTranscriptFound("en"))
    ensures listing.Listed? && FetchJoined(listing.tracks, "de").Failure? && FetchJoined(listing.tracks, "en").Failure? ==>
      r == Failure(FetchJoined(listing.tracks, "en").error)
  {
    var attempt: Result<string, PyError> :=
      match listing
      case Listed(tracks) => FetchJoined(tracks, "de")
      case _ => Failure(ListingError(listing));
    match attempt
    case Success(text) => Success(Some(text))
    case Failure(_) =>
      if listing.Listed? then
        var english := FetchJoined(listing.tracks, "en");
        if english.Success? then Success(Some(english.value)) else Failure(english.error)
      else
        Failure(UnboundLocalError("transcript_list"))
  }

  /** `generate_prompt_from_transcript`: the same prompt as `utility_fixed.py` builds. */
  function GeneratePrompt(transcript: string): (r: string)
    ensures r == UtilityFixed.GeneratePrompt(transcript)
  {
    LegacyInstruction + " " + transcript
  }

  /** Where a German track fetches, the old and the fixed fetcher return the same text. */
  lemma AgreesWithFixedOnGerman(tracks: seq<Track>)
    requires FetchJoined(tracks, "de").Success?
    ensures GetTranscript(Listed(tracks)) == Success(UtilityFixed.GetYoutubeTranscript(Listed(tracks), UtilityFixed.LanguagesToTry))
  {
    UtilityFixed.GermanPreferred(tracks);
  }

  /**
    A video with only French captions: the fixed fetcher returns them, while the old one
    never asks for French and raises `NoTranscriptFound` from its English handler.
   */
  lemma FrenchOnlyExample(tracks: seq<Track>)
    requires tracks == [Track("fr", Fetched(["bonjour"]))]
    ensures GetTranscript(Listed(tracks)) == Failure(NoTranscriptFound("en"))
    ensures UtilityFixed.GetYoutubeTranscript(Listed(tracks), UtilityFixed.LanguagesToTry) == Some("bonjour")
  {
    assert !HasCode(tracks, "de") && !HasCode(tracks, "en");
    assert tracks[0].code == UtilityFixed.LanguagesToTry[1];
    assert UtilityFixed.FirstPresent(tracks, UtilityFixed.LanguagesToTry, 1);
    UtilityFixed.SelectsFirstPresent(tracks, UtilityFixed.LanguagesToTry, 1);
  }
}
