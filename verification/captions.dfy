/**
  The caption service as plain data. `list_transcripts(video_id)` either raises
  (captions disabled by the uploader, or any other service failure) or lists the
  video's tracks in order; each listed track carries what `fetch()` would give for it.
 */
module Captions {
  import opened Wrappers
  import PyStr

  /** What `fetch()` on one track gives: its segment texts in time order, or a failure. */
  datatype FetchResult = Fetched(texts: seq<string>) | FetchFailed

  /** One listed caption track: its language code and the outcome of fetching it. */
  datatype Track = Track(code: string, fetch: FetchResult)

  /** What `list_transcripts(video_id)` gives. */
  datatype Listing =
    | TranscriptsDisabled
    | ListingFailed(message: string)
    | Listed(tracks: seq<Track>)

  /** The caption service, keyed by video id. */
  type CaptionService = string -> Listing

  predicate HasCode(tracks: seq<Track>, code: string) {
    exists i :: 0 <= i < |tracks| && tracks[i].code == code
  }

  /** The language codes of the listed tracks, in listing order. */
  function Codes(tracks: seq<Track>): (r: seq<string>)
    ensures |r| == |tracks|
    ensures forall i :: 0 <= i < |tracks| ==> r[i] == tracks[i].code
  {
    seq(|tracks|, i requires 0 <= i < |tracks| => tracks[i].code)
  }

  /**
    `transcript_list.find_transcript([code])`: the first listed track whose code is
    exactly `code`, or `None` where the library raises `NoTranscriptFound`.
   */
  function FindTranscript(tracks: seq<Track>, code: string): (r: Option<Track>)
    ensures r.Some? <==> HasCode(tracks, code)
    ensures r.Some? ==> r.value.code == code && r.value in tracks
    ensures r.Some? ==> r.value == tracks[FirstIndexOf(tracks, code)]
    decreases |tracks|
  {
    if tracks == [] then None
    else if tracks[0].code == code then Some(tracks[0])
    else
      var r := FindTranscript(tracks[1..], code);
      assert HasCode(tracks, code) ==> HasCode(tracks[1..], code) by {
        if HasCode(tracks, code) {
          var i :| 0 <= i < |tracks| && tracks[i].code == code;
          assert tracks[1..][i - 1].code == code;
        }
      }
      r
  }

  /** Index of the first track with `code`, a reference for which track the lookup picks. */
  function FirstIndexOf(tracks: seq<Track>, code: string): (k: nat)
    requires HasCode(tracks, code)
    ensures k < |tracks| && tracks[k].code == code
    ensures forall j :: 0 <= j < k ==> tracks[j].code != code
    decreases |tracks|
  {
    if tracks[0].code == code then 0
    else
      assert HasCode(tracks[1..], code) by {
        var i :| 0 <= i < |tracks| && tracks[i].code == code;
        assert tracks[1..][i - 1].code == code;
      }
      1 + FirstIndexOf(tracks[1..], code)
  }

  /** `' '.join([entry['text'] for entry in transcript_data])`: segment texts joined by single spaces. */
  function JoinTexts(texts: seq<string>): string
  {
    PyStr.Join(texts, " ")
  }

  /** The joined text is as long as all segment texts plus one space between each adjacent pair. */
  lemma JoinedTextLength(texts: seq<string>)
    requires |texts| > 0
    ensures |JoinTexts(texts)| == PyStr.TotalLength(texts) + |texts| - 1
  {
    PyStr.JoinLength(texts, " ");
  }

  /** Every segment text appears unaltered, in order, with exactly one space before the next one. */
  lemma JoinedTextKeepsSegments(texts: seq<string>, k: nat)
    requires k < |texts|
    ensures var o := PyStr.PieceOffset(texts, " ", k);
      && o + |texts[k]| <= |JoinTexts(texts)|
      && JoinTexts(texts)[o..o + |texts[k]|] == texts[k]
      && (k + 1 < |texts| ==> o + |texts[k]| < |JoinTexts(texts)| && JoinTexts(texts)[o + |texts[k]|] == ' ')
  {
    PyStr.JoinPiece(texts, " ", k);
    var o := PyStr.PieceOffset(texts, " ", k);
    if k + 1 < |texts| {
      var j := JoinTexts(texts);
      assert j[o + |texts[k]|..PyStr.PieceOffset(texts, " ", k + 1)] == " ";
    }
  }
}
