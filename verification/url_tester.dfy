/**
  The decision part of `test_single_url` in `test_youtube_url.py`: which listed tracks the
  app is taken to support, and how the report's transcript and compatibility flags are set.
  The HTTP accessibility probe, printing, timing and recommendation texts are not modelled.
 */
module UrlTester {
  import opened Wrappers
  import opened PyStr
  import opened Captions
  import UtilityFixed

  /** The languages the tester takes the app to support. */
  const AppSupported: seq<string> := ["en", "de", "fr", "es"]

  /** A track counts when its code, or the code's part before the first '-', is supported. */
  predicate IsAppSupported(code: string) {
    code in AppSupported || BaseLanguage(code) in AppSupported
  }

  /** The part of a language code before its first '-'. */
  function BaseLanguage(code: string): (r: string)
    ensures |r| <= |code| && r == code[..|r|]
    ensures |r| == |code| || code[|r|] == '-'
    ensures forall j :: 0 <= j < |r| ==> code[j] != '-'
  {
    if code == [] || code[0] == '-' then []
    else [code[0]] + BaseLanguage(code[1..])
  }

  /** `BaseLanguage` is the first piece of `lang_code.split('-')`. */
  lemma BaseLanguageIsFirstPiece(code: string)
    ensures BaseLanguage(code) == Split(code, "-")[0]
  {
    var r := BaseLanguage(code);
    var f := Split(code, "-")[0];
    forall j | 0 <= j < |r| ensures !OccursAt(code, "-", j) {
      assert code[j..j + 1] == [code[j]];
    }
    if |r| < |code| {
      assert OccursAt(code, "-", |r|) by {
        assert code[|r|..|r| + 1] == [code[|r|]];
      }
      assert Contains(code, "-");
    } else {
      assert !Contains(code, "-");
    }
  }

  /** `code` is the base language itself or the base followed by '-' and a region. */
  ghost predicate HasBase(code: string, base: string) {
    code == base || StartsWith(code, base + "-")
  }

  /** The rule admits exactly the supported languages and their regional variants (`en-US`). */
  lemma SupportedIffBaseOrRegion(code: string)
    ensures IsAppSupported(code) <==> exists b :: b in AppSupported && HasBase(code, b)
  {
    var f := BaseLanguage(code);
    assert |f| == |code| ==> f == code;
    if code !in AppSupported && f in AppSupported {
      assert |f| < |code|;
      assert code[..|f| + 1] == f + "-" by {
        assert code[..|f|] == f;
        assert code[|f|..|f| + 1] == "-";
      }
      assert HasBase(code, f);
    }
    forall b | b in AppSupported && HasBase(code, b) ensures IsAppSupported(code) {
      if code != b {
        BaseBeforeDash(code, b);
      }
    }
  }

  /** A code `base-...` whose base has no '-' has `base` as its base language. */
  lemma BaseBeforeDash(code: string, base: string)
    requires base in AppSupported
    requires StartsWith(code, base + "-")
    ensures BaseLanguage(code) == base
  {
    assert '-' !in base;
    var n := |base|;
    assert code[..n + 1] == base + "-";
    assert code[n] == '-' by {
      assert code[n] == code[..n + 1][n];
    }
    forall j | 0 <= j < n ensures code[j] == base[j] {
      assert code[j] == code[..n + 1][j];
    }
    var r := BaseLanguage(code);
    assert |r| == n;
    assert code[..n] == base;
  }

  lemma SupportedExamples(region: string, other: string)
    requires region == "en-US" && other == "pt"
    ensures IsAppSupported(region)
    ensures !IsAppSupported(other)
  {
    SupportedIffBaseOrRegion(region);
    assert HasBase(region, "en") by {
      assert region[..3] == "en-";
    }
    SupportedIffBaseOrRegion(other);
    forall b | b in AppSupported ensures !HasBase(other, b) {
      assert |b + "-"| == 3 > |other|;
    }
  }

  /** The loop over listed tracks: the supported codes, in listing order. */
  function SupportedLanguages(codes: seq<string>): (r: seq<string>)
    ensures |r| <= |codes|
    ensures forall c :: c in r ==> c in codes && IsAppSupported(c)
    ensures forall c :: multiset(r)[c] == if IsAppSupported(c) then multiset(codes)[c] else 0
  {
    if codes == [] then []
    else
      var head := if IsAppSupported(codes[0]) then [codes[0]] else [];
      var r := head + SupportedLanguages(codes[1..]);
      assert codes == [codes[0]] + codes[1..];
      assert multiset(codes) == multiset([codes[0]]) + multiset(codes[1..]);
      r
  }

  /** `a` is `b` with some elements left out, the rest in their original order. */
  ghost predicate IsSubsequence<T>(a: seq<T>, b: seq<T>)
    decreases |b|
  {
    if a == [] then true
    else if b == [] then false
    else if a[0] == b[0] then IsSubsequence(a[1..], b[1..])
    else IsSubsequence(a, b[1..])
  }

  /** The supported codes keep the order in which the tracks were listed. */
  lemma {:induction false} SupportedIsSubsequence(codes: seq<string>)
    ensures IsSubsequence(SupportedLanguages(codes), codes)
    decreases |codes|
  {
    if codes != [] {
      SupportedIsSubsequence(codes[1..]);
      var r := SupportedLanguages(codes);
      var rest := SupportedLanguages(codes[1..]);
      if IsAppSupported(codes[0]) {
        assert r == [codes[0]] + rest;
        SubsequenceTake(r, codes);
      } else {
        assert r == rest;
        SubsequenceSkip(r, codes);
      }
    }
  }

  lemma SubsequenceTake<T>(a: seq<T>, b: seq<T>)
    requires a != [] && b != [] && a[0] == b[0] && IsSubsequence(a[1..], b[1..])
    ensures IsSubsequence(a, b)
  {
  }

  lemma SubsequenceSkip<T>(a: seq<T>, b: seq<T>)
    requires b != [] && IsSubsequence(a, b[1..])
    requires a != [] ==> a[0] != b[0]
    ensures IsSubsequence(a, b)
  {
  }

  /** The transcript flags of the report after step 3. */
  datatype TranscriptCheck = TranscriptCheck(available: bool, count: nat, supported: seq<string>, compatible: bool)

  /** The report's initial values, kept when the listing raises. */
  const NothingFound := TranscriptCheck(false, 0, [], false)

  /** Step 3: count the listed tracks and collect the supported ones. */
  function CheckTranscripts(listing: Listing): (r: TranscriptCheck)
    ensures !listing.Listed? ==> r == NothingFound
    ensures listing.Listed? ==> r.count == |listing.tracks| && (r.available <==> r.count > 0)
    ensures listing.Listed? ==> r.supported == SupportedLanguages(Codes(listing.tracks))
    ensures r.compatible <==> |r.supported| > 0
    ensures r.compatible ==> r.available
  {
    match listing
    case Listed(tracks) =>
      if |tracks| > 0 then
        var supported := SupportedLanguages(Codes(tracks));
        TranscriptCheck(true, |tracks|, supported, |supported| > 0)
      else
        TranscriptCheck(false, 0, [], false)
    case _ => NothingFound
  }

  /** What `utility.get_content` did in step 4: returned a value, or raised. */
  datatype Integration = Returned(content: Option<string>) | Raised

  /** Step 4 succeeds only when the call returns a non-empty (truthy) string. */
  predicate IntegrationSucceeded(integration: Integration) {
    integration.Returned? && integration.content.Some? && integration.content.value != ""
  }

  /** The modelled fields of the report `test_single_url` returns. */
  datatype UrlReport = UrlReport(
    videoId: Option<string>,
    contentType: Option<string>,
    transcriptsAvailable: bool,
    transcriptCount: nat,
    supportedLanguages: seq<string>,
    appCompatible: bool)

  /**
    `test_single_url` with the services as data: `listing` is what step 3's
    `list_transcripts` gave and `integration` what step 4's `get_content` did.
    A URL without an id ends the test after step 2 with the initial values.
   */
  function TestSingleUrl(url: string, listing: Listing, integration: Integration): (r: UrlReport)
    ensures r.videoId.Some? <==> UtilityFixed.ValidateUrl(url).Some? && UtilityFixed.ValidateUrl(url).value.videoId != ""
    ensures r.videoId.None? ==> !r.transcriptsAvailable && r.transcriptCount == 0 && r.supportedLanguages == [] && !r.appCompatible
    ensures r.videoId.Some? ==> r.transcriptCount == (if listing.Listed? then |listing.tracks| else 0)
    ensures r.transcriptsAvailable <==> r.transcriptCount > 0
    ensures r.appCompatible ==> CheckTranscripts(listing).compatible && |r.supportedLanguages| > 0
    ensures r.appCompatible <==> r.videoId.Some? && CheckTranscripts(listing).compatible && IntegrationSucceeded(integration)
    ensures r.videoId.Some? ==>
      r.videoId.value == UtilityFixed.ValidateUrl(url).value.videoId && r.contentType == Some(UtilityFixed.YoutubeContent)
    ensures r.videoId.Some? ==> r.supportedLanguages == CheckTranscripts(listing).supported
    ensures r.videoId.None? ==> r.contentType.None?
  {
    match UtilityFixed.ValidateUrl(url)
    case None =>
      UrlReport(None, None, false, 0, [], false)
    case Some(info) =>
      if info.videoId == "" then
        UrlReport(None, None, false, 0, [], false)
      else
        var check := CheckTranscripts(listing);
        var compatible := check.compatible && IntegrationSucceeded(integration);
        UrlReport(Some(info.videoId), Some(info.contentType), check.available, check.count, check.supported, compatible)
  }

  /**
    Compatibility is necessary for the fetcher to succeed: whenever it returns a transcript,
    the step-3 compatibility flag is set.
   */
  lemma FetchedImpliesCompatible(tracks: seq<Track>)
    ensures UtilityFixed.GetYoutubeTranscript(Listed(tracks), UtilityFixed.LanguagesToTry).Some? ==>
      CheckTranscripts(Listed(tracks)).compatible
  {
    if UtilityFixed.GetYoutubeTranscript(Listed(tracks), UtilityFixed.LanguagesToTry).Some? {
      var t :| t in tracks && t.code in UtilityFixed.LanguagesToTry && t.fetch.Fetched?;
      var i :| 0 <= i < |tracks| && tracks[i] == t;
      var codes := Codes(tracks);
      assert codes[i] == t.code;
      assert t.code in AppSupported;
      assert multiset(codes)[t.code] > 0;
      assert multiset(SupportedLanguages(codes))[t.code] > 0;
    }
  }

  /**
    ... but not sufficient: a region code such as `en-US` sets the step-3 compatibility flag, while
    the fetcher asks only for the exact codes and returns nothing.
   */
  lemma RegionCodeOnlyExample(tracks: seq<Track>)
    requires tracks == [Track("en-US", Fetched(["hello"]))]
    ensures CheckTranscripts(Listed(tracks)).compatible
    ensures UtilityFixed.GetYoutubeTranscript(Listed(tracks), UtilityFixed.LanguagesToTry) == None
  {
    SupportedExamples("en-US", "pt");
    var codes := Codes(tracks);
    assert codes == ["en-US"];
    assert multiset(codes)["en-US"] == 1;
    assert multiset(SupportedLanguages(codes))["en-US"] == 1;
    UtilityFixed.UnsupportedLanguagesOnly(tracks);
  }

  /**
    End to end, with step 4 calling the fixed fetcher on the same caption service that step 3
    listed: the report's final verdict is compatible exactly when the fetcher returns a
    non-empty transcript. The step-3 flag then adds nothing.
   */
  lemma EndToEndCompatibility(url: string, id: string, service: CaptionService)
    requires UtilityFixed.ValidateUrl(url) == Some(UtilityFixed.Resolution(id, UtilityFixed.YoutubeContent)) && id != ""
    ensures var content := UtilityFixed.GetContent(id, UtilityFixed.YoutubeContent, service);
      TestSingleUrl(url, service(id), Returned(content)).appCompatible <==> content.Some? && content.value != ""
  {
    if service(id).Listed? {
      FetchedImpliesCompatible(service(id).tracks);
    }
  }

  /** The `en-US`-only video passes step 3 but ends NOT COMPATIBLE: step 4's fetch gives `None`. */
  lemma RegionCodeOnlyFinalVerdict(url: string, id: string, service: CaptionService)
    requires UtilityFixed.ValidateUrl(url) == Some(UtilityFixed.Resolution(id, UtilityFixed.YoutubeContent)) && id != ""
    requires service(id) == Listed([Track("en-US", Fetched(["hello"]))])
    ensures CheckTranscripts(service(id)).compatible
    ensures !TestSingleUrl(url, service(id), Returned(UtilityFixed.GetContent(id, UtilityFixed.YoutubeContent, service))).appCompatible
  {
    RegionCodeOnlyExample(service(id).tracks);
  }
}
