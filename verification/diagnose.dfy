/**
  The URL-to-id normalisation at the start of `main` in `diagnose_transcript.py`, lifted
  into a pure function. It is a second extractor, different from `validate_youtube_url`:
  it cuts around markers instead of taking the last path piece.
 */
module Diagnose {
  import opened PyStr

  const WatchMarker := "watch?v="
  const ShortLinkMarker := "youtu.be/"

  /** The guard: the argument mentions either YouTube host. */
  predicate LooksLikeYoutubeUrl(arg: string) {
    Contains(arg, "youtube.com") || Contains(arg, "youtu.be")
  }

  /** `s.split(sep)[0]`: everything before the leftmost `sep`, or all of `s`. */
  function FirstField(s: string, sep: string): (r: string)
    requires |sep| > 0
    ensures |r| <= |s| && r == s[..|r|]
    ensures forall j :: 0 <= j < |r| ==> !OccursAt(s, sep, j)
    ensures |r| == |s| || OccursAt(s, sep, |r|)
  {
    var parts := Split(s, sep);
    assert !Contains(s, sep) ==> parts == [parts[0]] && Join(parts, sep) == parts[0];
    parts[0]
  }

  /** `s.split(sep)[1]`: the text between the first and the second `sep`. */
  function SecondField(s: string, sep: string): (r: string)
    requires |sep| > 0 && Contains(s, sep)
    ensures r == FirstField(s[IndexOf(s, sep).value + |sep|..], sep)
  {
    var i := IndexOf(s, sep).value;
    SplitAtFirst(s, sep, i);
    Split(s, sep)[1]
  }

  /**
    `r` is the longest prefix of `rest` that stops before the first `stop` character and
    before the next occurrence of `marker`.
   */
  ghost predicate CutBefore(rest: string, r: string, stop: char, marker: string) {
    && StartsWith(rest, r)
    && stop !in r
    && (forall j :: 0 <= j < |r| ==> !OccursAt(rest, marker, j))
    && (|r| == |rest| || rest[|r|] == stop || OccursAt(rest, marker, |r|))
  }

  /**
    Lines 64-69 of `main`: a YouTube URL with `watch?v=` gives the text after its first
    occurrence up to the next `&` (or the next `watch?v=`); otherwise one with `youtu.be/`
    gives the text after it up to the next `?` (or the next `youtu.be/`); anything else is
    passed through unchanged.
   */
  function NormalizeVideoArgument(arg: string): (r: string)
    ensures !LooksLikeYoutubeUrl(arg) ==> r == arg
    ensures LooksLikeYoutubeUrl(arg) && !Contains(arg, WatchMarker) && !Contains(arg, ShortLinkMarker) ==> r == arg
    ensures LooksLikeYoutubeUrl(arg) && Contains(arg, WatchMarker) ==>
      CutBefore(arg[IndexOf(arg, WatchMarker).value + |WatchMarker|..], r, '&', WatchMarker)
    ensures LooksLikeYoutubeUrl(arg) && !Contains(arg, WatchMarker) && Contains(arg, ShortLinkMarker) ==>
      CutBefore(arg[IndexOf(arg, ShortLinkMarker).value + |ShortLinkMarker|..], r, '?', ShortLinkMarker)
  {
    if LooksLikeYoutubeUrl(arg) then
      if Contains(arg, WatchMarker) then
        var rest := arg[IndexOf(arg, WatchMarker).value + |WatchMarker|..];
        FieldCut(rest, WatchMarker, '&');
        FirstField(SecondField(arg, WatchMarker), "&")
      else if Contains(arg, ShortLinkMarker) then
        var rest := arg[IndexOf(arg, ShortLinkMarker).value + |ShortLinkMarker|..];
        FieldCut(rest, ShortLinkMarker, '?');
        FirstField(SecondField(arg, ShortLinkMarker), "?")
      else
        arg
    else
      arg
  }

  /** Cutting at the next marker and then at the first `stop` is one cut at whichever comes first. */
  lemma FieldCut(rest: string, marker: string, stop: char)
    requires |marker| > 0
    ensures CutBefore(rest, FirstField(FirstField(rest, marker), [stop]), stop, marker)
  {
    var f := FirstField(rest, marker);
    var r := FirstField(f, [stop]);
    assert rest[..|r|] == r by {
      assert f[..|r|] == r;
      assert rest[..|f|] == f;
    }
    forall j | 0 <= j < |r| ensures r[j] != stop {
      assert !OccursAt(f, [stop], j);
      assert f[j..j + 1] == [f[j]];
    }
    if |r| < |f| {
      assert OccursAt(f, [stop], |r|);
      assert f[|r|..|r| + 1] == [f[|r|]];
      assert rest[|r|] == f[|r|];
    }
  }
}
