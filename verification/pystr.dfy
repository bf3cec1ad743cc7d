/**
  The few Python `str` operations the pipeline is built from, with Python's meaning:
  `strip()`, the substring test `in`, `startswith`, `find`, `split(sep)` and `sep.join(parts)`.
 */
module PyStr {
  import opened Wrappers

  /** Python's `str.isspace()` for one character: the characters `strip()` removes by default. */
  predicate IsSpace(c: char) {
    || c == ' '
    || ('\t' <= c <= '\r')
    || ('\U{1C}' <= c <= '\U{1F}')
    || c == '\U{85}'
    || c == '\U{A0}'
    || c == '\U{1680}'
    || ('\U{2000}' <= c <= '\U{200A}')
    || c == '\U{2028}'
    || c == '\U{2029}'
    || c == '\U{202F}'
    || c == '\U{205F}'
    || c == '\U{3000}'
  }

  ghost predicate AllSpace(s: string) {
    forall i :: 0 <= i < |s| ==> IsSpace(s[i])
  }

  /** Python's `s.lstrip()`. */
  function StripLeading(s: string): (r: string)
    ensures |r| <= |s| && r == s[|s| - |r|..]
    ensures AllSpace(s[..|s| - |r|])
    ensures r == [] || !IsSpace(r[0])
  {
    if |s| > 0 && IsSpace(s[0]) then
      var r := StripLeading(s[1..]);
      assert s[..|s| - |r|] == [s[0]] + s[1..][..|s| - 1 - |r|];
      r
    else
      s
  }

  /** Python's `s.rstrip()`. */
  function StripTrailing(s: string): (r: string)
    ensures |r| <= |s| && r == s[..|r|]
    ensures AllSpace(s[|r|..])
    ensures r == [] || !IsSpace(r[|r| - 1])
  {
    if |s| > 0 && IsSpace(s[|s| - 1]) then
      var r := StripTrailing(s[..|s| - 1]);
      assert s[|r|..] == s[..|s| - 1][|r|..] + [s[|s| - 1]];
      r
    else
      s
  }

  /** Python's `s.strip()`: leading and trailing whitespace removed, the inside kept. */
  function Strip(s: string): (r: string)
    ensures r == [] <==> AllSpace(s)
    ensures r != [] ==> !IsSpace(r[0]) && !IsSpace(r[|r| - 1])
    ensures s == [] || (!IsSpace(s[0]) && !IsSpace(s[|s| - 1])) ==> r == s
    ensures forall c :: c in r ==> c in s
    ensures exists i :: TrimmedAt(s, r, i)
  {
    var l := StripLeading(s);
    var r := StripTrailing(l);
    StripEmptyIffBlank(s, l, r);
    StripKeepsClean(s, l, r);
    StripEnds(s, l, r);
    SliceKeepsChars(s, l, r);
    StripIsInfix(s, l, r);
    r
  }

  lemma StripEnds(s: string, l: string, r: string)
    requires l == StripLeading(s) && r == StripTrailing(l)
    ensures r != [] ==> !IsSpace(r[0]) && !IsSpace(r[|r| - 1])
  {
    assert r != [] ==> r[0] == l[0];
  }

  /** A slice of a slice of `s` has only characters of `s`. */
  lemma SliceKeepsChars(s: string, l: string, r: string)
    requires |l| <= |s| && l == s[|s| - |l|..]
    requires |r| <= |l| && r == l[..|r|]
    ensures forall c :: c in r ==> c in s
  {
    var k := |s| - |l|;
    forall i | 0 <= i < |r| ensures r[i] in s {
      assert r[i] == l[i] == s[k + i];
    }
  }

  /** `r` is `s` with the whitespace `s[..i]` cut in front and only whitespace cut behind. */
  ghost predicate TrimmedAt(s: string, r: string, i: int) {
    0 <= i && i + |r| <= |s| && r == s[i..i + |r|] && AllSpace(s[..i]) && AllSpace(s[i + |r|..])
  }

  /** What strip keeps is one contiguous run of `s`, with only whitespace cut on either side. */
  lemma StripIsInfix(s: string, l: string, r: string)
    requires l == StripLeading(s) && r == StripTrailing(l)
    ensures exists i :: TrimmedAt(s, r, i)
  {
    var i := |s| - |l|;
    assert s[i..] == l;
    assert r == s[i..i + |r|];
    assert s[i + |r|..] == l[|r|..];
    assert TrimmedAt(s, r, i);
  }

  lemma StripLeadingFacts(s: string)
    ensures |StripLeading(s)| < |s| ==> IsSpace(s[0])
    ensures AllSpace(s) ==> StripLeading(s) == []
  {
    var l := StripLeading(s);
    if |l| < |s| {
      assert s[..|s| - |l|][0] == s[0];
    }
    assert l != [] ==> l[0] == s[|s| - |l|];
  }

  lemma StripTrailingFacts(s: string)
    ensures |StripTrailing(s)| < |s| ==> IsSpace(s[|s| - 1])
  {
    var r := StripTrailing(s);
    if |r| < |s| {
      assert s[|r|..][|s| - |r| - 1] == s[|s| - 1];
    }
  }

  lemma StripEmptyIffBlank(s: string, l: string, r: string)
    requires l == StripLeading(s) && r == StripTrailing(l)
    ensures r == [] <==> AllSpace(s)
  {
    StripLeadingFacts(s);
    if r == [] {
      BlankAfterStrip(s, l);
    }
  }

  lemma BlankAfterStrip(s: string, l: string)
    requires l == StripLeading(s) && StripTrailing(l) == []
    ensures AllSpace(s)
  {
    var k := |s| - |l|;
    assert l == s[k..];
    assert AllSpace(l) by {
      assert l[|StripTrailing(l)|..] == l;
    }
    forall i | 0 <= i < |s| ensures IsSpace(s[i]) {
      if i < k {
        assert s[i] == s[..k][i];
      } else {
        assert s[i] == l[i - k];
      }
    }
  }

  lemma StripKeepsClean(s: string, l: string, r: string)
    requires l == StripLeading(s) && r == StripTrailing(l)
    ensures s == [] || (!IsSpace(s[0]) && !IsSpace(s[|s| - 1])) ==> r == s
  {
    StripLeadingFacts(s);
    StripTrailingFacts(l);
  }

  /** `pat` occurs in `s` starting at index `i`. */
  predicate OccursAt(s: string, pat: string, i: int) {
    0 <= i && i + |pat| <= |s| && s[i..i + |pat|] == pat
  }

  /** Python's substring test `pat in s`. */
  predicate Contains(s: string, pat: string) {
    exists i :: 0 <= i <= |s| && OccursAt(s, pat, i)
  }

  /** Python's `s.startswith(p)`. */
  predicate StartsWith(s: string, p: string) {
    |p| <= |s| && s[..|p|] == p
  }

  /** The first occurrence of `pat` in `s` at or after `k`. */
  function FindFrom(s: string, pat: string, k: nat): (r: Option<nat>)
    ensures r.Some? ==> k <= r.value && OccursAt(s, pat, r.value)
    ensures r.Some? ==> forall j :: k <= j < r.value ==> !OccursAt(s, pat, j)
    ensures r.None? ==> forall j :: k <= j ==> !OccursAt(s, pat, j)
    decreases |s| - k
  {
    if k + |pat| > |s| then None
    else if OccursAt(s, pat, k) then Some(k)
    else FindFrom(s, pat, k + 1)
  }

  /** Python's `s.find(pat)`, with `None` for Python's -1. */
  function IndexOf(s: string, pat: string): (r: Option<nat>)
    ensures r.Some? <==> Contains(s, pat)
    ensures r.Some? ==> OccursAt(s, pat, r.value)
    ensures r.Some? ==> forall j :: 0 <= j < r.value ==> !OccursAt(s, pat, j)
  {
    FindFrom(s, pat, 0)
  }

  /** Python's `sep.join(parts)`. */
  function Join(parts: seq<string>, sep: string): string
  {
    if |parts| == 0 then []
    else if |parts| == 1 then parts[0]
    else parts[0] + sep + Join(parts[1..], sep)
  }

  /** No occurrence of `pat` starts before `i`, so none lies inside `s[..i]`. */
  lemma NoOccurrenceInPrefix(s: string, pat: string, i: nat)
    requires i <= |s|
    requires forall j :: 0 <= j < i ==> !OccursAt(s, pat, j)
    requires |pat| > 0
    ensures !Contains(s[..i], pat)
  {
    if Contains(s[..i], pat) {
      var j :| 0 <= j <= i && OccursAt(s[..i], pat, j);
      assert s[..i][j..j + |pat|] == s[j..j + |pat|];
      assert OccursAt(s, pat, j);
    }
  }

  /**
    Python's `s.split(sep)` for a non-empty separator: the pieces between the leftmost
    non-overlapping occurrences of `sep`, scanning from the left. The contract pins the
    first piece; `SplitAtFirst` gives the rest as the split of what follows the first `sep`.
    For separators that cannot overlap themselves (every one the program uses), the join
    round trip and the separator-free pieces already fix the whole list.
   */
  function Split(s: string, sep: string): (r: seq<string>)
    requires |sep| > 0
    ensures |r| >= 1
    ensures Join(r, sep) == s
    ensures forall k :: 0 <= k < |r| ==> !Contains(r[k], sep)
    ensures |r| == 1 <==> !Contains(s, sep)
    ensures r[0] == s[..|r[0]|]
    ensures Contains(s, sep) ==> OccursAt(s, sep, |r[0]|)
    ensures forall j :: 0 <= j < |r[0]| ==> !OccursAt(s, sep, j)
    decreases |s|
  {
    match IndexOf(s, sep)
    case None =>
      [s]
    case Some(i) =>
      var rest := Split(s[i + |sep|..], sep);
      var r := [s[..i]] + rest;
      NoOccurrenceInPrefix(s, sep, i);
      assert r[1..] == rest;
      assert s == s[..i] + sep + s[i + |sep|..] by {
        assert s[i..i + |sep|] == sep;
      }
      r
  }

  /** A one-character pattern occurs exactly when the character does. */
  lemma ContainsCharIff(s: string, c: char)
    ensures Contains(s, [c]) <==> c in s
  {
    if c in s {
      var i :| 0 <= i < |s| && s[i] == c;
      assert OccursAt(s, [c], i);
    }
    if Contains(s, [c]) {
      var i :| 0 <= i <= |s| && OccursAt(s, [c], i);
      assert s[i] == s[i..i + 1][0];
    }
  }

  /** Without the separator, splitting gives the whole string back as the only piece. */
  lemma SplitWithoutSeparator(s: string, sep: string)
    requires |sep| > 0 && !Contains(s, sep)
    ensures Split(s, sep) == [s]
  {
  }

  /** When the leftmost occurrence of `sep` is at `i`, `IndexOf` finds exactly `i`. */
  lemma IndexOfIs(s: string, pat: string, i: nat)
    requires OccursAt(s, pat, i)
    requires forall j :: 0 <= j < i ==> !OccursAt(s, pat, j)
    ensures IndexOf(s, pat) == Some(i)
  {
    assert Contains(s, pat);
  }

  /**
    Appending one more separator and a separator-free tail appends exactly one more piece:
    `(a + c + b).split(c) == a.split(c) + [b]`.
   */
  lemma {:induction false} SplitAppendPiece(a: string, c: char, b: string)
    requires c !in b
    ensures Split(a + [c] + b, [c]) == Split(a, [c]) + [b]
    decreases |a|
  {
    ContainsCharIff(a, c);
    if c !in a {
      SplitAppendPieceBase(a, c, b);
      SplitWithoutSeparator(a, [c]);
    } else {
      var i := IndexOf(a, [c]).value;
      SplitAppendPiece(a[i + 1..], c, b);
      SplitAppendPieceStep(a, c, b, i);
    }
  }

  /** The inductive step: the leftmost separator of `a` is also the leftmost one of `a + [c] + b`. */
  lemma SplitAppendPieceStep(a: string, c: char, b: string, i: nat)
    requires IndexOf(a, [c]) == Some(i)
    requires Split(a[i + 1..] + [c] + b, [c]) == Split(a[i + 1..], [c]) + [b]
    ensures Split(a + [c] + b, [c]) == Split(a, [c]) + [b]
  {
    LeftmostSeparatorKept(a, c, b, i);
    SliceAroundSeparator(a, c, b, i);
    SplitAtFirst(a + [c] + b, [c], i);
    SplitAtFirst(a, [c], i);
    ConsSnoc(a[..i], Split(a[i + 1..], [c]), b);
  }

  lemma SliceAroundSeparator(a: string, c: char, b: string, i: nat)
    requires i < |a|
    ensures (a + [c] + b)[..i] == a[..i]
    ensures (a + [c] + b)[i + 1..] == a[i + 1..] + [c] + b
  {
    var s := a + [c] + b;
    var t := a[i + 1..];
    var rest := t + [c] + b;
    forall k | 0 <= k < |rest| ensures s[i + 1..][k] == rest[k] {
      if k < |t| {
        assert rest[k] == t[k] == a[i + 1 + k];
      }
    }
  }

  lemma ConsSnoc<T>(x: T, ys: seq<T>, z: T)
    ensures [x] + (ys + [z]) == ([x] + ys) + [z]
  {
  }

  lemma SplitAppendPieceBase(a: string, c: char, b: string)
    requires c !in b && c !in a
    ensures Split(a + [c] + b, [c]) == [a, b]
  {
    var s := a + [c] + b;
    ContainsCharIff(b, c);
    AppendedSeparatorFirst(a, c, b);
    SplitAtFirst(s, [c], |a|);
    assert s[..|a|] == a;
    assert s[|a| + 1..] == b;
    SplitWithoutSeparator(b, [c]);
  }

  /** Splitting at the leftmost separator: the first piece, then the split of the rest. */
  lemma SplitAtFirst(s: string, sep: string, i: nat)
    requires |sep| > 0 && IndexOf(s, sep) == Some(i)
    ensures Split(s, sep) == [s[..i]] + Split(s[i + |sep|..], sep)
  {
  }

  lemma LeftmostSeparatorKept(a: string, c: char, b: string, i: nat)
    requires IndexOf(a, [c]) == Some(i)
    ensures IndexOf(a + [c] + b, [c]) == Some(i)
  {
    var s := a + [c] + b;
    assert OccursAt(s, [c], i) by {
      assert s[i..i + 1] == a[i..i + 1];
    }
    forall j | 0 <= j < i ensures !OccursAt(s, [c], j) {
      assert !OccursAt(a, [c], j);
      assert s[j..j + 1] == a[j..j + 1];
    }
    IndexOfIs(s, [c], i);
  }

  /** When `a` has no separator, the leftmost separator of `a + [c] + b` is the appended one. */
  lemma AppendedSeparatorFirst(a: string, c: char, b: string)
    requires c !in a
    ensures IndexOf(a + [c] + b, [c]) == Some(|a|)
  {
    var s := a + [c] + b;
    assert OccursAt(s, [c], |a|);
    forall j | 0 <= j < |a| ensures !OccursAt(s, [c], j) {
      assert s[j] == a[j];
    }
    IndexOfIs(s, [c], |a|);
  }

  /** Sum of the lengths of the pieces. */
  function TotalLength(parts: seq<string>): nat
  {
    if parts == [] then 0 else |parts[0]| + TotalLength(parts[1..])
  }

  /** The joined string is exactly as long as its pieces plus one separator between each adjacent pair. */
  lemma {:induction false} JoinLength(parts: seq<string>, sep: string)
    requires |parts| > 0
    ensures |Join(parts, sep)| == TotalLength(parts) + (|parts| - 1) * |sep|
    decreases |parts|
  {
    if |parts| > 1 {
      JoinLength(parts[1..], sep);
    }
  }

  /** Where piece `k` starts inside `Join(parts, sep)`. */
  function PieceOffset(parts: seq<string>, sep: string, k: nat): nat
    requires k <= |parts|
  {
    TotalLength(parts[..k]) + k * |sep|
  }

  lemma {:induction false} TotalLengthConcat(a: seq<string>, b: seq<string>)
    ensures TotalLength(a + b) == TotalLength(a) + TotalLength(b)
    decreases |a|
  {
    if a != [] {
      assert (a + b)[0] == a[0];
      assert (a + b)[1..] == a[1..] + b;
      assert TotalLength(a + b) == |a[0]| + TotalLength(a[1..] + b);
      TotalLengthConcat(a[1..], b);
    } else {
      assert a + b == b;
    }
  }

  /** The next piece starts right after this piece and one separator. */
  lemma PieceOffsetStep(parts: seq<string>, sep: string, k: nat)
    requires k < |parts|
    ensures PieceOffset(parts, sep, k + 1) == PieceOffset(parts, sep, k) + |parts[k]| + |sep|
  {
    assert parts[..k + 1] == parts[..k] + [parts[k]];
    TotalLengthConcat(parts[..k], [parts[k]]);
    assert TotalLength([parts[k]]) == |parts[k]| + TotalLength([parts[k]][1..]);
  }

  /**
    Every piece appears verbatim at its offset in the joined string, and between
    adjacent pieces stands exactly one separator.
   */
  lemma {:induction false} JoinPiece(parts: seq<string>, sep: string, k: nat)
    requires k < |parts|
    ensures PieceOffset(parts, sep, k) + |parts[k]| <= |Join(parts, sep)|
    ensures Join(parts, sep)[PieceOffset(parts, sep, k)..PieceOffset(parts, sep, k) + |parts[k]|] == parts[k]
    ensures k + 1 < |parts| ==> PieceOffset(parts, sep, k + 1) == PieceOffset(parts, sep, k) + |parts[k]| + |sep|
    ensures k + 1 < |parts| ==>
      PieceOffset(parts, sep, k + 1) <= |Join(parts, sep)| &&
      Join(parts, sep)[PieceOffset(parts, sep, k) + |parts[k]|..PieceOffset(parts, sep, k + 1)] == sep
    decreases k
  {
    var j := Join(parts, sep);
    if k + 1 < |parts| {
      PieceOffsetStep(parts, sep, k);
    }
    if |parts| == 1 {
      assert parts[..0] == [];
    } else if k == 0 {
      assert parts[..0] == [];
      assert parts[..1][1..] == [];
      assert TotalLength(parts[..1]) == |parts[0]|;
      assert j == parts[0] + sep + Join(parts[1..], sep);
    } else {
      var tail := parts[1..];
      JoinPiece(tail, sep, k - 1);
      assert parts[..k][1..] == tail[..k - 1];
      assert PieceOffset(parts, sep, k) == |parts[0]| + |sep| + PieceOffset(tail, sep, k - 1);
      if k + 1 < |parts| {
        assert parts[..k + 1][1..] == tail[..k];
        assert PieceOffset(parts, sep, k + 1) == |parts[0]| + |sep| + PieceOffset(tail, sep, k);
      }
      var pre := parts[0] + sep;
      assert j == pre + Join(tail, sep);
      var jt := Join(tail, sep);
      var o := PieceOffset(tail, sep, k - 1);
      assert j[|pre| + o..|pre| + o + |tail[k - 1]|] == jt[o..o + |tail[k - 1]|];
      if k + 1 < |parts| {
        var o2 := PieceOffset(tail, sep, k);
        assert j[|pre| + o + |tail[k - 1]|..|pre| + o2] == jt[o + |tail[k - 1]|..o2];
      }
    }
  }

  /**
    For a one-character separator that no piece contains, splitting the joined string
    gives the pieces back: `sep.join(parts).split(sep) == parts`.
   */
  lemma {:induction false} SplitJoinRoundTrip(parts: seq<string>, c: char)
    requires |parts| > 0
    requires forall k :: 0 <= k < |parts| ==> c !in parts[k]
    ensures Split(Join(parts, [c]), [c]) == parts
    decreases |parts|
  {
    if |parts| == 1 {
      ContainsCharIff(parts[0], c);
      SplitWithoutSeparator(parts[0], [c]);
    } else {
      var p := parts[0];
      var rest := Join(parts[1..], [c]);
      assert Join(parts, [c]) == p + [c] + rest;
      SplitAfterFirstPiece(p, c, rest);
      SplitJoinRoundTrip(parts[1..], c);
      assert parts == [p] + parts[1..];
    }
  }

  /** A piece free of the separator character comes off the front of a split as it is. */
  lemma SplitAfterFirstPiece(p: string, c: char, rest: string)
    requires c !in p
    ensures Split(p + [c] + rest, [c]) == [p] + Split(rest, [c])
  {
    var s := p + [c] + rest;
    AppendedSeparatorFirst(p, c, rest);
    SplitAtFirst(s, [c], |p|);
    assert s[..|p|] == p;
    assert s[|p| + 1..] == rest;
  }
}
