// The resume-analysis response parser (`parseGeminiResponse`): three anchored
// extractions over the model's free text, each with its own fallback, and a
// catch-all record for a fault.

module AnalysisParser {
  import opened Wrappers
  import opened JsText

  const SummaryMarker := "**Summary:**"
  const KeyPointsMarker := "**Key Points:**"
  const RatingMarker := "**Rating:**"
  const BoldDelimiter := "**"

  const NoSummary := "No summary available."
  const NotRated := "Not Rated"
  const NoKeyPoints := "No key points available"
  const UnparsedSummary := "Could not parse summary."
  const ParsingFailed := "Parsing failed"

  datatype AnalysisRecord = AnalysisRecord(summary: string, rating: string, keyPoints: seq<string>)

  /** What the caller hands over: a string, or any other value, on which `.match` throws. */
  datatype Response = Text(s: string) | NotText

  /** The record the catch branch returns. */
  const CatchRecord := AnalysisRecord(UnparsedSummary, NotRated, [ParsingFailed])

  /** The record of a text that carries none of the three sections. */
  const DefaultRecord := AnalysisRecord(NoSummary, NotRated, [NoKeyPoints])

  /** The fixed fallback texts have the shape of the fields they stand in for. */
  lemma FallbackTexts()
    ensures Kept(NoKeyPoints) && IsTrimmed(NoKeyPoints)
    ensures '\n' !in NoSummary && IsTrimmed(NoSummary)
  {
    assert |NoKeyPoints| == 23;
  }

  /** The catch record's texts have the same shapes. */
  lemma CatchTexts()
    ensures Kept(ParsingFailed) && IsTrimmed(ParsingFailed)
    ensures '\n' !in UnparsedSummary && IsTrimmed(UnparsedSummary)
  {
    assert |ParsingFailed| == 14;
  }


  // ---------------------------------------------------------------------------
  // `open(.*?)(?=close)` with the `s` flag
  // ---------------------------------------------------------------------------

  /** A match of `open(.*?)(?=close)`: `open` at `at`, the lookahead `close` at `end`. */
  datatype Span = Span(at: nat, end: nat)

  /** `open` at `i` and `close` at `j`, with `close` wholly after `open`. */
  predicate PairAt(s: string, open: string, close: string, i: int, j: int) {
    Occurs(s, open, i) && i + |open| <= j && Occurs(s, close, j)
  }

  /**
   * The regex search from `from`: the leftmost `open` that some later `close`
   * follows, and for it the nearest such `close` (the lazy group).
   */
  function LazySpanFrom(s: string, open: string, close: string, from: nat): (r: Option<Span>)
    ensures r.Some? ==> from <= r.value.at && PairAt(s, open, close, r.value.at, r.value.end)
    ensures r.Some? ==> forall j :: r.value.at + |open| <= j < r.value.end ==> !Occurs(s, close, j)
    ensures forall i, j :: from <= i && (r.None? || i < r.value.at) ==> !PairAt(s, open, close, i, j)
    decreases |s| - from
  {
    if from + |open| > |s| then None
    else if Occurs(s, open, from) then
      match FindFrom(s, close, from + |open|)
      case Some(j) => Some(Span(from, j))
      case None => LazySpanFrom(s, open, close, from + 1)
    else LazySpanFrom(s, open, close, from + 1)
  }

  function LazySpan(s: string, open: string, close: string): (r: Option<Span>)
    ensures r.Some? <==> exists i, j :: PairAt(s, open, close, i, j)
  {
    var r := LazySpanFrom(s, open, close, 0);
    assert r.Some? ==> PairAt(s, open, close, r.value.at, r.value.end);
    r
  }

  /** The captured group of a span. */
  function Group(s: string, open: string, sp: Span): string
    requires sp.at + |open| <= sp.end <= |s|
  {
    s[sp.at + |open|..sp.end]
  }

  /**
   * The backtracking search lands on the FIRST `open` of the text, and on the
   * first `close` after it.
   */
  lemma LazySpanIsFirstPair(s: string, open: string, close: string)
    ensures match LazySpan(s, open, close)
            case None =>
              FindFrom(s, open, 0).None? || FindFrom(s, close, FindFrom(s, open, 0).value + |open|).None?
            case Some(sp) =>
              FindFrom(s, open, 0) == Some(sp.at) && FindFrom(s, close, sp.at + |open|) == Some(sp.end)
  {
    SpanNeedsBothFinds(s, open, close);
    var i := FindFrom(s, open, 0);
    if i.Some? {
      var q := i.value + |open|;
      var j := FindFrom(s, close, q);
      if j.Some? {
        LazySpanOfFound(s, open, close, i.value, q, j.value);
      }
    }
  }

  /** A regex match means both searches succeed. */
  lemma SpanNeedsBothFinds(s: string, open: string, close: string)
    ensures LazySpan(s, open, close).Some? ==>
              FindFrom(s, open, 0).Some? && FindFrom(s, close, FindFrom(s, open, 0).value + |open|).Some?
  {
    var r := LazySpanFrom(s, open, close, 0);
    if r.Some? {
      var sp := r.value;
      var i := FindFrom(s, open, 0);
      assert i.Some? && i.value <= sp.at;
      var j := FindFrom(s, close, i.value + |open|);
      assert j.Some?;
    }
  }

  /** Once both searches succeed, the regex match is the pair they found. */
  lemma LazySpanOfFound(s: string, open: string, close: string, i: nat, q: nat, j: nat)
    requires q == i + |open|
    requires FindFrom(s, open, 0) == Some(i) && FindFrom(s, close, q) == Some(j)
    ensures LazySpan(s, open, close) == Some(Span(i, j))
  {
    var r := LazySpanFrom(s, open, close, 0);
    assert PairAt(s, open, close, i, j);
    var sp := r.value;
    assert sp.at == i;
    assert sp.end == j;
  }

  // ---------------------------------------------------------------------------
  // Summary
  // ---------------------------------------------------------------------------

  /** `.replace(/\n/g, ' ')`: every line feed becomes a space, all else stays put. */
  function NewlinesToSpaces(t: string): (r: string)
    ensures |r| == |t| && '\n' !in r
    ensures forall k :: 0 <= k < |t| && t[k] != '\n' ==> r[k] == t[k]
    ensures IsTrimmed(t) ==> IsTrimmed(r)
    ensures '\n' !in t ==> r == t
    ensures forall k :: 0 <= k < |t| && t[k] == '\n' ==> r[k] == ' '
  {
    seq(|t|, k requires 0 <= k < |t| => if t[k] == '\n' then ' ' else t[k])
  }

  function ExtractSummary(s: string): (r: string)
    ensures '\n' !in r && IsTrimmed(r)
  {
    match LazySpan(s, SummaryMarker, KeyPointsMarker)
    case None => FallbackTexts(); NoSummary
    case Some(sp) => NewlinesToSpaces(Trim(Group(s, SummaryMarker, sp)))
  }

  /**
   * The summary is the trimmed text between the first Summary marker and the
   * first Key Points marker after it, on one line; without such a pair it is
   * the fixed fallback.
   */
  lemma SummaryBetweenMarkers(s: string)
    ensures match FindFrom(s, SummaryMarker, 0)
            case None => ExtractSummary(s) == NoSummary
            case Some(i) =>
              match FindFrom(s, KeyPointsMarker, i + |SummaryMarker|)
              case None => ExtractSummary(s) == NoSummary
              case Some(j) => ExtractSummary(s) == NewlinesToSpaces(Trim(s[i + |SummaryMarker|..j]))
  {
    LazySpanIsFirstPair(s, SummaryMarker, KeyPointsMarker);
  }

  // ---------------------------------------------------------------------------
  // Key points
  // ---------------------------------------------------------------------------

  /** `\d\.` matches at `q`. */
  predicate MarkerAt(b: string, q: int) {
    0 <= q && q + 1 < |b| && IsDigit(b[q]) && b[q + 1] == '.'
  }

  predicate MarkerFree(b: string) {
    forall q :: 0 <= q < |b| ==> !MarkerAt(b, q)
  }

  /** A whole match of `\d\.\s*`. */
  predicate IsSeparator(sep: string) {
    |sep| >= 2 && IsDigit(sep[0]) && sep[1] == '.' && AllSpace(sep[2..])
  }

  /** The fragments put back together with the separators between them. */
  function Interleave(frags: seq<string>, seps: seq<string>): string
    requires |frags| == |seps| + 1
  {
    if seps == [] then frags[0] else frags[0] + seps[0] + Interleave(frags[1..], seps[1..])
  }

  /**
   * `String.prototype.split` with the separator `/\d\.\s*`/ from the state
   * `p` (end of the last separator) and `q` (next position tried): the
   * fragments, and beside them the separators the regex consumed.
   */
  function SplitFrom(b: string, p: nat, q: nat): (r: (seq<string>, seq<string>))
    requires p <= q <= |b|
    ensures |r.0| == |r.1| + 1
    decreases |b| - q
  {
    if q == |b| then ([b[p..]], [])
    else if MarkerAt(b, q) then
      var e := SkipSpaces(b, q + 2);
      var rest := SplitFrom(b, e, e);
      ([b[p..q]] + rest.0, [b[q..e]] + rest.1)
    else SplitFrom(b, p, q + 1)
  }

  /** `block.split(/\d\.\s*`/). */
  function SplitOnNumbering(b: string): (r: seq<string>)
    ensures |r| == |Separators(b)| + 1
    ensures Interleave(r, Separators(b)) == b
    ensures forall f :: f in r ==> MarkerFree(f)
  {
    SplitFromRebuilds(b, 0, 0);
    SplitFromPieces(b, 0, 0);
    SplitFrom(b, 0, 0).0
  }

  /** The `\d\.\s*` matches the split cuts out of `b`, in order. */
  function Separators(b: string): (seps: seq<string>)
    ensures forall sep :: sep in seps ==> IsSeparator(sep)
  {
    SplitFromPieces(b, 0, 0);
    SplitFrom(b, 0, 0).1
  }

  /** The fragments of `b[p..q]` that hold no marker are marker-free. */
  lemma MarkerFreeSlice(b: string, p: nat, q: nat)
    requires p <= q <= |b|
    requires forall k :: p <= k < q ==> !MarkerAt(b, k)
    ensures MarkerFree(b[p..q])
  {
    var f := b[p..q];
    forall k | 0 <= k < |f| ensures !MarkerAt(f, k) {
      assert !MarkerAt(b, p + k);
      if k + 1 < |f| {
        assert f[k] == b[p + k] && f[k + 1] == b[p + k + 1];
      }
    }
  }

  /** The split is exact: the fragments, interleaved with the separators, give back the block. */
  lemma {:induction false} SplitFromRebuilds(b: string, p: nat, q: nat)
    requires p <= q <= |b|
    ensures var r := SplitFrom(b, p, q); Interleave(r.0, r.1) == b[p..]
    decreases |b| - q
  {
    var r := SplitFrom(b, p, q);
    if q == |b| {
      assert b[p..q] == b[p..];
    } else if MarkerAt(b, q) {
      var e := SkipSpaces(b, q + 2);
      SplitFromRebuilds(b, e, e);
      var rest := SplitFrom(b, e, e);
      assert r.0 == [b[p..q]] + rest.0 && r.1 == [b[q..e]] + rest.1;
      assert r.0[1..] == rest.0 && r.1[1..] == rest.1;
      assert Interleave(r.0, r.1) == b[p..q] + b[q..e] + b[e..];
      Regroup3(b, p, q, e);
    } else {
      SplitFromRebuilds(b, p, q + 1);
    }
  }

  /** Three adjacent slices make up the suffix they start. */
  lemma Regroup3(b: string, p: nat, q: nat, e: nat)
    requires p <= q <= e <= |b|
    ensures b[p..q] + b[q..e] + b[e..] == b[p..]
  {
    assert b[q..] == b[q..e] + b[e..];
    assert b[p..] == b[p..q] + b[q..];
  }

  /** The first fragment is a prefix of what is split. */
  lemma FirstFragmentIsPrefix(b: string, p: nat, q: nat)
    requires p <= q <= |b|
    ensures var f := SplitFrom(b, p, q).0[0]; |f| <= |b| - p && f == b[p..p + |f|]
  {
    SplitFromRebuilds(b, p, q);
    var r := SplitFrom(b, p, q);
    InterleaveStartsWithFirst(r.0, r.1);
    assert b[p..][..|r.0[0]|] == b[p..p + |r.0[0]|];
  }

  lemma InterleaveStartsWithFirst(frags: seq<string>, seps: seq<string>)
    requires |frags| == |seps| + 1
    ensures |frags[0]| <= |Interleave(frags, seps)| && Interleave(frags, seps)[..|frags[0]|] == frags[0]
  {
    if seps != [] {
      var t := Interleave(frags, seps);
      assert t == frags[0] + (seps[0] + Interleave(frags[1..], seps[1..]));
    }
  }

  /**
   * No fragment holds a digit-dot marker, and each separator is a whole
   * `\d\.\s*` match, so the fragment after it starts with no whitespace.
   */
  lemma {:induction false} SplitFromPieces(b: string, p: nat, q: nat)
    requires p <= q <= |b|
    requires forall k :: p <= k < q ==> !MarkerAt(b, k)
    ensures var r := SplitFrom(b, p, q);
      && (forall f :: f in r.0 ==> MarkerFree(f))
      && (forall sep :: sep in r.1 ==> IsSeparator(sep))
      && (forall k :: 0 < k < |r.0| && r.0[k] != [] ==> !IsSpace(r.0[k][0]))
    decreases |b| - q
  {
    var r := SplitFrom(b, p, q);
    if q == |b| {
      MarkerFreeSlice(b, p, q);
      assert b[p..q] == b[p..];
    } else if MarkerAt(b, q) {
      var e := SkipSpaces(b, q + 2);
      var sep := b[q..e];
      MarkerFreeSlice(b, p, q);
      SplitFromPieces(b, e, e);
      FirstFragmentIsPrefix(b, e, e);
      var rest := SplitFrom(b, e, e);
      assert r.0 == [b[p..q]] + rest.0 && r.1 == [sep] + rest.1;
      assert IsSeparator(sep) by {
        assert sep[2..] == b[q + 2..e];
      }
      forall k | 0 < k < |r.0| && r.0[k] != [] ensures !IsSpace(r.0[k][0]) {
        assert r.0[k] == rest.0[k - 1];
        if k == 1 {
          assert rest.0[0][0] == b[e];
        }
      }
    } else {
      SplitFromPieces(b, p, q + 1);
      assert r == SplitFrom(b, p, q + 1);
    }
  }

  /**
   * The split cuts wherever a digit meets a dot, inside a decimal number or a
   * two-digit item number too.
   */
  lemma SplitCutsInsideNumbers()
    ensures SplitOnNumbering("GPA 3.8") == ["GPA ", "8"]
    ensures SplitOnNumbering("10. Led") == ["1", "Led"]
  {
    var g := "GPA 3.8";
    assert SplitFrom(g, 6, 6) == (["8"], []) by {
      assert !MarkerAt(g, 6);
      assert SplitFrom(g, 6, 7) == ([g[6..]], []);
    }
    assert forall k :: 0 <= k < 4 ==> !MarkerAt(g, k);
    SplitSkipsFrom(g, 0, 0, 4);
    assert SkipSpaces(g, 6) == 6 && MarkerAt(g, 4);
    assert |g| == 7;
    assert SplitFrom(g, 0, 4) == ([g[0..4]] + SplitFrom(g, 6, 6).0, [g[4..6]] + SplitFrom(g, 6, 6).1);
    assert g[0..4] == "GPA ";
    var n := "10. Led";
    assert SplitFrom(n, 4, 4) == (["Led"], []) by {
      assert forall k :: 4 <= k < 7 ==> !MarkerAt(n, k);
      SplitSkipsFrom(n, 4, 4, 7);
      assert SplitFrom(n, 4, 7) == ([n[4..]], []);
    }
    assert SkipSpaces(n, 4) == 4;
    assert SkipSpaces(n, 3) == 4;
    assert !MarkerAt(n, 0) && MarkerAt(n, 1);
    assert SplitFrom(n, 0, 0) == SplitFrom(n, 0, 1);
    assert |n| == 7;
    assert SplitFrom(n, 0, 1) == ([n[0..1]] + SplitFrom(n, 4, 4).0, [n[1..4]] + SplitFrom(n, 4, 4).1);
    assert n[0..1] == "1";
  }

  /** Positions that hold no marker are passed over. */
  lemma {:induction false} SplitSkipsFrom(b: string, p: nat, m: nat, q: nat)
    requires p <= m <= q <= |b|
    requires forall k :: m <= k < q ==> !MarkerAt(b, k)
    ensures SplitFrom(b, p, m) == SplitFrom(b, p, q)
    decreases q - m
  {
    if m < q {
      SplitSkipsFrom(b, p, m + 1, q);
    }
  }

  /** A block in which no digit is followed by a dot is one fragment: itself. */
  lemma {:induction false} UnnumberedBlockIsOneFragment(b: string)
    requires MarkerFree(b)
    ensures SplitOnNumbering(b) == [b]
  {
    SplitFromRebuilds(b, 0, 0);
    SplitFromPieces(b, 0, 0);
    FirstFragmentIsPrefix(b, 0, 0);
    var r := SplitFrom(b, 0, 0);
    if |r.1| > 0 {
      var n := |r.0[0]|;
      assert b == r.0[0] + r.1[0] + Interleave(r.0[1..], r.1[1..]);
      assert IsSeparator(r.1[0]);
      assert b[n] == r.1[0][0] && b[n + 1] == r.1[0][1];
      assert MarkerAt(b, n);
    }
  }

  /**
   * End of the lazy `(.*?)\*\*` from `k`: the first `**` at or after `k`
   * reached without crossing a line terminator.
   */
  function BoldCloseFrom(p: string, k: nat): (r: Option<nat>)
    ensures r.Some? ==> k <= r.value && Occurs(p, BoldDelimiter, r.value)
    ensures r.Some? ==> forall i :: k <= i < r.value ==> !IsLineTerminator(p[i]) && !Occurs(p, BoldDelimiter, i)
    ensures r.None? ==> forall j :: k <= j && Occurs(p, BoldDelimiter, j) ==>
                          exists i :: k <= i < j && IsLineTerminator(p[i])
    decreases |p| - k
  {
    if k + 2 > |p| then None
    else if Occurs(p, BoldDelimiter, k) then Some(k)
    else if IsLineTerminator(p[k]) then None
    else BoldCloseFrom(p, k + 1)
  }

  /** `point.replace(/^\*\*(.*?)\*\*`/, '$1')`. */
  function UnwrapBold(p: string): (r: string)
    ensures !Occurs(p, BoldDelimiter, 0) ==> r == p
    ensures Occurs(p, BoldDelimiter, 0) && BoldCloseFrom(p, 2).None? ==> r == p
    ensures Occurs(p, BoldDelimiter, 0) && BoldCloseFrom(p, 2).Some? ==>
              |r| + 4 == |p| && p == BoldDelimiter + r[..BoldCloseFrom(p, 2).value - 2] + BoldDelimiter + r[BoldCloseFrom(p, 2).value - 2..]
  {
    if Occurs(p, BoldDelimiter, 0) then
      match BoldCloseFrom(p, 2)
      case Some(k) =>
        var r := p[2..k] + p[k + 2..];
        assert r[..k - 2] == p[2..k] && r[k - 2..] == p[k + 2..];
        assert p == p[..2] + p[2..k] + p[k..k + 2] + p[k + 2..];
        r
      case None => p
    else p
  }

  /** One fragment after the `map`: bold wrapper removed, then trimmed. */
  function CleanPoint(f: string): (r: string)
    ensures IsTrimmed(r)
  {
    Trim(UnwrapBold(f))
  }

  /** The `filter` test `point && point.length > 3`. */
  predicate Kept(p: string)
    ensures |p| > 3 ==> Kept(p)
    ensures (forall i :: 0 <= i < |p| ==> p[i] as int <= 0xFFFF) ==> (Kept(p) <==> |p| > 3)
  {
    p != "" && Utf16Length(p) > 3
  }

  /** `.map(CleanPoint).filter(Kept)`, in order. */
  function CleanAndFilter(frags: seq<string>): (r: seq<string>)
    ensures |r| <= |frags|
    ensures forall p :: p in r ==> Kept(p) && IsTrimmed(p)
  {
    if frags == [] then []
    else
      var p := CleanPoint(frags[0]);
      (if Kept(p) then [p] else []) + CleanAndFilter(frags[1..])
  }

  /** A key point is kept exactly when it is the cleaned form of some fragment and passes the filter. */
  lemma {:induction false} CleanAndFilterMembers(frags: seq<string>, p: string)
    ensures p in CleanAndFilter(frags) <==> exists f :: f in frags && CleanPoint(f) == p && Kept(p)
  {
    if frags != [] {
      CleanAndFilterMembers(frags[1..], p);
      if p !in CleanAndFilter(frags) {
        forall f | f in frags && CleanPoint(f) == p
          ensures !Kept(p)
        {
          if f != frags[0] {
            assert f in frags[1..];
          }
        }
      } else if !(p in CleanAndFilter(frags[1..])) {
        assert CleanPoint(frags[0]) == p;
      } else {
        var f :| f in frags[1..] && CleanPoint(f) == p && Kept(p);
        assert f in frags;
      }
    }
  }

  function ExtractKeyPoints(s: string): (r: seq<string>)
    ensures forall p :: p in r ==> Kept(p) && IsTrimmed(p)
  {
    match LazySpan(s, KeyPointsMarker, RatingMarker)
    case None => FallbackTexts(); [NoKeyPoints]
    case Some(sp) => CleanAndFilter(SplitOnNumbering(Group(s, KeyPointsMarker, sp)))
  }

  /**
   * Without a Key Points marker followed by a Rating marker the list is the
   * fixed fallback; with one, it is the kept fragments of the text between the
   * first Key Points marker and the first Rating marker after it (possibly none).
   */
  lemma KeyPointsBetweenMarkers(s: string)
    ensures match FindFrom(s, KeyPointsMarker, 0)
            case None => ExtractKeyPoints(s) == [NoKeyPoints]
            case Some(i) =>
              match FindFrom(s, RatingMarker, i + |KeyPointsMarker|)
              case None => ExtractKeyPoints(s) == [NoKeyPoints]
              case Some(j) =>
                ExtractKeyPoints(s) == CleanAndFilter(SplitOnNumbering(s[i + |KeyPointsMarker|..j]))
  {
    LazySpanIsFirstPair(s, KeyPointsMarker, RatingMarker);
  }

  /** A block with no digit-dot marker gives at most one key point: the cleaned block itself. */
  lemma UnnumberedBlockKeyPoints(b: string)
    requires MarkerFree(b)
    ensures CleanAndFilter(SplitOnNumbering(b)) == (if Kept(CleanPoint(b)) then [CleanPoint(b)] else [])
  {
    UnnumberedBlockIsOneFragment(b);
  }

  // ---------------------------------------------------------------------------
  // Rating
  // ---------------------------------------------------------------------------

  /** End of the greedy `\w+` run starting at `k`. */
  function WordRunEnd(s: string, k: nat): (e: nat)
    requires k <= |s|
    ensures k <= e <= |s|
    ensures forall i :: k <= i < e ==> IsWordChar(s[i])
    ensures e < |s| ==> !IsWordChar(s[e])
    decreases |s| - k
  {
    if k == |s| || !IsWordChar(s[k]) then k else WordRunEnd(s, k + 1)
  }

  /** Where `\s*` stops after a Rating marker at `i`. */
  function AfterRatingMarker(s: string, i: nat): nat
    requires Occurs(s, RatingMarker, i)
  {
    SkipSpaces(s, i + |RatingMarker|)
  }

  /** `\*\*Rating:\*\*\s*(\w+)` matches at `i`. */
  predicate RatingAt(s: string, i: int) {
    Occurs(s, RatingMarker, i) && AfterRatingMarker(s, i) < |s| && IsWordChar(s[AfterRatingMarker(s, i)])
  }

  /** The first index at or after `from` where the rating pattern matches. */
  function FirstRatingFrom(s: string, from: nat): (r: Option<nat>)
    ensures r.Some? ==> from <= r.value && RatingAt(s, r.value)
    ensures forall i :: from <= i && (r.None? || i < r.value) ==> !RatingAt(s, i)
    decreases |s| - from
  {
    if from + |RatingMarker| > |s| then None
    else if RatingAt(s, from) then Some(from)
    else FirstRatingFrom(s, from + 1)
  }

  /** The captured word of a match at `i`. */
  function RatingWord(s: string, i: nat): string
    requires RatingAt(s, i)
  {
    var k := AfterRatingMarker(s, i);
    s[k..WordRunEnd(s, k)]
  }

  function ExtractRating(s: string): (r: string)
    ensures r == NotRated <==> forall i :: !RatingAt(s, i)
    ensures r != NotRated ==> r != [] && forall c :: c in r ==> IsWordChar(c)
  {
    match FirstRatingFrom(s, 0)
    case None => NotRated
    case Some(i) =>
      var r := RatingWord(s, i);
      assert r[0] in r && !IsWordChar(NotRated[3]);
      r
  }

  /**
   * A rating other than the fallback is the whole word run that follows the
   * first Rating marker trailed by optional whitespace and a word character.
   */
  lemma RatingIsWordAfterFirstMarker(s: string)
    ensures ExtractRating(s) != NotRated ==>
              exists i :: FirstRatingAt(s, i) && WholeWordAt(s, AfterRatingMarker(s, i), ExtractRating(s))
  {
    var first := FirstRatingFrom(s, 0);
    if first.Some? {
      var i := first.value;
      var k := AfterRatingMarker(s, i);
      var e := WordRunEnd(s, k);
      assert FirstRatingAt(s, i);
      assert WholeWordAt(s, k, RatingWord(s, i)) by {
        assert RatingWord(s, i) == s[k..e];
      }
      assert ExtractRating(s) == RatingWord(s, i);
    }
  }

  /** The rating pattern matches at `i` and nowhere before. */
  predicate FirstRatingAt(s: string, i: nat) {
    RatingAt(s, i) && forall i' :: 0 <= i' < i ==> !RatingAt(s, i')
  }

  /** `w` sits at `k` and is not followed by another word character. */
  predicate WholeWordAt(s: string, k: nat, w: string) {
    k + |w| <= |s| && s[k..k + |w|] == w && (k + |w| == |s| || !IsWordChar(s[k + |w|]))
  }

  // ---------------------------------------------------------------------------
  // The parser
  // ---------------------------------------------------------------------------

  /** Every field present, in the shape each extraction guarantees. */
  predicate WellFormed(r: AnalysisRecord) {
    && '\n' !in r.summary && IsTrimmed(r.summary)
    && (r.rating == NotRated || (r.rating != [] && forall c :: c in r.rating ==> IsWordChar(c)))
    && (forall p :: p in r.keyPoints ==> Kept(p) && IsTrimmed(p))
  }

  /** `parseGeminiResponse`: a total function to a fully populated record. */
  function ParseGeminiResponse(resp: Response): (r: AnalysisRecord)
    ensures WellFormed(r)
    ensures resp.NotText? ==> r == CatchRecord
  {
    match resp
    case NotText =>
      CatchTexts();
      CatchRecord
    case Text(s) =>
      AnalysisRecord(ExtractSummary(s), ExtractRating(s), ExtractKeyPoints(s))
  }

  /**
   * Text without a Key Points marker and without a Rating marker (the empty
   * string among it) parses to the three fallbacks.
   */
  lemma UnmarkedTextGivesDefaults(s: string)
    requires forall i :: !Occurs(s, KeyPointsMarker, i)
    requires forall i :: !Occurs(s, RatingMarker, i)
    ensures ParseGeminiResponse(Text(s)) == DefaultRecord
  {
    assert forall i, j :: !PairAt(s, SummaryMarker, KeyPointsMarker, i, j);
    assert forall i, j :: !PairAt(s, KeyPointsMarker, RatingMarker, i, j);
    assert forall i :: !RatingAt(s, i);
  }

  lemma EmptyResponseGivesDefaults()
    ensures ParseGeminiResponse(Text("")) == DefaultRecord
  {
    UnmarkedTextGivesDefaults("");
  }

  /**
   * Without a Rating marker the rating and the key points fall back, while the
   * summary is still the text between the Summary and Key Points markers.
   */
  lemma MissingRatingMarker(s: string)
    requires forall i :: !Occurs(s, RatingMarker, i)
    ensures ParseGeminiResponse(Text(s)).rating == NotRated
    ensures ParseGeminiResponse(Text(s)).keyPoints == [NoKeyPoints]
    ensures match FindFrom(s, SummaryMarker, 0)
            case None => ParseGeminiResponse(Text(s)).summary == NoSummary
            case Some(i) =>
              match FindFrom(s, KeyPointsMarker, i + |SummaryMarker|)
              case None => ParseGeminiResponse(Text(s)).summary == NoSummary
              case Some(j) => ParseGeminiResponse(Text(s)).summary == NewlinesToSpaces(Trim(s[i + |SummaryMarker|..j]))
  {
    assert forall i, j :: !PairAt(s, KeyPointsMarker, RatingMarker, i, j);
    assert forall i :: !RatingAt(s, i);
    SummaryBetweenMarkers(s);
  }

  /**
   * Once a Summary marker and a later Key Points marker are present, nothing
   * appended after them (the key points, a rating) changes the summary.
   */
  lemma SummaryIgnoresLaterText(s: string, t: string)
    requires LazySpan(s, SummaryMarker, KeyPointsMarker).Some?
    ensures ExtractSummary(s + t) == ExtractSummary(s)
  {
    var sp := LazySpan(s, SummaryMarker, KeyPointsMarker).value;
    var q := sp.at + |SummaryMarker|;
    LazySpanIsFirstPair(s, SummaryMarker, KeyPointsMarker);
    SearchesInPrefix(s, t, SummaryMarker, KeyPointsMarker, sp.at, q, sp.end);
    LazySpanOfFound(s + t, SummaryMarker, KeyPointsMarker, sp.at, q, sp.end);
    SliceInLeft(s, t, q, sp.end);
    assert Group(s + t, SummaryMarker, sp) == Group(s, SummaryMarker, sp);
  }

  /** Both searches of a regex match find the same once text is appended. */
  lemma SearchesInPrefix(s: string, t: string, open: string, close: string, i: nat, q: nat, j: nat)
    requires q == i + |open|
    requires FindFrom(s, open, 0) == Some(i) && FindFrom(s, close, q) == Some(j)
    ensures FindFrom(s + t, open, 0) == Some(i) && FindFrom(s + t, close, q) == Some(j)
  {
    FindFromInPrefix(s, t, open, 0);
    FindFromInPrefix(s, t, close, q);
  }

  // ---------------------------------------------------------------------------
  // A response laid out as the prompt asks
  // ---------------------------------------------------------------------------

  predicate IsUpper(c: char) {
    'A' <= c <= 'Z'
  }

  /** `**` followed by a capital letter starts at `k`: how every marker begins. */
  predicate LabelAt(s: string, k: int) {
    0 <= k && k + 2 < |s| && s[k] == '*' && s[k + 1] == '*' && IsUpper(s[k + 2])
  }

  /** A pattern that begins with `**` and a capital. */
  predicate IsLabel(m: string) {
    |m| >= 3 && m[0] == '*' && m[1] == '*' && IsUpper(m[2])
  }

  lemma MarkerIsLabel(s: string, m: string, k: int)
    requires IsLabel(m)
    ensures Occurs(s, m, k) ==> LabelAt(s, k) && s[k + 2] == m[2]
  {
    if Occurs(s, m, k) {
      assert s[k..k + |m|][0] == s[k] && s[k..k + |m|][1] == s[k + 1] && s[k..k + |m|][2] == s[k + 2];
    }
  }

  /** No label starts inside `m` past its first character. */
  predicate NoInnerLabel(m: string) {
    forall i :: 0 < i && i + 2 < |m| ==> !LabelAt(m, i)
  }

  /**
   * In `pre + sm + a + km + b + tail`, where `sm` and `km` are labels with no
   * label inside, `pre`, `a` and `b` hold no `*`, `a` and `b` do not begin
   * with a capital and `tail` begins with `**`, the only labels before `tail`
   * are `sm` and `km`.
   */
  lemma OnlyMarkersAreLabels(pre: string, sm: string, a: string, km: string, b: string, tail: string, k: int)
    requires IsLabel(sm) && IsLabel(km) && NoInnerLabel(sm) && NoInnerLabel(km)
    requires '*' !in pre && '*' !in a && '*' !in b
    requires a == [] || !IsUpper(a[0])
    requires b == [] || !IsUpper(b[0])
    requires |tail| >= 2 && tail[0] == '*' && tail[1] == '*'
    requires 0 <= k < |pre| + |sm| + |a| + |km| + |b|
    ensures LabelAt(pre + sm + a + km + b + tail, k) ==> k == |pre| || k == |pre| + |sm| + |a|
  {
    var s := pre + sm + a + km + b + tail;
    var p1 := |pre| + |sm|;
    var p2 := p1 + |a|;
    var p3 := p2 + |km|;
    if k < |pre| {
      assert s[k] == pre[k] && pre[k] in pre;
    } else if k < p1 {
      var i := k - |pre|;
      if 0 < i && i + 2 < |sm| {
        assert s[k] == sm[i] && s[k + 1] == sm[i + 1] && s[k + 2] == sm[i + 2];
        assert !LabelAt(sm, i);
      } else if i == |sm| - 2 {
        if a == [] { assert s[k + 2] == km[0]; } else { assert s[k + 2] == a[0]; }
      } else if i == |sm| - 1 {
        if a == [] { assert s[k + 2] == km[1]; } else { assert s[k + 1] == a[0] && a[0] in a; }
      }
    } else if k < p2 {
      assert s[k] == a[k - p1] && a[k - p1] in a;
    } else if k < p3 {
      var i := k - p2;
      if 0 < i && i + 2 < |km| {
        assert s[k] == km[i] && s[k + 1] == km[i + 1] && s[k + 2] == km[i + 2];
        assert !LabelAt(km, i);
      } else if i == |km| - 2 {
        if b == [] { assert s[k + 2] == tail[0]; } else { assert s[k + 2] == b[0]; }
      } else if i == |km| - 1 {
        if b == [] { assert s[k + 2] == tail[1]; } else { assert s[k + 1] == b[0] && b[0] in b; }
      }
    } else {
      assert s[k] == b[k - p3] && b[k - p3] in b;
    }
  }

  /** The three markers are labels with distinct capitals. */
  lemma MarkersAreLabels()
    ensures IsLabel(SummaryMarker) && IsLabel(KeyPointsMarker) && IsLabel(RatingMarker)
    ensures SummaryMarker[2] == 'S' && KeyPointsMarker[2] == 'K' && RatingMarker[2] == 'R'
    ensures NoInnerLabel(SummaryMarker) && NoInnerLabel(KeyPointsMarker)
  {
  }

  /** Where the labels below `p4` are `sm` at `p0` and `km` at `p2`, none of them has the capital `c` of neither. */
  lemma LabelCapitals(s: string, sm: string, km: string, c: char, p0: nat, p2: nat, p4: nat)
    requires IsLabel(sm) && IsLabel(km) && sm[2] != c && km[2] != c
    requires Occurs(s, sm, p0) && Occurs(s, km, p2)
    requires forall k :: 0 <= k < p4 && LabelAt(s, k) ==> k == p0 || k == p2
    ensures forall k :: 0 <= k < p4 && LabelAt(s, k) ==> s[k + 2] != c
  {
    MarkerIsLabel(s, sm, p0);
    MarkerIsLabel(s, km, p2);
  }

  /**
   * Where the only labels below `hi` sit at `p`, holding `m`, and at `q`,
   * holding a label `other` with another capital, the first `m` at or after
   * `from <= p` is the one at `p`.
   */
  lemma FirstOccurrenceAt(s: string, m: string, other: string, p: nat, q: nat, hi: nat, from: nat)
    requires IsLabel(m) && IsLabel(other) && m[2] != other[2]
    requires Occurs(s, m, p) && Occurs(s, other, q) && from <= p < hi
    requires forall k :: 0 <= k < hi && LabelAt(s, k) ==> k == p || k == q
    ensures FindFrom(s, m, from) == Some(p)
  {
    MarkerIsLabel(s, other, q);
    forall i | from <= i < p ensures !Occurs(s, m, i) {
      MarkerIsLabel(s, m, i);
    }
    FindFromIsFirst(s, m, from, p);
  }

  /** When no label below `p4` has the capital of the label `rm`, `rm` occurs nowhere below `p4`. */
  lemma RatingLabelFirst(s: string, rm: string, p4: nat)
    requires IsLabel(rm)
    requires forall k :: 0 <= k < p4 && LabelAt(s, k) ==> s[k + 2] != rm[2]
    ensures forall k :: 0 <= k < p4 ==> !Occurs(s, rm, k)
  {
    forall k | 0 <= k < p4 ensures !Occurs(s, rm, k) {
      MarkerIsLabel(s, rm, k);
    }
  }

  /**
   * Where the three labels were placed in `pre + sm + a + km + b + tail`, with
   * `tail` opening with `rm`, and where the labels below `rm` are.
   */
  lemma PlacedTextLayout(pre: string, sm: string, a: string, km: string, b: string, rm: string, tail: string)
    requires IsLabel(sm) && IsLabel(km) && IsLabel(rm) && NoInnerLabel(sm) && NoInnerLabel(km)
    requires '*' !in pre && '*' !in a && '*' !in b
    requires a == [] || !IsUpper(a[0])
    requires b == [] || !IsUpper(b[0])
    requires |tail| >= |rm| && tail[..|rm|] == rm
    ensures var s := pre + sm + a + km + b + tail;
            var p2 := |pre| + |sm| + |a|;
            var p4 := p2 + |km| + |b|;
            && s[|pre| + |sm|..p2] == a
            && s[p2 + |km|..p4] == b
            && Occurs(s, sm, |pre|) && Occurs(s, km, p2) && Occurs(s, rm, p4)
            && (forall k :: 0 <= k < p4 && LabelAt(s, k) ==> k == |pre| || k == p2)
  {
    var s := pre + sm + a + km + b + tail;
    var p2 := |pre| + |sm| + |a|;
    var p4 := p2 + |km| + |b|;
    PlacedSlices(pre, sm, a, km, b, tail);
    assert s[p4..p4 + |rm|] == rm by {
      assert s[p4..][..|rm|] == tail[..|rm|];
    }
    assert tail[0] == rm[0] && tail[1] == rm[1];
    forall k | 0 <= k < p4 && LabelAt(s, k) ensures k == |pre| || k == p2 {
      OnlyMarkersAreLabels(pre, sm, a, km, b, tail, k);
    }
  }

  /** The six pieces of `pre + sm + a + km + b + tail`, read back by position. */
  lemma PlacedSlices(pre: string, sm: string, a: string, km: string, b: string, tail: string)
    ensures var s := pre + sm + a + km + b + tail;
            var p1 := |pre| + |sm|;
            var p2 := p1 + |a|;
            var p3 := p2 + |km|;
            var p4 := p3 + |b|;
            && s[|pre|..p1] == sm && s[p1..p2] == a && s[p2..p3] == km && s[p3..p4] == b
            && s[p4..] == tail
  {
    var u1 := pre + sm;
    var u2 := u1 + a;
    var u3 := u2 + km;
    var u4 := u3 + b;
    var s := u4 + tail;
    var p1 := |u1|;
    var p2 := |u2|;
    var p3 := |u3|;
    var p4 := |u4|;
    assert s[|pre|..p1] == sm by {
      SliceInLeft(u4, tail, |pre|, p1);
      SliceInLeft(u3, b, |pre|, p1);
      SliceInLeft(u2, km, |pre|, p1);
      SliceInLeft(u1, a, |pre|, p1);
      SliceOfRight(pre, sm);
    }
    assert s[p1..p2] == a by {
      SliceInLeft(u4, tail, p1, p2);
      SliceInLeft(u3, b, p1, p2);
      SliceInLeft(u2, km, p1, p2);
      SliceOfRight(u1, a);
    }
    assert s[p2..p3] == km by {
      SliceInLeft(u4, tail, p2, p3);
      SliceInLeft(u3, b, p2, p3);
      SliceOfRight(u2, km);
    }
    assert s[p3..p4] == b by {
      SliceInLeft(u4, tail, p3, p4);
      SliceOfRight(u3, b);
    }
    assert s[p4..] == tail;
  }

  /** `\w+` from `k` stops at `e` when only word characters lie between and none at `e`. */
  lemma WordRunTo(s: string, k: nat, e: nat)
    requires k <= e <= |s|
    requires forall i :: k <= i < e ==> IsWordChar(s[i])
    requires e < |s| ==> !IsWordChar(s[e])
    ensures WordRunEnd(s, k) == e
  {
  }

  /** `\s*` from `q` stops at `e` and `\w+` from `e` at `f` when the characters in between say so. */
  lemma RunsBetween(s: string, q: nat, e: nat, f: nat)
    requires q <= e < f <= |s|
    requires forall i :: q <= i < e ==> IsSpace(s[i])
    requires forall i :: e <= i < f ==> IsWordChar(s[i])
    requires f < |s| ==> !IsWordChar(s[f])
    ensures SkipSpaces(s, q) == e && WordRunEnd(s, e) == f
  {
    assert !IsSpace(s[e]);
    SkipSpacesTo(s, q, e);
    WordRunTo(s, e, f);
  }

  /** `\s*(\w+)` after `x` spans `ws` and captures `w` in `x + ws + w + rest`. */
  lemma SpacesThenWord(x: string, ws: string, w: string, rest: string)
    requires AllSpace(ws) && w != [] && (forall c :: c in w ==> IsWordChar(c))
    requires rest == [] || !IsWordChar(rest[0])
    ensures var s := x + ws + w + rest;
            && SkipSpaces(s, |x|) == |x| + |ws|
            && WordRunEnd(s, |x| + |ws|) == |x| + |ws| + |w|
            && s[|x| + |ws|..|x| + |ws| + |w|] == w
  {
    var s := x + ws + w + rest;
    var e := |x| + |ws|;
    var f := e + |w|;
    var xw := x + ws;
    var xww := xw + w;
    forall i | |x| <= i < e ensures IsSpace(s[i]) {
      assert s[i] == xww[i] == xw[i] == ws[i - |x|];
    }
    forall i | e <= i < f ensures IsWordChar(s[i]) {
      assert s[i] == xww[i] == w[i - e];
      assert w[i - e] in w;
    }
    assert f < |s| ==> s[f] == rest[0];
    RunsBetween(s, |x|, e, f);
    assert s[e..f] == w;
  }

  /**
   * When no Rating marker comes before the one placed after `head`, and it is
   * followed by the whitespace `ws` and the word `w`, the rating is `w`.
   */
  lemma RatingOfFirstMarker(head: string, ws: string, w: string, rest: string)
    requires AllSpace(ws) && w != [] && (forall c :: c in w ==> IsWordChar(c))
    requires rest == [] || !IsWordChar(rest[0])
    requires forall k :: 0 <= k < |head| ==> !Occurs(head + RatingMarker + ws + w + rest, RatingMarker, k)
    ensures ExtractRating(head + RatingMarker + ws + w + rest) == w
  {
    var x := head + RatingMarker;
    var s := x + ws + w + rest;
    SpacesThenWord(x, ws, w, rest);
    assert Occurs(s, RatingMarker, |head|) by {
      assert s[|head|..|x|] == RatingMarker;
    }
    assert AfterRatingMarker(s, |head|) == |x| + |ws|;
    assert IsWordChar(s[|x| + |ws|]) by {
      assert s[|x| + |ws|] == w[0] && w[0] in w;
    }
    assert RatingWord(s, |head|) == w;
    FirstRatingIs(s, |head|);
  }

  /** A match of the rating pattern with no Rating marker before it is the first match. */
  lemma FirstRatingIs(s: string, i: nat)
    requires RatingAt(s, i)
    requires forall k :: 0 <= k < i ==> !Occurs(s, RatingMarker, k)
    ensures FirstRatingFrom(s, 0) == Some(i)
  {
    var r := FirstRatingFrom(s, 0);
    assert r.Some? && r.value <= i;
  }

  /*
   * The prompt asks for the three sections in a fixed order. The next lemmas
   * take a response laid out that way: free text `pre`, the Summary marker,
   * its body `a`, the Key Points marker, its body `b`, the Rating marker,
   * whitespace `ws`, a word `w` and whatever `rest` follows. All the searches
   * need is that each placed marker is the first of its kind.
   */

  /** In `s`, laid out as above, no marker occurs before the place it was put. */
  predicate PlacedMarkersFirst(s: string, pre: string, a: string, b: string) {
    var p2 := |pre| + |SummaryMarker| + |a|;
    var p4 := p2 + |KeyPointsMarker| + |b|;
    && (forall k :: 0 <= k < |pre| ==> !Occurs(s, SummaryMarker, k))
    && (forall k :: 0 <= k < p2 ==> !Occurs(s, KeyPointsMarker, k))
    && (forall k :: 0 <= k < p4 ==> !Occurs(s, RatingMarker, k))
  }

  /** Where `open`, `a` and `close` were placed after `pre`. */
  lemma PlacedPieces(pre: string, open: string, a: string, close: string, rest: string)
    ensures var s := pre + open + a + close + rest;
            var q := |pre| + |open|;
            && Occurs(s, open, |pre|) && s[q..q + |a|] == a && Occurs(s, close, q + |a|)
  {
    var u1 := pre + open;
    var u2 := u1 + a;
    var u3 := u2 + close;
    var s := u3 + rest;
    var q := |u1|;
    var p2 := |u2|;
    assert s[|pre|..q] == open by {
      SliceInLeft(u3, rest, |pre|, q);
      SliceInLeft(u2, close, |pre|, q);
      SliceInLeft(u1, a, |pre|, q);
      SliceOfRight(pre, open);
    }
    assert s[q..p2] == a by {
      SliceInLeft(u3, rest, q, p2);
      SliceInLeft(u2, close, q, p2);
      SliceOfRight(u1, a);
    }
    assert s[p2..p2 + |close|] == close by {
      SliceInLeft(u3, rest, p2, p2 + |close|);
      SliceOfRight(u2, close);
    }
  }

  /**
   * With `open` placed at `i`, just after `pre`, and `close` at `j`, just
   * after `a`, and neither found earlier than placed, the lazy match is this
   * pair and captures `a`.
   */
  lemma PlacedPairFound(pre: string, open: string, a: string, close: string, rest: string, i: nat, q: nat, j: nat)
    requires i == |pre| && q == i + |open| && j == q + |a|
    requires forall k :: 0 <= k < i ==> !Occurs(pre + open + a + close + rest, open, k)
    requires forall k :: q <= k < j ==> !Occurs(pre + open + a + close + rest, close, k)
    ensures LazySpan(pre + open + a + close + rest, open, close) == Some(Span(i, j))
    ensures (pre + open + a + close + rest)[q..j] == a
  {
    var s := pre + open + a + close + rest;
    PlacedPieces(pre, open, a, close, rest);
    FindFromIsFirst(s, open, 0, i);
    FindFromIsFirst(s, close, q, j);
    LazySpanOfFound(s, open, close, i, q, j);
  }

  /** The summary of a text whose summary match is known. */
  lemma SummaryOfSpan(s: string, i: nat, q: nat, j: nat)
    requires q == i + |SummaryMarker| && q <= j <= |s|
    requires LazySpan(s, SummaryMarker, KeyPointsMarker) == Some(Span(i, j))
    ensures ExtractSummary(s) == NewlinesToSpaces(Trim(s[q..j]))
  {
    assert Group(s, SummaryMarker, Span(i, j)) == s[q..j];
  }

  /** The key points of a text whose key-points match is known. */
  lemma KeyPointsOfSpan(s: string, i: nat, q: nat, j: nat)
    requires q == i + |KeyPointsMarker| && q <= j <= |s|
    requires LazySpan(s, KeyPointsMarker, RatingMarker) == Some(Span(i, j))
    ensures ExtractKeyPoints(s) == CleanAndFilter(SplitOnNumbering(s[q..j]))
  {
    assert Group(s, KeyPointsMarker, Span(i, j)) == s[q..j];
  }

  /**
   * Such a response has as summary its summary body, trimmed, with each `\n`
   * made a space; what follows the Key Points marker plays no part.
   */
  lemma SummaryOfOrderedSections(pre: string, a: string, rest: string)
    requires forall k :: 0 <= k < |pre| ==> !Occurs(pre + SummaryMarker + a + KeyPointsMarker + rest, SummaryMarker, k)
    requires forall k :: |pre| + |SummaryMarker| <= k < |pre| + |SummaryMarker| + |a| ==>
               !Occurs(pre + SummaryMarker + a + KeyPointsMarker + rest, KeyPointsMarker, k)
    ensures ExtractSummary(pre + SummaryMarker + a + KeyPointsMarker + rest) == NewlinesToSpaces(Trim(a))
  {
    var s := pre + SummaryMarker + a + KeyPointsMarker + rest;
    var i := |pre|;
    var q := i + |SummaryMarker|;
    var j := q + |a|;
    PlacedPairFound(pre, SummaryMarker, a, KeyPointsMarker, rest, i, q, j);
    SummaryOfSpan(s, i, q, j);
  }

  /** Such a response has as key points the kept fragments of its key-points body. */
  lemma KeyPointsOfOrderedSections(pre: string, a: string, b: string, rest: string)
    requires forall k :: 0 <= k < |pre + SummaryMarker + a| ==>
               !Occurs(pre + SummaryMarker + a + KeyPointsMarker + b + RatingMarker + rest, KeyPointsMarker, k)
    requires forall k :: |pre + SummaryMarker + a| + |KeyPointsMarker| <= k < |pre + SummaryMarker + a| + |KeyPointsMarker| + |b| ==>
               !Occurs(pre + SummaryMarker + a + KeyPointsMarker + b + RatingMarker + rest, RatingMarker, k)
    ensures ExtractKeyPoints(pre + SummaryMarker + a + KeyPointsMarker + b + RatingMarker + rest) == CleanAndFilter(SplitOnNumbering(b))
  {
    var head := pre + SummaryMarker + a;
    var s := head + KeyPointsMarker + b + RatingMarker + rest;
    var i := |head|;
    var q := i + |KeyPointsMarker|;
    var j := q + |b|;
    PlacedPairFound(head, KeyPointsMarker, b, RatingMarker, rest, i, q, j);
    KeyPointsOfSpan(s, i, q, j);
  }

  /** Such a response has as rating the word after the Rating marker. */
  lemma RatingOfOrderedSections(pre: string, a: string, b: string, ws: string, w: string, rest: string)
    requires AllSpace(ws) && w != [] && (forall c :: c in w ==> IsWordChar(c))
    requires rest == [] || !IsWordChar(rest[0])
    requires forall k :: 0 <= k < |pre + SummaryMarker + a + KeyPointsMarker + b| ==>
               !Occurs(pre + SummaryMarker + a + KeyPointsMarker + b + RatingMarker + ws + w + rest, RatingMarker, k)
    ensures ExtractRating(pre + SummaryMarker + a + KeyPointsMarker + b + RatingMarker + ws + w + rest) == w
  {
    RatingOfFirstMarker(pre + SummaryMarker + a + KeyPointsMarker + b, ws, w, rest);
  }

  /**
   * A response with the three sections in the prompt's order, each marker the
   * first of its kind, parses to exactly their contents: the summary body
   * trimmed with each `\n` a space, the kept fragments of the key-points body,
   * and the word after the Rating marker.
   */
  lemma SectionsInOrder(pre: string, a: string, b: string, ws: string, w: string, rest: string)
    requires AllSpace(ws) && w != [] && (forall c :: c in w ==> IsWordChar(c))
    requires rest == [] || !IsWordChar(rest[0])
    requires PlacedMarkersFirst(pre + SummaryMarker + a + KeyPointsMarker + b + RatingMarker + ws + w + rest, pre, a, b)
    ensures ParseGeminiResponse(Text(pre + SummaryMarker + a + KeyPointsMarker + b + RatingMarker + ws + w + rest))
         == AnalysisRecord(NewlinesToSpaces(Trim(a)), w, CleanAndFilter(SplitOnNumbering(b)))
  {
    RegroupLast5(pre + SummaryMarker + a + KeyPointsMarker, b, RatingMarker, ws, w, rest);
    SummaryOfOrderedSections(pre, a, b + RatingMarker + ws + w + rest);
    RegroupLast3(pre + SummaryMarker + a + KeyPointsMarker + b + RatingMarker, ws, w, rest);
    KeyPointsOfOrderedSections(pre, a, b, ws + w + rest);
    RatingOfOrderedSections(pre, a, b, ws, w, rest);
  }

  lemma RegroupLast5(h: string, x1: string, x2: string, x3: string, x4: string, x5: string)
    ensures h + x1 + x2 + x3 + x4 + x5 == h + (x1 + x2 + x3 + x4 + x5)
  {
  }

  lemma RegroupLast3(h: string, x1: string, x2: string, x3: string)
    ensures h + x1 + x2 + x3 == h + (x1 + x2 + x3)
  {
  }

  /** A text that ends with its first Rating marker has no rating. */
  lemma RatingMarkerAtEnd(head: string)
    requires forall k :: 0 <= k < |head| ==> !Occurs(head + RatingMarker, RatingMarker, k)
    ensures ExtractRating(head + RatingMarker) == NotRated
  {
    var s := head + RatingMarker;
    forall i | 0 <= i ensures !RatingAt(s, i) {
      if i == |head| {
        assert AfterRatingMarker(s, i) == |s|;
      }
    }
  }

  /**
   * Bodies that hold no `*` and do not open with a capital cannot hide a
   * marker: in such a response each marker is the first of its kind.
   */
  lemma StarFreeBodiesKeepMarkersFirst(pre: string, a: string, b: string, tail: string)
    requires '*' !in pre && '*' !in a && '*' !in b
    requires a == [] || !IsUpper(a[0])
    requires b == [] || !IsUpper(b[0])
    requires |tail| >= |RatingMarker| && tail[..|RatingMarker|] == RatingMarker
    ensures PlacedMarkersFirst(pre + SummaryMarker + a + KeyPointsMarker + b + tail, pre, a, b)
  {
    MarkersAreLabels();
    PlacedLabelsFirst(pre, SummaryMarker, a, KeyPointsMarker, b, RatingMarker, tail);
  }

  /** In such a layout of three labels with distinct capitals, each is the first of its kind. */
  lemma PlacedLabelsFirst(pre: string, sm: string, a: string, km: string, b: string, rm: string, tail: string)
    requires IsLabel(sm) && IsLabel(km) && IsLabel(rm) && NoInnerLabel(sm) && NoInnerLabel(km)
    requires sm[2] != km[2] && sm[2] != rm[2] && km[2] != rm[2]
    requires '*' !in pre && '*' !in a && '*' !in b
    requires a == [] || !IsUpper(a[0])
    requires b == [] || !IsUpper(b[0])
    requires |tail| >= |rm| && tail[..|rm|] == rm
    ensures var s := pre + sm + a + km + b + tail;
            var p2 := |pre| + |sm| + |a|;
            var p4 := p2 + |km| + |b|;
            && (forall k :: 0 <= k < |pre| ==> !Occurs(s, sm, k))
            && (forall k :: 0 <= k < p2 ==> !Occurs(s, km, k))
            && (forall k :: 0 <= k < p4 ==> !Occurs(s, rm, k))
  {
    var s := pre + sm + a + km + b + tail;
    var p2 := |pre| + |sm| + |a|;
    var p4 := p2 + |km| + |b|;
    PlacedTextLayout(pre, sm, a, km, b, rm, tail);
    FirstOccurrenceAt(s, sm, km, |pre|, p2, p4, 0);
    FirstOccurrenceAt(s, km, sm, p2, |pre|, p4, 0);
    ThirdLabelFirst(s, sm, km, rm, |pre|, p2, p4);
  }

  /** When the only labels below `p4` are `sm` at `p0` and `km` at `p2`, a label `rm` with another capital occurs nowhere below `p4`. */
  lemma ThirdLabelFirst(s: string, sm: string, km: string, rm: string, p0: nat, p2: nat, p4: nat)
    requires IsLabel(sm) && IsLabel(km) && IsLabel(rm) && sm[2] != rm[2] && km[2] != rm[2]
    requires Occurs(s, sm, p0) && Occurs(s, km, p2)
    requires forall k :: 0 <= k < p4 && LabelAt(s, k) ==> k == p0 || k == p2
    ensures forall k :: 0 <= k < p4 ==> !Occurs(s, rm, k)
  {
    LabelCapitals(s, sm, km, rm[2], p0, p2, p4);
    RatingLabelFirst(s, rm, p4);
  }

  /** One space before trimmed text is all that trimming removes. */
  lemma TrimAfterSpace(t: string)
    requires IsTrimmed(t)
    ensures Trim(" " + t) == t
  {
    var s := " " + t;
    SkipSpacesTo(s, 0, 1);
    assert s[1..] == t;
    SkipSpacesTo(t, 0, 0);
    TrimOfTrimmed(t);
  }

  /**
   * A response whose summary body `u` and key-points body `f` are single
   * trimmed lines without `*` or digits, each after one space, and whose
   * Rating marker ends the text, parses to `u`, the rating fallback and `f`
   * alone when it passes the filter.
   */
  lemma SectionsWithoutRatingWord(u: string, f: string)
    requires '*' !in u && '\n' !in u && IsTrimmed(u)
    requires '*' !in f && IsTrimmed(f) && forall c :: c in f ==> !IsDigit(c)
    ensures ParseGeminiResponse(Text(SummaryMarker + (" " + u) + KeyPointsMarker + (" " + f) + RatingMarker))
         == AnalysisRecord(u, NotRated, if Kept(f) then [f] else [])
  {
    SummaryWithoutRatingWord(u, f);
    KeyPointsWithoutRatingWord(u, f);
    RatingWithoutWord(u, f);
  }

  /** The bodies of such a response hold no `*` and open with a space. */
  lemma SpacedBodies(u: string, f: string)
    requires '*' !in u && '*' !in f
    ensures '*' !in " " + u && '*' !in " " + f
    ensures (" " + u)[0] == ' ' && (" " + f)[0] == ' '
  {
    assert forall c :: c in " " + u ==> c == ' ' || c in u;
    assert forall c :: c in " " + f ==> c == ' ' || c in f;
  }

  lemma SummaryWithoutRatingWord(u: string, f: string)
    requires '*' !in u && '\n' !in u && IsTrimmed(u) && '*' !in f
    ensures ExtractSummary(SummaryMarker + (" " + u) + KeyPointsMarker + (" " + f) + RatingMarker) == u
  {
    var s := SummaryMarker + (" " + u) + KeyPointsMarker + (" " + f) + RatingMarker;
    SpacedLayout(u, f);
    assert s == "" + SummaryMarker + (" " + u) + KeyPointsMarker + ((" " + f) + RatingMarker);
    SummaryOfOrderedSections("", " " + u, (" " + f) + RatingMarker);
    TrimAfterSpace(u);
  }

  lemma KeyPointsWithoutRatingWord(u: string, f: string)
    requires '*' !in u && '*' !in f && IsTrimmed(f) && forall c :: c in f ==> !IsDigit(c)
    ensures ExtractKeyPoints(SummaryMarker + (" " + u) + KeyPointsMarker + (" " + f) + RatingMarker)
         == if Kept(f) then [f] else []
  {
    var s := SummaryMarker + (" " + u) + KeyPointsMarker + (" " + f) + RatingMarker;
    SpacedLayout(u, f);
    assert s == "" + SummaryMarker + (" " + u) + KeyPointsMarker + (" " + f) + RatingMarker + [];
    KeyPointsOfOrderedSections("", " " + u, " " + f, []);
    SpaceThenUndigitedLine(f);
  }

  lemma RatingWithoutWord(u: string, f: string)
    requires '*' !in u && '*' !in f
    ensures ExtractRating(SummaryMarker + (" " + u) + KeyPointsMarker + (" " + f) + RatingMarker) == NotRated
  {
    SpacedLayout(u, f);
    RatingMarkerAtEnd(SummaryMarker + (" " + u) + KeyPointsMarker + (" " + f));
  }

  /** Such a response keeps each of its markers first. */
  lemma SpacedLayout(u: string, f: string)
    requires '*' !in u && '*' !in f
    ensures PlacedMarkersFirst(SummaryMarker + (" " + u) + KeyPointsMarker + (" " + f) + RatingMarker, "", " " + u, " " + f)
  {
    SpacedBodies(u, f);
    assert "" + SummaryMarker == SummaryMarker;
    assert RatingMarker[..|RatingMarker|] == RatingMarker;
    StarFreeBodiesKeepMarkersFirst("", " " + u, " " + f, RatingMarker);
  }

  /** One space before a trimmed line without digits is one key-point fragment, cleaned back to the line. */
  lemma SpaceThenUndigitedLine(f: string)
    requires IsTrimmed(f) && forall c :: c in f ==> !IsDigit(c)
    ensures CleanAndFilter(SplitOnNumbering(" " + f)) == if Kept(f) then [f] else []
  {
    assert forall c :: c in " " + f ==> c == ' ' || c in f;
    UndigitedIsMarkerFree(" " + f);
    UnnumberedBlockKeyPoints(" " + f);
    CleanAfterSpace(f);
  }

  lemma UndigitedIsMarkerFree(b: string)
    requires forall c :: c in b ==> !IsDigit(c)
    ensures MarkerFree(b)
  {
    forall q | 0 <= q < |b| ensures !MarkerAt(b, q) {
      assert b[q] in b;
    }
  }

  /** Cleaning a trimmed point after one space gives the point back. */
  lemma CleanAfterSpace(f: string)
    requires IsTrimmed(f)
    ensures CleanPoint(" " + f) == f
  {
    assert !Occurs(" " + f, BoldDelimiter, 0) by {
      assert (" " + f)[0] == ' ';
    }
    TrimAfterSpace(f);
  }

  /**
   * The catch branch is taken only for a value that is not a string, but its
   * record is not unique to it: a well-laid-out text can parse to the same value.
   */
  lemma CatchRecordFromText()
    ensures ParseGeminiResponse(Text(SummaryMarker + (" " + UnparsedSummary) + KeyPointsMarker + (" " + ParsingFailed) + RatingMarker))
         == CatchRecord
  {
    CatchTexts();
    CatchLiterals();
    SectionsWithoutRatingWord(UnparsedSummary, ParsingFailed);
  }

  lemma CatchLiterals()
    ensures '*' !in UnparsedSummary && '\n' !in UnparsedSummary
    ensures '*' !in ParsingFailed && forall c :: c in ParsingFailed ==> !IsDigit(c)
  {
  }
}
