// The generated-resume formatter (`formatResume`): the text is cut into lines,
// blank lines are dropped, and each remaining line becomes a heading, a list
// item or a paragraph, with list brackets opened and closed around runs of items.

module DocumentFormatter {
  import opened JsText

  /** The rendered elements, with the `<ul>` markers kept as bracket tokens. */
  datatype Block =
    | Heading(text: string)
    | ListOpen
    | ListItem(text: string)
    | ListClose
    | Paragraph(text: string)

  /** What one non-blank line is taken for, with the text it contributes. */
  datatype Line = HeadingLine(text: string) | ItemLine(text: string) | ParagraphLine(text: string)

  // ---------------------------------------------------------------------------
  // Lines: `split("\n")` and its inverse `join("\n")`
  // ---------------------------------------------------------------------------

  /** First `'\n'` at or after `from`, or the end of `s`. */
  function LineEnd(s: string, from: nat): (k: nat)
    requires from <= |s|
    ensures from <= k <= |s|
    ensures forall i :: from <= i < k ==> s[i] != '\n'
    ensures k < |s| ==> s[k] == '\n'
    decreases |s| - from
  {
    if from == |s| || s[from] == '\n' then from else LineEnd(s, from + 1)
  }

  /** `lines.join("\n")`. */
  function JoinLines(lines: seq<string>): string
  {
    if |lines| == 0 then ""
    else if |lines| == 1 then lines[0]
    else lines[0] + "\n" + JoinLines(lines[1..])
  }

  /** `s.split("\n")`: the pieces between newlines, which join back into `s`. */
  function SplitLines(s: string): (lines: seq<string>)
    ensures |lines| >= 1
    ensures forall l :: l in lines ==> '\n' !in l
    ensures JoinLines(lines) == s
    decreases |s|
  {
    var k := LineEnd(s, 0);
    assert '\n' !in s[..k] by {
      forall i | 0 <= i < k ensures s[..k][i] != '\n' {
      }
    }
    if k == |s| then
      assert s[..k] == s;
      [s]
    else
      var rest := SplitLines(s[k + 1..]);
      assert s == s[..k] + "\n" + s[k + 1..];
      [s[..k]] + rest
  }

  /** `LineEnd` stops at `k` when no newline lies before it. */
  lemma LineEndAt(s: string, from: nat, k: nat)
    requires from <= k <= |s|
    requires forall i :: from <= i < k ==> s[i] != '\n'
    requires k < |s| ==> s[k] == '\n'
    ensures LineEnd(s, from) == k
  {
  }

  /** Splitting undoes joining, for lines without a newline of their own. */
  lemma {:induction false} JoinThenSplit(lines: seq<string>)
    requires |lines| >= 1
    requires forall l :: l in lines ==> '\n' !in l
    ensures SplitLines(JoinLines(lines)) == lines
  {
    var l := lines[0];
    var s := JoinLines(lines);
    assert forall i :: 0 <= i < |l| ==> l[i] != '\n' by {
      assert l in lines;
    }
    if |lines| == 1 {
      LineEndAt(s, 0, |l|);
      assert s[..|l|] == s;
    } else {
      var rest := lines[1..];
      assert s == l + "\n" + JoinLines(rest);
      forall i | 0 <= i < |l| ensures s[i] != '\n' {
        assert s[i] == l[i];
      }
      LineEndAt(s, 0, |l|);
      assert s[..|l|] == l;
      assert s[|l| + 1..] == JoinLines(rest);
      forall m | m in rest ensures '\n' !in m {
        assert m in lines;
      }
      JoinThenSplit(rest);
    }
  }

  /** `.filter(line => line.trim() !== "")`: the lines that are not all whitespace, in order. */
  function NonBlankLines(lines: seq<string>): (r: seq<string>)
    ensures forall l :: l in r <==> l in lines && !AllSpace(l)
    ensures |r| <= |lines|
    ensures (forall l :: l in lines ==> !AllSpace(l)) ==> r == lines
    ensures (forall l :: l in lines ==> AllSpace(l)) ==> r == []
  {
    if lines == [] then []
    else
      var rest := NonBlankLines(lines[1..]);
      assert forall l :: l in lines <==> l == lines[0] || l in lines[1..];
      if Trim(lines[0]) == [] then rest else [lines[0]] + rest
  }

  // ---------------------------------------------------------------------------
  // Classifying one line
  // ---------------------------------------------------------------------------

  /** The fixed section names the heading test looks for. */
  const SectionNames: seq<string> := ["Summary", "Education", "Skills", "Projects", "Experience", "Achievements"]

  /** ASCII upper case; the `i` flag without `u` folds no other character onto ASCII. */
  function AsciiUpper(c: char): char
  {
    if 'a' <= c <= 'z' then (c as int - 32) as char else c
  }

  /** `s` starts with `name`, ignoring ASCII case. */
  predicate StartsWithIgnoringCase(s: string, name: string) {
    |name| <= |s| && forall i :: 0 <= i < |name| ==> AsciiUpper(s[i]) == AsciiUpper(name[i])
  }

  /** `/^(Summary|Education|Skills|Projects|Experience|Achievements)/i`: a prefix test only. */
  predicate IsSectionHeading(s: string)
    ensures IsSectionHeading(s) ==> |s| >= 6 && 'A' <= AsciiUpper(s[0]) <= 'Z'
  {
    if exists n :: n in SectionNames && StartsWithIgnoringCase(s, n) then
      HeadingShape(s);
      true
    else
      false
  }

  /** A line that starts with a section name has at least six characters and opens with a letter. */
  lemma HeadingShape(s: string)
    requires exists n :: n in SectionNames && StartsWithIgnoringCase(s, n)
    ensures |s| >= 6 && 'A' <= AsciiUpper(s[0]) <= 'Z'
  {
    var n :| n in SectionNames && StartsWithIgnoringCase(s, n);
    SectionNamesStartWithLetters(n);
    assert AsciiUpper(s[0]) == AsciiUpper(n[0]);
  }

  /** The heading test looks at a prefix only: whatever follows a heading keeps it one. */
  lemma HeadingTestIsPrefixTest(s: string, t: string)
    requires IsSectionHeading(s)
    ensures IsSectionHeading(s + t)
  {
    var n :| n in SectionNames && StartsWithIgnoringCase(s, n);
    assert forall i :: 0 <= i < |n| ==> (s + t)[i] == s[i];
    assert StartsWithIgnoringCase(s + t, n);
  }

  /** `/^[-•]/` on one character. */
  predicate IsBullet(c: char) {
    c == '-' || c == '•'
  }

  lemma SectionNamesStartWithLetters(n: string)
    requires n in SectionNames
    ensures |n| >= 6 && 'A' <= n[0] <= 'Z'
  {
  }

  lemma LetterIsNoSpace(c: char)
    requires 'A' <= AsciiUpper(c) <= 'Z'
    ensures !IsSpace(c)
  {
  }

  /** A line whose first character is not an ASCII letter is no heading. */
  lemma NoHeadingWithoutLetter(s: string)
    requires s == [] || !('A' <= AsciiUpper(s[0]) <= 'Z')
    ensures !IsSectionHeading(s)
  {
    forall n | n in SectionNames ensures !StartsWithIgnoringCase(s, n) {
      SectionNamesStartWithLetters(n);
    }
  }

  /**
   * One line, classified on its trimmed text: the heading test first, then the
   * bullet test; an item keeps what follows the bullet and the whitespace after it.
   */
  function Classify(line: string): Line
  {
    var trimmed := Trim(line);
    if IsSectionHeading(trimmed) then HeadingLine(trimmed)
    else if trimmed != [] && IsBullet(trimmed[0]) then ItemLine(TrimStart(trimmed[1..]))
    else ParagraphLine(trimmed)
  }

  /** A classified line carries text with no whitespace at either end, made only of characters of the line. */
  lemma ClassifiedText(line: string)
    ensures IsTrimmed(Classify(line).text)
    ensures forall c :: c in Classify(line).text ==> c in line
  {
    var t := Trim(line);
    if Classify(line).ItemLine? {
      ItemTextIsTrimmed(t);
    }
  }

  /**
   * A line is a heading exactly when its trimmed text passes the heading test,
   * and an item exactly when it fails that test and starts with a bullet. A
   * heading or paragraph carries the whole trimmed line; an item carries the
   * trimmed line minus its bullet and the whitespace right after it.
   */
  lemma ClassifyLine(line: string)
    ensures var c, t := Classify(line), Trim(line);
      && (c.HeadingLine? <==> IsSectionHeading(t))
      && (c.ItemLine? <==> !IsSectionHeading(t) && t != [] && IsBullet(t[0]))
      && (!c.ItemLine? ==> c.text == t)
      && (c.ItemLine? ==>
            |c.text| < |t| && t[|t| - |c.text|..] == c.text && AllSpace(t[1..|t| - |c.text|])
            && (c.text == [] || !IsSpace(c.text[0])))
  {
    ItemText(line);
  }

  lemma ItemText(line: string)
    ensures var c, t := Classify(line), Trim(line);
      c.ItemLine? ==>
        |c.text| < |t| && t[|t| - |c.text|..] == c.text && AllSpace(t[1..|t| - |c.text|])
        && (c.text == [] || !IsSpace(c.text[0]))
  {
    var t := Trim(line);
    if !IsSectionHeading(t) && t != [] && IsBullet(t[0]) {
      var item := TrimStart(t[1..]);
      assert Classify(line) == ItemLine(item);
      AfterBullet(t, item);
      assert t[1..|t| - |Classify(line).text|] == t[1..|t| - |item|];
    } else {
      assert !Classify(line).ItemLine?;
    }
  }

  /** What follows the first character of `t` and the whitespace after it is a suffix of `t`. */
  lemma AfterBullet(t: string, item: string)
    requires t != [] && item == TrimStart(t[1..])
    ensures && |item| < |t| && t[|t| - |item|..] == item && AllSpace(t[1..|t| - |item|])
            && (item == [] || !IsSpace(item[0]))
  {
    assert t[|t| - |item|..] == t[1..][|t| - 1 - |item|..];
    assert t[1..|t| - |item|] == t[1..][..|t| - 1 - |item|];
  }

  /** `lines.forEach`: every non-blank line classified, in order. */
  function Kinds(lines: seq<string>): seq<Line>
  {
    seq(|lines|, i requires 0 <= i < |lines| => Classify(lines[i]))
  }

  // ---------------------------------------------------------------------------
  // The block sequence
  // ---------------------------------------------------------------------------

  /**
   * One iteration of the loop: `content` after the pushes for `kind`, and the
   * new `insideList`. A heading or paragraph first closes an open list; an
   * item first opens one when none is open.
   */
  function PushLine(content: seq<Block>, kind: Line, insideList: bool): (r: (seq<Block>, bool))
    ensures content < r.0 && |r.0| <= |content| + 2
    ensures r.1 <==> kind.ItemLine?
    ensures |r.0| == |content| + 2 <==> insideList != r.1
  {
    match kind
    case HeadingLine(t) => ((if insideList then content + [ListClose] else content) + [Heading(t)], false)
    case ItemLine(t) => ((if insideList then content else content + [ListOpen]) + [ListItem(t)], true)
    case ParagraphLine(t) => ((if insideList then content + [ListClose] else content) + [Paragraph(t)], false)
  }

  /** The pushes for all of `kinds` from `content` and `insideList`, then the final close of an open list. */
  function FormatFrom(content: seq<Block>, kinds: seq<Line>, insideList: bool): (r: seq<Block>)
    ensures content <= r && |content| + |kinds| <= |r|
    decreases |kinds|
  {
    if kinds == [] then (if insideList then content + [ListClose] else content)
    else
      var (next, inside) := PushLine(content, kinds[0], insideList);
      FormatFrom(next, kinds[1..], inside)
  }

  /** Formatting from position `i` is pushing line `i` and formatting from `i + 1`. */
  lemma FormatFromAt(content: seq<Block>, kinds: seq<Line>, i: nat, insideList: bool)
    requires i < |kinds|
    ensures var (next, inside) := PushLine(content, kinds[i], insideList);
      FormatFrom(content, kinds[i..], insideList) == FormatFrom(next, kinds[i + 1..], inside)
  {
    assert kinds[i..][1..] == kinds[i + 1..];
  }

  /** The whole formatter as a function of the text. */
  function FormatDocument(text: string): (r: seq<Block>)
  {
    FormatFrom([], Kinds(NonBlankLines(SplitLines(text))), false)
  }

  /** `formatResume`: split the text into lines, drop the blank ones, and format the rest. */
  method FormatResume(resumeText: string) returns (formattedContent: seq<Block>)
    ensures formattedContent == FormatDocument(resumeText)
  {
    var lines := NonBlankLines(SplitLines(resumeText));
    formattedContent := FormatLines(lines);
  }

  /**
   * The `forEach` pass of `formatResume`: run the callback on each line, then
   * close a list left open.
   */
  method FormatLines(lines: seq<string>) returns (formattedContent: seq<Block>)
    ensures formattedContent == FormatFrom([], Kinds(lines), false)
  {
    ghost var kinds := Kinds(lines);
    formattedContent := [];
    var insideList := false;
    var index := 0;
    while index < |lines|
      invariant 0 <= index <= |lines|
      invariant FormatFrom(formattedContent, kinds[index..], insideList) == FormatFrom([], kinds, false)
    {
      FormatFromAt(formattedContent, kinds, index, insideList);
      formattedContent, insideList := FormatLine(formattedContent, lines[index], insideList);
      index := index + 1;
    }
    if insideList {
      formattedContent := formattedContent + [ListClose];
    }
  }

  /**
   * The `forEach` callback: classify the trimmed line, close or open the list
   * as its kind requires, and push its block.
   */
  method FormatLine(content: seq<Block>, line: string, insideList: bool)
    returns (formattedContent: seq<Block>, stillInsideList: bool)
    ensures (formattedContent, stillInsideList) == PushLine(content, Classify(line), insideList)
  {
    formattedContent, stillInsideList := content, insideList;
    var trimmed := Trim(line);
    if IsSectionHeading(trimmed) {
      if stillInsideList {
        formattedContent := formattedContent + [ListClose];
        stillInsideList := false;
      }
      formattedContent := formattedContent + [Heading(trimmed)];
    } else if trimmed != [] && IsBullet(trimmed[0]) {
      if !stillInsideList {
        formattedContent := formattedContent + [ListOpen];
        stillInsideList := true;
      }
      formattedContent := formattedContent + [ListItem(TrimStart(trimmed[1..]))];
    } else {
      if stillInsideList {
        formattedContent := formattedContent + [ListClose];
        stillInsideList := false;
      }
      formattedContent := formattedContent + [Paragraph(trimmed)];
    }
  }

  // ---------------------------------------------------------------------------
  // Bracketing
  // ---------------------------------------------------------------------------

  /** How a block changes the list depth. */
  function Delta(b: Block): int
  {
    match b
    case ListOpen => 1
    case ListClose => -1
    case _ => 0
  }

  /** The list depth a block must be reached at: items and closes inside a list, the rest outside. */
  function Level(b: Block): int
  {
    match b
    case ListItem(_) => 1
    case ListClose => 1
    case _ => 0
  }

  /** Opens minus closes. */
  function Depth(bs: seq<Block>): int
  {
    if bs == [] then 0 else Depth(bs[..|bs| - 1]) + Delta(bs[|bs| - 1])
  }

  /** Every block is reached at the depth its kind calls for. */
  predicate LevelsHold(bs: seq<Block>) {
    forall k {:trigger Depth(bs[..k])} :: 0 <= k < |bs| ==> Depth(bs[..k]) == Level(bs[k])
  }

  /**
   * A list opens only outside a list, closes only inside one, items stand only
   * inside one, headings and paragraphs only outside, and nothing is left open.
   */
  predicate WellBracketed(bs: seq<Block>) {
    LevelsHold(bs) && Depth(bs) == 0
  }

  /** Appending a block at its own level keeps the levels and moves the depth by its delta. */
  lemma Append(bs: seq<Block>, b: Block)
    requires LevelsHold(bs) && Depth(bs) == Level(b)
    ensures LevelsHold(bs + [b]) && Depth(bs + [b]) == Level(b) + Delta(b)
  {
    var c := bs + [b];
    assert c[..|bs|] == bs;
    forall k | 0 <= k < |c| ensures Depth(c[..k]) == Level(c[k]) {
      if k < |bs| {
        assert c[..k] == bs[..k];
      }
    }
  }

  /** Pushing one line onto content left at the matching depth keeps the levels. */
  lemma PushLineBracketed(content: seq<Block>, kind: Line, insideList: bool)
    requires LevelsHold(content) && Depth(content) == (if insideList then 1 else 0)
    ensures var (next, inside) := PushLine(content, kind, insideList);
      LevelsHold(next) && Depth(next) == (if inside then 1 else 0)
  {
    match kind
    case ItemLine(t) =>
      var lead := if insideList then content else content + [ListOpen];
      if !insideList {
        Append(content, ListOpen);
      }
      Append(lead, ListItem(t));
    case _ =>
      var lead := if insideList then content + [ListClose] else content;
      if insideList {
        Append(content, ListClose);
      }
      Append(lead, if kind.HeadingLine? then Heading(kind.text) else Paragraph(kind.text));
  }

  /** Formatting onto content left at the matching depth ends well bracketed. */
  lemma {:induction false} FormatFromBracketed(content: seq<Block>, kinds: seq<Line>, insideList: bool)
    requires LevelsHold(content) && Depth(content) == (if insideList then 1 else 0)
    ensures WellBracketed(FormatFrom(content, kinds, insideList))
    decreases |kinds|
  {
    if kinds == [] {
      if insideList {
        Append(content, ListClose);
      }
    } else {
      PushLineBracketed(content, kinds[0], insideList);
      var (next, inside) := PushLine(content, kinds[0], insideList);
      FormatFromBracketed(next, kinds[1..], inside);
    }
  }

  /** The formatter's output is well bracketed, whatever the text. */
  lemma FormatIsWellBracketed(text: string)
    ensures WellBracketed(FormatDocument(text))
  {
    FormatFromBracketed([], Kinds(NonBlankLines(SplitLines(text))), false);
  }

  /** Lists never nest: the depth is 0 or 1 before every block and at the end. */
  lemma ListsNeverNest(bs: seq<Block>)
    requires WellBracketed(bs)
    ensures forall k :: 0 <= k <= |bs| ==> 0 <= Depth(bs[..k]) <= 1
  {
    forall k | 0 <= k <= |bs| ensures 0 <= Depth(bs[..k]) <= 1 {
      if k > 0 {
        assert bs[..k][..k - 1] == bs[..k - 1];
      }
    }
  }

  /** A run of items leaves the depth where it was. */
  lemma {:induction false} ItemsKeepDepth(bs: seq<Block>, a: nat, b: nat)
    requires a <= b <= |bs|
    requires forall m :: a <= m < b ==> bs[m].ListItem?
    ensures Depth(bs[..b]) == Depth(bs[..a])
    decreases b - a
  {
    if a < b {
      ItemsKeepDepth(bs, a, b - 1);
      assert bs[..b][..b - 1] == bs[..b - 1];
    }
  }

  /** The first index at or after `from` that holds no item. */
  function NextNonItem(bs: seq<Block>, from: nat): (k: nat)
    requires from <= |bs|
    ensures from <= k <= |bs|
    ensures forall m :: from <= m < k ==> bs[m].ListItem?
    ensures k < |bs| ==> !bs[k].ListItem?
    decreases |bs| - from
  {
    if from == |bs| || !bs[from].ListItem? then from else NextNonItem(bs, from + 1)
  }

  /** The last index before `to` that holds no item, or -1. */
  function PrevNonItem(bs: seq<Block>, to: nat): (k: int)
    requires to <= |bs|
    ensures -1 <= k < to
    ensures forall m :: k < m < to ==> bs[m].ListItem?
    ensures k >= 0 ==> !bs[k].ListItem?
  {
    if to == 0 then -1
    else if !bs[to - 1].ListItem? then to - 1
    else PrevNonItem(bs, to - 1)
  }

  /** Every `ListOpen` is followed, past nothing but items, by its `ListClose`. */
  lemma ListOpenIsClosed(bs: seq<Block>, j: nat)
    requires WellBracketed(bs) && j < |bs| && bs[j] == ListOpen
    ensures exists l :: j < l < |bs| && bs[l] == ListClose && forall m :: j < m < l ==> bs[m].ListItem?
  {
    var l := NextNonItem(bs, j + 1);
    ItemsKeepDepth(bs, j + 1, l);
    assert bs[..j + 1][..j] == bs[..j];
    assert bs[..|bs|] == bs;
    assert Depth(bs[..l]) == 1;
    assert l < |bs|;
    assert bs[l] == ListClose;
  }

  /** Every item sits between a `ListOpen` and the `ListClose` that matches it, among items only. */
  lemma ItemIsEnclosed(bs: seq<Block>, k: nat)
    requires WellBracketed(bs) && k < |bs| && bs[k].ListItem?
    ensures exists j: nat, l :: j < k < l < |bs| && bs[j] == ListOpen && bs[l] == ListClose
                                && (forall m :: j < m < l ==> bs[m].ListItem?)
  {
    var j := ItemFollowsOpen(bs, k);
    ListOpenIsClosed(bs, j);
    var l :| j < l < |bs| && bs[l] == ListClose && forall m :: j < m < l ==> bs[m].ListItem?;
    assert k < l;
  }

  /** The last block before an item that is not an item is a `ListOpen`. */
  lemma ItemFollowsOpen(bs: seq<Block>, k: nat) returns (j: nat)
    requires LevelsHold(bs) && k < |bs| && bs[k].ListItem?
    ensures j < k && bs[j] == ListOpen && forall m :: j < m < k ==> bs[m].ListItem?
  {
    var p := PrevNonItem(bs, k);
    assert Depth(bs[..k]) == 1;
    if p < 0 {
      ItemsKeepDepth(bs, 0, k);
      assert false;
    }
    j := p;
    ItemsKeepDepth(bs, j + 1, k);
    assert bs[..j + 1][..j] == bs[..j];
  }

  // ---------------------------------------------------------------------------
  // Neighbours
  // ---------------------------------------------------------------------------

  /**
   * Block `b` may stand right after block `a`: an open is followed by an item,
   * a close by a heading or paragraph, and a list is opened only after a
   * heading or paragraph and closed only after an item.
   */
  predicate MayFollow(a: Block, b: Block) {
    && (a.ListOpen? ==> b.ListItem?)
    && (a.ListClose? ==> b.Heading? || b.Paragraph?)
    && (b.ListOpen? ==> a.Heading? || a.Paragraph?)
    && (b.ListClose? ==> a.ListItem?)
  }

  /** Every block may follow the one before it. */
  predicate NeighboursFit(bs: seq<Block>) {
    forall k :: 0 < k < |bs| ==> MayFollow(bs[k - 1], bs[k])
  }

  /**
   * What the loop leaves between two lines: it ends in a line's own block, an
   * item exactly when a list is open.
   */
  predicate Settled(bs: seq<Block>, insideList: bool) {
    && (bs != [] ==> !bs[|bs| - 1].ListOpen? && !bs[|bs| - 1].ListClose?)
    && (insideList <==> bs != [] && bs[|bs| - 1].ListItem?)
  }

  lemma AppendFitting(bs: seq<Block>, b: Block)
    requires NeighboursFit(bs) && (bs != [] ==> MayFollow(bs[|bs| - 1], b))
    ensures NeighboursFit(bs + [b])
  {
    var c := bs + [b];
    forall k | 0 < k < |c| ensures MayFollow(c[k - 1], c[k]) {
      if k < |bs| {
        assert c[k - 1] == bs[k - 1] && c[k] == bs[k];
      }
    }
  }

  /** Pushing one line keeps every block fitting its neighbour and leaves the loop settled. */
  lemma PushLineFits(content: seq<Block>, kind: Line, insideList: bool)
    requires NeighboursFit(content) && Settled(content, insideList)
    ensures var (next, inside) := PushLine(content, kind, insideList);
      NeighboursFit(next) && Settled(next, inside)
  {
    var block := match kind
      case HeadingLine(t) => Heading(t)
      case ItemLine(t) => ListItem(t)
      case ParagraphLine(t) => Paragraph(t);
    var lead := content;
    if insideList != kind.ItemLine? {
      var bracket := if kind.ItemLine? then ListOpen else ListClose;
      AppendFitting(content, bracket);
      lead := content + [bracket];
    }
    AppendFitting(lead, block);
    assert PushLine(content, kind, insideList).0 == lead + [block];
  }

  /**
   * Formatting from a settled loop keeps every block fitting its neighbour,
   * never ends on an open and never starts with a close.
   */
  lemma {:induction false} FormatFromFits(content: seq<Block>, kinds: seq<Line>, insideList: bool)
    requires NeighboursFit(content) && Settled(content, insideList)
    requires content != [] ==> !content[0].ListClose?
    ensures var r := FormatFrom(content, kinds, insideList);
      && NeighboursFit(r) && (r != [] ==> !r[|r| - 1].ListOpen?)
      && (r != [] ==> !r[0].ListClose?)
    decreases |kinds|
  {
    if kinds == [] {
      if insideList {
        AppendFitting(content, ListClose);
      }
    } else {
      PushLineFits(content, kinds[0], insideList);
      var (next, inside) := PushLine(content, kinds[0], insideList);
      FormatFromFits(next, kinds[1..], inside);
    }
  }

  /**
   * In the output, a list opens right after a heading or paragraph (or at the
   * start) and right before its first item, so consecutive items share one
   * open; it closes right after its last item and right before a heading or
   * paragraph, or at the end.
   */
  lemma ListBoundaries(text: string)
    ensures ListsHugItems(FormatDocument(text))
  {
    FormattedLinesHugItems(Kinds(NonBlankLines(SplitLines(text))));
  }

  lemma FormattedLinesHugItems(kinds: seq<Line>)
    ensures ListsHugItems(FormatFrom([], kinds, false))
  {
    FormatFromFits([], kinds, false);
    FittingBlocksHugItems(FormatFrom([], kinds, false));
  }

  /** Opens stand between a heading or paragraph (or the start) and an item; closes between an item and a heading or paragraph (or the end). */
  predicate ListsHugItems(bs: seq<Block>) {
    && (forall k :: 0 <= k < |bs| && bs[k].ListOpen? ==>
          (k == 0 || bs[k - 1].Heading? || bs[k - 1].Paragraph?) && k + 1 < |bs| && bs[k + 1].ListItem?)
    && (forall k :: 0 <= k < |bs| && bs[k].ListClose? ==>
          0 < k && bs[k - 1].ListItem? && (k + 1 == |bs| || bs[k + 1].Heading? || bs[k + 1].Paragraph?))
  }

  lemma FittingBlocksHugItems(bs: seq<Block>)
    requires NeighboursFit(bs) && (bs != [] ==> !bs[|bs| - 1].ListOpen?)
    requires bs != [] ==> !bs[0].ListClose?
    ensures ListsHugItems(bs)
  {
    forall k | 0 <= k < |bs| ensures bs[k].ListOpen? ==> k + 1 < |bs| && MayFollow(bs[k], bs[k + 1]) {
      if k + 1 < |bs| {
        assert MayFollow(bs[k + 1 - 1], bs[k + 1]);
      }
    }
  }

  // ---------------------------------------------------------------------------
  // Content
  // ---------------------------------------------------------------------------

  /** The line a block stands for; the brackets stand for none. */
  function BlockLine(b: Block): seq<Line>
  {
    match b
    case Heading(t) => [HeadingLine(t)]
    case ListItem(t) => [ItemLine(t)]
    case Paragraph(t) => [ParagraphLine(t)]
    case _ => []
  }

  /** The blocks with the brackets dropped. */
  function Contents(bs: seq<Block>): seq<Line>
  {
    if bs == [] then [] else BlockLine(bs[0]) + Contents(bs[1..])
  }

  lemma {:induction false} ContentsAppend(a: seq<Block>, b: seq<Block>)
    ensures Contents(a + b) == Contents(a) + Contents(b)
  {
    if a != [] {
      assert (a + b)[1..] == a[1..] + b;
      ContentsAppend(a[1..], b);
    } else {
      assert a + b == b;
    }
  }

  /** Pushing a line adds exactly that line to the contents. */
  lemma PushLineContents(content: seq<Block>, kind: Line, insideList: bool)
    ensures Contents(PushLine(content, kind, insideList).0) == Contents(content) + [kind]
  {
    var bracket := if kind.ItemLine? then ListOpen else ListClose;
    var block := match kind
      case HeadingLine(t) => Heading(t)
      case ItemLine(t) => ListItem(t)
      case ParagraphLine(t) => Paragraph(t);
    var lead := if insideList == kind.ItemLine? then content else content + [bracket];
    ContentsAppend(content, [bracket]);
    ContentsAppend(lead, [block]);
  }

  /** Without its brackets, the output is what was there followed by the classified lines, in order. */
  lemma {:induction false} FormatFromContents(content: seq<Block>, kinds: seq<Line>, insideList: bool)
    ensures Contents(FormatFrom(content, kinds, insideList)) == Contents(content) + kinds
    decreases |kinds|
  {
    if kinds == [] {
      CloseContents(content, insideList);
    } else {
      var (next, inside) := PushLine(content, kinds[0], insideList);
      FormatFromContents(next, kinds[1..], inside);
      StepContents(content, kinds, insideList, next, inside);
    }
  }

  /** Closing the last list adds no line. */
  lemma CloseContents(content: seq<Block>, insideList: bool)
    ensures Contents(FormatFrom(content, [], insideList)) == Contents(content)
  {
    ContentsAppend(content, [ListClose]);
  }

  /** One line pushed, the rest formatted: the contents grow by exactly that line. */
  lemma StepContents(content: seq<Block>, kinds: seq<Line>, insideList: bool, next: seq<Block>, inside: bool)
    requires kinds != [] && (next, inside) == PushLine(content, kinds[0], insideList)
    requires Contents(FormatFrom(next, kinds[1..], inside)) == Contents(next) + kinds[1..]
    ensures Contents(FormatFrom(content, kinds, insideList)) == Contents(content) + kinds
  {
    assert FormatFrom(content, kinds, insideList) == FormatFrom(next, kinds[1..], inside);
    PushLineContents(content, kinds[0], insideList);
    AppendFirstThenRest(Contents(content), kinds);
  }

  /** Appending the head of `s` and then its tail is appending `s`. */
  lemma AppendFirstThenRest<T>(c: seq<T>, s: seq<T>)
    requires s != []
    ensures (c + [s[0]]) + s[1..] == c + s
  {
    assert s == [s[0]] + s[1..];
  }

  /**
   * The headings, items and paragraphs of the output are the non-blank lines
   * of the text, one each and in order, each classified on its own.
   */
  lemma FormatContents(text: string)
    ensures Contents(FormatDocument(text)) == Kinds(NonBlankLines(SplitLines(text)))
  {
    FormatFromContents([], Kinds(NonBlankLines(SplitLines(text))), false);
  }

  /** Text with no visible character formats to nothing. */
  lemma BlankTextFormatsToNothing(text: string)
    requires AllSpace(text)
    ensures FormatDocument(text) == []
  {
    SplitOfBlankText(text);
  }

  /** The pieces of an all-whitespace text are all whitespace. */
  lemma {:induction false} SplitOfBlankText(s: string)
    requires AllSpace(s)
    ensures forall l :: l in SplitLines(s) ==> AllSpace(l)
    decreases |s|
  {
    var k := LineEnd(s, 0);
    if k < |s| {
      SplitOfBlankText(s[k + 1..]);
    }
  }

  // ---------------------------------------------------------------------------
  // Round trip
  // ---------------------------------------------------------------------------

  /** The source line a classified line is written back as. */
  function Render(l: Line): string
  {
    match l
    case HeadingLine(t) => t
    case ItemLine(t) => "- " + t
    case ParagraphLine(t) => t
  }

  /** Classified lines written back, one string each. */
  function Renders(kinds: seq<Line>): seq<string>
  {
    seq(|kinds|, i requires 0 <= i < |kinds| => Render(kinds[i]))
  }

  /** The lines the blocks are written back as: headings and paragraphs as they are, items after `"- "`. */
  function Unformat(bs: seq<Block>): seq<string>
  {
    Renders(Contents(bs))
  }

  /** What `Classify` can produce from a non-blank line without a newline. */
  predicate Canonical(l: Line) {
    '\n' !in l.text && IsTrimmed(l.text)
    && match l
       case HeadingLine(t) => IsSectionHeading(t)
       case ItemLine(_) => true
       case ParagraphLine(t) => t != [] && !IsSectionHeading(t) && !IsBullet(t[0])
  }

  lemma ClassifyIsCanonical(line: string)
    requires '\n' !in line && !AllSpace(line)
    ensures Canonical(Classify(line))
  {
    ClassifiedText(line);
    assert Trim(line) != [];
  }

  /** What follows the bullet of a trimmed line, past its whitespace, is trimmed too, and made of its characters. */
  lemma ItemTextIsTrimmed(t: string)
    requires t != [] && IsTrimmed(t)
    ensures IsTrimmed(TrimStart(t[1..]))
    ensures forall c :: c in TrimStart(t[1..]) ==> c in t
  {
    var x := t[1..];
    var item := TrimStart(x);
    forall c | c in item ensures c in t {
      var i :| 0 <= i < |item| && item[i] == c;
      assert item[i] == x[|x| - |item| + i] == t[|t| - |item| + i];
    }
    if item != [] {
      assert item[|item| - 1] == t[|t| - 1];
    }
  }

  /** Writing a canonical line back and classifying it again gives the same line. */
  lemma RenderThenClassify(l: Line)
    requires Canonical(l)
    ensures Classify(Render(l)) == l
    ensures '\n' !in Render(l) && !AllSpace(Render(l))
  {
    match l
    case HeadingLine(t) =>
      HeadingRendersBack(t);
    case ParagraphLine(t) =>
      TrimOfTrimmed(t);
    case ItemLine(t) =>
      if t == [] {
        assert Render(l) == "- ";
        TrimOfBulletSpace(Render(l));
        BulletSpaceIsEmptyItem(Render(l));
      } else {
        BulletLineIsItem(t);
      }
  }

  /** A canonical heading is its own line. */
  lemma HeadingRendersBack(t: string)
    requires Canonical(HeadingLine(t))
    ensures Classify(t) == HeadingLine(t) && !AllSpace(t)
  {
    TrimmedHeading(t);
    LetterIsNoSpace(t[0]);
  }

  /** `"- "` followed by trimmed text is an item with that text. */
  lemma BulletLineIsItem(t: string)
    requires t != [] && IsTrimmed(t) && '\n' !in t
    ensures Classify("- " + t) == ItemLine(t)
    ensures '\n' !in "- " + t && !AllSpace("- " + t)
  {
    var s := "- " + t;
    assert s[0] == '-' && s[1..] == [' '] + t;
    assert IsTrimmed(s) by {
      assert s[|s| - 1] == t[|t| - 1];
    }
    TrimOfTrimmed(s);
    NoHeadingWithoutLetter(s);
    SkipSpacesTo(s[1..], 0, 1);
    assert s[1..][1..] == t;
    assert '\n' !in s by {
      assert forall i :: 2 <= i < |s| ==> s[i] == t[i - 2];
    }
  }

  /** Splitting and filtering the joined lines gives them back when none is blank or holds a newline. */
  lemma JoinedLinesSplitBack(lines: seq<string>)
    requires forall l :: l in lines ==> '\n' !in l && !AllSpace(l)
    ensures NonBlankLines(SplitLines(JoinLines(lines))) == lines
  {
    if lines == [] {
      assert SplitLines("") == [""];
    } else {
      JoinThenSplit(lines);
    }
  }

  /** Canonical lines, written back and read again, give themselves. */
  lemma RenderedKinds(kinds: seq<Line>)
    requires forall i :: 0 <= i < |kinds| ==> Canonical(kinds[i])
    ensures Kinds(NonBlankLines(SplitLines(JoinLines(Renders(kinds))))) == kinds
  {
    var lines := Renders(kinds);
    forall i | 0 <= i < |kinds| ensures Classify(lines[i]) == kinds[i] && '\n' !in lines[i] && !AllSpace(lines[i]) {
      RenderThenClassify(kinds[i]);
    }
    assert NonBlankLines(SplitLines(JoinLines(lines))) == lines by {
      JoinedLinesSplitBack(lines);
    }
  }

  /**
   * Writing the output back as lines and formatting those lines again yields
   * the same blocks.
   */
  lemma FormatRoundTrip(text: string)
    ensures FormatDocument(JoinLines(Unformat(FormatDocument(text)))) == FormatDocument(text)
  {
    var lines := NonBlankLines(SplitLines(text));
    var kinds := Kinds(lines);
    assert Unformat(FormatDocument(text)) == Renders(kinds) by {
      FormatContents(text);
    }
    forall i | 0 <= i < |kinds| ensures Canonical(kinds[i]) {
      assert lines[i] in lines;
      ClassifyIsCanonical(lines[i]);
    }
    RenderedKinds(kinds);
  }

  // ---------------------------------------------------------------------------
  // Examples
  // ---------------------------------------------------------------------------

  /** A trimmed line that passes the heading test is a heading with its whole text. */
  lemma TrimmedHeading(s: string)
    requires IsTrimmed(s) && IsSectionHeading(s)
    ensures Classify(s) == HeadingLine(s)
  {
    TrimOfTrimmed(s);
  }

  /** A heading is any line that starts with a section name: `"Skillset"` is one. */
  lemma SectionPrefixIsHeading()
    ensures Classify("Skillset") == HeadingLine("Skillset")
  {
    SkillsetPassesHeadingTest();
    TrimmedHeading("Skillset");
  }

  lemma SkillsetPassesHeadingTest()
    ensures IsTrimmed("Skillset") && IsSectionHeading("Skillset")
  {
    assert StartsWithIgnoringCase("Skillset", SectionNames[2]);
  }

  /** The heading test ignores case, and the heading keeps its colon. */
  lemma CapitalHeading()
    ensures Classify("EDUCATION:") == HeadingLine("EDUCATION:")
  {
    CapitalsPassHeadingTest();
    TrimmedHeading("EDUCATION:");
  }

  lemma CapitalsPassHeadingTest()
    ensures IsTrimmed("EDUCATION:") && IsSectionHeading("EDUCATION:")
  {
    assert StartsWithIgnoringCase("EDUCATION:", SectionNames[1]);
  }

  /** Indentation before a line does not change what it is classified as. */
  lemma IndentationIgnored(ws: string, line: string)
    requires AllSpace(ws)
    ensures Classify(ws + line) == Classify(line)
  {
    var s := ws + line;
    var k := SkipSpaces(line, 0);
    forall i | 0 <= i < |ws| + k ensures IsSpace(s[i]) {
      if i >= |ws| {
        assert s[i] == line[i - |ws|];
      }
    }
    assert |ws| + k < |s| ==> s[|ws| + k] == line[k];
    SkipSpacesTo(s, 0, |ws| + k);
    assert TrimStart(s) == TrimStart(line);
  }

  /** A line whose trimmed text starts with a bullet is an item, whatever follows the bullet. */
  lemma ClassifyBulletLine(line: string)
    requires Trim(line) != [] && IsBullet(Trim(line)[0])
    ensures Classify(line) == ItemLine(TrimStart(Trim(line)[1..]))
  {
    NoHeadingWithoutLetter(Trim(line));
  }

  /** A bare bullet is an item with empty text. */
  lemma LoneBulletIsEmptyItem(s: string)
    requires |s| == 1 && IsBullet(s[0])
    ensures Classify(s) == ItemLine([])
  {
    assert Trim(s) == s by {
      TrimOfTrimmed(s);
    }
    EmptyItemAfterBullet(s);
  }

  /** A bullet followed by a space is a bare bullet once trimmed. */
  lemma BulletSpaceIsEmptyItem(s: string)
    requires |s| == 2 && IsBullet(s[0]) && s[1] == ' '
    ensures Classify(s) == ItemLine([])
  {
    TrimOfBulletSpace(s);
    EmptyItemAfterBullet(s);
  }

  /** A bullet followed by a space trims to the bullet, and is neither blank nor split by a newline. */
  lemma TrimOfBulletSpace(s: string)
    requires |s| == 2 && IsBullet(s[0]) && s[1] == ' '
    ensures Trim(s) == s[..1]
    ensures !AllSpace(s) && '\n' !in s
  {
    assert SkipSpaces(s, 0) == 0;
    assert SpaceTailStart(s, 2) == 1;
  }

  /** A line that trims to its bullet alone is an empty item. */
  lemma EmptyItemAfterBullet(s: string)
    requires |Trim(s)| == 1 && IsBullet(Trim(s)[0])
    ensures Classify(s) == ItemLine([])
  {
    ClassifyBulletLine(s);
    assert Trim(s)[1..] == [];
  }

  /** The bare `-` line of the documented behaviour. */
  lemma BareBulletIsEmptyItem()
    ensures Classify("-") == ItemLine("")
  {
    LoneBulletIsEmptyItem("-");
  }

  /** A heading, two items and a paragraph format to the heading, a list of the two items, and the paragraph. */
  lemma HeadingListParagraph(h: string, p: string, q: string, r: string)
    requires Canonical(HeadingLine(h)) && Canonical(ItemLine(p)) && Canonical(ItemLine(q))
    requires Canonical(ParagraphLine(r))
    ensures FormatDocument(JoinLines([h, "- " + p, "- " + q, r]))
      == [Heading(h), ListOpen, ListItem(p), ListItem(q), ListClose, Paragraph(r)]
  {
    var kinds := [HeadingLine(h), ItemLine(p), ItemLine(q), ParagraphLine(r)];
    var lines := [h, "- " + p, "- " + q, r];
    assert Kinds(NonBlankLines(SplitLines(JoinLines(lines)))) == kinds by {
      assert lines == Renders(kinds);
      RenderedKinds(kinds);
    }
    HeadingListParagraphBlocks(h, p, q, r);
  }

  lemma HeadingListParagraphBlocks(h: string, p: string, q: string, r: string)
    ensures FormatFrom([], [HeadingLine(h), ItemLine(p), ItemLine(q), ParagraphLine(r)], false)
      == [Heading(h), ListOpen, ListItem(p), ListItem(q), ListClose, Paragraph(r)]
  {
    var kinds := [HeadingLine(h), ItemLine(p), ItemLine(q), ParagraphLine(r)];
    var first := [Heading(h), ListOpen, ListItem(p)];
    assert kinds[1..][1..] == kinds[2..];
    assert kinds[2..][1..] == kinds[3..];
    assert kinds[3..][1..] == [];
    assert PushLine([], kinds[0], false).0 == [Heading(h)];
    assert PushLine([Heading(h)], kinds[1], false).0 == first;
    assert FormatFrom([], kinds, false) == FormatFrom([Heading(h)], kinds[1..], false);
    assert FormatFrom([Heading(h)], kinds[1..], false) == FormatFrom(first, kinds[2..], true);
    assert FormatFrom(first, kinds[2..], true) == FormatFrom(first + [ListItem(q)], kinds[3..], true);
  }

  /** The documented example, `"Skills\n- Python\n- Go\nSome paragraph."`. */
  lemma SkillsExample()
    ensures FormatDocument("Skills\n- Python\n- Go\nSome paragraph.")
      == [Heading("Skills"), ListOpen, ListItem("Python"), ListItem("Go"), ListClose, Paragraph("Some paragraph.")]
  {
    ExampleLinesCanonical();
    ExampleItemLines();
    HeadingListParagraph("Skills", "Python", "Go", "Some paragraph.");
    ExampleJoined();
  }

  lemma ExampleJoined()
    ensures JoinLines(["Skills", "- Python", "- Go", "Some paragraph."]) == "Skills\n- Python\n- Go\nSome paragraph."
  {
    JoinFour("Skills", "- Python", "- Go", "Some paragraph.");
    ExampleText();
  }

  lemma JoinFour(a: string, b: string, c: string, d: string)
    ensures JoinLines([a, b, c, d]) == a + "\n" + (b + "\n" + (c + "\n" + d))
  {
    assert JoinLines([c, d]) == c + "\n" + d by {
      assert [c, d][1..] == [d];
    }
    assert JoinLines([b, c, d]) == b + "\n" + (c + "\n" + d) by {
      assert [b, c, d][1..] == [c, d];
    }
    assert [a, b, c, d][1..] == [b, c, d];
  }

  lemma ExampleText()
    ensures "Skills" + "\n" + ("- Python" + "\n" + ("- Go" + "\n" + "Some paragraph.")) == "Skills\n- Python\n- Go\nSome paragraph."
  {
    ExampleTail();
  }

  lemma ExampleTail()
    ensures "- Python" + "\n" + ("- Go" + "\n" + "Some paragraph.") == "- Python\n- Go\nSome paragraph."
  {
  }

  lemma ExampleLinesCanonical()
    ensures Canonical(HeadingLine("Skills")) && Canonical(ItemLine("Python")) && Canonical(ItemLine("Go"))
    ensures Canonical(ParagraphLine("Some paragraph."))
  {
    ExampleHeadingCanonical();
    ExampleParagraphCanonical();
    ExampleItemsCanonical();
  }

  lemma ExampleItemsCanonical()
    ensures Canonical(ItemLine("Python")) && Canonical(ItemLine("Go"))
  {
    assert !IsSpace('P') && !IsSpace('n') && !IsSpace('G') && !IsSpace('o');
  }

  lemma ExampleHeadingCanonical()
    ensures Canonical(HeadingLine("Skills"))
  {
    assert StartsWithIgnoringCase("Skills", SectionNames[2]);
  }

  lemma ExampleParagraphCanonical()
    ensures Canonical(ParagraphLine("Some paragraph."))
  {
    SomeParagraphIsNoHeading();
  }

  lemma ExampleItemLines()
    ensures "- " + "Python" == "- Python" && "- " + "Go" == "- Go"
  {
  }

  lemma SomeParagraphIsNoHeading()
    ensures !IsSectionHeading("Some paragraph.")
  {
    var s := "Some paragraph.";
    forall n | n in SectionNames ensures !StartsWithIgnoringCase(s, n) {
      if n == SectionNames[0] || n == SectionNames[2] {
        assert AsciiUpper(s[1]) != AsciiUpper(n[1]);
      } else {
        assert AsciiUpper(s[0]) != AsciiUpper(n[0]);
      }
    }
  }
}
