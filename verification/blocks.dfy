/** The block engine: it cuts a document into trimmed blocks, classifies each
    block, builds one element per block and wraps them in a root `div`;
    `ExtractTitle` reads the first level-one heading of the same document.

    The output is an abstract tree: an element is a tag with children and a
    leaf wraps one inline span. How an element or a span renders as HTML is
    not part of this model. */
module BlockMarkdown {
  import opened Results
  import opened Strings
  import opened TextNodes
  import opened InlineMarkdown

  /** The six kinds of block. */
  datatype BlockType = ParagraphBlock | HeadingBlock | CodeBlock | QuoteBlock | UnorderedListBlock | OrderedListBlock

  /** An element of the output tree, or a leaf holding one inline span. */
  datatype Node = Parent(tag: string, children: seq<Node>) | Leaf(span: TextNode)

  // ---------------------------------------------------------------------
  // Blocks
  // ---------------------------------------------------------------------

  /** The separator between blocks: one empty line. */
  const BlankLine: string := "\n\n"

  /** The stripped pieces that are not blank, in order. */
  function NonBlank(pieces: seq<string>): (r: seq<string>)
    ensures |r| <= |pieces|
    ensures forall k :: 0 <= k < |r| ==> r[k] != "" && Trimmed(r[k])
  {
    if |pieces| == 0 then []
    else
      var b := Strip(pieces[0]);
      (if b == "" then [] else [b]) + NonBlank(pieces[1..])
  }

  /** `markdown_to_blocks`: strip the document, split it on empty lines, strip
      every piece and drop the blank ones. Every block is non-empty and has no
      whitespace at either end. */
  function MarkdownToBlocks(markdown: string): (r: seq<string>)
    ensures forall k :: 0 <= k < |r| ==> r[k] != "" && Trimmed(r[k])
  {
    NonBlank(Split(Strip(markdown), BlankLine))
  }

  /** Dropping blank pieces and stripping the rest drops whitespace only. */
  lemma {:induction false} NonBlankKeepsText(pieces: seq<string>)
    ensures NonSpace(Concat(NonBlank(pieces))) == NonSpace(Concat(pieces))
    decreases |pieces|
  {
    if |pieces| > 0 {
      var b := Strip(pieces[0]);
      var head := if b == "" then [] else [b];
      var rest := NonBlank(pieces[1..]);
      NonBlankKeepsText(pieces[1..]);
      ConcatAppend(head, rest);
      NonSpaceAppend(Concat(head), Concat(rest));
      NonSpaceAppend(pieces[0], Concat(pieces[1..]));
      NonSpaceStrip(pieces[0]);
      if b == "" {
        NonSpaceBlank(b);
      } else {
        assert Concat(head) == b + Concat([]);
        assert b + "" == b;
      }
    }
  }

  /** The blocks keep the document's text in its order: apart from
      whitespace, their concatenation is the document. */
  lemma BlocksKeepText(markdown: string)
    ensures NonSpace(Concat(MarkdownToBlocks(markdown))) == NonSpace(markdown)
  {
    var pieces := Split(Strip(markdown), BlankLine);
    NonBlankKeepsText(pieces);
    NonSpaceJoin(pieces, BlankLine);
    NonSpaceStrip(markdown);
  }

  /** A document yields no block exactly when it is blank. */
  lemma BlankDocument(markdown: string)
    ensures MarkdownToBlocks(markdown) == [] <==> AllSpace(markdown)
  {
    var r := MarkdownToBlocks(markdown);
    BlocksKeepText(markdown);
    NonSpaceBlank(markdown);
    if r != [] {
      FirstBlockVisible(r);
    }
  }

  /** Blocks whose first one opens with a visible character hold visible
      text. */
  lemma FirstBlockVisible(r: seq<string>)
    requires |r| > 0 && r[0] != "" && !IsSpace(r[0][0])
    ensures NonSpace(Concat(r)) != ""
  {
    assert r[0] == r[0][..1] + r[0][1..];
    NonSpaceAppend(r[0][..1], r[0][1..]);
    NonSpaceAppend(r[0], Concat(r[1..]));
  }

  /** No block spans an empty line. */
  lemma BlocksHaveNoBlankLine(markdown: string)
    ensures forall k :: 0 <= k < |MarkdownToBlocks(markdown)| ==> !Contains(MarkdownToBlocks(markdown)[k], BlankLine)
  {
    var s := Strip(markdown);
    SplitAvoids(s, BlankLine, 0);
    assert s[0..] == s;
    NonBlankAvoids(Split(s, BlankLine));
  }

  lemma {:induction false} NonBlankAvoids(pieces: seq<string>)
    requires NoneContains(pieces, BlankLine)
    ensures forall k :: 0 <= k < |NonBlank(pieces)| ==> !Contains(NonBlank(pieces)[k], BlankLine)
    decreases |pieces|
  {
    if |pieces| > 0 {
      var p := pieces[0];
      assert !Contains(p, BlankLine);
      var bounds := StripBounds(p);
      SliceAvoids(p, bounds.0, bounds.1, BlankLine);
      assert NoneContains(pieces[1..], BlankLine) by {
        forall k | 0 <= k < |pieces[1..]|
          ensures !Contains(pieces[1..][k], BlankLine)
        {
          assert pieces[1..][k] == pieces[k + 1];
        }
      }
      NonBlankAvoids(pieces[1..]);
    }
  }

  /** A trimmed, non-empty document without an empty line is one block. */
  lemma OneBlock(markdown: string)
    requires markdown != "" && Trimmed(markdown) && !Contains(markdown, BlankLine)
    ensures MarkdownToBlocks(markdown) == [markdown]
  {
    StripTrimmed(markdown);
    FindIsFirst(markdown, BlankLine, 0);
    SplitFromEnd(markdown, BlankLine, 0);
    assert markdown[0..] == markdown;
    assert Split(markdown, BlankLine) == [markdown];
    StripTrimmed(markdown);
    assert NonBlank([markdown]) == [markdown] + NonBlank([]);
  }

  /** Stripping a trimmed string changes nothing. */
  lemma StripTrimmed(s: string)
    requires Trimmed(s)
    ensures Strip(s) == s
  {
    var p := StripBounds(s);
    if s != [] {
      assert p.0 == 0;
      assert p.1 == |s|;
    }
  }

  // ---------------------------------------------------------------------
  // Where a document is cut
  // ---------------------------------------------------------------------

  /** A piece that can stand before an empty line and be cut off intact:
      it holds no empty line and does not end in a line break. */
  ghost predicate Cuttable(a: string) {
    !Contains(a, BlankLine) && (a == [] || a[|a| - 1] != '\n')
  }

  /** A block as the splitter yields it: non-empty, trimmed and without
      an empty line inside. */
  ghost predicate Block(b: string) {
    b != "" && Trimmed(b) && !Contains(b, BlankLine)
  }

  /** A trimmed string never ends in a line break. */
  lemma BlockCuttable(b: string)
    requires Block(b)
    ensures Cuttable(b)
  {
    assert IsSpace('\n');
  }

  /** Every block of a list can be cut off. */
  lemma BlocksCuttable(bs: seq<string>)
    requires forall k :: 0 <= k < |bs| ==> Block(bs[k])
    ensures forall k :: 0 <= k < |bs| ==> Cuttable(bs[k])
    ensures forall k :: 0 <= k < |bs| ==> bs[k] != "" && Trimmed(bs[k])
  {
    forall k | 0 <= k < |bs| ensures Cuttable(bs[k]) {
      BlockCuttable(bs[k]);
    }
  }

  /** The first empty line after a cuttable piece is where `split` cuts. */
  lemma FirstCut(a: string, b: string)
    requires Cuttable(a)
    ensures Split(a + BlankLine + b, BlankLine) == [a] + Split(b, BlankLine)
  {
    var s := a + BlankLine + b;
    forall k | 0 <= k < |a| ensures !OccursAt(s, BlankLine, k) {
      if k + 2 <= |a| {
        assert s[k..k + 2] == a[k..k + 2];
        assert !OccursAt(a, BlankLine, k);
      } else {
        assert s[k..k + 2][0] == a[|a| - 1];
      }
    }
    assert s[|a|..|a| + 2] == BlankLine;
    FindExact(s, BlankLine, 0, |a|);
    SplitFromStep(s, BlankLine, 0, |a|);
    assert s[|a| + 2..] == b;
    SplitFromShift(s, b, BlankLine, |a| + 2, |a| + 2);
    assert s[0..|a|] == a;
  }

  /** Gluing cuttable pieces with empty lines and splitting again gives
      back the pieces. */
  lemma {:induction false} SplitOfJoin(pieces: seq<string>)
    requires |pieces| >= 1
    requires forall k :: 0 <= k < |pieces| - 1 ==> Cuttable(pieces[k])
    requires !Contains(Last(pieces), BlankLine)
    ensures Split(Join(pieces, BlankLine), BlankLine) == pieces
  {
    if |pieces| == 1 {
      var s := pieces[0];
      FindIsFirst(s, BlankLine, 0);
      SplitFromEnd(s, BlankLine, 0);
      assert s[0..] == s;
    } else {
      var rest := pieces[1..];
      assert Last(rest) == Last(pieces);
      assert forall k :: 0 <= k < |rest| - 1 ==> rest[k] == pieces[k + 1];
      SplitOfJoin(rest);
      FirstCut(pieces[0], Join(rest, BlankLine));
      assert pieces == [pieces[0]] + rest;
    }
  }

  /** Glued blocks start with the first block's first character and end
      with the last block's last character. */
  lemma {:induction false} JoinEnds(bs: seq<string>)
    requires |bs| >= 1 && bs[0] != "" && Last(bs) != ""
    ensures var j := Join(bs, BlankLine);
      j != "" && j[0] == bs[0][0] && j[|j| - 1] == Last(bs)[|Last(bs)| - 1]
  {
    JoinEndsTail(bs);
  }

  /** The last character of glued blocks is the last block's. */
  lemma {:induction false} JoinEndsTail(bs: seq<string>)
    requires |bs| >= 1 && Last(bs) != ""
    ensures var j := Join(bs, BlankLine);
      j != "" && j[|j| - 1] == Last(bs)[|Last(bs)| - 1]
  {
    if |bs| > 1 {
      var rest := bs[1..];
      assert Last(rest) == Last(bs);
      JoinEndsTail(rest);
    }
  }

  /** Blocks glued with empty lines need no stripping. */
  lemma JoinTrimmed(bs: seq<string>)
    requires |bs| >= 1 && bs[0] != "" && Trimmed(bs[0])
    requires Last(bs) != "" && Trimmed(Last(bs))
    ensures Trimmed(Join(bs, BlankLine))
  {
    JoinEnds(bs);
  }

  /** Dropping blank pieces keeps a list of blocks as it is. */
  lemma {:induction false} NonBlankOfBlocks(bs: seq<string>)
    requires forall k :: 0 <= k < |bs| ==> bs[k] != "" && Trimmed(bs[k])
    ensures NonBlank(bs) == bs
  {
    if |bs| > 0 {
      StripTrimmed(bs[0]);
      NonBlankOfBlocks(bs[1..]);
      assert bs == [bs[0]] + bs[1..];
    }
  }

  /** Blocks glued with empty lines come back out of the splitter one for
      one: the splitter cuts exactly at the empty lines between blocks. */
  lemma BlocksOfJoin(bs: seq<string>)
    requires forall k :: 0 <= k < |bs| ==> Block(bs[k])
    ensures MarkdownToBlocks(Join(bs, BlankLine)) == bs
  {
    assert "" + Join(bs, BlankLine) + "" == Join(bs, BlankLine);
    PaddedBlocksOfJoin("", bs, "");
  }

  /** Whitespace before the first block and after the last one changes
      nothing: it is stripped before the document is cut. */
  lemma PaddedBlocksOfJoin(lead: string, bs: seq<string>, trail: string)
    requires AllSpace(lead) && AllSpace(trail)
    requires forall k :: 0 <= k < |bs| ==> Block(bs[k])
    ensures MarkdownToBlocks(lead + Join(bs, BlankLine) + trail) == bs
  {
    if |bs| == 0 {
      EmptyGlued(lead, trail);
    } else {
      BlocksCuttable(bs);
      GluedBlocks(lead, bs, trail);
    }
  }

  /** Whitespace alone, around no blocks, is no block. */
  lemma EmptyGlued(lead: string, trail: string)
    requires AllSpace(lead) && AllSpace(trail)
    ensures MarkdownToBlocks(lead + Join([], BlankLine) + trail) == []
  {
    assert lead + Join([], BlankLine) + trail == lead + trail;
    AllSpaceAppend(lead, trail);
    BlankDocument(lead + trail);
  }

  /** Two runs of whitespace make one. */
  lemma AllSpaceAppend(a: string, b: string)
    requires AllSpace(a) && AllSpace(b)
    ensures AllSpace(a + b)
  {
    assert forall k :: |a| <= k < |a + b| ==> (a + b)[k] == b[k - |a|];
  }

  /** The splitter's three steps on a non-empty list of glued blocks. */
  lemma GluedBlocks(lead: string, bs: seq<string>, trail: string)
    requires AllSpace(lead) && AllSpace(trail) && |bs| >= 1
    requires forall k :: 0 <= k < |bs| ==> Cuttable(bs[k])
    requires forall k :: 0 <= k < |bs| ==> bs[k] != "" && Trimmed(bs[k])
    ensures MarkdownToBlocks(lead + Join(bs, BlankLine) + trail) == bs
  {
    var j := Join(bs, BlankLine);
    JoinEnds(bs);
    JoinTrimmed(bs);
    StripPadded(lead, j, trail);
    SplitOfJoin(bs);
    NonBlankOfBlocks(bs);
  }

  /** A string without line breaks holds no empty line. */
  lemma NoBreakNoBlank(s: string)
    requires '\n' !in s
    ensures !Contains(s, BlankLine)
  {
    forall i | 0 <= i && i + 2 <= |s| ensures !OccursAt(s, BlankLine, i) {
      assert s[i..i + 2][0] == s[i];
      assert s[i] in s;
    }
  }

  /** Extra empty lines between two blocks add nothing: the empty piece
      between the two empty lines is dropped. */
  lemma BlocksApart(a: string, b: string)
    requires Block(a) && Block(b)
    ensures MarkdownToBlocks(a + BlankLine + BlankLine + b) == [a, b]
  {
    var s := a + BlankLine + BlankLine + b;
    BlockCuttable(a);
    assert s == a + BlankLine + (BlankLine + b);
    FirstCut(a, BlankLine + b);
    assert BlankLine + b == "" + BlankLine + b;
    FirstCut("", b);
    SplitOfJoin([b]);
    assert Split(s, BlankLine) == [a, "", b];
    assert s[0] == a[0] && s[|s| - 1] == b[|b| - 1];
    StripTrimmed(s);
    NonBlankOfBlocks([b]);
    StripTrimmed(a);
    assert NonBlank([a, "", b]) == [a] + NonBlank(["", b]);
    assert NonBlank(["", b]) == NonBlank([b]);
  }

  /** Four line breaks in a row still cut once
      (test_block_markdown.py:37-39). */
  lemma MultipleBlankLinesExample(a: string, b: string)
    requires a == "Para one" && b == "Para two"
    ensures MarkdownToBlocks(a + "\n\n\n\n" + b) == [a, b]
  {
    NoBreakNoBlank(a);
    NoBreakNoBlank(b);
    VisibleNotSpace('P');
    VisibleNotSpace('e');
    VisibleNotSpace('o');
    assert a + "\n\n\n\n" + b == a + BlankLine + BlankLine + b;
    BlocksApart(a, b);
  }

  /** Empty lines before the first block and after the last one are
      stripped away (test_block_markdown.py:41-43). */
  lemma LeadingTrailingExample(a: string, b: string)
    requires a == "First block" && b == "Second block"
    ensures MarkdownToBlocks("\n\n" + a + "\n\n" + b + "\n\n") == [a, b]
  {
    NoBreakNoBlank(a);
    NoBreakNoBlank(b);
    VisibleNotSpace('F');
    VisibleNotSpace('S');
    VisibleNotSpace('k');
    assert IsSpace('\n');
    var bs := [a, b];
    assert Join(bs, BlankLine) == a + BlankLine + b;
    assert "\n\n" + a + "\n\n" + b + "\n\n" == BlankLine + Join(bs, BlankLine) + BlankLine;
    PaddedBlocksOfJoin(BlankLine, bs, BlankLine);
  }

  // ---------------------------------------------------------------------
  // Classification
  // ---------------------------------------------------------------------

  /** The number of copies of `c` at the start of `s`. */
  function CountLeading(s: string, c: char): (n: nat)
    ensures n <= |s|
    ensures forall k :: 0 <= k < n ==> s[k] == c
    ensures n < |s| ==> s[n] != c
  {
    if |s| > 0 && s[0] == c then
      var n := 1 + CountLeading(s[1..], c);
      assert forall k :: 1 <= k < n ==> s[k] == s[1..][k - 1];
      n
    else
      0
  }

  /** Any run of `c` that stops at a different character is the leading count. */
  lemma CountLeadingExact(s: string, c: char, n: nat)
    requires n <= |s|
    requires forall k :: 0 <= k < n ==> s[k] == c
    requires n < |s| ==> s[n] != c
    ensures CountLeading(s, c) == n
  {
  }

  /** The number of ASCII digits at the start of `s`. */
  function CountDigits(s: string): (n: nat)
    ensures n <= |s|
    ensures forall k :: 0 <= k < n ==> IsDigit(s[k])
    ensures n < |s| ==> !IsDigit(s[n])
  {
    if |s| > 0 && IsDigit(s[0]) then
      var n := 1 + CountDigits(s[1..]);
      assert forall k :: 1 <= k < n ==> s[k] == s[1..][k - 1];
      n
    else
      0
  }

  /** Any run of digits that stops at a non-digit is the digit count. */
  lemma CountDigitsExact(s: string, n: nat)
    requires n <= |s|
    requires forall k :: 0 <= k < n ==> IsDigit(s[k])
    requires n < |s| ==> !IsDigit(s[n])
    ensures CountDigits(s) == n
  {
  }

  /** `re.match(r"^#{1,6} ", line)`: one to six `#`, then a space. */
  predicate HeadingLine(line: string) {
    var h := CountLeading(line, '#');
    1 <= h <= 6 && h < |line| && line[h] == ' '
  }

  /** The scanner accepts exactly the lines the regular expression matches:
      some run of one to six `#` followed by a space. */
  lemma HeadingLineIsRegex(line: string)
    ensures HeadingLine(line) <==>
      exists n :: 1 <= n <= 6 && n < |line| && line[n] == ' ' && (forall k :: 0 <= k < n ==> line[k] == '#')
  {
    if exists n :: 1 <= n <= 6 && n < |line| && line[n] == ' ' && (forall k :: 0 <= k < n ==> line[k] == '#') {
      var n :| 1 <= n <= 6 && n < |line| && line[n] == ' ' && (forall k :: 0 <= k < n ==> line[k] == '#');
      CountLeadingExact(line, '#', n);
    }
  }

  /** `re.match(r"^\d+\. ", line)`: the length of the matched prefix, if any. */
  function OrderedPrefix(line: string): (r: Option<nat>)
    ensures r.Some? ==> r.value <= |line|
  {
    var d := CountDigits(line);
    if 1 <= d && d + 2 <= |line| && line[d] == '.' && line[d + 1] == ' ' then Some(d + 2) else None
  }

  /** `line` opens with the `d` digits of a number followed by `. `. */
  predicate NumberEndsAt(line: string, d: nat) {
    1 <= d && d + 2 <= |line| && line[d] == '.' && line[d + 1] == ' ' && forall k :: 0 <= k < d ==> IsDigit(line[k])
  }

  /** The scanner accepts exactly the lines the regular expression matches:
      some non-empty run of digits followed by `. `; the digits it reads are
      that run. */
  lemma OrderedPrefixIsRegex(line: string)
    ensures OrderedPrefix(line).Some? <==> exists d :: NumberEndsAt(line, d)
    ensures OrderedPrefix(line).Some? ==> OrderedPrefix(line).value == CountDigits(line) + 2
  {
    if exists d :: NumberEndsAt(line, d) {
      var d :| NumberEndsAt(line, d);
      CountDigitsExact(line, d);
    } else {
      assert !NumberEndsAt(line, CountDigits(line));
    }
  }

  /** The number `int(...)` reads from a numbered line. */
  function ItemNumber(line: string): nat {
    DecimalValue(line[..CountDigits(line)])
  }

  /** From line `i` on, every line is numbered and line `k` carries the
      number `k + 1`. */
  predicate NumberedFrom(lines: seq<string>, i: nat)
    requires i <= |lines|
    decreases |lines| - i
  {
    i == |lines| || (OrderedPrefix(lines[i]).Some? && ItemNumber(lines[i]) == i + 1 && NumberedFrom(lines, i + 1))
  }

  /** Every line is numbered, and the numbers are 1, 2, ..., n in order. */
  predicate Numbered(lines: seq<string>) {
    NumberedFrom(lines, 0)
  }

  lemma {:induction false} NumberedFromIff(lines: seq<string>, i: nat)
    requires i <= |lines|
    ensures NumberedFrom(lines, i) <==>
      forall k :: i <= k < |lines| ==> OrderedPrefix(lines[k]).Some? && ItemNumber(lines[k]) == k + 1
    decreases |lines| - i
  {
    if i < |lines| {
      NumberedFromIff(lines, i + 1);
    }
  }

  /** The numbers the list test reads are exactly 1 to n. */
  lemma NumberedIff(lines: seq<string>)
    ensures Numbered(lines) <==>
      forall k :: 0 <= k < |lines| ==> OrderedPrefix(lines[k]).Some? && ItemNumber(lines[k]) == k + 1
  {
    NumberedFromIff(lines, 0);
  }

  /** Every line starts with `p`. */
  predicate AllStartWith(lines: seq<string>, p: string) {
    |lines| == 0 || (StartsWith(lines[0], p) && AllStartWith(lines[1..], p))
  }

  lemma {:induction false} AllStartWithIff(lines: seq<string>, p: string)
    ensures AllStartWith(lines, p) <==> forall k :: 0 <= k < |lines| ==> StartsWith(lines[k], p)
  {
    if |lines| > 0 {
      AllStartWithIff(lines[1..], p);
      assert forall k :: 1 <= k < |lines| ==> lines[k] == lines[1..][k - 1];
    }
  }

  /** The lines of a block. */
  function Lines(block: string): (r: seq<string>)
    ensures |r| >= 1
  {
    Split(block, "\n")
  }

  /** The opening line starts with three backticks and the last line ends
      with them. */
  predicate Fenced(lines: seq<string>)
    requires |lines| >= 1
  {
    StartsWith(lines[0], "```") && EndsWith(Last(lines), "```")
  }

  /** The tests of `block_to_block_type` on the block's lines: the first one
      that holds decides, in the order heading, code, quote, unordered list,
      ordered list; otherwise the block is a paragraph. */
  function Classify(lines: seq<string>): BlockType
    requires |lines| >= 1
  {
    if HeadingLine(lines[0]) then HeadingBlock
    else if Fenced(lines) then CodeBlock
    else if AllStartWith(lines, ">") then QuoteBlock
    else if AllStartWith(lines, "- ") then UnorderedListBlock
    else if Numbered(lines) then OrderedListBlock
    else ParagraphBlock
  }

  /** `block_to_block_type`. */
  function BlockToBlockType(block: string): BlockType {
    Classify(Lines(block))
  }

  /** The first line of a block starts the block and the last one ends it. */
  lemma LinesBracketBlock(block: string)
    ensures StartsWith(block, Lines(block)[0])
    ensures EndsWith(block, Last(Lines(block)))
  {
    SplitFirst(block, "\n", 0);
    SplitLast(block, "\n", 0);
    assert block[0..] == block;
  }

  /** A heading is a block whose first line opens with one to six `#` and a
      space; the block itself then opens the same way. */
  lemma HeadingBlockShape(block: string)
    ensures BlockToBlockType(block) == HeadingBlock <==> HeadingLine(Lines(block)[0])
    ensures BlockToBlockType(block) == HeadingBlock ==>
      var h := CountLeading(Lines(block)[0], '#');
      1 <= h <= 6 && CountLeading(block, '#') == h && h < |block| && block[h] == ' '
  {
    var line := Lines(block)[0];
    ClassifyHeading(Lines(block));
    if HeadingLine(line) {
      LinesBracketBlock(block);
      PrefixRun(block, line, CountLeading(line, '#'));
    }
  }

  lemma ClassifyHeading(lines: seq<string>)
    requires |lines| >= 1
    ensures Classify(lines) == HeadingBlock <==> HeadingLine(lines[0])
  {
  }

  /** A run of `#` ended by a space at the start of a prefix of `block` is
      the run at the start of `block`. */
  lemma PrefixRun(block: string, line: string, h: nat)
    requires StartsWith(block, line)
    requires h == CountLeading(line, '#') && h < |line| && line[h] == ' '
    ensures CountLeading(block, '#') == h && h < |block| && block[h] == ' '
  {
    assert forall k :: 0 <= k <= h ==> block[k] == line[k] by {
      forall k | 0 <= k <= h
        ensures block[k] == line[k]
      {
        assert block[..|line|][k] == line[k];
      }
    }
    CountLeadingExact(block, '#', h);
  }

  /** What each kind says about every line of the block: a quote's lines
      all open with `>`, an unordered list's with `- `, and line `k` of an
      ordered list opens with the number `k + 1`, a dot and a space. */
  lemma ClassifyQuote(lines: seq<string>)
    requires |lines| >= 1 && Classify(lines) == QuoteBlock
    ensures AllStartWith(lines, ">")
    ensures forall k :: 0 <= k < |lines| ==> StartsWith(lines[k], ">")
  {
    AllStartWithIff(lines, ">");
  }

  lemma ClassifyUnordered(lines: seq<string>)
    requires |lines| >= 1 && Classify(lines) == UnorderedListBlock
    ensures forall k :: 0 <= k < |lines| ==> StartsWith(lines[k], "- ")
  {
    AllStartWithIff(lines, "- ");
  }

  lemma ClassifyOrdered(lines: seq<string>)
    requires |lines| >= 1 && Classify(lines) == OrderedListBlock
    ensures forall k :: 0 <= k < |lines| ==>
      NumberEndsAt(lines[k], CountDigits(lines[k])) && ItemNumber(lines[k]) == k + 1
  {
    NumberedIff(lines);
  }

  /** A string that starts with a non-empty prefix opens with the prefix's
      first character. */
  lemma Opens(s: string, p: string)
    ensures StartsWith(s, p) && |p| > 0 ==> |s| > 0 && s[0] == p[0]
  {
    if StartsWith(s, p) && |p| > 0 {
      assert s[..|p|][0] == s[0];
    }
  }

  /** The kinds are told apart by their markers, so each test that holds
      decides the kind: a block is code exactly when it is fenced, a quote
      exactly when every line starts with `>`, an unordered list exactly
      when every line starts with `- `, and an ordered list exactly when its
      lines are numbered 1, 2, ..., n. */
  lemma ClassifyCodeIff(lines: seq<string>)
    requires |lines| >= 1
    ensures Classify(lines) == CodeBlock <==> Fenced(lines)
  {
    Opens(lines[0], "```");
    if Fenced(lines) {
      assert CountLeading(lines[0], '#') == 0;
    }
  }

  lemma ClassifyQuoteIff(lines: seq<string>)
    requires |lines| >= 1
    ensures Classify(lines) == QuoteBlock <==> AllStartWith(lines, ">")
  {
    var first := lines[0];
    Opens(first, ">");
    Opens(first, "```");
    if AllStartWith(lines, ">") {
      assert CountLeading(first, '#') == 0;
    }
  }

  lemma ClassifyUnorderedIff(lines: seq<string>)
    requires |lines| >= 1
    ensures Classify(lines) == UnorderedListBlock <==> AllStartWith(lines, "- ")
  {
    var first := lines[0];
    Opens(first, "- ");
    Opens(first, ">");
    Opens(first, "```");
    if AllStartWith(lines, "- ") {
      assert CountLeading(first, '#') == 0;
    }
  }

  lemma ClassifyOrderedIff(lines: seq<string>)
    requires |lines| >= 1
    ensures Classify(lines) == OrderedListBlock <==> Numbered(lines)
  {
    var first := lines[0];
    Opens(first, "- ");
    Opens(first, ">");
    Opens(first, "```");
    if Numbered(lines) {
      assert OrderedPrefix(first).Some?;
      assert IsDigit(first[0]);
      assert CountLeading(first, '#') == 0;
    }
  }

  /** A block whose first character cannot open a heading, a fence, a quote,
      a list item or a number is a paragraph, whatever follows. */
  lemma ParagraphFallback(block: string)
    requires |block| > 0 && block[0] != '#' && block[0] != '`' && block[0] != '>' && block[0] != '-' && !IsDigit(block[0])
    ensures BlockToBlockType(block) == ParagraphBlock
  {
    var lines := Lines(block);
    var first := lines[0];
    LinesBracketBlock(block);
    assert first == [] || first[0] == block[0] by {
      if first != [] {
        assert block[..|first|][0] == first[0];
      }
    }
    FirstLineParagraph(lines);
  }

  /** Lines whose first line starts with no marker of another block type. */
  lemma FirstLineParagraph(lines: seq<string>)
    requires |lines| >= 1
    requires var c := lines[0];
      c == [] || (c[0] != '#' && c[0] != '`' && c[0] != '>' && c[0] != '-' && !IsDigit(c[0]))
    ensures Classify(lines) == ParagraphBlock
  {
    var first := lines[0];
    assert CountLeading(first, '#') == 0 && !HeadingLine(first);
    assert !StartsWith(first, "```") && !Fenced(lines);
    assert !StartsWith(first, ">") && !AllStartWith(lines, ">");
    assert !StartsWith(first, "- ") && !AllStartWith(lines, "- ");
    assert CountDigits(first) == 0;
  }

  /** One line, or a first line, a newline and the rest of the block. */
  lemma LinesOne(line: string)
    requires '\n' !in line
    ensures Lines(line) == [line]
  {
    SplitCharSingle(line, '\n');
  }

  lemma LinesCons(line: string, rest: string)
    requires '\n' !in line
    ensures Lines(line + "\n" + rest) == [line] + Lines(rest)
  {
    SplitCharCons(line, '\n', rest);
  }

  /** The lines of a block of two or three lines. */
  lemma LinesOfTwo(block: string, a: string, b: string)
    requires '\n' !in a && '\n' !in b && block == a + "\n" + b
    ensures Lines(block) == [a, b]
  {
    LinesCons(a, b);
    LinesOne(b);
  }

  lemma LinesOfThree(block: string, a: string, b: string, c: string)
    requires '\n' !in a && '\n' !in b && '\n' !in c && block == a + "\n" + b + "\n" + c
    ensures Lines(block) == [a, b, c]
  {
    assert block == a + "\n" + (b + "\n" + c);
    LinesCons(a, b + "\n" + c);
    LinesOfTwo(b + "\n" + c, b, c);
  }

  /** The positive tests of the classifier: a fenced block is code, `>`
      lines make a quote and `- ` lines an unordered list. */
  lemma CodeExample()
    ensures BlockToBlockType("```" + "\n" + "print('Hello')" + "\n" + "```") == CodeBlock
  {
    var lines := ["```", "print('Hello')", "```"];
    LinesOfThree("```" + "\n" + "print('Hello')" + "\n" + "```", "```", "print('Hello')", "```");
    assert lines[0][..3] == "```" && lines[2][|lines[2]| - 3..] == "```";
    ClassifyCodeIff(lines);
  }

  lemma QuoteExample()
    ensures BlockToBlockType("> This is a quote" + "\n" + "> continued on next line") == QuoteBlock
  {
    var a, b := "> This is a quote", "> continued on next line";
    LinesOfTwo(a + "\n" + b, a, b);
    QuoteLinesExample(a, b);
  }

  lemma QuoteLinesExample(a: string, b: string)
    requires a == "> This is a quote" && b == "> continued on next line"
    ensures Classify([a, b]) == QuoteBlock
  {
    var lines: seq<string> := [a, b];
    assert StartsWith(a, ">") && StartsWith(b, ">") by {
      assert a[..1] == ">" && b[..1] == ">";
    }
    AllStartWithIff(lines, ">");
    ClassifyQuoteIff(lines);
  }

  lemma UnorderedExample()
    ensures BlockToBlockType("- item 1" + "\n" + "- item 2" + "\n" + "- item 3") == UnorderedListBlock
  {
    var a, b, c := "- item 1", "- item 2", "- item 3";
    LinesOfThree(a + "\n" + b + "\n" + c, a, b, c);
    var lines: seq<string> := [a, b, c];
    assert StartsWith(a, "- ") && StartsWith(b, "- ") && StartsWith(c, "- ") by {
      assert a[..2] == "- " && b[..2] == "- " && c[..2] == "- ";
    }
    AllStartWithIff(lines, "- ");
    ClassifyUnorderedIff(lines);
  }

  /** The classifier on the blocks of the converter's own examples: a list
      numbered 1, 2 is ordered. */
  lemma OrderedExample()
    ensures BlockToBlockType("1. list" + "\n" + "2. items") == OrderedListBlock
  {
    LinesOfTwo("1. list" + "\n" + "2. items", "1. list", "2. items");
    OrderedLinesExample();
  }

  lemma OrderedLinesExample()
    ensures Classify(["1. list", "2. items"]) == OrderedListBlock
  {
    var lines := ["1. list", "2. items"];
    assert CountDigits(lines[0]) == 1 && CountDigits(lines[1]) == 1;
    assert lines[0][..1] == "1" && lines[1][..1] == "2";
    assert NumberedFrom(lines, 2);
    assert lines[0][0] == '1' && !HeadingLine(lines[0]) && !Fenced(lines);
    assert !AllStartWith(lines, ">") && !AllStartWith(lines, "- ");
  }

  /** Numbers that skip make the block a paragraph. */
  lemma SkippedNumberExample()
    ensures BlockToBlockType("1. First item" + "\n" + "3. Second item" + "\n" + "4. Third item") == ParagraphBlock
  {
    LinesOfThree("1. First item" + "\n" + "3. Second item" + "\n" + "4. Third item", "1. First item", "3. Second item", "4. Third item");
    SkippedNumberLinesExample();
  }

  lemma SkippedNumberLinesExample()
    ensures Classify(["1. First item", "3. Second item", "4. Third item"]) == ParagraphBlock
  {
    var lines := ["1. First item", "3. Second item", "4. Third item"];
    assert CountDigits(lines[1]) == 1;
    assert lines[1][..1] == "3";
    assert !NumberedFrom(lines, 1);
  }

  /** A quote line followed by a list line is neither a quote nor a list. */
  lemma MixedExample()
    ensures BlockToBlockType("> Quote line" + "\n" + "- Not a list") == ParagraphBlock
  {
    LinesOfTwo("> Quote line" + "\n" + "- Not a list", "> Quote line", "- Not a list");
    MixedLinesExample();
  }

  lemma MixedLinesExample()
    ensures Classify(["> Quote line", "- Not a list"]) == ParagraphBlock
  {
    var lines := ["> Quote line", "- Not a list"];
    DiffersAt(lines[1], ">", 0);
    DiffersAt(lines[0], "- ", 0);
    CountDigitsExact(lines[0], 0);
  }

  /** An opening fence without a closing one is a paragraph. */
  lemma UnclosedFenceExample()
    ensures BlockToBlockType("```" + "\n" + "Not a real code block") == ParagraphBlock
  {
    LinesOfTwo("```" + "\n" + "Not a real code block", "```", "Not a real code block");
    UnclosedFenceLinesExample();
  }

  lemma UnclosedFenceLinesExample()
    ensures Classify(["```", "Not a real code block"]) == ParagraphBlock
  {
    var lines := ["```", "Not a real code block"];
    assert !EndsWith(lines[1], "```");
    assert CountDigits(lines[0]) == 0;
  }

  // ---------------------------------------------------------------------
  // Builders
  // ---------------------------------------------------------------------

  /** One leaf per span, in order. */
  function Leaves(spans: seq<TextNode>): (r: seq<Node>)
    ensures |r| == |spans|
    ensures forall k :: 0 <= k < |r| ==> r[k] == Leaf(spans[k])
  {
    seq(|spans|, k requires 0 <= k < |spans| => Leaf(spans[k]))
  }

  /** `text_to_children`: the inline spans of `text`, one leaf each. Only an
      unclosed delimiter makes it fail. */
  function TextToChildren(text: string): (r: Result<seq<Node>>)
    ensures r.Failure? <==> TextToTextNodes(text).Failure?
    ensures r.Failure? ==> r.error == UnclosedDelimiter
    ensures r.Success? ==>
      && |r.value| == |TextToTextNodes(text).value|
      && forall k :: 0 <= k < |r.value| ==> r.value[k] == Leaf(TextToTextNodes(text).value[k])
  {
    var spans :- TextToTextNodes(text);
    Success(Leaves(spans))
  }

  /** The element `tag` over the spans of `text`, which every builder but
      the code builder ends with. */
  function Element(tag: string, text: string): (r: Result<Node>)
    ensures r.Failure? <==> TextToTextNodes(text).Failure?
    ensures r.Failure? ==> r.error == UnclosedDelimiter
    ensures r.Success? ==>
      && r.value.Parent? && r.value.tag == tag
      && |r.value.children| == |TextToTextNodes(text).value|
      && forall k :: 0 <= k < |r.value.children| ==> r.value.children[k] == Leaf(TextToTextNodes(text).value[k])
  {
    var children :- TextToChildren(text);
    Success(Parent(tag, children))
  }

  /** `heading_to_html_node`: the level is the number of leading `#` of the
      block; there must be text after them and the following character. */
  function HeadingToNode(block: string): Result<Node> {
    var level := CountLeading(block, '#');
    if level + 1 >= |block| then
      Failure(InvalidHeading(level))
    else
      Element("h" + NatToString(level), block[level + 1..])
  }

  /** A stripped heading block never fails for its shape: the tag is
      `h<level>` for the level the classifier saw, 1 to 6, and the children
      are the spans of what follows the `#` run and its space. */
  lemma HeadingOfHeadingBlock(block: string)
    requires Trimmed(block) && BlockToBlockType(block) == HeadingBlock
    ensures var h := CountLeading(block, '#');
      && 1 <= h <= 6 && h + 1 < |block| && block[h] == ' '
      && HeadingToNode(block) == Element("h" + NatToString(h), block[h + 1..])
  {
    HeadingBlockShape(block);
    HeadingHasText(block);
  }

  /** In a stripped block the space after the `#` run is not the last
      character, so the builder takes its text branch. */
  lemma HeadingHasText(block: string)
    requires Trimmed(block)
    requires CountLeading(block, '#') < |block| && block[CountLeading(block, '#')] == ' '
    ensures CountLeading(block, '#') + 1 < |block|
  {
    SpaceNotLast(block, CountLeading(block, '#'));
  }

  /** The tag of a heading names its level: `int(tag[1:])` is the number of
      leading `#`. */
  lemma HeadingTagNamesLevel(block: string)
    ensures HeadingToNode(block).Success? ==>
      var tag := HeadingToNode(block).value.tag;
      |tag| >= 2 && tag[0] == 'h' && DecimalValue(tag[1..]) == CountLeading(block, '#')
  {
    var n := NatToString(CountLeading(block, '#'));
    assert ("h" + n)[1..] == n;
  }

  /** A heading with nothing after its marker fails with its level, as does
      a block of `#` alone. */
  lemma BareHeadingFails()
    ensures HeadingToNode("# ") == Failure(InvalidHeading(1))
    ensures HeadingToNode("###") == Failure(InvalidHeading(3))
  {
    CountLeadingExact("# ", '#', 1);
    CountLeadingExact("###", '#', 3);
  }

  /** `code_to_html_node`: a block fenced by three backticks at both ends
      becomes `pre` holding `code` holding one plain leaf with `block[4:-3]`,
      which is not parsed for inline markup. */
  function CodeToNode(block: string): Result<Node> {
    if !StartsWith(block, "```") || !EndsWith(block, "```") then
      Failure(InvalidCodeBlock)
    else
      Success(Parent("pre", [Parent("code", [Leaf(Plain(PySlice(block, 4, -3)))])]))
  }

  /** The content of a fenced block skips the opening fence and the character
      after it, and stops before the closing fence; a block shorter than
      eight characters has none. */
  lemma FenceContent(block: string)
    ensures |block| >= 7 ==> PySlice(block, 4, -3) == block[4..|block| - 3]
    ensures |block| < 8 ==> PySlice(block, 4, -3) == ""
  {
  }

  /** Every block classified as code passes the builder's fence check; its
      content is kept verbatim in a single plain leaf. */
  lemma CodeOfCodeBlock(block: string)
    requires BlockToBlockType(block) == CodeBlock
    ensures CodeToNode(block) == Success(Parent("pre", [Parent("code", [Leaf(Plain(PySlice(block, 4, -3)))])]))
  {
    LinesBracketBlock(block);
    var lines := Lines(block);
    assert Fenced(lines);
    assert block[..3] == lines[0][..3];
    assert block[|block| - 3..] == Last(lines)[|Last(lines)| - 3..];
  }

  /** A block fenced by a line of three backticks and a closing fence
      keeps everything between them verbatim, markup included, with the
      newline before the closing fence. */
  lemma FencedCode(content: string)
    ensures CodeToNode("```\n" + content + "```") == Success(Parent("pre", [Parent("code", [Leaf(Plain(content))])]))
  {
    var b := "```\n" + content + "```";
    assert b[..3] == "```";
    assert b[|b| - 3..] == "```";
    assert b[4..|b| - 3] == content;
    FenceContent(b);
  }

  /** The code-block example: `_` and `**` stay as they are. */
  lemma CodeBlockExample()
    ensures CodeToNode("```\n" + "This is text that _should_ remain\nthe **same** even with inline stuff\n" + "```")
      == Success(Parent("pre", [Parent("code", [Leaf(Plain(
           "This is text that _should_ remain\nthe **same** even with inline stuff\n"))])]))
  {
    FencedCode("This is text that _should_ remain\nthe **same** even with inline stuff\n");
  }

  /** A quote line without its `>` run and the whitespace around the rest. */
  function QuoteText(line: string): string {
    Strip(LStripChar(line, '>'))
  }

  /** One quote line, cleaned; a line without a leading `>` is an error. */
  function QuoteLine(line: string): (r: Result<string>)
    ensures r.Failure? <==> !StartsWith(line, ">")
    ensures r.Failure? ==> r.error == InvalidQuoteBlock
  {
    if !StartsWith(line, ">") then Failure(InvalidQuoteBlock) else Success(QuoteText(line))
  }

  /** `quote_to_html_node`: the cleaned lines joined with single spaces. */
  function QuoteToNode(block: string): Result<Node> {
    var texts :- MapResult(QuoteLine, Lines(block));
    Element("blockquote", Join(texts, " "))
  }

  /** The quote builder fails for its shape exactly when some line lacks a
      leading `>`. */
  lemma QuoteFailsOnShape(block: string)
    ensures QuoteToNode(block) == Failure(InvalidQuoteBlock) <==> !AllStartWith(Lines(block), ">")
  {
    var lines := Lines(block);
    AllStartWithIff(lines, ">");
    var q := MapResult(QuoteLine, lines);
    if q.Failure? {
      var k :| 0 <= k < |lines| && QuoteLine(lines[k]) == Failure(q.error);
    }
  }

  /** On a block classified as a quote the builder passes its shape check,
      each line loses its `>` run and surrounding whitespace, and the text it
      hands to the inline engine is on one line. */
  lemma QuoteOfQuoteBlock(block: string)
    requires BlockToBlockType(block) == QuoteBlock
    ensures var q := MapResult(QuoteLine, Lines(block));
      && q.Success? && |q.value| == |Lines(block)|
      && (forall k :: 0 <= k < |q.value| ==> q.value[k] == QuoteText(Lines(block)[k]))
      && '\n' !in Join(q.value, " ")
      && QuoteToNode(block) == Element("blockquote", Join(q.value, " "))
  {
    var lines := Lines(block);
    ClassifyQuote(lines);
    LinesNoNewline(block);
    QuoteLinesNoNewline(lines);
  }

  /** No line of a block holds a newline. */
  lemma LinesNoNewline(block: string)
    ensures forall k :: 0 <= k < |Lines(block)| ==> '\n' !in Lines(block)[k]
  {
    var lines := Lines(block);
    SplitAvoids(block, "\n", 0);
    forall k | 0 <= k < |lines|
      ensures '\n' !in lines[k]
    {
      NoNewline(lines[k]);
    }
  }

  lemma QuoteLinesNoNewline(lines: seq<string>)
    requires forall k :: 0 <= k < |lines| ==> '\n' !in lines[k]
    requires forall k :: 0 <= k < |lines| ==> StartsWith(lines[k], ">")
    ensures var q := MapResult(QuoteLine, lines);
      && q.Success? && |q.value| == |lines|
      && (forall k :: 0 <= k < |lines| ==> q.value[k] == QuoteText(lines[k]))
      && '\n' !in Join(q.value, " ")
  {
    var q := MapResult(QuoteLine, lines);
    assert q.Success?;
    forall k | 0 <= k < |lines|
      ensures q.value[k] == QuoteText(lines[k]) && '\n' !in q.value[k]
    {
      assert QuoteLine(lines[k]) == Success(q.value[k]);
      QuoteTextNoNewline(lines[k]);
    }
    JoinAvoids(q.value, " ", '\n');
  }

  /** Cleaning a quote line only removes characters. */
  lemma QuoteTextNoNewline(line: string)
    requires '\n' !in line
    ensures '\n' !in QuoteText(line)
  {
    var t := LStripChar(line, '>');
    AbsentFromSlice(line, '\n', |line| - |t|, |line|);
    var p := StripBounds(t);
    AbsentFromSlice(t, '\n', p.0, p.1);
  }

  /** A string free of the one-character string `"\n"` has no newline. */
  lemma NoNewline(s: string)
    requires !Contains(s, "\n")
    ensures '\n' !in s
  {
    forall k | 0 <= k < |s|
      ensures s[k] != '\n'
    {
      OccursChar(s, '\n', k);
    }
  }

  /** One list item: an `li` over the spans of its text. */
  function ListItem(text: string): Result<Node> {
    Element("li", text)
  }

  /** The items of an unordered list: each line without its first two
      characters. */
  function DashItems(lines: seq<string>): (r: seq<string>)
    ensures |r| == |lines|
    ensures forall k :: 0 <= k < |lines| ==> r[k] == Drop(lines[k], 2)
  {
    seq(|lines|, k requires 0 <= k < |lines| => Drop(lines[k], 2))
  }

  /** `re.sub(r"^\d+\. ", "", item)`: the item without its number, or the
      item itself when it is not numbered. */
  function Unnumbered(item: string): string {
    match OrderedPrefix(item)
    case Some(n) => item[n..]
    case None => item
  }

  function NumberedItems(lines: seq<string>): (r: seq<string>)
    ensures |r| == |lines|
    ensures forall k :: 0 <= k < |lines| ==> r[k] == Unnumbered(lines[k])
  {
    seq(|lines|, k requires 0 <= k < |lines| => Unnumbered(lines[k]))
  }

  /** `unordered_list_to_html_node`. */
  function UnorderedListToNode(block: string): Result<Node> {
    var items :- MapResult(ListItem, DashItems(Lines(block)));
    Success(Parent("ul", items))
  }

  /** `ordered_list_to_html_node`. */
  function OrderedListToNode(block: string): Result<Node> {
    var items :- MapResult(ListItem, NumberedItems(Lines(block)));
    Success(Parent("ol", items))
  }

  /** A `ul` has exactly one `li` per line, in order, each over the line
      after its first two characters; it fails exactly when one item's
      inline markup does. */
  lemma UnorderedListItems(block: string)
    ensures var lines := Lines(block); var r := UnorderedListToNode(block);
      && (r.Failure? <==> exists k :: 0 <= k < |lines| && ListItem(Drop(lines[k], 2)).Failure?)
      && (r.Failure? ==> r.error == UnclosedDelimiter)
      && (r.Success? ==>
            && r.value.Parent? && r.value.tag == "ul" && |r.value.children| == |lines|
            && forall k :: 0 <= k < |lines| ==> ListItem(Drop(lines[k], 2)) == Success(r.value.children[k]))
  {
    var lines := Lines(block);
    var items := DashItems(lines);
    var r := MapResult(ListItem, items);
    if r.Failure? {
      var k :| 0 <= k < |items| && ListItem(items[k]) == Failure(r.error);
      assert ListItem(Drop(lines[k], 2)).Failure?;
    } else {
      forall k | 0 <= k < |lines|
        ensures ListItem(Drop(lines[k], 2)) == Success(r.value[k])
      {
        assert items[k] == Drop(lines[k], 2);
      }
    }
  }

  /** An `ol` has exactly one `li` per line, in order, each over the line
      with its leading number, dot and space removed; it fails exactly when
      one item's inline markup does. */
  lemma OrderedListItems(block: string)
    ensures var lines := Lines(block); var r := OrderedListToNode(block);
      && (r.Failure? <==> exists k :: 0 <= k < |lines| && ListItem(Unnumbered(lines[k])).Failure?)
      && (r.Failure? ==> r.error == UnclosedDelimiter)
      && (r.Success? ==>
            && r.value.Parent? && r.value.tag == "ol" && |r.value.children| == |lines|
            && forall k :: 0 <= k < |lines| ==> ListItem(Unnumbered(lines[k])) == Success(r.value.children[k]))
  {
    var lines := Lines(block);
    var items := NumberedItems(lines);
    var r := MapResult(ListItem, items);
    if r.Failure? {
      var k :| 0 <= k < |items| && ListItem(items[k]) == Failure(r.error);
      assert ListItem(Unnumbered(lines[k])).Failure?;
    } else {
      forall k | 0 <= k < |lines|
        ensures ListItem(Unnumbered(lines[k])) == Success(r.value[k])
      {
        assert items[k] == Unnumbered(lines[k]);
      }
    }
  }

  /** The items of an ordered list are its lines past the number and `. `. */
  lemma OrderedItems(lines: seq<string>)
    requires |lines| >= 1 && Classify(lines) == OrderedListBlock
    ensures forall k :: 0 <= k < |lines| ==> ItemNumber(lines[k]) == k + 1
    ensures forall k :: 0 <= k < |lines| ==> Unnumbered(lines[k]) == Drop(lines[k], CountDigits(lines[k]) + 2)
  {
    ClassifyOrdered(lines);
    forall k | 0 <= k < |lines|
      ensures Unnumbered(lines[k]) == Drop(lines[k], CountDigits(lines[k]) + 2)
    {
      assert OrderedPrefix(lines[k]) == Some(CountDigits(lines[k]) + 2);
    }
  }

  /** `paragraph_to_html_node`: the lines joined with single spaces. */
  function ParagraphToNode(block: string): Result<Node> {
    Element("p", Join(Lines(block), " "))
  }

  /** Joining the lines with spaces turns every newline into a space, so the
      inline engine sees the block's text on one line. */
  lemma ParagraphText(block: string)
    ensures Join(Lines(block), " ") == ReplaceChar(block, '\n', ' ')
    ensures '\n' !in Join(Lines(block), " ")
  {
    JoinSplitReplace(block, '\n', ' ');
  }

  /** The builder for the block's kind. */
  function BlockToNode(block: string): Result<Node> {
    match BlockToBlockType(block)
    case ParagraphBlock => ParagraphToNode(block)
    case HeadingBlock => HeadingToNode(block)
    case CodeBlock => CodeToNode(block)
    case QuoteBlock => QuoteToNode(block)
    case UnorderedListBlock => UnorderedListToNode(block)
    case OrderedListBlock => OrderedListToNode(block)
  }

  /** The element a block of each kind becomes. */
  function TagOf(t: BlockType, block: string): string {
    match t
    case ParagraphBlock => "p"
    case HeadingBlock => "h" + NatToString(CountLeading(block, '#'))
    case CodeBlock => "pre"
    case QuoteBlock => "blockquote"
    case UnorderedListBlock => "ul"
    case OrderedListBlock => "ol"
  }

  /** Each block becomes an element named for its kind. Among stripped
      blocks, only an unclosed inline delimiter makes a block fail: headings,
      code and quotes never fail for their shape. */
  lemma BlockToNodeShape(block: string)
    requires Trimmed(block)
    ensures BlockToNode(block).Success? ==>
      BlockToNode(block).value.Parent? && BlockToNode(block).value.tag == TagOf(BlockToBlockType(block), block)
    ensures BlockToNode(block).Failure? ==> BlockToNode(block).error == UnclosedDelimiter
  {
    match BlockToBlockType(block)
    case ParagraphBlock =>
    case HeadingBlock => HeadingOfHeadingBlock(block);
    case CodeBlock => CodeOfCodeBlock(block);
    case QuoteBlock => QuoteOfQuoteBlock(block);
    case UnorderedListBlock => UnorderedListItems(block);
    case OrderedListBlock => OrderedListItems(block);
  }

  /** `markdown_to_html_node`: a `div` with one child per block, built in
      order; the first failing block makes the document fail. */
  function MarkdownToHtmlNode(markdown: string): Result<Node> {
    var children :- MapResult(BlockToNode, MarkdownToBlocks(markdown));
    Success(Parent("div", children))
  }

  /** The root is a `div` whose children are the blocks' elements, one to
      one and in order, each named for its block's kind; the document fails
      only on an unclosed inline delimiter. */
  lemma DocumentShape(markdown: string)
    ensures var blocks := MarkdownToBlocks(markdown); var r := MarkdownToHtmlNode(markdown);
      && (r.Failure? ==> r.error == UnclosedDelimiter)
      && (r.Success? ==>
            && r.value.Parent? && r.value.tag == "div" && |r.value.children| == |blocks|
            && forall k :: 0 <= k < |blocks| ==>
                 && BlockToNode(blocks[k]) == Success(r.value.children[k])
                 && r.value.children[k].Parent?
                 && r.value.children[k].tag == TagOf(BlockToBlockType(blocks[k]), blocks[k]))
  {
    var blocks := MarkdownToBlocks(markdown);
    forall k | 0 <= k < |blocks|
      ensures BlockToNode(blocks[k]).Success? ==>
        BlockToNode(blocks[k]).value.Parent? && BlockToNode(blocks[k]).value.tag == TagOf(BlockToBlockType(blocks[k]), blocks[k])
      ensures BlockToNode(blocks[k]).Failure? ==> BlockToNode(blocks[k]).error == UnclosedDelimiter
    {
      BlockToNodeShape(blocks[k]);
    }
    var r := MapResult(BlockToNode, blocks);
    if r.Failure? {
      var k :| 0 <= k < |blocks| && BlockToNode(blocks[k]) == Failure(r.error);
    }
  }

  // ---------------------------------------------------------------------
  // Title
  // ---------------------------------------------------------------------

  /** A line that is a level-one heading once stripped. */
  predicate TitleLine(line: string) {
    StartsWith(Strip(line), "# ")
  }

  /** The title a heading line carries: the stripped line past its first two
      characters, stripped again. */
  function TitleOf(line: string): string {
    Strip(Drop(Strip(line), 2))
  }

  /** Line `k` is the first title line. */
  predicate FirstTitleAt(lines: seq<string>, k: int) {
    0 <= k < |lines| && TitleLine(lines[k]) && forall j :: 0 <= j < k ==> !TitleLine(lines[j])
  }

  /** The index of the first title line at or after `i`, or -1. */
  function TitleIndex(lines: seq<string>, i: nat): (r: int)
    requires i <= |lines|
    ensures r == -1 || (i <= r < |lines| && TitleLine(lines[r]))
    decreases |lines| - i
  {
    if i == |lines| then -1
    else if TitleLine(lines[i]) then i
    else TitleIndex(lines, i + 1)
  }

  /** The scan misses no title line: none comes before the one it returns,
      and there is none at all when it returns -1. */
  lemma {:induction false} TitleIndexIsFirst(lines: seq<string>, i: nat)
    requires i <= |lines|
    ensures var r := TitleIndex(lines, i);
      forall j :: i <= j < |lines| && (r == -1 || j < r) ==> !TitleLine(lines[j])
    decreases |lines| - i
  {
    if i < |lines| && !TitleLine(lines[i]) {
      TitleIndexIsFirst(lines, i + 1);
    }
  }

  /** The title of the first title line, or `NoTitle`. */
  function TitleFrom(lines: seq<string>): Result<string> {
    var i := TitleIndex(lines, 0);
    if i < 0 then Failure(NoTitle) else Success(TitleOf(lines[i]))
  }

  /** `extract_title`: the title of the document's first level-one heading,
      or `NoTitle`. */
  function ExtractTitle(markdown: string): Result<string> {
    TitleFrom(Lines(markdown))
  }

  /** The title is that of the first line whose stripped form starts with
      `# `; the extraction fails, with `NoTitle`, exactly when no line is a
      title line. */
  lemma ExtractTitleSpec(markdown: string)
    ensures var lines := Lines(markdown); var r := ExtractTitle(markdown);
      && (r.Failure? <==> forall j :: 0 <= j < |lines| ==> !TitleLine(lines[j]))
      && (r.Failure? ==> r.error == NoTitle)
      && (r.Success? ==> exists k :: FirstTitleAt(lines, k) && r == Success(TitleOf(lines[k])))
  {
    var lines := Lines(markdown);
    TitleIndexIsFirst(lines, 0);
    var i := TitleIndex(lines, 0);
    if i >= 0 {
      assert FirstTitleAt(lines, i);
    }
  }

  /** A title has no surrounding whitespace. */
  lemma TitleTrimmed(markdown: string)
    ensures ExtractTitle(markdown).Success? ==> Trimmed(ExtractTitle(markdown).value)
  {
  }

  /** Whitespace around a trimmed, non-empty core is all that strip
      removes. */
  lemma StripPadded(lead: string, core: string, trail: string)
    requires AllSpace(lead) && AllSpace(trail) && core != [] && Trimmed(core)
    ensures Strip(lead + core + trail) == core
  {
    var s := lead + core + trail;
    assert forall k :: 0 <= k < |lead| ==> s[k] == lead[k];
    assert forall k :: |lead| + |core| <= k < |s| ==> s[k] == trail[k - |lead| - |core|];
    assert s[|lead|] == core[0];
    assert s[|lead| + |core| - 1] == core[|core| - 1];
    StripExact(s, |lead|, |lead| + |core|);
    assert s[|lead|..|lead| + |core|] == core;
  }

  /** A level-one heading line yields its text, whatever whitespace pads
      the line, the marker and the text. */
  lemma PaddedTitle(lead: string, gap: string, title: string, trail: string)
    requires AllSpace(lead) && AllSpace(gap) && AllSpace(trail)
    requires title != [] && Trimmed(title)
    ensures TitleLine(lead + "# " + gap + title + trail)
    ensures TitleOf(lead + "# " + gap + title + trail) == title
  {
    var core := "# " + gap + title;
    var line := lead + "# " + gap + title + trail;
    assert line == lead + core + trail;
    MarkedTitle(gap, title);
    StripPadded(lead, core, trail);
  }

  /** The marker, the gap and the text: a trimmed line that starts with
      `# ` and whose title is the text. */
  lemma MarkedTitle(gap: string, title: string)
    requires AllSpace(gap) && title != [] && Trimmed(title)
    ensures var core := "# " + gap + title;
      && core != [] && Trimmed(core) && StartsWith(core, "# ")
      && Strip(Drop(core, 2)) == title
  {
    var core := "# " + gap + title;
    assert core[0] == '#' && core[|core| - 1] == title[|title| - 1];
    VisibleNotSpace('#');
    assert core[..2] == "# ";
    assert Drop(core, 2) == gap + title + "";
    StripPadded(gap, title, "");
  }

  /** A document whose first line is a title line has that line's title. */
  lemma TitleOfFirstLine(lines: seq<string>)
    requires |lines| >= 1 && TitleLine(lines[0])
    ensures TitleFrom(lines) == Success(TitleOf(lines[0]))
  {
  }

  /** The title examples of the converter's tests that the lemmas above do
      not already cover: an empty document and one with only a level-two
      heading have no title. */
  lemma EmptyTitleExample()
    ensures ExtractTitle("") == Failure(NoTitle)
  {
    LinesOne("");
    StripTrimmed("");
  }

  lemma NoLevelOneExample()
    ensures ExtractTitle("## Subheading" + "\n" + "Some content") == Failure(NoTitle)
  {
    LinesOfTwo("## Subheading" + "\n" + "Some content", "## Subheading", "Some content");
    NoLevelOneLinesExample();
  }

  lemma NoLevelOneLinesExample()
    ensures TitleFrom(["## Subheading", "Some content"]) == Failure(NoTitle)
  {
    var lines := ["## Subheading", "Some content"];
    StripTrimmed(lines[0]);
    StripTrimmed(lines[1]);
    DiffersAt(lines[0], "# ", 1);
    DiffersAt(lines[1], "# ", 0);
    assert TitleIndex(lines, 2) == -1;
  }
}
