/** The inline engine: it turns the text of one block into an ordered list of
    typed spans in five passes, three delimiter-pair splits (backtick, double
    asterisk, underscore) followed by image and link extraction. */
module InlineMarkdown {
  import opened Results
  import opened Strings
  import opened TextNodes

  /** A plain-text span. */
  function Plain(text: string): TextNode {
    TextNode(text, Text, None)
  }

  /** The texts of a list of spans, in order. */
  function Texts(nodes: seq<TextNode>): (r: seq<string>)
    ensures |r| == |nodes|
    ensures forall k :: 0 <= k < |nodes| ==> r[k] == nodes[k].text
  {
    seq(|nodes|, k requires 0 <= k < |nodes| => nodes[k].text)
  }

  lemma TextsAppend(a: seq<TextNode>, b: seq<TextNode>)
    ensures Texts(a + b) == Texts(a) + Texts(b)
    ensures Concat(Texts(a + b)) == Concat(Texts(a)) + Concat(Texts(b))
  {
    assert Texts(a + b) == Texts(a) + Texts(b);
    ConcatAppend(Texts(a), Texts(b));
  }

  // ---------------------------------------------------------------------
  // Delimiter pairs
  // ---------------------------------------------------------------------

  /** The span for section `i` of a split text: plain at an even index, styled
      at an odd one. */
  function SectionNode(section: string, i: nat, style: TextType): TextNode {
    TextNode(section, if i % 2 == 0 then Text else style, None)
  }

  /** The spans for `sections[i..]`, skipping empty sections. */
  function EmitSections(sections: seq<string>, i: nat, style: TextType): (r: seq<TextNode>)
    requires i <= |sections|
    ensures |r| <= |sections| - i
    decreases |sections| - i
  {
    if i == |sections| then
      []
    else
      (if sections[i] == "" then [] else [SectionNode(sections[i], i, style)]) + EmitSections(sections, i + 1, style)
  }

  /** Every emitted span is a non-empty section, plain or styled, without a
      URL; and every non-empty section is emitted with the style its position
      gives it. */
  lemma EmitSectionsSpans(sections: seq<string>, i: nat, style: TextType)
    requires i <= |sections|
    ensures var r := EmitSections(sections, i, style);
      && (forall k :: 0 <= k < |r| ==>
            && r[k].text != "" && r[k].url == None
            && (r[k].textType == Text || r[k].textType == style)
            && r[k].text in sections[i..])
      && (forall j :: i <= j < |sections| && sections[j] != "" ==> SectionNode(sections[j], j, style) in r)
  {
    EmitSectionsShape(sections, i, style);
    EmitSectionsCover(sections, i, style);
    var r := EmitSections(sections, i, style);
    assert forall k :: 0 <= k < |r| ==> SectionSpan(r[k], sections[i..], style);
  }

  /** The indices, from `i` on and in increasing order, of the sections that
      are not empty: the sections that produce a span. */
  function NonEmptyIndices(sections: seq<string>, i: nat): (r: seq<nat>)
    requires i <= |sections|
    ensures forall k :: 0 <= k < |r| ==> i <= r[k] < |sections| && sections[r[k]] != ""
    ensures forall k, l :: 0 <= k < l < |r| ==> r[k] < r[l]
    ensures forall j :: i <= j < |sections| && sections[j] != "" ==> j in r
    decreases |sections| - i
  {
    if i == |sections| then
      []
    else
      var rest := NonEmptyIndices(sections, i + 1);
      if sections[i] == "" then rest else [i] + rest
  }

  /** Span `k` of `r` is section `idx[k]`, typed by the parity of its index. */
  predicate Indexed(r: seq<TextNode>, idx: seq<nat>, sections: seq<string>, style: TextType) {
    && |idx| == |r|
    && forall k :: 0 <= k < |r| ==> idx[k] < |sections| && r[k] == SectionNode(sections[idx[k]], idx[k], style)
  }

  /** Span `k` of the output is non-empty section `idx[k]`, typed by the
      parity of its index: the text between delimiters is styled, the rest
      is plain, and the order of the sections is kept. */
  lemma {:induction false} EmitSectionsIndexed(sections: seq<string>, i: nat, style: TextType)
    requires i <= |sections|
    ensures Indexed(EmitSections(sections, i, style), NonEmptyIndices(sections, i), sections, style)
    decreases |sections| - i
  {
    if i < |sections| {
      EmitSectionsIndexed(sections, i + 1, style);
      var rest := EmitSections(sections, i + 1, style);
      var idx := NonEmptyIndices(sections, i + 1);
      if sections[i] == "" {
        assert EmitSections(sections, i, style) == rest;
      } else {
        IndexedCons(rest, idx, sections, i, style);
        assert EmitSections(sections, i, style) == [SectionNode(sections[i], i, style)] + rest;
      }
    }
  }

  lemma IndexedCons(rest: seq<TextNode>, idx: seq<nat>, sections: seq<string>, i: nat, style: TextType)
    requires i < |sections| && Indexed(rest, idx, sections, style)
    ensures Indexed([SectionNode(sections[i], i, style)] + rest, [i] + idx, sections, style)
  {
    var r := [SectionNode(sections[i], i, style)] + rest;
    forall k | 1 <= k < |r|
      ensures ([i] + idx)[k] < |sections| && r[k] == SectionNode(sections[([i] + idx)[k]], ([i] + idx)[k], style)
    {
      assert r[k] == rest[k - 1] && ([i] + idx)[k] == idx[k - 1];
    }
  }

  /** A span cut from `sections`: a non-empty section, without a URL, plain
      or of the delimiter's style. */
  predicate SectionSpan(n: TextNode, sections: seq<string>, style: TextType) {
    && n.text != "" && n.url == None
    && (n.textType == Text || n.textType == style)
    && n.text in sections
  }

  lemma {:induction false} EmitSectionsShape(sections: seq<string>, i: nat, style: TextType)
    requires i <= |sections|
    ensures forall n <- EmitSections(sections, i, style) :: SectionSpan(n, sections[i..], style)
    decreases |sections| - i
  {
    if i < |sections| {
      EmitSectionsShape(sections, i + 1, style);
      var rest := EmitSections(sections, i + 1, style);
      var head := if sections[i] == "" then [] else [SectionNode(sections[i], i, style)];
      assert EmitSections(sections, i, style) == head + rest;
      assert sections[i..] == [sections[i]] + sections[i + 1..];
      forall n <- head + rest
        ensures SectionSpan(n, sections[i..], style)
      {
        if n in rest {
          assert SectionSpan(n, sections[i + 1..], style);
        } else {
          assert n == SectionNode(sections[i], i, style);
        }
      }
    }
  }

  /** Every non-empty section is emitted, with the style its position gives
      it. */
  lemma {:induction false} EmitSectionsCover(sections: seq<string>, i: nat, style: TextType)
    requires i <= |sections|
    ensures forall j :: i <= j < |sections| && sections[j] != "" ==> SectionNode(sections[j], j, style) in EmitSections(sections, i, style)
    decreases |sections| - i
  {
    if i < |sections| {
      EmitSectionsCover(sections, i + 1, style);
      var rest := EmitSections(sections, i + 1, style);
      var head := if sections[i] == "" then [] else [SectionNode(sections[i], i, style)];
      assert EmitSections(sections, i, style) == head + rest;
      forall j | i <= j < |sections| && sections[j] != ""
        ensures SectionNode(sections[j], j, style) in head + rest
      {
        if j > i {
          assert SectionNode(sections[j], j, style) in rest;
        } else {
          assert (head + rest)[0] == SectionNode(sections[i], i, style);
        }
      }
    }
  }

  /** The emitted spans spell the sections out: nothing but empty sections is
      dropped. */
  lemma {:induction false} EmitSectionsConcat(sections: seq<string>, i: nat, style: TextType)
    requires i <= |sections|
    ensures Concat(Texts(EmitSections(sections, i, style))) == Concat(sections[i..])
    decreases |sections| - i
  {
    if i == |sections| {
      assert sections[i..] == [];
    } else {
      EmitSectionsConcat(sections, i + 1, style);
      var rest := EmitSections(sections, i + 1, style);
      var head := if sections[i] == "" then [] else [SectionNode(sections[i], i, style)];
      assert EmitSections(sections, i, style) == head + rest;
      TextsAppend(head, rest);
      assert Concat(Texts(head)) == sections[i] by {
        if sections[i] != "" {
          assert Texts(head) == [sections[i]];
          assert Concat([sections[i]]) == sections[i] + Concat([]);
        }
      }
      assert sections[i..][1..] == sections[i + 1..];
    }
  }

  /** Splitting the text of one plain span on `delim`: an odd number of
      sections alternates plain and styled text; an even number means an
      unclosed delimiter. */
  function SplitText(text: string, delim: string, style: TextType): (r: Result<seq<TextNode>>)
    requires |delim| > 0
    ensures r.Failure? <==> CountOccurrences(text, delim) % 2 == 1
    ensures r.Failure? ==> r.error == UnclosedDelimiter
    ensures r.Success? ==> Concat(Texts(r.value)) == RemoveAll(text, delim)
  {
    var sections := Split(text, delim);
    SplitLength(text, delim);
    NextParity(CountOccurrences(text, delim));
    if |sections| % 2 == 0 then
      Failure(UnclosedDelimiter)
    else
      SectionsConcat(text, delim, style);
      Success(EmitSections(sections, 0, style))
  }

  /** One more than an odd number is even. */
  lemma NextParity(n: nat)
    ensures (n + 1) % 2 == 0 <==> n % 2 == 1
  {
  }

  /** Dropping the delimiters and concatenating the sections' spans give the
      same text. */
  lemma SectionsConcat(text: string, delim: string, style: TextType)
    requires |delim| > 0
    ensures Concat(Texts(EmitSections(Split(text, delim), 0, style))) == RemoveAll(text, delim)
  {
    var sections := Split(text, delim);
    assert sections[0..] == sections;
    EmitSectionsConcat(sections, 0, style);
    SplitConcat(text, delim, 0);
  }

  /** The spans of a successful split: each is non-empty, plain or styled,
      free of the delimiter; every non-empty section appears with the style
      its position gives it; and an empty text gives no span. */
  lemma SplitTextSpans(text: string, delim: string, style: TextType)
    requires |delim| > 0
    ensures var r := SplitText(text, delim, style);
      r.Success? ==>
        && (forall k :: 0 <= k < |r.value| ==>
              && r.value[k].text != "" && r.value[k].url == None
              && (r.value[k].textType == Text || r.value[k].textType == style)
              && !Contains(r.value[k].text, delim))
        && (var sections := Split(text, delim);
            forall j :: 0 <= j < |sections| && sections[j] != "" ==> SectionNode(sections[j], j, style) in r.value)
    ensures text == "" ==> SplitText(text, delim, style) == Success([])
  {
    SplitTextSuccess(text, delim, style);
    SplitCount(text, delim, 0);
    EmitSectionsSpans(Split(text, delim), 0, style);
    assert Split(text, delim)[0..] == Split(text, delim);
  }

  /** On success, span `k` is non-empty section `idx[k]` of the split text,
      styled exactly when `idx[k]` is odd. */
  lemma SplitTextIndexed(text: string, delim: string, style: TextType)
    requires |delim| > 0
    ensures var r := SplitText(text, delim, style);
      var sections := Split(text, delim); var idx := NonEmptyIndices(sections, 0);
      r.Success? ==>
        && |idx| == |r.value|
        && forall k :: 0 <= k < |r.value| ==>
             && r.value[k].text == sections[idx[k]]
             && r.value[k].textType == (if idx[k] % 2 == 0 then Text else style)
             && r.value[k].url == None
  {
    EmitSectionsIndexed(Split(text, delim), 0, style);
  }

  lemma SplitTextSuccess(text: string, delim: string, style: TextType)
    requires |delim| > 0
    ensures var sections := Split(text, delim); var out := EmitSections(sections, 0, style);
      && (forall k :: 0 <= k < |out| ==> !Contains(out[k].text, delim))
      && Concat(Texts(out)) == RemoveAll(text, delim)
      && (text == "" ==> out == [])
  {
    var sections := Split(text, delim);
    var out := EmitSections(sections, 0, style);
    assert sections[0..] == sections;
    SectionsConcat(text, delim, style);
    SplitAvoids(text, delim, 0);
    EmitSectionsSpans(sections, 0, style);
    forall k | 0 <= k < |out|
      ensures !Contains(out[k].text, delim)
    {
      var j :| 0 <= j < |sections| && sections[j] == out[k].text;
    }
    if text == "" {
      assert sections == [""];
    }
  }

  /** `split_nodes_delimiter` on one span: spans that are not plain text pass
      through unchanged. */
  function SplitNodeDelimiter(node: TextNode, delim: string, style: TextType): Result<seq<TextNode>>
    requires |delim| > 0
  {
    if node.textType != Text then Success([node]) else SplitText(node.text, delim, style)
  }

  /** What a span contributes to the concatenated text once the delimiters of
      plain spans are gone. */
  function Unmarked(node: TextNode, delim: string): string
    requires |delim| > 0
  {
    if node.textType == Text then RemoveAll(node.text, delim) else node.text
  }

  function UnmarkedAll(nodes: seq<TextNode>, delim: string): string
    requires |delim| > 0
  {
    if |nodes| == 0 then "" else Unmarked(nodes[0], delim) + UnmarkedAll(nodes[1..], delim)
  }

  /** A plain span whose delimiter count is odd: it cannot be split. */
  predicate Unbalanced(node: TextNode, delim: string)
    requires |delim| > 0
  {
    node.textType == Text && CountOccurrences(node.text, delim) % 2 == 1
  }

  /** Some span of `nodes` is unbalanced. */
  predicate AnyUnbalanced(nodes: seq<TextNode>, delim: string)
    requires |delim| > 0
  {
    |nodes| > 0 && (Unbalanced(nodes[0], delim) || AnyUnbalanced(nodes[1..], delim))
  }

  lemma {:induction false} AnyUnbalancedIff(nodes: seq<TextNode>, delim: string)
    requires |delim| > 0
    ensures AnyUnbalanced(nodes, delim) <==> exists i :: 0 <= i < |nodes| && Unbalanced(nodes[i], delim)
  {
    if |nodes| > 0 {
      AnyUnbalancedIff(nodes[1..], delim);
      assert forall i :: 1 <= i < |nodes| ==> nodes[i] == nodes[1..][i - 1];
      if exists i :: 0 <= i < |nodes| && Unbalanced(nodes[i], delim) {
        var i :| 0 <= i < |nodes| && Unbalanced(nodes[i], delim);
        if i > 0 {
          assert Unbalanced(nodes[1..][i - 1], delim);
        }
      }
    }
  }

  /** `split_nodes_delimiter`: each span is replaced by its split, in order;
      the first unbalanced plain span makes the whole pass fail. */
  function SplitNodesDelimiter(nodes: seq<TextNode>, delim: string, style: TextType): (r: Result<seq<TextNode>>)
    requires |delim| > 0
    ensures r.Failure? <==> AnyUnbalanced(nodes, delim)
    ensures r.Failure? ==> r.error == UnclosedDelimiter
    ensures r.Success? ==> Concat(Texts(r.value)) == UnmarkedAll(nodes, delim)
    decreases |nodes|
  {
    if |nodes| == 0 then
      Success([])
    else
      var first := SplitNodeDelimiter(nodes[0], delim, style);
      var rest := SplitNodesDelimiter(nodes[1..], delim, style);
      if first.Success? && rest.Success? then
        TextsAppend(first.value, rest.value);
        Then(first, rest)
      else
        Then(first, rest)
  }

  /** The pass is computed span by span: splitting a concatenation is
      concatenating the splits, and the earlier failure wins. */
  lemma {:induction false} SplitNodesDelimiterAppend(a: seq<TextNode>, b: seq<TextNode>, delim: string, style: TextType)
    requires |delim| > 0
    ensures SplitNodesDelimiter(a + b, delim, style) ==
      Then(SplitNodesDelimiter(a, delim, style), SplitNodesDelimiter(b, delim, style))
    decreases |a|
  {
    var rb := SplitNodesDelimiter(b, delim, style);
    if |a| == 0 {
      assert a + b == b;
      ThenUnit(rb);
    } else {
      var ab := a + b;
      assert ab[0] == a[0];
      assert ab[1..] == a[1..] + b;
      SplitNodesDelimiterAppend(a[1..], b, delim, style);
      var first := SplitNodeDelimiter(a[0], delim, style);
      var tail := SplitNodesDelimiter(a[1..], delim, style);
      calc {
        SplitNodesDelimiter(ab, delim, style);
        Then(first, SplitNodesDelimiter(a[1..] + b, delim, style));
        Then(first, Then(tail, rb));
        { ThenAssociative(first, tail, rb); }
        Then(Then(first, tail), rb);
        Then(SplitNodesDelimiter(a, delim, style), rb);
      }
    }
  }

  /** A span that is not plain text comes out of the pass exactly as it went in. */
  lemma StyledSpanPassesThrough(node: TextNode, delim: string, style: TextType)
    requires |delim| > 0
    requires node.textType != Text
    ensures SplitNodesDelimiter([node], delim, style) == Success([node])
  {
    assert [node][1..] == [];
    assert SplitNodesDelimiter([], delim, style) == Success([]);
    assert [node] + [] == [node];
  }

  // ---------------------------------------------------------------------
  // Images and links
  // ---------------------------------------------------------------------

  /** The two bracket-and-paren patterns: `!\[alt\](url)` for images and
      `[text](url)` not preceded by `!` for links. */
  datatype Pattern = Images | Links {

    /** The kind of span a match of this pattern becomes. */
    function Kind(): TextType {
      if this == Images then Image else Link
    }
  }

  /** The characters in `s` avoid both `a` and `b`. */
  predicate Excludes(s: string, a: char, b: char) {
    forall k :: 0 <= k < |s| ==> s[k] != a && s[k] != b
  }

  /** A caption free of square brackets and a URL free of parentheses, as the
      classes `[^\[\]]*` and `[^\(\)]*` demand. */
  predicate WellFormed(caption: string, url: string) {
    Excludes(caption, '[', ']') && Excludes(url, '(', ')')
  }

  /** The markdown source of an image or a link. */
  function Literal(pat: Pattern, caption: string, url: string): (r: string)
    ensures |r| == (if pat == Images then 5 else 4) + |caption| + |url|
  {
    (if pat == Images then "!" else "") + "[" + caption + "](" + url + ")"
  }

  /** An image is a `!` followed by a link-shaped literal. */
  lemma ImageLiteral(caption: string, url: string)
    ensures Literal(Images, caption, url) == "!" + Literal(Links, caption, url)
  {
    assert "" + Literal(Links, caption, url) == Literal(Links, caption, url);
  }

  /** A `!` right before a link literal makes an image literal. */
  lemma ImageLiteralAt(s: string, p: nat, caption: string, url: string)
    requires p < |s| && s[p] == '!'
    requires OccursAt(s, Literal(Links, caption, url), p + 1)
    ensures OccursAt(s, Literal(Images, caption, url), p)
  {
    var n := |Literal(Links, caption, url)|;
    ImageLiteral(caption, url);
    assert s[p..p + 1 + n] == [s[p]] + s[p + 1..p + 1 + n];
  }

  /** One match: the caption (alt or anchor text), the URL, and the half-open
      extent `[start, end)` of the match in the text. */
  datatype Match = Match(caption: string, url: string, start: nat, end: nat)

  /** The first index at or after `i` holding `a` or `b`, or the end of `s`:
      the extent of a greedy run of the class that excludes `a` and `b`. */
  function RunEnd(s: string, i: nat, a: char, b: char): (j: nat)
    requires i <= |s|
    ensures i <= j <= |s|
    ensures forall k :: i <= k < j ==> s[k] != a && s[k] != b
    ensures j < |s| ==> s[j] == a || s[j] == b
    decreases |s| - i
  {
    if i == |s| || s[i] == a || s[i] == b then i else RunEnd(s, i + 1, a, b)
  }

  /** The text from a `[` to a `)`, with `](` in between, is the link literal
      of the two stretches it brackets. */
  lemma LinkLiteralAt(s: string, i: nat, j: nat, k: nat)
    requires i < j && j + 1 < k < |s|
    requires s[i] == '[' && s[j] == ']' && s[j + 1] == '(' && s[k] == ')'
    ensures s[i..k + 1] == Literal(Links, s[i + 1..j], s[j + 2..k])
  {
    var caption, url := s[i + 1..j], s[j + 2..k];
    assert s[i..k + 1] == [s[i]] + caption + [s[j], s[j + 1]] + url + [s[k]];
    assert Literal(Links, caption, url) == "[" + caption + "](" + url + ")";
  }

  /** `\[([^\[\]]*)\]\(([^\(\)]*)\)` anchored at `i`. Neither class admits
      the character that must follow its run, so the greedy runs are the
      only way the pattern can match. */
  function BracketParenAt(s: string, i: nat): (r: Option<Match>)
    requires i <= |s|
    ensures r.Some? ==>
      && r.value.start == i
      && WellFormed(r.value.caption, r.value.url)
      && r.value.end == i + |Literal(Links, r.value.caption, r.value.url)|
      && OccursAt(s, Literal(Links, r.value.caption, r.value.url), i)
  {
    if i < |s| && s[i] == '[' then
      var j := RunEnd(s, i + 1, '[', ']');
      if j + 1 < |s| && s[j] == ']' && s[j + 1] == '(' then
        var k := RunEnd(s, j + 2, '(', ')');
        if k < |s| && s[k] == ')' then
          LinkLiteralAt(s, i, j, k);
          Some(Match(s[i + 1..j], s[j + 2..k], i, k + 1))
        else
          None
      else
        None
    else
      None
  }

  /** A greedy run stops at the first excluded character. */
  lemma {:induction false} RunEndExact(s: string, i: nat, j: nat, a: char, b: char)
    requires i <= j < |s| && (s[j] == a || s[j] == b)
    requires forall k :: i <= k < j ==> s[k] != a && s[k] != b
    ensures RunEnd(s, i, a, b) == j
    decreases j - i
  {
    if i < j {
      RunEndExact(s, i + 1, j, a, b);
    }
  }

  /** Where each part of a link literal sits. */
  lemma LinkLiteralParts(caption: string, url: string)
    ensures var lit := Literal(Links, caption, url); var j := 1 + |caption|;
      && lit[0] == '[' && lit[1..j] == caption && lit[j] == ']' && lit[j + 1] == '('
      && lit[j + 2..j + 2 + |url|] == url && lit[j + 2 + |url|] == ')'
  {
    var lit := Literal(Links, caption, url);
    assert lit == ("[" + caption) + ("](" + url + ")");
  }

  /** The scanner misses no link-shaped literal: where a well-formed
      `[caption](url)` occurs, it matches exactly that literal. */
  lemma BracketParenComplete(s: string, i: nat, caption: string, url: string)
    requires i <= |s| && WellFormed(caption, url)
    requires OccursAt(s, Literal(Links, caption, url), i)
    ensures BracketParenAt(s, i) == Some(Match(caption, url, i, i + |Literal(Links, caption, url)|))
  {
    LinkLiteralLayout(s, i, caption, url);
    BracketParenLaidOut(s, i, i + 1 + |caption|, i + 3 + |caption| + |url|, caption, url);
  }

  /** The scanner's verdict on a text laid out as a link literal. */
  lemma BracketParenLaidOut(s: string, i: nat, j: nat, k: nat, caption: string, url: string)
    requires j == i + 1 + |caption| && k == j + 2 + |url| && k < |s|
    requires s[i] == '[' && s[j] == ']' && s[j + 1] == '(' && s[k] == ')'
    requires s[i + 1..j] == caption && s[j + 2..k] == url
    requires WellFormed(caption, url)
    ensures BracketParenAt(s, i) == Some(Match(caption, url, i, k + 1))
  {
    assert RunEnd(s, i + 1, '[', ']') == j by {
      RunEndAcross(s, i + 1, j, '[', ']', caption);
    }
    assert RunEnd(s, j + 2, '(', ')') == k by {
      RunEndAcross(s, j + 2, k, '(', ')', url);
    }
    BracketParenFound(s, i, j, k, caption, url, k + 1);
  }

  /** Where the brackets and the parts of an occurring link literal lie in
      the text. */
  lemma LinkLiteralLayout(s: string, i: nat, caption: string, url: string)
    requires OccursAt(s, Literal(Links, caption, url), i)
    ensures var j := i + 1 + |caption|; var k := j + 2 + |url|;
      && k < |s| && k + 1 == i + |Literal(Links, caption, url)|
      && s[i] == '[' && s[j] == ']' && s[j + 1] == '(' && s[k] == ')'
      && s[i + 1..j] == caption && s[j + 2..k] == url
  {
    var lit := Literal(Links, caption, url);
    var j := i + 1 + |caption|;
    var k := j + 2 + |url|;
    LinkLiteralParts(caption, url);
    SliceOfOccurrence(s, lit, i, 1, 1 + |caption|);
    SliceOfOccurrence(s, lit, i, 3 + |caption|, 3 + |caption| + |url|);
    CharOfOccurrence(s, lit, i, 0);
    CharOfOccurrence(s, lit, i, 1 + |caption|);
    CharOfOccurrence(s, lit, i, 2 + |caption|);
    CharOfOccurrence(s, lit, i, 3 + |caption| + |url|);
  }

  /** The scanner's verdict once both runs are known to end at a bracket. */
  lemma BracketParenFound(s: string, i: nat, j: nat, k: nat, caption: string, url: string, end: nat)
    requires i < j && j + 1 < k < |s|
    requires s[i] == '[' && s[j] == ']' && s[j + 1] == '(' && s[k] == ')'
    requires RunEnd(s, i + 1, '[', ']') == j && RunEnd(s, j + 2, '(', ')') == k
    requires caption == s[i + 1..j] && url == s[j + 2..k] && end == k + 1
    ensures BracketParenAt(s, i) == Some(Match(caption, url, i, end))
  {
  }

  /** A character of an occurrence is the same character of the occurring string. */
  lemma CharOfOccurrence(s: string, d: string, i: nat, m: nat)
    requires OccursAt(s, d, i) && m < |d|
    ensures i + m < |s| && s[i + m] == d[m]
  {
    assert s[i..i + |d|][m] == s[i + m];
  }

  /** A stretch of an occurrence is the same stretch of the occurring string. */
  lemma SliceOfOccurrence(s: string, d: string, i: nat, a: nat, b: nat)
    requires OccursAt(s, d, i) && a <= b <= |d|
    ensures s[i + a..i + b] == d[a..b]
    ensures forall m :: a <= m < b ==> s[i + m] == d[m]
  {
    assert s[i..i + |d|] == d;
    forall m | a <= m < b
      ensures s[i + m] == d[m]
    {
      assert s[i..i + |d|][m] == s[i + m];
    }
  }

  /** A run over a stretch free of both characters ends where they appear. */
  lemma RunEndAcross(s: string, i: nat, j: nat, a: char, b: char, part: string)
    requires i <= j < |s| && (s[j] == a || s[j] == b)
    requires s[i..j] == part && Excludes(part, a, b)
    ensures RunEnd(s, i, a, b) == j
  {
    assert forall k :: i <= k < j ==> s[k] == part[k - i];
    RunEndExact(s, i, j, a, b);
  }

  /** The pattern `pat` matched at index `p` of `s`, if it does. */
  function MatchAt(s: string, p: nat, pat: Pattern): (r: Option<Match>)
    requires p <= |s|
    ensures r.Some? ==>
      && r.value.start == p
      && WellFormed(r.value.caption, r.value.url)
      && r.value.end == p + |Literal(pat, r.value.caption, r.value.url)|
      && OccursAt(s, Literal(pat, r.value.caption, r.value.url), p)
    ensures r.Some? && pat == Links ==> !(p > 0 && s[p - 1] == '!')
  {
    if pat == Images then
      if p < |s| && s[p] == '!' then
        match BracketParenAt(s, p + 1)
        case None => None
        case Some(m) =>
          ImageLiteralAt(s, p, m.caption, m.url);
          Some(Match(m.caption, m.url, p, m.end))
      else
        None
    else if p > 0 && s[p - 1] == '!' then
      None
    else
      BracketParenAt(s, p)
  }

  /** The pattern misses no literal: a well-formed image literal, or a
      well-formed link literal not preceded by `!`, is matched where it
      occurs, exactly as written. */
  lemma MatchAtComplete(s: string, p: nat, pat: Pattern, caption: string, url: string)
    requires p <= |s| && WellFormed(caption, url)
    requires OccursAt(s, Literal(pat, caption, url), p)
    requires pat == Links ==> !(p > 0 && s[p - 1] == '!')
    ensures MatchAt(s, p, pat) == Some(Match(caption, url, p, p + |Literal(pat, caption, url)|))
  {
    if pat == Images {
      ImageMatchComplete(s, p, caption, url);
    } else {
      LinkMatchComplete(s, p, caption, url);
    }
  }

  lemma ImageMatchComplete(s: string, p: nat, caption: string, url: string)
    requires p <= |s| && WellFormed(caption, url)
    requires OccursAt(s, Literal(Images, caption, url), p)
    ensures MatchAt(s, p, Images) == Some(Match(caption, url, p, p + |Literal(Images, caption, url)|))
  {
    ImageLiteralSplit(s, p, caption, url);
    BracketParenComplete(s, p + 1, caption, url);
    assert p + 1 + |Literal(Links, caption, url)| == p + |Literal(Images, caption, url)|;
    ImageMatch(s, p, caption, url, p + |Literal(Images, caption, url)|);
  }

  lemma LinkMatchComplete(s: string, p: nat, caption: string, url: string)
    requires p <= |s| && WellFormed(caption, url)
    requires OccursAt(s, Literal(Links, caption, url), p)
    requires !(p > 0 && s[p - 1] == '!')
    ensures MatchAt(s, p, Links) == Some(Match(caption, url, p, p + |Literal(Links, caption, url)|))
  {
    BracketParenComplete(s, p, caption, url);
  }

  /** An occurring image literal is a `!` followed by an occurring link
      literal. */
  lemma ImageLiteralSplit(s: string, p: nat, caption: string, url: string)
    requires OccursAt(s, Literal(Images, caption, url), p)
    ensures p < |s| && s[p] == '!' && OccursAt(s, Literal(Links, caption, url), p + 1)
  {
    var lit := Literal(Links, caption, url);
    ImageLiteral(caption, url);
    assert s[p..p + 1 + |lit|] == "!" + lit;
    assert s[p] == s[p..p + 1 + |lit|][0];
    assert s[p + 1..p + 1 + |lit|] == s[p..p + 1 + |lit|][1..];
  }

  /** The image pattern at a `!` is the bracket match right after it. */
  lemma ImageMatch(s: string, p: nat, caption: string, url: string, end: nat)
    requires p < |s| && s[p] == '!'
    requires BracketParenAt(s, p + 1) == Some(Match(caption, url, p + 1, end))
    ensures MatchAt(s, p, Images) == Some(Match(caption, url, p, end))
  {
  }

  /** What the pattern matches at `p` is exactly a well-formed literal there,
      with the lookbehind for links. */
  lemma MatchAtIff(s: string, p: nat, pat: Pattern, m: Match)
    requires p <= |s|
    ensures MatchAt(s, p, pat) == Some(m) <==>
      m.start == p && Located(s, m, pat) && (pat == Links ==> !(p > 0 && s[p - 1] == '!'))
  {
    if m.start == p && Located(s, m, pat) && (pat == Links ==> !(p > 0 && s[p - 1] == '!')) {
      MatchAtComplete(s, p, pat, m.caption, m.url);
    }
  }

  /** `extract_markdown_images` and `extract_markdown_links` find every text
      that holds a literal: the result is not empty, and when nothing
      matches earlier the literal's pair comes first. */
  lemma ExtractFinds(s: string, p: nat, pat: Pattern, caption: string, url: string)
    requires p <= |s| && WellFormed(caption, url)
    requires OccursAt(s, Literal(pat, caption, url), p)
    requires pat == Links ==> !(p > 0 && s[p - 1] == '!')
    ensures Extract(s, pat) != []
    ensures (forall q :: 0 <= q < p ==> MatchAt(s, q, pat).None?) ==> Extract(s, pat)[0] == (caption, url)
  {
    MatchAtComplete(s, p, pat, caption, url);
    var ms := FindAll(s, 0, pat);
    FindAllEmpty(s, 0, pat);
    assert ms != [];
    assert Extract(s, pat) == Pairs(ms);
    if forall q :: 0 <= q < p ==> MatchAt(s, q, pat).None? {
      assert MatchAt(s, ms[0].start, pat) == Some(ms[0]);
      assert ms[0].start == p;
    }
  }

  /** `ms` is what a left-to-right scan from `from` finds: each match is the
      leftmost one at or after the end of the previous one. */
  ghost predicate Scanned(s: string, ms: seq<Match>, from: nat, pat: Pattern)
    decreases |ms|
  {
    && from <= |s|
    && (|ms| > 0 ==>
      && from <= ms[0].start <= |s|
      && MatchAt(s, ms[0].start, pat) == Some(ms[0])
      && (forall p :: from <= p < ms[0].start ==> MatchAt(s, p, pat).None?)
      && Scanned(s, ms[1..], ms[0].end, pat))
  }

  /** `re.findall` over `s[pos..]`: after a match the scan resumes at its
      end, otherwise one character further on. */
  function FindAll(s: string, pos: nat, pat: Pattern): (r: seq<Match>)
    requires pos <= |s|
    ensures Scanned(s, r, pos, pat)
    decreases |s| - pos
  {
    if pos == |s| then
      []
    else
      var here := MatchAt(s, pos, pat);
      if here.Some? then
        var rest := FindAll(s, here.value.end, pat);
        assert ([here.value] + rest)[1..] == rest;
        [here.value] + rest
      else
        var rest := FindAll(s, pos + 1, pat);
        ScannedFromEarlier(s, rest, pos, pat);
        rest
  }

  /** The scan misses nothing: it finds no match exactly when the pattern
      matches nowhere at or after `pos`. */
  lemma FindAllEmpty(s: string, pos: nat, pat: Pattern)
    requires pos <= |s|
    ensures FindAll(s, pos, pat) == [] <==> forall p :: pos <= p <= |s| ==> MatchAt(s, p, pat).None?
  {
    FindAllEmptyFrom(s, pos, pat);
    NoMatchFromAll(s, pos, pat);
  }

  /** Nothing matches at `pos` or at any later index. */
  ghost predicate NoMatchFrom(s: string, pos: nat, pat: Pattern)
    requires pos <= |s|
    decreases |s| - pos
  {
    MatchAt(s, pos, pat).None? && (pos < |s| ==> NoMatchFrom(s, pos + 1, pat))
  }

  lemma {:induction false} NoMatchFromAll(s: string, pos: nat, pat: Pattern)
    requires pos <= |s|
    ensures NoMatchFrom(s, pos, pat) <==> forall p :: pos <= p <= |s| ==> MatchAt(s, p, pat).None?
    decreases |s| - pos
  {
    if pos < |s| {
      NoMatchFromAll(s, pos + 1, pat);
    }
  }

  lemma {:induction false} FindAllEmptyFrom(s: string, pos: nat, pat: Pattern)
    requires pos <= |s|
    ensures FindAll(s, pos, pat) == [] <==> NoMatchFrom(s, pos, pat)
    decreases |s| - pos
  {
    if pos == |s| {
      MatchAtEnd(s, pat);
    } else if MatchAt(s, pos, pat).None? {
      FindAllEmptyFrom(s, pos + 1, pat);
      FindAllMiss(s, pos, pat);
    }
  }

  /** Nothing matches at the very end of the text. */
  lemma MatchAtEnd(s: string, pat: Pattern)
    ensures MatchAt(s, |s|, pat).None?
  {
  }

  /** Where nothing matches the scan moves on by one character. */
  lemma FindAllMiss(s: string, pos: nat, pat: Pattern)
    requires pos < |s| && MatchAt(s, pos, pat).None?
    ensures FindAll(s, pos, pat) == FindAll(s, pos + 1, pat)
  {
  }

  /** A scan may start one character earlier where nothing matches. */
  lemma ScannedFromEarlier(s: string, ms: seq<Match>, from: nat, pat: Pattern)
    requires from < |s|
    requires MatchAt(s, from, pat).None?
    requires Scanned(s, ms, from + 1, pat)
    ensures Scanned(s, ms, from, pat)
  {
    if |ms| > 0 {
      assert ms[0].start != from;
    }
  }

  /** The (caption, url) pairs of a list of matches. */
  function Pairs(ms: seq<Match>): (r: seq<(string, string)>)
    ensures |r| == |ms|
    ensures forall k :: 0 <= k < |ms| ==> r[k] == (ms[k].caption, ms[k].url)
  {
    if |ms| == 0 then [] else [(ms[0].caption, ms[0].url)] + Pairs(ms[1..])
  }

  /** The (caption, url) pairs of every match of `pat` in `text`, in order. */
  function Extract(text: string, pat: Pattern): (r: seq<(string, string)>)
    ensures PairsWellFormed(r)
  {
    ScannedIsOrdered(text, FindAll(text, 0, pat), 0, pat);
    OrderedPairsWellFormed(text, FindAll(text, 0, pat), 0, pat);
    Pairs(FindAll(text, 0, pat))
  }

  predicate PairsWellFormed(pairs: seq<(string, string)>) {
    forall k :: 0 <= k < |pairs| ==> WellFormed(pairs[k].0, pairs[k].1)
  }

  /** Every match has a caption free of brackets and a URL free of
      parentheses. */
  lemma {:induction false} OrderedPairsWellFormed(s: string, ms: seq<Match>, from: nat, pat: Pattern)
    requires Ordered(s, ms, from, pat)
    ensures PairsWellFormed(Pairs(ms))
    decreases |ms|
  {
    if |ms| > 0 {
      OrderedPairsWellFormed(s, ms[1..], ms[0].end, pat);
      var rest := Pairs(ms[1..]);
      assert Pairs(ms) == [(ms[0].caption, ms[0].url)] + rest;
      forall k | 1 <= k < |Pairs(ms)|
        ensures WellFormed(Pairs(ms)[k].0, Pairs(ms)[k].1)
      {
        assert Pairs(ms)[k] == rest[k - 1];
      }
    }
  }

  /** `extract_markdown_images`: the (alt, url) pairs of every image. */
  function ExtractMarkdownImages(text: string): seq<(string, string)> {
    Extract(text, Images)
  }

  /** `extract_markdown_links`: the (anchor, url) pairs of every link. */
  function ExtractMarkdownLinks(text: string): seq<(string, string)> {
    Extract(text, Links)
  }

  /** `ms` are genuine matches in left-to-right order, none overlapping and
      none before `from` (a scan may have skipped some). */
  ghost predicate Ordered(s: string, ms: seq<Match>, from: nat, pat: Pattern)
    decreases |ms|
  {
    && from <= |s|
    && (|ms| > 0 ==>
      && from <= ms[0].start <= |s|
      && Located(s, ms[0], pat)
      && Ordered(s, ms[1..], ms[0].end, pat))
  }

  /** What a match guarantees about the text: its literal occurs at its
      start, it ends right after the literal, and its parts are well formed. */
  predicate Located(s: string, m: Match, pat: Pattern) {
    && WellFormed(m.caption, m.url)
    && m.end == m.start + |Literal(pat, m.caption, m.url)|
    && OccursAt(s, Literal(pat, m.caption, m.url), m.start)
  }

  /** Starting the search earlier keeps the matches ordered. */
  lemma OrderedFromEarlier(s: string, ms: seq<Match>, from: nat, earlier: nat, pat: Pattern)
    requires Ordered(s, ms, from, pat) && earlier <= from
    ensures Ordered(s, ms, earlier, pat)
  {
  }

  lemma {:induction false} ScannedIsOrdered(s: string, ms: seq<Match>, from: nat, pat: Pattern)
    requires Scanned(s, ms, from, pat)
    ensures Ordered(s, ms, from, pat)
    decreases |ms|
  {
    if |ms| > 0 {
      assert MatchAt(s, ms[0].start, pat) == Some(ms[0]);
      ScannedIsOrdered(s, ms[1..], ms[0].end, pat);
    }
  }

  // ---------------------------------------------------------------------
  // Splitting spans on images and links
  // ---------------------------------------------------------------------

  /** The loop of `split_nodes_image` and `split_nodes_link` over the
      extracted pairs: each pair is located with `str.find` from the cursor
      `last`; the text before it becomes a plain span when non-empty, the pair
      becomes a span of the pattern's kind, and the cursor moves past it.
      What follows the last pair becomes a plain span when non-empty. */
  function EmitPairs(text: string, pairs: seq<(string, string)>, last: nat, pat: Pattern): seq<TextNode>
    decreases |pairs|
  {
    if |pairs| == 0 then
      if last < |text| then [Plain(text[last..])] else []
    else
      var lit := Literal(pat, pairs[0].0, pairs[0].1);
      var start := Find(text, lit, last);
      Gap(text, last, start) + [TextNode(pairs[0].0, pat.Kind(), Some(pairs[0].1))] + EmitPairs(text, pairs[1..], start + |lit|, pat)
  }

  /** The plain span between the cursor and the next literal, if non-empty. */
  function Gap(text: string, last: nat, start: int): seq<TextNode>
    requires start <= |text|
  {
    if start > last then [Plain(text[last..start])] else []
  }

  /** `split_nodes_image` / `split_nodes_link` on one span: spans of the
      pattern's own kind, and spans without a match, pass through unchanged;
      any other span is cut around its matches. */
  function SplitNodeMatching(node: TextNode, pat: Pattern): seq<TextNode> {
    if node.textType == pat.Kind() then
      [node]
    else
      var pairs := Extract(node.text, pat);
      if |pairs| == 0 then [node] else EmitPairs(node.text, pairs, 0, pat)
  }

  /** The markdown a span stands for with respect to `pat`: the literal for a
      span of the pattern's kind, the text for any other span. */
  function Source(node: TextNode, pat: Pattern): string {
    if node.textType == pat.Kind() && node.url.Some? then Literal(pat, node.text, node.url.value) else node.text
  }

  function SourceAll(nodes: seq<TextNode>, pat: Pattern): string {
    if |nodes| == 0 then "" else Source(nodes[0], pat) + SourceAll(nodes[1..], pat)
  }

  lemma {:induction false} SourceAllAppend(a: seq<TextNode>, b: seq<TextNode>, pat: Pattern)
    ensures SourceAll(a + b, pat) == SourceAll(a, pat) + SourceAll(b, pat)
    decreases |a|
  {
    if |a| > 0 {
      assert (a + b)[1..] == a[1..] + b;
      SourceAllAppend(a[1..], b, pat);
    } else {
      assert a + b == b;
    }
  }

  /** A span that `EmitPairs` may produce: a non-empty plain span, or a span
      of the pattern's kind with a well-formed caption and URL. */
  predicate Emitted(node: TextNode, pat: Pattern) {
    || (node.textType == Text && node.text != "" && node.url == None)
    || (node.textType == pat.Kind() && node.url.Some? && WellFormed(node.text, node.url.value))
  }

  predicate AllEmitted(nodes: seq<TextNode>, pat: Pattern) {
    forall k :: 0 <= k < |nodes| ==> Emitted(nodes[k], pat)
  }

  lemma AllEmittedAppend(a: seq<TextNode>, b: seq<TextNode>, pat: Pattern)
    requires AllEmitted(a, pat) && AllEmitted(b, pat)
    ensures AllEmitted(a + b, pat)
  {
    forall k | |a| <= k < |a + b|
      ensures Emitted((a + b)[k], pat)
    {
      assert (a + b)[k] == b[k - |a|];
    }
  }

  /** The caption and URL of every span of the pattern's kind, in order. */
  function KindPairs(nodes: seq<TextNode>, pat: Pattern): seq<(string, string)> {
    if |nodes| == 0 then []
    else
      (if nodes[0].textType == pat.Kind() && nodes[0].url.Some? then [(nodes[0].text, nodes[0].url.value)] else [])
      + KindPairs(nodes[1..], pat)
  }

  lemma {:induction false} KindPairsAppend(a: seq<TextNode>, b: seq<TextNode>, pat: Pattern)
    ensures KindPairs(a + b, pat) == KindPairs(a, pat) + KindPairs(b, pat)
    decreases |a|
  {
    if |a| > 0 {
      assert (a + b)[1..] == a[1..] + b;
      KindPairsAppend(a[1..], b, pat);
    } else {
      assert a + b == b;
    }
  }

  /** The cursor never moves backwards: `str.find` from the cursor lands at
      or before the next match (it cannot miss it), so the cursor after the
      pair is past the old one and no further than the end of the match. */
  lemma CursorAdvances(text: string, ms: seq<Match>, last: nat, pat: Pattern)
    requires Ordered(text, ms, last, pat) && |ms| > 0
    ensures var lit := Literal(pat, ms[0].caption, ms[0].url);
      var start := Find(text, lit, last);
      && last <= start <= ms[0].start
      && last < start + |lit| <= ms[0].end
  {
    var lit := Literal(pat, ms[0].caption, ms[0].url);
    FindIsFirst(text, lit, last);
    assert OccursAt(text, lit, ms[0].start);
  }

  /** Every pair's literal is found by `str.find` from the cursor the loop
      has reached, so the loop never searches in vain. */
  predicate Locatable(text: string, pairs: seq<(string, string)>, last: nat, pat: Pattern)
    decreases |pairs|
  {
    && last <= |text|
    && (|pairs| > 0 ==>
      var lit := Literal(pat, pairs[0].0, pairs[0].1);
      var start := Find(text, lit, last);
      && start != -1
      && Locatable(text, pairs[1..], start + |lit|, pat))
  }

  /** The pairs of genuine, ordered matches are all found by the loop. */
  lemma {:induction false} OrderedIsLocatable(text: string, ms: seq<Match>, last: nat, pat: Pattern)
    requires Ordered(text, ms, last, pat)
    ensures Locatable(text, Pairs(ms), last, pat)
    decreases |ms|
  {
    if |ms| > 0 {
      CursorAdvances(text, ms, last, pat);
      var lit := Literal(pat, ms[0].caption, ms[0].url);
      var next := Find(text, lit, last) + |lit|;
      OrderedFromEarlier(text, ms[1..], ms[0].end, next, pat);
      OrderedIsLocatable(text, ms[1..], next, pat);
      assert Pairs(ms)[1..] == Pairs(ms[1..]);
    }
  }

  /** The cut is lossless: the spans' markdown, in order, is the text from
      the cursor on. */
  lemma {:induction false} EmitPairsSource(text: string, pairs: seq<(string, string)>, last: nat, pat: Pattern)
    requires Locatable(text, pairs, last, pat)
    ensures SourceAll(EmitPairs(text, pairs, last, pat), pat) == text[last..]
    decreases |pairs|
  {
    if |pairs| == 0 {
      TailSource(text, last, pat);
    } else {
      var lit := Literal(pat, pairs[0].0, pairs[0].1);
      var start := Find(text, lit, last);
      var next := start + |lit|;
      var node := TextNode(pairs[0].0, pat.Kind(), Some(pairs[0].1));
      var rest := EmitPairs(text, pairs[1..], next, pat);
      assert EmitPairs(text, pairs, last, pat) == Gap(text, last, start) + [node] + rest;
      EmitPairsSource(text, pairs[1..], next, pat);
      FoundLiteral(text, lit, last, start);
      KindSource(pairs[0].0, pairs[0].1, pat);
      StepSource(text, last, start, next, node, rest, EmitPairs(text, pairs, last, pat), pat);
    }
  }

  /** A successful `Find` lands on the literal it looked for. */
  lemma FoundLiteral(text: string, lit: string, last: nat, start: int)
    requires start == Find(text, lit, last) && start != -1
    ensures last <= start && start + |lit| <= |text| && text[start..start + |lit|] == lit
  {
  }

  /** A span of the pattern's kind stands for its literal. */
  lemma KindSource(caption: string, url: string, pat: Pattern)
    ensures Source(TextNode(caption, pat.Kind(), Some(url)), pat) == Literal(pat, caption, url)
  {
  }

  /** What follows the last pair stands for the rest of the text. */
  lemma TailSource(text: string, last: nat, pat: Pattern)
    requires last <= |text|
    ensures SourceAll(EmitPairs(text, [], last, pat), pat) == text[last..]
  {
    var out := EmitPairs(text, [], last, pat);
    if last == |text| {
      assert out == [];
    } else {
      assert out[1..] == [];
    }
  }

  /** The bookkeeping of one step of `EmitPairsSource`. */
  lemma StepSource(text: string, last: nat, start: nat, next: nat, node: TextNode, rest: seq<TextNode>, out: seq<TextNode>, pat: Pattern)
    requires last <= start <= next <= |text|
    requires Source(node, pat) == text[start..next]
    requires SourceAll(rest, pat) == text[next..]
    requires out == Gap(text, last, start) + [node] + rest
    ensures SourceAll(out, pat) == text[last..]
  {
    var before := Gap(text, last, start);
    SourceAllAppend(before + [node], rest, pat);
    SourceAllAppend(before, [node], pat);
    SourceAllSingle(node, pat);
    GapSource(text, last, start, pat);
    SliceSplit(text, last, start, next);
  }

  lemma SourceAllSingle(node: TextNode, pat: Pattern)
    ensures SourceAll([node], pat) == Source(node, pat)
  {
    assert [node][1..] == [];
  }

  /** The gap before a literal stands for the text between the cursor and
      the literal. */
  lemma GapSource(text: string, last: nat, start: nat, pat: Pattern)
    requires last <= start <= |text|
    ensures SourceAll(Gap(text, last, start), pat) == text[last..start]
  {
    if start > last {
      SourceAllSingle(Plain(text[last..start]), pat);
    }
  }

  /** Every span of the cut is a non-empty plain span or a span of the
      pattern's kind built from a well-formed pair. */
  lemma {:induction false} EmitPairsEmitted(text: string, pairs: seq<(string, string)>, last: nat, pat: Pattern)
    requires PairsWellFormed(pairs)
    ensures AllEmitted(EmitPairs(text, pairs, last, pat), pat)
    decreases |pairs|
  {
    if |pairs| > 0 {
      var lit := Literal(pat, pairs[0].0, pairs[0].1);
      var start := Find(text, lit, last);
      var next := start + |lit|;
      var before := Gap(text, last, start);
      var node := TextNode(pairs[0].0, pat.Kind(), Some(pairs[0].1));
      var rest := EmitPairs(text, pairs[1..], next, pat);
      EmitPairsCons(text, pairs, last, pat, start, next);
      EmitPairsEmitted(text, pairs[1..], next, pat);
      assert Emitted(node, pat);
      AllEmittedAppend(before, [node], pat);
      AllEmittedAppend(before + [node], rest, pat);
    } else if last < |text| {
      assert EmitPairs(text, pairs, last, pat) == [Plain(text[last..])];
    }
  }

  /** One step of the cut: the gap before the first literal, its span, then
      the cut of the rest from just past the literal. */
  lemma EmitPairsCons(text: string, pairs: seq<(string, string)>, last: nat, pat: Pattern, start: int, next: nat)
    requires |pairs| > 0
    requires start == Find(text, Literal(pat, pairs[0].0, pairs[0].1), last)
    requires next == start + |Literal(pat, pairs[0].0, pairs[0].1)|
    ensures EmitPairs(text, pairs, last, pat)
      == Gap(text, last, start) + [TextNode(pairs[0].0, pat.Kind(), Some(pairs[0].1))] + EmitPairs(text, pairs[1..], next, pat)
  {
  }

  /** The spans of the pattern's kind in the cut are the pairs, one each,
      in order. */
  lemma {:induction false} EmitPairsKinds(text: string, pairs: seq<(string, string)>, last: nat, pat: Pattern)
    ensures KindPairs(EmitPairs(text, pairs, last, pat), pat) == pairs
    decreases |pairs|
  {
    if |pairs| > 0 {
      var lit := Literal(pat, pairs[0].0, pairs[0].1);
      var start := Find(text, lit, last);
      var next := start + |lit|;
      var before := Gap(text, last, start);
      var node := TextNode(pairs[0].0, pat.Kind(), Some(pairs[0].1));
      var rest := EmitPairs(text, pairs[1..], next, pat);
      EmitPairsCons(text, pairs, last, pat, start, next);
      EmitPairsKinds(text, pairs[1..], next, pat);
      GapKinds(text, last, start, pat);
      KindsAround(EmitPairs(text, pairs, last, pat), before, node, rest, pairs, pat);
    } else if last < |text| {
      assert EmitPairs(text, pairs, last, pat) == [Plain(text[last..])];
      KindPairsSingle(Plain(text[last..]), pat);
    }
  }

  /** A span of the pattern's kind between spans of no kind and the rest of
      the pairs contributes the first pair. */
  lemma KindsAround(out: seq<TextNode>, before: seq<TextNode>, node: TextNode, rest: seq<TextNode>, pairs: seq<(string, string)>, pat: Pattern)
    requires out == before + [node] + rest
    requires |pairs| > 0 && node == TextNode(pairs[0].0, pat.Kind(), Some(pairs[0].1))
    requires KindPairs(before, pat) == [] && KindPairs(rest, pat) == pairs[1..]
    ensures KindPairs(out, pat) == pairs
  {
    var mid := before + [node];
    KindsOfLast(before, node, pairs[0], pat);
    KindPairsAppend(mid, rest, pat);
    assert [pairs[0]] + pairs[1..] == pairs;
  }

  lemma KindsOfLast(before: seq<TextNode>, node: TextNode, pair: (string, string), pat: Pattern)
    requires node == TextNode(pair.0, pat.Kind(), Some(pair.1)) && KindPairs(before, pat) == []
    ensures KindPairs(before + [node], pat) == [pair]
  {
    KindPairsAppend(before, [node], pat);
    KindPairsSingle(node, pat);
  }

  lemma KindPairsSingle(node: TextNode, pat: Pattern)
    ensures KindPairs([node], pat)
      == if node.textType == pat.Kind() && node.url.Some? then [(node.text, node.url.value)] else []
  {
    assert [node][1..] == [];
  }

  lemma GapKinds(text: string, last: nat, start: int, pat: Pattern)
    requires start <= |text|
    ensures KindPairs(Gap(text, last, start), pat) == []
  {
    if start > last {
      KindPairsSingle(Plain(text[last..start]), pat);
    }
  }

  /** `split_nodes_image` (pat == Images) and `split_nodes_link` (pat == Links):
      every span is replaced by its cut, in order. */
  function SplitNodesMatching(nodes: seq<TextNode>, pat: Pattern): seq<TextNode> {
    FlatMap((node: TextNode) => SplitNodeMatching(node, pat), nodes)
  }

  /** Each item replaced by the list `f` makes of it, in order. */
  function FlatMap<T, U>(f: T -> seq<U>, xs: seq<T>): seq<U> {
    if |xs| == 0 then [] else f(xs[0]) + FlatMap(f, xs[1..])
  }

  lemma {:induction false} FlatMapAppend<T, U>(f: T -> seq<U>, a: seq<T>, b: seq<T>)
    ensures FlatMap(f, a + b) == FlatMap(f, a) + FlatMap(f, b)
  {
    if |a| > 0 {
      assert (a + b)[0] == a[0] && (a + b)[1..] == a[1..] + b;
      FlatMapAppend(f, a[1..], b);
    } else {
      assert a + b == b;
    }
  }

  /** The pass loses nothing: the markdown the spans stand for is unchanged. */
  lemma {:induction false} SplitNodesMatchingSource(nodes: seq<TextNode>, pat: Pattern)
    ensures SourceAll(SplitNodesMatching(nodes, pat), pat) == SourceAll(nodes, pat)
    decreases |nodes|
  {
    if |nodes| > 0 {
      var first := SplitNodeMatching(nodes[0], pat);
      var rest := SplitNodesMatching(nodes[1..], pat);
      assert SplitNodesMatching(nodes, pat) == first + rest;
      SplitNodeMatchingFacts(nodes[0], pat);
      SplitNodesMatchingSource(nodes[1..], pat);
      SourceAllAppend(first, rest, pat);
      assert SourceAll(nodes, pat) == Source(nodes[0], pat) + SourceAll(nodes[1..], pat);
    }
  }

  /** What happens to one span: a span of the pattern's kind, or one without
      a match, is passed through as it is; any other span is cut into
      non-empty plain spans and spans of the pattern's kind, one per match. */
  lemma SplitNodeMatchingFacts(node: TextNode, pat: Pattern)
    ensures var out := SplitNodeMatching(node, pat);
      && SourceAll(out, pat) == Source(node, pat)
      && (node.textType == pat.Kind() || Extract(node.text, pat) == [] ==> out == [node])
      && (node.textType != pat.Kind() && Extract(node.text, pat) != [] ==>
            && AllEmitted(out, pat)
            && KindPairs(out, pat) == Extract(node.text, pat))
  {
    var out := SplitNodeMatching(node, pat);
    if node.textType == pat.Kind() || Extract(node.text, pat) == [] {
      assert [node][1..] == [];
    } else {
      var ms := FindAll(node.text, 0, pat);
      ScannedIsOrdered(node.text, ms, 0, pat);
      OrderedIsLocatable(node.text, ms, 0, pat);
      EmitPairsSource(node.text, Pairs(ms), 0, pat);
      EmitPairsEmitted(node.text, Pairs(ms), 0, pat);
      EmitPairsKinds(node.text, Pairs(ms), 0, pat);
      assert node.text[0..] == node.text;
    }
  }

  /** On a single span the pass is that span's cut. */
  lemma SplitNodesMatchingOne(node: TextNode, pat: Pattern)
    ensures SplitNodesMatching([node], pat) == SplitNodeMatching(node, pat)
  {
    var f := (n: TextNode) => SplitNodeMatching(n, pat);
    assert [node][1..] == [];
    assert FlatMap(f, [node]) == f(node) + FlatMap(f, []);
  }

  /** The pass works span by span. */
  lemma SplitNodesMatchingAppend(a: seq<TextNode>, b: seq<TextNode>, pat: Pattern)
    ensures SplitNodesMatching(a + b, pat) == SplitNodesMatching(a, pat) + SplitNodesMatching(b, pat)
  {
    FlatMapAppend((node: TextNode) => SplitNodeMatching(node, pat), a, b);
  }

  /** `split_nodes_image`. */
  function SplitNodesImage(nodes: seq<TextNode>): seq<TextNode> {
    SplitNodesMatching(nodes, Images)
  }

  /** `split_nodes_link`. */
  function SplitNodesLink(nodes: seq<TextNode>): seq<TextNode> {
    SplitNodesMatching(nodes, Links)
  }

  // ---------------------------------------------------------------------
  // The five passes
  // ---------------------------------------------------------------------

  /** `text_to_textnodes`: backtick code, `**` bold and `_` italic splits,
      then images, then links. An unclosed delimiter in any of the first
      three passes aborts the conversion. */
  function TextToTextNodes(text: string): (r: Result<seq<TextNode>>)
    ensures r.Failure? ==> r.error == UnclosedDelimiter
  {
    var code :- SplitNodesDelimiter([Plain(text)], "`", Code);
    var bold :- SplitNodesDelimiter(code, "**", Bold);
    var italic :- SplitNodesDelimiter(bold, "_", Italic);
    Success(SplitNodesLink(SplitNodesImage(italic)))
  }
  /** A span as the delimiter passes leave it: not empty, and neither a link
      nor an image. */
  predicate Settled(n: TextNode) {
    n.text != "" && n.url == None && n.textType != Link && n.textType != Image
  }

  /** A span as the whole inline pass leaves it: a plain span is never empty,
      and a url is set exactly on links and images, whose parts are
      well-formed. */
  predicate Finished(n: TextNode) {
    && (n.textType == Text ==> n.text != "")
    && (n.url.Some? <==> n.textType == Link || n.textType == Image)
    && (n.url.Some? ==> WellFormed(n.text, n.url.value))
  }

  /** A span a delimiter pass may take: neither a link nor an image, and
      not empty unless it is plain and so still to be split. */
  predicate Splittable(n: TextNode) {
    n.url == None && n.textType != Link && n.textType != Image && (n.textType != Text ==> n.text != "")
  }

  /** A delimiter pass, given splittable spans, yields settled spans only. */
  lemma {:induction false} DelimiterSettles(nodes: seq<TextNode>, delim: string, style: TextType)
    requires |delim| > 0 && style != Link && style != Image
    requires forall k :: 0 <= k < |nodes| ==> Splittable(nodes[k])
    ensures var r := SplitNodesDelimiter(nodes, delim, style);
      r.Success? ==> forall k :: 0 <= k < |r.value| ==> Settled(r.value[k])
    decreases |nodes|
  {
    if |nodes| > 0 {
      DelimiterSettles(nodes[1..], delim, style);
      var first := SplitNodeDelimiter(nodes[0], delim, style);
      var rest := SplitNodesDelimiter(nodes[1..], delim, style);
      if first.Success? && rest.Success? {
        SplitNodeSettles(nodes[0], delim, style);
        SettledAppend(first.value, rest.value);
        assert SplitNodesDelimiter(nodes, delim, style).value == first.value + rest.value;
      }
    }
  }

  lemma SplitNodeSettles(node: TextNode, delim: string, style: TextType)
    requires |delim| > 0 && style != Link && style != Image && Splittable(node)
    ensures var r := SplitNodeDelimiter(node, delim, style);
      r.Success? ==> forall n <- r.value :: Settled(n)
  {
    if node.textType == Text {
      SplitTextSpans(node.text, delim, style);
    }
  }

  lemma SettledAppend(a: seq<TextNode>, b: seq<TextNode>)
    requires forall n <- a :: Settled(n)
    requires forall k :: 0 <= k < |b| ==> Settled(b[k])
    ensures forall k :: 0 <= k < |a + b| ==> Settled((a + b)[k])
  {
    forall k | 0 <= k < |a + b|
      ensures Settled((a + b)[k])
    {
      if k < |a| {
        assert (a + b)[k] == a[k];
      } else {
        assert (a + b)[k] == b[k - |a|];
      }
    }
  }

  /** A link or image pass keeps every span finished. */
  lemma {:induction false} MatchingFinishes(nodes: seq<TextNode>, pat: Pattern)
    requires forall k :: 0 <= k < |nodes| ==> Finished(nodes[k])
    ensures var r := SplitNodesMatching(nodes, pat);
      forall k :: 0 <= k < |r| ==> Finished(r[k])
    decreases |nodes|
  {
    if |nodes| > 0 {
      MatchingFinishes(nodes[1..], pat);
      SplitNodeFinishes(nodes[0], pat);
      assert nodes == [nodes[0]] + nodes[1..];
      SplitNodesMatchingAppend([nodes[0]], nodes[1..], pat);
      SplitNodesMatchingOne(nodes[0], pat);
      FinishedAppend(SplitNodeMatching(nodes[0], pat), SplitNodesMatching(nodes[1..], pat));
    }
  }

  lemma SplitNodeFinishes(node: TextNode, pat: Pattern)
    requires Finished(node)
    ensures forall n <- SplitNodeMatching(node, pat) :: Finished(n)
  {
    SplitNodeMatchingFacts(node, pat);
    var out := SplitNodeMatching(node, pat);
    if !(node.textType == pat.Kind() || Extract(node.text, pat) == []) {
      forall k | 0 <= k < |out|
        ensures Finished(out[k])
      {
        assert Emitted(out[k], pat);
      }
    }
  }

  lemma FinishedAppend(a: seq<TextNode>, b: seq<TextNode>)
    requires forall n <- a :: Finished(n)
    requires forall k :: 0 <= k < |b| ==> Finished(b[k])
    ensures forall k :: 0 <= k < |a + b| ==> Finished((a + b)[k])
  {
    forall k | 0 <= k < |a + b|
      ensures Finished((a + b)[k])
    {
      if k < |a| {
        assert (a + b)[k] == a[k];
      } else {
        assert (a + b)[k] == b[k - |a|];
      }
    }
  }

  /** `text_to_textnodes` end to end: it fails exactly when the text has an
      odd number of backticks, or a plain span left by the code pass an odd
      number of `**`, or a plain span left by the bold pass an odd number of
      `_`; on success no plain span is empty, and a url is set exactly on
      the links and images, whose parts are well-formed. */
  lemma TextToTextNodesShape(text: string)
    ensures var r := TextToTextNodes(text);
      var code := SplitNodesDelimiter([Plain(text)], "`", Code);
      var bold := if code.Success? then SplitNodesDelimiter(code.value, "**", Bold) else code;
      r.Failure? <==>
        || CountOccurrences(text, "`") % 2 == 1
        || (code.Success? && AnyUnbalanced(code.value, "**"))
        || (bold.Success? && AnyUnbalanced(bold.value, "_"))
    ensures var r := TextToTextNodes(text);
      r.Success? ==> forall k :: 0 <= k < |r.value| ==> Finished(r.value[k])
  {
    DelimitersUnbalanced(text);
    if TextToTextNodes(text).Success? {
      TextToTextNodesFinished(text);
    }
  }

  lemma TextToTextNodesFinished(text: string)
    requires TextToTextNodes(text).Success?
    ensures forall n <- TextToTextNodes(text).value :: Finished(n)
  {
    var code := SplitNodesDelimiter([Plain(text)], "`", Code);
    DelimiterSettles([Plain(text)], "`", Code);
    var bold := SplitNodesDelimiter(code.value, "**", Bold);
    DelimiterSettles(code.value, "**", Bold);
    var italic := SplitNodesDelimiter(bold.value, "_", Italic);
    DelimiterSettles(bold.value, "_", Italic);
    SettledFinished(italic.value);
    MatchingFinishes(italic.value, Images);
    MatchingFinishes(SplitNodesImage(italic.value), Links);
  }

  lemma SettledFinished(nodes: seq<TextNode>)
    requires forall k :: 0 <= k < |nodes| ==> Settled(nodes[k])
    ensures forall k :: 0 <= k < |nodes| ==> Finished(nodes[k]) && Splittable(nodes[k])
  {
  }

  /** The code pass over the whole text fails exactly on an odd number of
      backticks. */
  lemma DelimitersUnbalanced(text: string)
    ensures AnyUnbalanced([Plain(text)], "`") <==> CountOccurrences(text, "`") % 2 == 1
  {
    assert [Plain(text)][1..] == [];
  }


  /** An odd number of backticks aborts the conversion. */
  lemma OddBackticksFail(text: string)
    requires CountOccurrences(text, "`") % 2 == 1
    ensures TextToTextNodes(text) == Failure(UnclosedDelimiter)
  {
    OnePlainSpan(text, "`", Code);
  }

  /** A pass over one plain span is the split of its text. */
  lemma OnePlainSpan(text: string, delim: string, style: TextType)
    requires |delim| > 0
    ensures SplitNodesDelimiter([Plain(text)], delim, style) == SplitText(text, delim, style)
  {
    assert [Plain(text)][1..] == [];
    ThenUnitRight(SplitText(text, delim, style));
  }

  /** `str.find` returns the first occurrence at or after the start. */
  lemma {:induction false} FindExact(s: string, d: string, start: nat, i: nat)
    requires start <= i && OccursAt(s, d, i)
    requires forall j :: start <= j < i ==> !OccursAt(s, d, j)
    ensures Find(s, d, start) == i
    decreases i - start
  {
    if start < i {
      FindExact(s, d, start + 1, i);
    }
  }

  /** A text without the delimiter splits into itself alone. */
  lemma SplitWithout(text: string, delim: string, style: TextType)
    requires |delim| > 0 && !Contains(text, delim)
    ensures SplitText(text, delim, style) == Success(if text == "" then [] else [Plain(text)])
  {
    assert Find(text, delim, 0) == -1;
    SplitFromEnd(text, delim, 0);
    assert text[0..] == text;
    assert Split(text, delim) == [text];
    SplitCount(text, delim, 0);
    assert SplitText(text, delim, style) == Success(EmitSections([text], 0, style));
    assert EmitSections([text], 1, style) == [];
    if text != "" {
      assert SectionNode(text, 0, style) == Plain(text);
      assert EmitSections([text], 0, style) == [Plain(text)] + [];
      assert [Plain(text)] + [] == [Plain(text)];
      assert SplitText(text, delim, style) == Success([Plain(text)]);
    } else {
      assert EmitSections([text], 0, style) == [] + [];
    }
  }

  /** A text without `[` holds neither an image nor a link. */
  lemma NoBracketNoMatch(s: string, pat: Pattern)
    requires '[' !in s
    ensures FindAll(s, 0, pat) == []
  {
    FindAllEmpty(s, 0, pat);
    forall p | 0 <= p <= |s|
      ensures MatchAt(s, p, pat).None?
    {
    }
  }

  /** The image and link passes leave a span without `[` alone. */
  lemma NoBracketPassesThrough(node: TextNode, pat: Pattern)
    requires '[' !in node.text
    ensures SplitNodesMatching([node], pat) == [node]
  {
    NoBracketNoMatch(node.text, pat);
    SplitNodesMatchingOne(node, pat);
  }

  /** Text with no markup characters at all comes back as one plain span (or
      no span at all when it is empty). */
  lemma NoMarkupIsPlain(text: string)
    requires '`' !in text && '*' !in text && '_' !in text && '[' !in text
    ensures TextToTextNodes(text) == Success(if text == "" then [] else [Plain(text)])
  {
    var nodes := if text == "" then [] else [Plain(text)];
    CharAbsent(text, '`');
    CharAbsent(text, '_');
    StarsAbsent(text);
    OnePlainSpan(text, "`", Code);
    SplitWithout(text, "`", Code);
    if text != "" {
      OnePlainSpan(text, "**", Bold);
      SplitWithout(text, "**", Bold);
      OnePlainSpan(text, "_", Italic);
      SplitWithout(text, "_", Italic);
      NoBracketPassesThrough(Plain(text), Images);
      NoBracketPassesThrough(Plain(text), Links);
    }
  }

  /** A character that does not occur is not a one-character occurrence. */
  lemma CharAbsent(s: string, c: char)
    requires c !in s
    ensures !Contains(s, [c])
  {
    forall i | 0 <= i && i + 1 <= |s|
      ensures !OccursAt(s, [c], i)
    {
      assert s[i..i + 1][0] == s[i];
      assert s[i] != c;
    }
  }

  lemma StarsAbsent(s: string)
    requires '*' !in s
    ensures !Contains(s, "**")
  {
    forall i | 0 <= i && i + 2 <= |s|
      ensures !OccursAt(s, "**", i)
    {
      assert s[i..i + 2][0] == s[i];
      assert s[i] != '*';
    }
  }

  /** A backtick-delimited code span comes back verbatim as one code span,
      whatever `*` or `_` it holds: the first pass protects it from the
      bold and italic passes. */
  lemma CodeSpanIsVerbatim(c: string)
    requires c != "" && '`' !in c && '[' !in c
    ensures TextToTextNodes("`" + c + "`") == Success([TextNode(c, Code, None)])
  {
    var text := "`" + c + "`";
    var code := TextNode(c, Code, None);
    BacktickSplit(c);
    OnePlainSpan(text, "`", Code);
    assert SplitNodesDelimiter([Plain(text)], "`", Code) == Success([code]);
    StyledSpanPassesThrough(code, "**", Bold);
    StyledSpanPassesThrough(code, "_", Italic);
    NoBracketPassesThrough(code, Images);
    NoBracketPassesThrough(code, Links);
    assert SplitNodesLink(SplitNodesImage([code])) == [code];
  }

  /** Splitting a backtick-delimited text on the backtick. */
  lemma BacktickSplit(c: string)
    requires c != "" && '`' !in c
    ensures SplitText("`" + c + "`", "`", Code) == Success([TextNode(c, Code, None)])
  {
    var text := "`" + c + "`";
    BacktickSections(c);
    SplitTextOdd(text, "`", Code);
    EmitMiddle(c, Code);
  }

  /** With an odd number of sections the split succeeds with their spans. */
  lemma SplitTextOdd(text: string, delim: string, style: TextType)
    requires |delim| > 0 && |Split(text, delim)| % 2 == 1
    ensures SplitText(text, delim, style) == Success(EmitSections(Split(text, delim), 0, style))
  {
  }

  /** Empty, styled, empty: the one styled span. */
  lemma EmitMiddle(c: string, style: TextType)
    requires c != ""
    ensures EmitSections(["", c, ""], 0, style) == [TextNode(c, style, None)]
  {
    var sections := ["", c, ""];
    var node := TextNode(c, style, None);
    EmitSkip(sections, 2, style);
    EmitKeep(sections, 1, style);
    assert EmitSections(sections, 1, style) == [node];
    EmitSkip(sections, 0, style);
  }

  /** An empty section adds no span. */
  lemma EmitSkip(sections: seq<string>, i: nat, style: TextType)
    requires i < |sections| && sections[i] == ""
    ensures EmitSections(sections, i, style) == EmitSections(sections, i + 1, style)
  {
  }

  /** A non-empty section adds its span in front. */
  lemma EmitKeep(sections: seq<string>, i: nat, style: TextType)
    requires i < |sections| && sections[i] != ""
    ensures EmitSections(sections, i, style) == [SectionNode(sections[i], i, style)] + EmitSections(sections, i + 1, style)
  {
  }

  /** The sections of a backtick-delimited text: empty, the content, empty. */
  lemma BacktickSections(c: string)
    requires c != "" && '`' !in c
    ensures Split("`" + c + "`", "`") == ["", c, ""]
  {
    var text := "`" + c + "`";
    var n := |text|;
    BacktickFinds(c);
    SplitFromStep(text, "`", 0, 0);
    SplitFromStep(text, "`", 1, n - 1);
    SplitFromEnd(text, "`", n);
    assert text[0..0] == "" && text[n..] == "";
  }

  /** Where `str.find` finds the backticks of a backtick-delimited text. */
  lemma BacktickFinds(c: string)
    requires c != "" && '`' !in c
    ensures var text := "`" + c + "`"; var n := |text|;
      && Find(text, "`", 0) == 0
      && Find(text, "`", 1) == n - 1
      && Find(text, "`", n) == -1
      && text[1..n - 1] == c
  {
    var text := "`" + c + "`";
    var n := |text|;
    assert text[0..1] == "`";
    FindExact(text, "`", 0, 0);
    forall j | 1 <= j < n - 1
      ensures !OccursAt(text, "`", j)
    {
      assert text[j..j + 1][0] == c[j - 1];
    }
    assert text[n - 1..n] == "`";
    FindExact(text, "`", 1, n - 1);
    assert text[1..n - 1] == c;
  }

  /** The image and link passes also cut styled spans, not only plain ones:
      a link literal inside backticks still becomes a link. */
  lemma LinkInsideCodeBecomesLink()
    ensures TextToTextNodes("`[a](b)`") == Success([TextNode("a", Link, Some("b"))])
  {
    var code := TextNode("[a](b)", Code, None);
    CodePassOfLink();
    StyledSpanPassesThrough(code, "**", Bold);
    StyledSpanPassesThrough(code, "_", Italic);
    LinkPassesOfCode();
  }

  /** The backtick pass turns `` `[a](b)` `` into one code span. */
  lemma CodePassOfLink()
    ensures SplitNodesDelimiter([Plain("`[a](b)`")], "`", Code) == Success([TextNode("[a](b)", Code, None)])
  {
    var c := "[a](b)";
    assert "`" + c + "`" == "`[a](b)`";
    BacktickSplit(c);
    OnePlainSpan("`" + c + "`", "`", Code);
  }

  /** The image pass leaves the code span `[a](b)` alone and the link pass
      turns it into the link. */
  lemma LinkPassesOfCode()
    ensures SplitNodesLink(SplitNodesImage([TextNode("[a](b)", Code, None)])) == [TextNode("a", Link, Some("b"))]
  {
    LinkCut();
    ImageThenLinkPass(TextNode("[a](b)", Code, None), [TextNode("a", Link, Some("b"))]);
  }

  /** A span without `!` goes through the image pass untouched and then
      through the link pass as its link cut. */
  lemma ImageThenLinkPass(node: TextNode, out: seq<TextNode>)
    requires '!' !in node.text && SplitNodeMatching(node, Links) == out
    ensures SplitNodesLink(SplitNodesImage([node])) == out
  {
    NoBangPassesThrough(node);
    SplitNodesMatchingOne(node, Links);
  }

  /** The image pass leaves a span without `!` alone. */
  lemma NoBangPassesThrough(node: TextNode)
    requires '!' !in node.text
    ensures SplitNodesImage([node]) == [node]
  {
    NoBangNoImage(node.text);
    assert Extract(node.text, Images) == [];
    SplitNodesMatchingOne(node, Images);
  }

  /** The link pass cuts the code span `[a](b)` into the one link. */
  lemma LinkCut()
    ensures SplitNodeMatching(TextNode("[a](b)", Code, None), Links) == [TextNode("a", Link, Some("b"))]
  {
    LinkFound();
    LinkEmitted();
  }

  /** Cutting `[a](b)` at its one link leaves nothing around it. */
  lemma LinkEmitted()
    ensures EmitPairs("[a](b)", [("a", "b")], 0, Links) == [TextNode("a", Link, Some("b"))]
  {
    var c := "[a](b)";
    assert Literal(Links, "a", "b") == c;
    assert OccursAt(c, c, 0);
    FindExact(c, c, 0, 0);
    EmitPairsCons(c, [("a", "b")], 0, Links, 0, 6);
    assert Gap(c, 0, 0) == [];
    assert [("a", "b")][1..] == [];
    assert EmitPairs(c, [], 6, Links) == [];
  }

  /** A text without `!` holds no image. */
  lemma NoBangNoImage(s: string)
    requires '!' !in s
    ensures FindAll(s, 0, Images) == []
  {
    FindAllEmpty(s, 0, Images);
    forall p | 0 <= p <= |s|
      ensures MatchAt(s, p, Images).None?
    {
    }
  }

  /** The link scan of `[a](b)` finds exactly that link. */
  lemma LinkFound()
    ensures Extract("[a](b)", Links) == [("a", "b")]
  {
    var c := "[a](b)";
    assert RunEnd(c, 1, '[', ']') == 2;
    assert RunEnd(c, 4, '(', ')') == 5;
    assert c[1..2] == "a" && c[4..5] == "b";
    assert BracketParenAt(c, 0) == Some(Match("a", "b", 0, 6));
    assert MatchAt(c, 0, Links) == Some(Match("a", "b", 0, 6));
    assert FindAll(c, 6, Links) == [];
  }
}
