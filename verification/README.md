# Markdown core of a static site generator, in Dafny

This project models the part of the static site generator that turns a
Markdown document into a tree of elements, and proves properties about that
model. The core has two engines and a small data model:

- The **block engine** (`src/block_markdown.py`) has four parts:
  - it cuts a document into stripped blocks separated by empty lines;
  - it classifies each block as a heading, code, quote, unordered list,
    ordered list or paragraph, with the tests tried in that fixed order;
  - it builds one element per block;
  - it wraps the elements in a root `div`.

  `extract_title` reads the first level-one heading of the same document.
- The **inline engine** (`src/inline_markdown.py`) turns the text of one
  block into typed spans. It makes five passes: a backtick code pass, a `**`
  bold pass, a `_` italic pass, then image extraction and link extraction.
  An unclosed delimiter is an error.
- The **data model** has two parts:
  - `TextType` and `TextNode`, with their structural equality and `repr`
    (`src/textnode.py`);
  - the base `HTMLNode`, with its constructor defaults, attribute rendering
    and failing `to_html` (`src/htmlnode.py`).

The model is functional. Every `ValueError` the converter raises becomes a
`Failure` carrying one `Error` variant (`results.dfy`). A loop that raises on
the first bad item becomes `Results.MapResult`. The Python string primitives
the converter relies on are written out over `seq<char>` in `strings.dfy`:
`find`, `split`, `join`, `strip`, `lstrip`, `startswith`/`endswith`, slicing
with Python's clamping, `int()` and `f"{n}"`.

The two regular expressions of the classifier are deterministic scanners:
`^#{1,6} ` is `BlockMarkdown.HeadingLine` and `^\d+\. ` is
`BlockMarkdown.OrderedPrefix`. Lemmas show that each scanner accepts exactly
the lines that the pattern's existential reading accepts. The image and link
patterns, including the `(?<!!)` lookbehind, are scanners too
(`InlineMarkdown.MatchAt`). Every match they report is a well-formed literal
at that index (`InlineMarkdown.MatchAt`), and every well-formed literal is
matched where it occurs (`InlineMarkdown.MatchAtComplete`, with both
directions in `InlineMarkdown.MatchAtIff`). `re.findall` becomes a
left-to-right scan that resumes after each match (`InlineMarkdown.FindAll`).

The classes `ParentNode` and `LeafNode` and the function
`text_node_to_html_node` are imported by the block engine but are not part
of this model. Its output is therefore an abstract tree:
`BlockMarkdown.Node` is either `Parent(tag, children)` or a `Leaf` wrapping
one `TextNode`. The model states the tree that the renderer would receive,
not the rendered markup.

Files:

| file | module | contents |
|---|---|---|
| `results.dfy` | `Results` | `Option`, `Error`, `Result`, `Then`, `MapResult` |
| `strings.dfy` | `Strings` | the Python string primitives and their lemmas |
| `textnode.dfy` | `TextNodes` | `TextType`, `TextNode`, equality, `repr` |
| `htmlnode.dfy` | `HtmlNodes` | `HTMLNode` defaults, `prop_to_html`, `to_html` |
| `inline.dfy` | `InlineMarkdown` | delimiter passes, image and link passes, `text_to_textnodes` |
| `blocks.dfy` | `BlockMarkdown` | blocks, classifier, builders, document, title |

Three behaviours of the code are easy to miss:

- **Passes 4 and 5 also cut styled spans.** The image and link passes skip
  only spans that are already images (or already links) and cut every other
  span, bold and code spans included. So a link written inside backticks
  still becomes a link (`InlineMarkdown.LinkInsideCodeBecomesLink`).
- **Where the next link is looked up.** Each extracted pair is located with
  `str.find` of its literal from the cursor, not from the end of the
  previous regular-expression match. `InlineMarkdown.CursorAdvances` shows
  that this lands at or before the scanner's match and never before the
  cursor. `InlineMarkdown.EmitPairsSource` shows that the cut loses no text
  either way.
- **Whitespace.** `strip` uses the whitespace set of Python's
  `str.isspace`, which goes beyond ASCII, and so does the model.

The model reads `\d` and `int()` over the ASCII digits only. This is a
simplification: on a `str` pattern `\d` matches any Unicode decimal digit,
and `int()` reads those digits too. So `"١. a\n٢. b"` (Arabic-Indic one and
two) is an ordered list in the code but a paragraph in the model.

## Model

| member | source | states |
|---|---|---|
| Results.MapResult | src/block_markdown.py:155-176 | The per-item loop that raises on the first bad item. It fails exactly when some item fails, with the error of the earliest failing item. Otherwise it has one result per item, in order. |
| Results.Then | src/inline_markdown.py:13-30 | Two fallible list computations in sequence. The earlier failure wins; otherwise the lists are concatenated. |
| Results.ThenAssociative | src/inline_markdown.py:13-30 | Sequencing fallible list computations is associative, so the span-by-span pass can be grouped either way. |
| Strings.FindIsFirst | src/inline_markdown.py:51 | `str.find` misses no occurrence between the start and the index it returns. When it returns -1, the substring occurs nowhere after the start. |
| Strings.SplitJoin | src/block_markdown.py:20 | Joining the pieces of `str.split` with the separator gives back the input. |
| Strings.SplitAvoids | src/block_markdown.py:20 | No piece of `str.split` contains the separator. |
| Strings.SplitLength | src/inline_markdown.py:19-20 | `str.split` gives one more piece than there are occurrences of the delimiter. |
| Strings.SplitConcat | src/inline_markdown.py:19-28 | The concatenated pieces of a split are the input with every delimiter removed. |
| Strings.JoinSplitReplace | src/block_markdown.py:139-140 | Splitting on one character and joining with another replaces every occurrence of the first by the second. |
| Strings.Strip | src/block_markdown.py:21 | `str.strip` returns a trimmed slice of the input. It is empty exactly when the input is all whitespace. |
| Strings.StripExact | src/block_markdown.py:194 | Strip cuts exactly at the first non-whitespace character and after the last one. |
| Strings.NonSpaceStrip | src/block_markdown.py:20-21 | Stripping removes whitespace only: the non-whitespace characters are unchanged. |
| Strings.LStripChar | src/block_markdown.py:103 | `lstrip(">")` removes exactly a leading run of `>`. The rest is a suffix of the input and does not start with `>`. |
| Strings.NatToString | src/block_markdown.py:76 | The decimal rendering of a level is a non-empty digit string that `int()` reads back as the level. It has no leading zero, and it is one digit exactly for levels below 10. |
| TextNodes.TextTypeIsClosed | src/textnode.py:3-9 | There are exactly six text types, and their enum values are pairwise distinct. |
| TextNodes.NewTextNode | src/textnode.py:13-16 | The constructor stores its arguments. The URL is `None` when omitted. |
| TextNodes.EqualIsStructural | src/textnode.py:18-23 | `__eq__` holds exactly when text, type and URL are all equal. It is reflexive and symmetric. |
| TextNodes.Repr | src/textnode.py:25-26 | The repr starts with `TextNode(`, the text, `, `, the type's value and `, `. It ends with the URL text (`None` when missing) and `)`. Its length is 14 plus the lengths of the text, the type's value and the URL text, so these parts make up the whole string. |
| TextNodes.ReprConflatesNone | src/textnode.py:25-26 | The repr cannot tell a missing URL from the URL string `None`. |
| TextNodes.ReprSeparatesTypes | src/textnode.py:25-26 | Two nodes with the same text but different types have different reprs. |
| TextNodes.ReprExample | src/textnode.py:25-26 | A code span `Hello` without a URL renders as `TextNode(Hello, code, None)`. |
| HtmlNodes.NewHtmlNode | src/htmlnode.py:4-13 | The constructor stores its arguments. Omitted ones are `None` or empty. |
| HtmlNodes.DefaultNodeIsEmpty | src/htmlnode.py:4-13 | A node built without arguments has no tag, no value, no children and no attributes. |
| HtmlNodes.ToHtml | src/htmlnode.py:16-17 | The base `to_html` always fails with `NotImplemented`. |
| HtmlNodes.PropsToHtml | src/htmlnode.py:20-25 | The attribute string has length 2 + name + value summed over the attributes. It is empty exactly when there are none. Otherwise it opens with a space and puts `=` right after the first name. |
| HtmlNodes.PropsToHtmlAppend | src/htmlnode.py:22-23 | Rendering distributes over concatenation, so attributes come out in insertion order. |
| HtmlNodes.PropsToHtmlSingle | src/htmlnode.py:23 | One attribute renders as a space, its name, `=` and its value. |
| HtmlNodes.PropsQuotesAreTheCallers | src/htmlnode.py:23 | No quotes are added. A value that carries its own quotes keeps them. |
| InlineMarkdown.Texts | src/inline_markdown.py:26-28 | The texts of the spans, one per span, in order. |
| InlineMarkdown.EmitSectionsSpans | src/inline_markdown.py:22-28 | Every span made from the sections is non-empty, has no URL, and is plain or styled. Every non-empty section appears, with the style its position gives it. |
| InlineMarkdown.EmitSectionsConcat | src/inline_markdown.py:22-28 | The concatenated texts of the spans equal the concatenated sections: only empty sections are dropped. |
| InlineMarkdown.SplitText | src/inline_markdown.py:18-29 | Splitting one plain text fails exactly when the delimiter occurs an odd number of times, with `UnclosedDelimiter`. On success the concatenated texts are the input with every delimiter removed. |
| InlineMarkdown.EmitSectionsIndexed | src/inline_markdown.py:22-28 | Span `k` is the `k`-th non-empty section, in order: its text is that section, and it is plain exactly when the section's index is even. The indices are strictly increasing and cover every non-empty section. |
| InlineMarkdown.NonEmptyIndices | src/inline_markdown.py:22-28 | The indices of the non-empty sections, strictly increasing, each in range, and every non-empty section's index among them. |
| InlineMarkdown.SplitTextIndexed | src/inline_markdown.py:18-29 | On success span `k` is non-empty section `idx[k]` of `text.split(delimiter)`, with no URL. It is plain when `idx[k]` is even and styled when it is odd. |
| InlineMarkdown.SplitTextSpans | src/inline_markdown.py:22-28 | Every span of a successful split is non-empty, has no URL and is plain or styled. No span contains the delimiter. Every non-empty section is kept. An empty text gives no span. |
| InlineMarkdown.SplitTextSuccess | src/inline_markdown.py:19-28 | On success no span holds the delimiter, the texts concatenate to the input without delimiters, and an empty text gives nothing. |
| InlineMarkdown.AnyUnbalancedIff | src/inline_markdown.py:19-21 | A pass has an unbalanced span exactly when some plain span has an odd delimiter count. |
| InlineMarkdown.SplitNodesDelimiter | src/inline_markdown.py:12-30 | The pass fails exactly when some plain span has an odd delimiter count, and the error is `UnclosedDelimiter`. On success the texts concatenate to the input texts with the delimiters of plain spans removed. |
| InlineMarkdown.SplitNodesDelimiterAppend | src/inline_markdown.py:14-29 | The pass works span by span. Splitting a concatenation concatenates the splits, and the earlier failure wins. |
| InlineMarkdown.StyledSpanPassesThrough | src/inline_markdown.py:15-17 | A span that is not plain text leaves the pass unchanged. |
| InlineMarkdown.Literal | src/inline_markdown.py:51-52 | The length of an image or link literal. An image is five characters plus its parts and a link is four plus its parts. |
| InlineMarkdown.ImageLiteral | src/inline_markdown.py:88 | An image literal is `!` followed by the link literal of the same parts. |
| InlineMarkdown.ImageLiteralAt | src/inline_markdown.py:6-9 | A `!` right before a link literal makes an image literal at the `!`. |
| InlineMarkdown.RunEnd | src/inline_markdown.py:6 | A greedy run of a bracket-free or paren-free class stops at the first excluded character or at the end of the text. |
| InlineMarkdown.LinkLiteralAt | src/inline_markdown.py:6 | The text from `[` to `)`, with `](` between, is the link literal of the two stretches it brackets. |
| InlineMarkdown.BracketParenAt | src/inline_markdown.py:6-9 | A match of `\[([^\[\]]*)\]\(([^\(\)]*)\)` at an index has a bracket-free caption and a paren-free URL. Its literal occurs at that index and it ends right after the literal. |
| InlineMarkdown.MatchAt | src/inline_markdown.py:5-9 | An image or link match is located at its start, is well formed and ends after its literal. A link is never preceded by `!`. |
| InlineMarkdown.FindAll | src/inline_markdown.py:6-9 | `re.findall` finds each match as the leftmost one at or after the end of the previous one. |
| InlineMarkdown.FindAllEmpty | src/inline_markdown.py:44-46 | The scan finds nothing exactly when the pattern matches at no index. |
| InlineMarkdown.Extract | src/inline_markdown.py:5-9 | Every extracted (caption, URL) pair has a caption without brackets and a URL without parentheses. |
| InlineMarkdown.BracketParenComplete | src/inline_markdown.py:6 | Where a well-formed `[caption](url)` occurs, the bracket scanner matches exactly it, with that caption and URL, ending right after the literal. |
| InlineMarkdown.MatchAtComplete | src/inline_markdown.py:5-9 | A well-formed image literal is matched where it occurs. So is a well-formed link literal that is not preceded by `!`. The match has the literal's caption and URL and ends right after it. |
| InlineMarkdown.MatchAtIff | src/inline_markdown.py:5-9 | The pattern matches `m` at an index exactly when `m` is a well-formed literal located there, and, for links, no `!` precedes it. |
| InlineMarkdown.ExtractFinds | src/inline_markdown.py:5-9 | A text holding a well-formed literal (a link not preceded by `!`) has a non-empty extraction. When nothing matches earlier, the literal's pair comes first. |
| InlineMarkdown.OrderedPairsWellFormed | src/inline_markdown.py:6-9 | Pairs of genuine matches are well formed. |
| InlineMarkdown.ScannedIsOrdered | src/inline_markdown.py:6-9 | Scanned matches are genuine, in order and non-overlapping. |
| InlineMarkdown.CursorAdvances | src/inline_markdown.py:48-61 | `str.find` from the cursor lands at or before the next match and never before the cursor. So the cursor only moves forward and stays within the match. |
| InlineMarkdown.OrderedIsLocatable | src/inline_markdown.py:49-51 | Every pair of an ordered match list is found by `str.find` from the cursor the loop has reached. |
| InlineMarkdown.EmitPairsSource | src/inline_markdown.py:48-65 | The cut loses nothing: the markdown the emitted spans stand for is the text from the cursor on. |
| InlineMarkdown.EmitPairsEmitted | src/inline_markdown.py:54-65 | The cut emits no empty plain span. Every span is a non-empty plain span or a span of the pattern's kind with a well-formed caption and URL. |
| InlineMarkdown.EmitPairsKinds | src/inline_markdown.py:58-59 | The spans of the pattern's kind in the cut are the extracted pairs, one each, in order. |
| InlineMarkdown.SplitNodesMatchingSource | src/inline_markdown.py:32-105 | The image and link passes preserve the markdown the spans stand for. |
| InlineMarkdown.SplitNodeMatchingFacts | src/inline_markdown.py:35-46 | A span of the pattern's own kind, or a span without a match, passes through unchanged. Any other span is cut into non-empty plain spans and typed spans, one per extracted pair. |
| InlineMarkdown.SplitNodesMatchingAppend | src/inline_markdown.py:35-65 | The image and link passes work span by span. |
| InlineMarkdown.TextToTextNodes | src/inline_markdown.py:109-128 | The conversion can only fail with `UnclosedDelimiter`. |
| InlineMarkdown.TextToTextNodesShape | src/inline_markdown.py:109-128 | The conversion fails exactly when the text has an odd number of backticks, or a plain span left by the code pass has an odd number of `**`, or a plain span left by the bold pass has an odd number of `_`. On success no plain span is empty, a URL is set exactly on the links and images, and their captions and URLs are well formed. |
| InlineMarkdown.DelimiterSettles | src/inline_markdown.py:12-30 | A delimiter pass over spans that are not links or images, whose styled spans are non-empty, yields only non-empty spans without a URL that are not links or images. |
| InlineMarkdown.MatchingFinishes | src/inline_markdown.py:32-105 | The image and link passes keep plain spans non-empty, and keep the URL set exactly on well-formed links and images. |
| InlineMarkdown.OddBackticksFail | src/inline_markdown.py:114 | An odd number of backticks aborts the conversion. |
| InlineMarkdown.OnePlainSpan | src/inline_markdown.py:111-114 | A delimiter pass over the single starting span is the split of its text. |
| InlineMarkdown.SplitWithout | src/inline_markdown.py:19-28 | A text without the delimiter splits into itself, or into nothing when it is empty. |
| InlineMarkdown.NoBracketPassesThrough | src/inline_markdown.py:44-46 | The image and link passes leave a span without `[` alone. |
| InlineMarkdown.NoMarkupIsPlain | src/inline_markdown.py:109-128 | Text without backticks, `*`, `_` or `[` comes back as one plain span, or as nothing when it is empty. |
| InlineMarkdown.CodeSpanIsVerbatim | src/inline_markdown.py:113-120 | A backtick span comes back as one code span with its `*` and `_` intact, because the code pass runs first. |
| InlineMarkdown.BacktickSections | src/inline_markdown.py:19 | A backtick-delimited text splits into an empty section, the content and an empty section. |
| InlineMarkdown.LinkInsideCodeBecomesLink | src/inline_markdown.py:32-45 | The link pass also cuts code spans, so `` `[a](b)` `` becomes a single link. |
| InlineMarkdown.NoBangPassesThrough | src/inline_markdown.py:79-83 | The image pass leaves a span without `!` alone. |
| InlineMarkdown.LinkFound | src/inline_markdown.py:6 | The link scan of `[a](b)` finds exactly the pair (`a`, `b`). |
| BlockMarkdown.NonBlank | src/block_markdown.py:21 | Filtering keeps at most every piece, and every kept piece is non-empty and stripped. |
| BlockMarkdown.MarkdownToBlocks | src/block_markdown.py:19-22 | Every block is non-empty and has no whitespace at either end. |
| BlockMarkdown.BlocksKeepText | src/block_markdown.py:19-22 | Apart from whitespace, the blocks concatenated in order are the document. |
| BlockMarkdown.BlankDocument | src/block_markdown.py:19-22 | A document yields no blocks exactly when it is all whitespace, the empty document included. |
| BlockMarkdown.BlocksHaveNoBlankLine | src/block_markdown.py:20 | No block contains an empty line. |
| BlockMarkdown.OneBlock | src/block_markdown.py:19-22 | A stripped, non-empty document without an empty line is a single block. |
| BlockMarkdown.StripTrimmed | src/block_markdown.py:21 | Stripping an already stripped string changes nothing. |
| BlockMarkdown.FirstCut | src/block_markdown.py:20 | `split("\n\n")` cuts at the first empty line: a piece without an empty line and not ending in a line break, followed by an empty line, comes off whole and the rest splits on its own. |
| BlockMarkdown.SplitOfJoin | src/block_markdown.py:20 | Pieces glued with empty lines split back into exactly those pieces, when no piece holds an empty line and none but the last ends in a line break. |
| BlockMarkdown.NonBlankOfBlocks | src/block_markdown.py:21 | The filter keeps a list of non-empty stripped blocks exactly as it is. |
| BlockMarkdown.JoinTrimmed | src/block_markdown.py:20 | Stripped non-empty blocks glued with empty lines make a stripped document. |
| BlockMarkdown.BlockCuttable | src/block_markdown.py:20-21 | A block as the splitter returns it never ends in a line break, so it can stand before an empty line and be cut off again. |
| BlockMarkdown.BlocksOfJoin | src/block_markdown.py:19-22 | Non-empty stripped blocks without empty lines, glued with empty lines, come back out of the splitter one for one, in order; no blocks give the empty document. |
| BlockMarkdown.PaddedBlocksOfJoin | src/block_markdown.py:19-22 | The same holds with any whitespace before the first block and after the last. |
| BlockMarkdown.EmptyGlued | src/block_markdown.py:19-22 | Whitespace around no blocks yields no blocks. |
| BlockMarkdown.BlocksApart | src/block_markdown.py:19-22 | Two empty lines between two blocks still give just those two blocks: the empty piece between them is dropped. |
| BlockMarkdown.NoBreakNoBlank | src/block_markdown.py:20 | A string without a line break holds no empty line. |
| BlockMarkdown.MultipleBlankLinesExample | src/block_markdown.py:19-22 | `Para one`, four line breaks, `Para two` gives the blocks `Para one` and `Para two`, as test_multiple_blank_lines expects. |
| BlockMarkdown.LeadingTrailingExample | src/block_markdown.py:19-22 | `First block` and `Second block`, with empty lines before, between and after, give exactly those two blocks, as test_leading_and_trailing_blank_lines expects. |
| BlockMarkdown.CountLeading | src/block_markdown.py:64-69 | The counting loop over leading `#`: the counted prefix is all `#`, and the next character, if any, is not. |
| BlockMarkdown.HeadingLineIsRegex | src/block_markdown.py:28 | The heading scanner accepts exactly the lines that open with one to six `#` and a space. |
| BlockMarkdown.OrderedPrefixIsRegex | src/block_markdown.py:40-41 | The number scanner accepts exactly the lines that open with digits, a dot and a space. The digits it reads are that run. |
| BlockMarkdown.NumberedIff | src/block_markdown.py:40-43 | The numbering test holds exactly when every line is numbered and line `k` carries the number `k + 1`. |
| BlockMarkdown.AllStartWithIff | src/block_markdown.py:34-38 | The `all(... startswith ...)` test holds exactly when every line starts with the prefix. |
| BlockMarkdown.LinesBracketBlock | src/block_markdown.py:26-31 | The block starts with its first line and ends with its last line. |
| BlockMarkdown.HeadingBlockShape | src/block_markdown.py:28-29 | A block is a heading exactly when its first line opens with one to six `#` and a space. The block then opens with the same `#` run and space. |
| BlockMarkdown.ClassifyQuote | src/block_markdown.py:34-35 | Every line of a block classified as a quote starts with `>`. |
| BlockMarkdown.ClassifyUnordered | src/block_markdown.py:37-38 | Every line of a block classified as an unordered list starts with `- `. |
| BlockMarkdown.ClassifyOrdered | src/block_markdown.py:40-43 | Line `k` of an ordered list opens with digits, a dot and a space, and its number is `k + 1`. |
| BlockMarkdown.ClassifyCodeIff | src/block_markdown.py:28-32 | A block is code exactly when its first line starts with three backticks and its last line ends with them. |
| BlockMarkdown.ClassifyQuoteIff | src/block_markdown.py:28-35 | A block is a quote exactly when every line starts with `>`. |
| BlockMarkdown.ClassifyUnorderedIff | src/block_markdown.py:28-38 | A block is an unordered list exactly when every line starts with `- `. |
| BlockMarkdown.ClassifyOrderedIff | src/block_markdown.py:28-43 | A block is an ordered list exactly when line `k` of it opens with digits, a dot and a space and carries the number `k + 1`, for every line. |
| BlockMarkdown.CodeExample | src/block_markdown.py:31-32 | A block fenced by three backticks on its first and last lines is code. |
| BlockMarkdown.QuoteExample | src/block_markdown.py:34-35 | Two lines that both start with `>` make a quote. |
| BlockMarkdown.UnorderedExample | src/block_markdown.py:37-38 | Three lines that all start with `- ` make an unordered list. |
| BlockMarkdown.ParagraphFallback | src/block_markdown.py:25-45 | A block whose first character cannot open a heading, a fence, a quote, a list item or a number is a paragraph, whatever follows. |
| BlockMarkdown.OrderedExample | src/block_markdown.py:40-43 | `1. list` and `2. items` on two lines make an ordered list. |
| BlockMarkdown.SkippedNumberExample | src/block_markdown.py:40-45 | Lines numbered 1, 3, 4 make a paragraph, not a list. |
| BlockMarkdown.MixedExample | src/block_markdown.py:34-45 | A quote line followed by a list line makes a paragraph. |
| BlockMarkdown.UnclosedFenceExample | src/block_markdown.py:31-45 | An opening fence without a closing one makes a paragraph. |
| BlockMarkdown.TextToChildren | src/block_markdown.py:48-59 | The children are the inline spans of the text, one leaf per span and in order. It fails exactly when the inline conversion does, with `UnclosedDelimiter`. |
| BlockMarkdown.Element | src/block_markdown.py:75-76 | An element over inline text has the requested tag, and its children are one leaf per inline span of the text, in order. It fails exactly when the inline conversion does, with `UnclosedDelimiter`. |
| BlockMarkdown.HeadingOfHeadingBlock | src/block_markdown.py:62-76 | A stripped heading block passes the length check. Its level is 1 to 6, and it becomes `h<level>` over the text after the `#` run and its space. |
| BlockMarkdown.HeadingTagNamesLevel | src/block_markdown.py:64-76 | `int(tag[1:])` of a built heading is the number of leading `#`. |
| BlockMarkdown.BareHeadingFails | src/block_markdown.py:71-72 | `# ` and `###` fail with their levels 1 and 3. |
| BlockMarkdown.FenceContent | src/block_markdown.py:85 | `block[4:-3]` skips the fence and the character after it and stops before the closing fence. It is empty for blocks shorter than eight characters. |
| BlockMarkdown.CodeOfCodeBlock | src/block_markdown.py:79-93 | Every block classified as code passes the fence check. It becomes `pre`, holding `code`, holding one plain leaf of `block[4:-3]`. |
| BlockMarkdown.FencedCode | src/block_markdown.py:79-93 | A fenced block keeps everything between the fences verbatim, with no inline parsing. |
| BlockMarkdown.CodeBlockExample | src/block_markdown.py:85-93 | The fenced block of the code-block test, taken as a block, becomes `pre` over `code` over one plain leaf, with `_should_` and `**same**` verbatim. |
| BlockMarkdown.QuoteLine | src/block_markdown.py:100-103 | A quote line fails exactly when it lacks a leading `>`, and the error is `InvalidQuoteBlock`. |
| BlockMarkdown.QuoteFailsOnShape | src/block_markdown.py:96-107 | The quote builder fails for its shape exactly when some line lacks a leading `>`. |
| BlockMarkdown.QuoteOfQuoteBlock | src/block_markdown.py:96-107 | On a quote-classified block every line passes. Each becomes its text without the `>` run and surrounding whitespace, and the joined inline input has no newline. |
| BlockMarkdown.LinesNoNewline | src/block_markdown.py:98 | No line of a block holds a newline. |
| BlockMarkdown.QuoteTextNoNewline | src/block_markdown.py:103 | Cleaning a quote line adds no newline. |
| BlockMarkdown.UnorderedListItems | src/block_markdown.py:110-120 | A `ul` has one `li` per line, in order, each over the line after its first two characters. It fails exactly when one item's inline markup does. |
| BlockMarkdown.OrderedListItems | src/block_markdown.py:123-134 | An `ol` has one `li` per line, in order, each over the line with its leading number, dot and space removed. It fails exactly when one item's inline markup does. |
| BlockMarkdown.OrderedItems | src/block_markdown.py:130 | On a block classified as an ordered list, line `k` carries the number `k + 1`, and `re.sub` removes exactly its digits, dot and space. |
| BlockMarkdown.ParagraphText | src/block_markdown.py:139-141 | Joining the lines with spaces turns every newline into a space. The inline input has no newline. |
| BlockMarkdown.BlockToNodeShape | src/block_markdown.py:158-174 | Each stripped block becomes an element named for its kind. Only an unclosed inline delimiter can make it fail. |
| BlockMarkdown.DocumentShape | src/block_markdown.py:145-176 | The root is a `div` whose children are the blocks' elements, one to one and in order, each named for its kind. The document fails only on an unclosed inline delimiter. |
| BlockMarkdown.TitleIndex | src/block_markdown.py:193-195 | The scan returns -1 or the index of a title line at or after the start. |
| BlockMarkdown.TitleIndexIsFirst | src/block_markdown.py:193-197 | No title line comes before the returned index, and there is none at all when the scan returns -1. |
| BlockMarkdown.ExtractTitleSpec | src/block_markdown.py:179-197 | The title is that of the first line whose stripped form starts with `# `. The extraction fails with `NoTitle` exactly when no line is a title line. |
| BlockMarkdown.TitleTrimmed | src/block_markdown.py:196 | A title has no whitespace at either end. |
| BlockMarkdown.StripPadded | src/block_markdown.py:194-196 | Strip removes exactly the whitespace around a stripped, non-empty core. |
| BlockMarkdown.PaddedTitle | src/block_markdown.py:194-196 | A line of whitespace, `# `, whitespace, a title and whitespace is a title line yielding exactly that title. This covers `# Hello` and `  #   Hello World   `. |
| BlockMarkdown.MarkedTitle | src/block_markdown.py:195-196 | `# `, whitespace and a title form a stripped line starting with `# ` whose `[2:].strip()` is the title. |
| BlockMarkdown.TitleOfFirstLine | src/block_markdown.py:193-196 | When the first line is a title line, its title is the result, whatever follows. |
| BlockMarkdown.EmptyTitleExample | src/block_markdown.py:197 | The empty document has no title. |
| BlockMarkdown.NoLevelOneExample | src/block_markdown.py:195-197 | A document with only a level-two heading and text has no title. |

## Left out

- `main.py` and `src/main.py`: copying the static directory, reading
  templates, writing pages and printing are I/O around the core.
- The rendering of `ParentNode` and `LeafNode` and the function
  `text_node_to_html_node` are not part of this model. The output stays an
  abstract tree of tags and leaves.
- The two HTML tests of the converter (`test_paragraphs` and
  `test_codeblock`) compare rendered strings, and rendering is not modelled.
  Their documents are not restated as lemmas either. The code-block test is
  covered only at the block level (`BlockMarkdown.CodeBlockExample`), not
  through the document split. The paragraphs test, with its bold, italic and
  code spans, is covered only by the general lemmas
  (`BlockMarkdown.DocumentShape`, `BlockMarkdown.ParagraphText`,
  `InlineMarkdown.SplitTextIndexed`, `InlineMarkdown.TextToTextNodesShape`).
  Computing these documents through every pass over their literal text is
  beyond what this model proves.
- TextNodes.Equal: Python's `__eq__` reads the fields of the other operand,
  so comparing a `TextNode` with an object of another class raises
  `AttributeError`. The model's equality is typed and compares two
  `TextNode`s only, so that error case cannot be expressed.
- `HTMLNode.__repr__`, and the sharing of the mutable default arguments of
  `HTMLNode.__init__` between instances: immutable values cannot alias.
- Python `re` in general. The four patterns the core uses are modelled as
  scanners. `\d` and `int()` are modelled over the ASCII digits only, a
  simplification: the code also accepts every other Unicode decimal digit,
  so a block like `"١. a\n٢. b"` is an ordered list in the code and a
  paragraph in the model.
- HtmlNodes.PropsToHtml: `props` is a sequence of pairs, which can repeat a
  name. The code keeps its attributes in a dict, which cannot. The lemmas
  hold for any sequence, and a dict corresponds to a sequence whose names
  are pairwise distinct, in insertion order.
- The branch of `markdown_to_html_node` that raises on an unknown block type
  cannot be reached: the classifier is total, and the match in
  `BlockMarkdown.BlockToNode` covers all six kinds.
- Heading levels above 6 are reachable only by calling the heading builder
  directly. `BlockMarkdown.HeadingTagNamesLevel` covers any level.
- InlineMarkdown.TextToTextNodes: its own contract states only the error.
  When it fails and what the spans look like on success are stated in
  `InlineMarkdown.TextToTextNodesShape`. No lemma gives the exact span list
  for an arbitrary text. The passes' own lemmas and the examples
  (`NoMarkupIsPlain`, `CodeSpanIsVerbatim`, `LinkInsideCodeBecomesLink`)
  cover the rest.
- The concrete title examples `# Hello`, `  #   Hello World   ` and
  `# First Title` among several headings are instances of
  `BlockMarkdown.PaddedTitle` and `BlockMarkdown.TitleOfFirstLine`. They are
  not restated on literal documents.
- `textwrap.dedent`, which the tests apply to their documents before
  splitting, is not modelled. The dedented, stripped document of
  `test_markdown_to_blocks` is three blocks glued with empty lines, an
  instance of `BlockMarkdown.BlocksOfJoin`. It is not restated on its
  literal text.
