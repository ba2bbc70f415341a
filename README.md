# Chunking HTML into text paragraphs (doc-converter)

This project models the part of doc-converter that turns an HTML document
into *chunks*. A chunk is a run of text that no block-level element
interrupts. The project also models the two consumers of a chunk list.

- `docconv/htmlchunks/__init__.py` is the typed chunker. Its
  `ChunkHTMLParser` parses the input and drops comments, declarations,
  `script` and `style`. It then walks the `body` depth first. A string
  opens a chunk or is appended to the open one after a space. Every
  element outside the twelve inline tags finalizes the open chunk when it
  is entered and again when it is left. A finalized chunk is kept when it
  is at least `min_chunk_length` long (default -1). A chunk takes the type
  of the last flow-breaking element entered since the previous chunk
  opened, and is untyped when there was none: `li` gives a list chunk,
  `h1`-`h6` a headline chunk.
  - `ArticleDetector.is_article` sums the lengths of the chunks that reach
    `min_chunk_length` (default 50) and compares the sum with
    `min_article_length` (default 1000).
  - `ArticleChunksExtractor.extract` finds the first chunk of at least
    `min_text_paragraph_length` characters (default 200). It keeps the
    list from the earliest headline among that chunk and the five before
    it, or from that chunk itself when there is no such headline.
- `html2text/__init__.py` is the older chunker. It is the same walk
  without chunk types.

The model has seven modules.

- `Wrappers` (text.dfy) holds the `Option` type used for Python's `None`.
- `TextUtil` (text.dfy) holds Python's `str.strip`, `is_blank`, `sep.join`
  and `str.split`.
- `Markup` (markup.dfy) holds the parsed tree, the cleaning and the lookup
  of the body.
- `HtmlChunks` (htmlchunks.dfy) holds the typed chunker.
  - The walk is first given as functions over a state `Walk`: the chunk
    list, the open chunk and the pending type.
  - Then comes the `ChunkHtmlParser` class. Its fields are those of the
    Python object, and its methods are proved to follow the functions.
  - Last come lemmas about the walk: what every chunk satisfies, that no
    text is lost, the chunk count, isolation by flow-breaking elements,
    inline content, and where types come from.
- `Article` (article.dfy) holds the detector and the extractor.
  `Extract` is the source's two loops, proved equal to a declarative
  `Extracted`. The unit-test scenarios are in `ArticleExamples`
  (article_examples.dfy).
- `Html2Text` (html2text.dfy) holds the older chunker, with its own state,
  steps and class. An erasure lemma shows that its walk is the typed walk
  with the types dropped. That carries the typed walk's properties over to
  it.

The HTML parser (BeautifulSoup) is not modelled. Its output, a sequence of
nodes, is a parameter. The model consults it only when the input is not
blank, as the source does.

Three places where the code behaves differently from what one might expect:

- **Whitespace.** Chunk data is not whitespace-collapsed. A string node is
  only stripped at both ends, so its inner whitespace (newlines included)
  stays in the chunk. For this reason the one-line-per-chunk reading of
  `chunks_as_text` is proved only for data without a newline.
- **Chunk type.** The type does not come from the innermost enclosing
  element. It comes from the last flow-breaking element *entered* since
  the previous chunk opened (untyped if there was none), and that element
  may already be closed. For example,
  `<h1></h1><b>x</b>` gives the headline chunk "x"
  (`HtmlChunks.EmptyElementTypesNextChunk`).
- **Chunk length.** The length that `min_chunk_length` is checked against
  includes the spaces that `add_data` inserts.

## Model

| member | source | states |
|---|---|---|
| TextUtil.Strip | docconv/htmlchunks/__init__.py:139 | the result has no whitespace (Python `isspace` set) at either end; it is a slice of the input with only whitespace cut at both ends; it is empty exactly when the input is all whitespace |
| TextUtil.StripIdempotent | docconv/htmlchunks/__init__.py:184-185 | stripping twice is stripping once |
| TextUtil.StripTrimmed | docconv/htmlchunks/__init__.py:184-189 | a string trimmed at both ends is its own strip, and is blank exactly when empty |
| TextUtil.JoinAppend | docconv/htmlchunks/__init__.py:155 | joining a concatenation is joining each half, with one separator between them when both are non-empty |
| TextUtil.SplitJoin | docconv/htmlchunks/__init__.py:153-156 | for a non-empty list of parts none of which holds `c`, splitting on `c` undoes joining with `c` |
| TextUtil.IsBlank | docconv/htmlchunks/__init__.py:184-189 | blank exactly for `None` or a string made only of whitespace |
| Markup.CleanNode | docconv/htmlchunks/__init__.py:69-75 | what replaces a node holds no comment/declaration and no `script`/`style` element at any depth; a node holding none of those is kept as it is |
| Markup.Clean | docconv/htmlchunks/__init__.py:69-75 | after cleaning, no comment/declaration and no `script`/`style` element is left anywhere in the tree; a tree that holds none of those is left as it is |
| Markup.CleanIdempotent | docconv/htmlchunks/__init__.py:69-75 | cleaning twice is cleaning once |
| Markup.CleanAppend | docconv/htmlchunks/__init__.py:69-75 | cleaning works sibling by sibling: the cleaning of a concatenation is the concatenation of the cleanings |
| Markup.CleanKeepsTexts | docconv/htmlchunks/__init__.py:69-75 | cleaning removes no other text: the non-blank strings of the cleaned tree are exactly those outside comments/declarations and outside `script`/`style` subtrees (`KeptTexts`, read from the front), in document order |
| Markup.CleanKeepsStructure | docconv/htmlchunks/__init__.py:69-75 | cleaning keeps everything it does not remove, structure included: the cleaned tree, read as open/string/close tokens, is exactly the input's token stream with the comments/declarations and the `script`/`style` subtrees cut out (`KeptTokens`, read from the front), so every surviving element still encloses what it held |
| Markup.CleanNodeKeepsStructure | docconv/htmlchunks/__init__.py:69-75 | the same for the nodes that replace one node |
| Markup.CleanNodeKeepsTexts | docconv/htmlchunks/__init__.py:69-75 | the same for the nodes that replace one node |
| Markup.FirstNamed | docconv/htmlchunks/__init__.py:67 | the result is the first element with the name in the list, and none when no element of the list has it |
| Markup.FirstNamedAppend | docconv/htmlchunks/__init__.py:67 | the first match in a concatenation is the first match in the first part, else in the second |
| Markup.Find | docconv/htmlchunks/__init__.py:65-67 | the result is the first element with the requested name in the document-order listing of the tree (`Preorder`), as `soup.body` finds it |
| Markup.FindFinds | docconv/htmlchunks/__init__.py:65-67 | the search finds an element exactly when the tree contains one with that name |
| Markup.FindInClean | docconv/htmlchunks/__init__.py:65-67 | what the search returns from a clean tree is clean |
| Markup.Body | docconv/htmlchunks/__init__.py:53-57 | no body for a blank or absent input; otherwise the first `body` element in document order of the cleaned tree, a node of that tree, clean, and present exactly when the cleaned tree contains a `body` element |
| Markup.Texts | docconv/htmlchunks/__init__.py:137-139 | the text the walk sees is a list of non-empty strings, each trimmed at both ends |
| HtmlChunks.ElementType | docconv/htmlchunks/__init__.py:128-135 | list type exactly for `li`, headline type exactly for `h1`-`h6`, none otherwise |
| HtmlChunks.Chunk.AddData | docconv/htmlchunks/__init__.py:168-169 | the data grows by exactly one space character and then the new text, keeping the old data as a prefix and the type; two non-empty trimmed pieces give non-empty trimmed data |
| HtmlChunks.SaveStep | docconv/htmlchunks/__init__.py:107-111 | no chunk is left open and the pending type stays; the chunk list grows by exactly one chunk, the open one, when it reaches `min_chunk_length`, and is unchanged otherwise |
| HtmlChunks.TypeStep | docconv/htmlchunks/__init__.py:124-126 | chunks and open chunk stay; an inline tag changes nothing, a flow-breaking tag sets the pending type to its element type |
| HtmlChunks.TextStep | docconv/htmlchunks/__init__.py:137-144 | the chunk list stays; blank text changes nothing; otherwise a chunk is open afterwards: an open chunk is extended (its old data kept as a prefix, its type and the pending type kept), or else a chunk holding exactly the stripped text opens with the pending type, which is reset |
| HtmlChunks.WalkNode | docconv/htmlchunks/__init__.py:113-122 | the chunk list before is a prefix of the chunk list after: the walk only appends |
| HtmlChunks.WalkNodes | docconv/htmlchunks/__init__.py:113-122 | the same for a run of siblings |
| HtmlChunks.ChunkHtmlParser.constructor | docconv/htmlchunks/__init__.py:90-93 | stores the threshold; no chunks, no open chunk, no pending type |
| HtmlChunks.ChunkHtmlParser.Parse | docconv/htmlchunks/__init__.py:95-105 | whatever the state before, the new state is the walk of this input from a fresh state plus a final save; no body leaves no chunks |
| HtmlChunks.ChunkHtmlParser.SaveCurrentChunkIfValid | docconv/htmlchunks/__init__.py:107-111 | the open chunk is appended when at least `min_chunk_length` long, and is closed either way |
| HtmlChunks.ChunkHtmlParser.Traverse | docconv/htmlchunks/__init__.py:113-122 | the new state is the depth-first walk of the nodes in order from the old state |
| HtmlChunks.ChunkHtmlParser.SetCurrentChunkType | docconv/htmlchunks/__init__.py:124-126 | a flow-breaking tag sets the pending type to its element type; an inline tag changes nothing |
| HtmlChunks.ChunkHtmlParser.HandleText | docconv/htmlchunks/__init__.py:137-144 | blank text changes nothing; otherwise the stripped text opens a chunk with the pending type (then reset), or is appended to the open chunk after a space |
| HtmlChunks.ChunkHtmlParser.HandleTag | docconv/htmlchunks/__init__.py:146-151 | reports "breaking" exactly for tags outside the inline list, and then finalizes the open chunk; otherwise nothing changes |
| HtmlChunks.ChunkHtmlParser.ChunksAsText | docconv/htmlchunks/__init__.py:153-156 | "" for no chunks; otherwise, when no data holds a newline, splitting the text on newlines gives back the chunk data in order |
| HtmlChunks.WalkNodesValid | docconv/htmlchunks/__init__.py:107-144 | the walk keeps the invariant that emitted chunks are non-empty, trimmed and long enough and that the open chunk is non-empty and trimmed |
| HtmlChunks.WalkNodeValid | docconv/htmlchunks/__init__.py:113-144 | the same for one node |
| HtmlChunks.ParseChunksValid | docconv/htmlchunks/__init__.py:95-111 | every chunk `parse` leaves is non-empty, trimmed and at least `min_chunk_length` long |
| HtmlChunks.WalkNodesFrame | docconv/htmlchunks/__init__.py:107-122 | the walk only appends to the chunk list and never reads it: from any list it yields that list followed by what it emits from an empty one, with the same open chunk and pending type |
| HtmlChunks.WalkNodeFrame | docconv/htmlchunks/__init__.py:113-122 | the same for one node |
| HtmlChunks.BreakingElementIsolates | docconv/htmlchunks/__init__.py:146-151 | a flow-breaking element leaves no open chunk, and emits the chunks finalized before it followed by exactly what it emits from a fresh state |
| HtmlChunks.WalkNodesKeepsText | docconv/htmlchunks/__init__.py:113-144 | with `min_chunk_length <= 0`, the emitted and open chunk data joined by spaces equal the state before followed by every non-blank string, stripped, in document order |
| HtmlChunks.WalkNodeKeepsText | docconv/htmlchunks/__init__.py:113-144 | the same for one node |
| HtmlChunks.ParseKeepsText | docconv/htmlchunks/__init__.py:95-105 | with `min_chunk_length <= 0` (the default is -1), the chunks joined by spaces equal the body's non-blank strings, stripped and joined by spaces; no body gives no chunks |
| HtmlChunks.DocumentKeepsText | docconv/htmlchunks/__init__.py:65-75 | for a document `<html><body>…</body></html>` and `min_chunk_length <= 0`, the chunks joined by spaces equal the body's strings outside comments/declarations and `script`/`style` subtrees, stripped and joined by spaces: nothing but the removed markup is lost between the input tree and the chunks |
| HtmlChunks.CleanDocument | docconv/htmlchunks/__init__.py:65-67 | cleaning `<html><body>…</body></html>` cleans the body's children, and the body lookup finds that body |
| HtmlChunks.StyleAndScriptIgnored | docconv/tests/htmlchunks/test_html_chunks_converter.py:103-105 | a page with a style sheet, a `div` holding "Divme" and a script yields exactly one untyped chunk "Divme" |
| HtmlChunks.WalkNodesCount | docconv/htmlchunks/__init__.py:137-144 | the walk opens at most one chunk per non-blank string and emits none twice |
| HtmlChunks.WalkNodeCount | docconv/htmlchunks/__init__.py:137-144 | the same for one node |
| HtmlChunks.ParseCount | docconv/htmlchunks/__init__.py:95-105 | `parse` returns at most as many chunks as the body has non-blank strings |
| HtmlChunks.AbsorbedAppend | docconv/htmlchunks/__init__.py:168-169 | feeding two runs of strings into the open chunk is feeding their concatenation |
| HtmlChunks.InlineNodesAbsorbed | docconv/htmlchunks/__init__.py:88 | content made only of strings and inline tags emits nothing and feeds its strings, joined by spaces, into the open chunk (or opens one with the pending type) |
| HtmlChunks.InlineNodeAbsorbed | docconv/htmlchunks/__init__.py:146-151 | the same for one node |
| HtmlChunks.BreakingInlineElement | docconv/htmlchunks/__init__.py:113-151 | a flow-breaking element over inline-only content finalizes the chunk before it, then emits one chunk of its strings joined by spaces and typed by its tag; it emits none when the content is too short, and none when the content is blank, in which case the type stays pending |
| HtmlChunks.WalkNodesConcat | docconv/htmlchunks/__init__.py:113-114 | walking two runs of siblings is walking one and then the other |
| HtmlChunks.EmptyElementTypesNextChunk | docconv/htmlchunks/__init__.py:124-142 | an empty flow-breaking element passes its type on to the next chunk, even outside it |
| HtmlChunks.WalkNodesTypes | docconv/htmlchunks/__init__.py:124-142 | every type after the walk was there before, is untyped, or is announced by a flow-breaking element walked |
| HtmlChunks.WalkNodeTypes | docconv/htmlchunks/__init__.py:124-142 | the same for one node |
| HtmlChunks.ParseTypes | docconv/htmlchunks/__init__.py:124-135 | a chunk is a headline only if the body has an `h1`-`h6`, and a list item only if it has an `li` |
| HtmlChunks.ToTextChunks | docconv/htmlchunks/__init__.py:5-11 | the chunks of a default parser: each non-empty and trimmed, together holding all the body's text in order |
| Article.Qualifying | docconv/htmlchunks/__init__.py:21-22 | the counted chunks are exactly those of the list at least `min_chunk_length` long, and there are no more of them than chunks |
| Article.QualifyingCounts | docconv/htmlchunks/__init__.py:21-22 | each chunk at least `min_chunk_length` long is counted as often as it occurs in the list, every other chunk never |
| Article.IsArticle | docconv/htmlchunks/__init__.py:20-23 | always true for `min_article_length <= 0`; otherwise true only when the chunks hold that many characters and at least one chunk reaches `min_chunk_length` |
| Article.TotalLengthAppend | docconv/htmlchunks/__init__.py:21 | the character sum is additive over concatenation |
| Article.QualifyingAppend | docconv/htmlchunks/__init__.py:21-22 | the filter distributes over concatenation |
| Article.QualifyingBounded | docconv/htmlchunks/__init__.py:20-23 | the counted characters never exceed all characters |
| Article.IsArticleMonotone | docconv/htmlchunks/__init__.py:20-23 | appending chunks never lowers the count, so an article stays one |
| Article.StricterChunkThreshold | docconv/htmlchunks/__init__.py:16-23 | a higher `min_chunk_length` counts no more characters and can only turn the verdict from true to false |
| Article.EmptyIsArticle | docconv/htmlchunks/__init__.py:16-23 | no chunks are an article exactly when `min_article_length <= 0`, never with the default 1000 |
| Article.SingleChunkArticle | docconv/htmlchunks/__init__.py:20-23 | for a positive `min_article_length`, one chunk is an article exactly when it reaches both thresholds |
| Article.Anchor | docconv/htmlchunks/__init__.py:33-36 | the result is the first chunk at least `min_text_paragraph_length` long, or none when every chunk is shorter |
| Article.AnchorIs | docconv/htmlchunks/__init__.py:33-34 | a long chunk with only short chunks before it is the anchor |
| Article.WindowStart | docconv/htmlchunks/__init__.py:43-45 | the window reaches exactly five chunks back from the anchor when there are that many, and otherwise to the first chunk |
| Article.FirstHeadline | docconv/htmlchunks/__init__.py:37-41 | the start is the earliest headline in the window when there is one, otherwise the anchor |
| Article.Extracted | docconv/htmlchunks/__init__.py:31-45 | the result is a suffix of the list: the whole list when no chunk is long, otherwise one starting within the window of the anchor, at the anchor or before it |
| Article.Extract | docconv/htmlchunks/__init__.py:31-45 | the two loops compute `Extracted`: the whole list when no chunk is long, otherwise the suffix from the earliest headline in the window, or from the anchor |
| Article.ExtractWithoutLongChunk | docconv/htmlchunks/__init__.py:35-36 | with no long chunk, and in particular with no chunks, nothing is dropped |
| Article.ExtractWindow | docconv/htmlchunks/__init__.py:31-45 | the result is a suffix starting within five chunks before the anchor, at the earliest headline there or at the anchor; it keeps the anchor, with only short chunks before it |
| Article.ExtractIdempotent | docconv/htmlchunks/__init__.py:31-45 | extracting twice is extracting once |
| ArticleExamples.DetectorThresholds | doc-converter/tests/htmlchunks/test_article_detector.py:12-19 | the detector verdicts of the unit tests on chunks of 2, 3 and 6 characters |
| ArticleExamples.HeadlineWithinWindow | doc-converter/tests/htmlchunks/test_article_chunks_extractor.py:28-31 | a headline five chunks before the anchor is kept |
| ArticleExamples.HeadlineTooFarAway | doc-converter/tests/htmlchunks/test_article_chunks_extractor.py:23-26 | a headline six chunks before the anchor is dropped |
| ArticleExamples.EarliestHeadlineWins | doc-converter/tests/htmlchunks/test_article_chunks_extractor.py:39-44 | of several headlines in the window the earliest is the start |
| ArticleExamples.NoHeadlineStartsAtAnchor | doc-converter/tests/htmlchunks/test_article_chunks_extractor.py:15-17 | without a headline the result starts at the anchor |
| ArticleExamples.AnchorJustLongEnough | doc-converter/tests/htmlchunks/test_article_chunks_extractor.py:19-21 | a chunk of exactly the threshold length is the anchor |
| ArticleExamples.DefaultDetectorThresholds | doc-converter/tests/htmlchunks/test_article_detector.py:27-33 | under the defaults 1000 characters make an article and 999 do not; a chunk of 50 counts and one of 49 does not |
| ArticleExamples.DefaultParagraphLength | doc-converter/tests/htmlchunks/test_article_chunks_extractor.py:61-63 | under the default paragraph length a chunk of 199 is short and one of 200 is the anchor |
| Html2Text.Chunk.AddData | html2text/__init__.py:113-114 | the data grows by exactly one space character and then the new text, keeping the old data as a prefix |
| Html2Text.SaveStep | html2text/__init__.py:70-74 | no chunk is left open; the chunk list grows by exactly the open chunk when it reaches `min_chunk_length`, and is unchanged otherwise |
| Html2Text.TextStep | html2text/__init__.py:86-92 | the chunk list stays; blank text changes nothing; otherwise a chunk is open afterwards: an open chunk is extended with its old data kept as a prefix, or else a chunk holding exactly the stripped text opens |
| Html2Text.WalkNode | html2text/__init__.py:76-84 | the chunk list before is a prefix of the chunk list after |
| Html2Text.WalkNodes | html2text/__init__.py:76-84 | the same for a run of siblings |
| Html2Text.ChunkHtmlParser.constructor | html2text/__init__.py:54-57 | stores the threshold; no chunks and no open chunk |
| Html2Text.ChunkHtmlParser.Parse | html2text/__init__.py:59-68 | the new state is the walk of this input from a fresh state plus a final save |
| Html2Text.ChunkHtmlParser.SaveCurrentChunkIfValid | html2text/__init__.py:70-74 | the open chunk is appended when long enough, and is closed either way |
| Html2Text.ChunkHtmlParser.Traverse | html2text/__init__.py:76-84 | the new state is the depth-first walk of the nodes from the old state |
| Html2Text.ChunkHtmlParser.HandleText | html2text/__init__.py:86-92 | blank text changes nothing; otherwise the stripped text opens a chunk or is appended after a space |
| Html2Text.ChunkHtmlParser.HandleTag | html2text/__init__.py:94-99 | reports "breaking" exactly for tags outside the inline list, and then finalizes the open chunk |
| Html2Text.ChunkHtmlParser.ChunksAsText | html2text/__init__.py:102-105 | "" for no chunks; splitting on newlines gives back the chunk data when none holds a newline |
| Html2Text.SameInlineTags | html2text/__init__.py:96 | the inline list is the typed chunker's flow-preserving list |
| Html2Text.SaveErase | html2text/__init__.py:70-74 | finalizing commutes with dropping the types |
| Html2Text.WalkNodesErase | html2text/__init__.py:76-99 | the untyped walk is the typed walk with the types dropped |
| Html2Text.WalkNodeErase | html2text/__init__.py:76-99 | the same for one node |
| Html2Text.ParseErase | html2text/__init__.py:59-68 | `parse` yields the typed chunker's chunks without their types |
| Html2Text.ParseChunksValid | html2text/__init__.py:59-92 | every chunk is non-empty, trimmed and at least `min_chunk_length` long |
| Html2Text.ParseKeepsText | html2text/__init__.py:59-92 | with `min_chunk_length <= 0`, the chunks joined by spaces equal the body's non-blank strings, stripped and joined by spaces |
| Html2Text.DocumentKeepsText | html2text/__init__.py:31-46 | for a document `<html><body>…</body></html>` and `min_chunk_length <= 0`, the chunks joined by spaces equal the body's strings outside comments/declarations and `script`/`style` subtrees |
| Html2Text.StyleAndScriptIgnored | html2text/tests/test_hmtl2text.py:103-105 | a page with a style sheet, a `div` holding "Divme" and a script yields exactly the chunk "Divme" |
| Html2Text.ParseCount | html2text/__init__.py:86-92 | at most one chunk per non-blank string of the body |
| Html2Text.BreakingElementIsolates | html2text/__init__.py:94-99 | an element outside the inline list leaves no open chunk and emits what it emits from a fresh state, after the chunks finalized before it |
| Html2Text.BreakingInlineElement | html2text/__init__.py:76-99 | such an element over inline-only content emits one chunk of its strings joined by spaces, or none when blank or too short |
| Html2Text.ToTextChunks | html2text/__init__.py:5-11 | the chunks of a default parser: each non-empty and trimmed, together holding all the body's text in order |

## Left out

- BeautifulSoup's parsing of the markup (tokenizing, entity decoding, tree repair) is not modelled. Its output is the `parsed` parameter, and `find` of the first `body` is `Markup.Find`.
- `HTMLParser.to_text` (both files) is left out. It is BeautifulSoup's `getText` on the cleaned tree and is not used by the chunkers.
- `delete_subtree`/`extract` remove nodes from the tree in place. The model computes the cleaned tree as a new value (`Markup.Clean`), so in-place removal is not captured.
- `Chunk` is a value, and `add_data` replaces the open chunk. The source mutates the chunk object, but the open chunk is never in the chunk list while it grows, because it is closed as soon as it is appended. `__repr__`, `__str__`, `__eq__` and `__ne__` are left out; equality is datatype equality.
- The chunk type `None` is `Untyped`, and the strings `'headline'` and `'list'` are `Headline` and `ListItem`.
- The Python constructor sets `current_chunk` and `current_chunk_type` only inside `parse`. The model's constructor sets them to no chunk and `Untyped`. No operation reads them before `parse`.
- The modules `docconv/htmlarticle`, `docconv/medner` and `docconv/pdf` are not part of this model.
- HtmlChunks.ChunkHtmlParser.ChunksAsText: the one-line-per-chunk reading is stated only when no chunk data holds a newline, because the inner text of a string node may contain newlines.
- Html2Text.ChunkHtmlParser.ChunksAsText: the same restriction, for the same reason.
- HtmlChunks.ParseKeepsText: no text is lost only when `min_chunk_length <= 0`. A positive threshold drops short chunks by design.
- Html2Text.ParseKeepsText: the same restriction, for the same reason.
- HtmlChunks.DocumentKeepsText: stated for `min_chunk_length <= 0`, as `ParseKeepsText` is, and for the document shape `<html><body>…</body></html>` only. For other trees the body lookup may pick an element whose relation to the input is not stated; `ParseKeepsText` with `Markup.CleanKeepsTexts` covers the cleaned body in general.
- Html2Text.DocumentKeepsText: the same restrictions, for the same reasons.
