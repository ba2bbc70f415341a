/**
 * The older chunker of `html2text`: the same walk as `HtmlChunks` without
 * chunk types. It is modelled on its own (its state, its steps and its
 * parser class), then shown to be the typed walk with the types erased,
 * which carries the typed walk's properties over to it.
 */
module Html2Text {
  import opened Wrappers
  import opened TextUtil
  import opened Markup
  import Typed = HtmlChunks

  datatype Chunk = Chunk(data: string)
  {
    /** `Chunk.add_data`: the data grows by one space and the new text. */
    function AddData(text: string): (r: Chunk)
      ensures data <= r.data && |r.data| == |data| + 1 + |text| && r.data[|data| + 1..] == text
      ensures r.data[|data|] == ' '
    {
      var d := data + " " + text;
      assert d[..|data|] == data && d[|data| + 1..] == text;
      Chunk(d)
    }
  }

  /** The inline tags listed in `__handle_tag`: the only elements that keep a chunk open. */
  const InlineTags: seq<string> :=
    ["span", "sub", "sup", "abbr", "acronym", "em", "b", "font", "i", "strong", "u", "a"]

  predicate IsInline(name: string)
  {
    name in InlineTags
  }

  /** The parser's state during a walk: the chunks emitted so far and the chunk being built. */
  datatype Walk = Walk(chunks: seq<Chunk>, current: Option<Chunk>)

  const Start: Walk := Walk([], None)

  /** Finalize the open chunk: emit it when it is long enough; close it either way. */
  function SaveStep(w: Walk, minChunkLength: int): (r: Walk)
    ensures r.current == None
    ensures w.chunks <= r.chunks && |r.chunks| <= |w.chunks| + 1
    ensures |r.chunks| == |w.chunks| + 1 <==> w.current.Some? && |w.current.value.data| >= minChunkLength
    ensures |r.chunks| == |w.chunks| + 1 ==> r.chunks[|w.chunks|] == w.current.value
  {
    if w.current.Some? && |w.current.value.data| >= minChunkLength then
      Walk(w.chunks + [w.current.value], None)
    else
      Walk(w.chunks, None)
  }

  /**
   * A string node: blank text is ignored; otherwise its stripped text opens
   * a chunk or joins the open one after one space. The ensures fix the old
   * data as a prefix; the exact extension follows from `WalkNodeErase` and
   * the typed `TextStepKeepsText`.
   */
  function TextStep(w: Walk, text: string): (r: Walk)
    ensures r.chunks == w.chunks
    ensures IsBlank(Some(text)) ==> r == w
    ensures !IsBlank(Some(text)) ==> r.current.Some?
    ensures !IsBlank(Some(text)) && w.current.Some? ==> w.current.value.data <= r.current.value.data
    ensures !IsBlank(Some(text)) && w.current.None? ==> r.current.value.data == Strip(text)
  {
    if IsBlank(Some(text)) then w
    else
      var t := Strip(text);
      match w.current
      case None => Walk(w.chunks, Some(Chunk(t)))
      case Some(c) => Walk(w.chunks, Some(c.AddData(t)))
  }

  /** One node: an element that is not inline closes the open chunk before and after its children. */
  function WalkNode(n: Node, w: Walk, minChunkLength: int): (r: Walk)
    ensures |w.chunks| <= |r.chunks| && r.chunks[..|w.chunks|] == w.chunks
    decreases n
  {
    match n
    case Element(name, kids) =>
      var breaking := !IsInline(name);
      var inner := if breaking then SaveStep(w, minChunkLength) else w;
      var walked := WalkNodes(kids, inner, minChunkLength);
      if breaking then SaveStep(walked, minChunkLength) else walked
    case _ => TextStep(w, n.text)
  }

  function WalkNodes(ns: seq<Node>, w: Walk, minChunkLength: int): (r: Walk)
    ensures |w.chunks| <= |r.chunks| && r.chunks[..|w.chunks|] == w.chunks
    decreases ns
  {
    if ns == [] then w
    else WalkNode(Last(ns), WalkNodes(Init(ns), w, minChunkLength), minChunkLength)
  }

  /** The state after `parse(html)`: a fresh state, the walk over the body's children and a final save. */
  function ParseWalk(html: Option<string>, parsed: seq<Node>, minChunkLength: int): Walk
  {
    match Body(html, parsed)
    case None => Start
    case Some(body) => SaveStep(WalkNodes(body.children, Start, minChunkLength), minChunkLength)
  }

  function ParseChunks(html: Option<string>, parsed: seq<Node>, minChunkLength: int): seq<Chunk>
  {
    ParseWalk(html, parsed, minChunkLength).chunks
  }

  function Datas(cs: seq<Chunk>): (r: seq<string>)
    ensures |r| == |cs| && forall k :: 0 <= k < |cs| ==> r[k] == cs[k].data
  {
    seq(|cs|, k requires 0 <= k < |cs| => cs[k].data)
  }

  /** The parser object: its two fields are the state of the walk. */
  class ChunkHtmlParser {
    const minChunkLength: int
    var chunks: seq<Chunk>
    var currentChunk: Option<Chunk>

    function State(): Walk
      reads this
    {
      Walk(chunks, currentChunk)
    }

    constructor (minChunkLength: int)
      ensures this.minChunkLength == minChunkLength
      ensures State() == Start
    {
      this.minChunkLength := minChunkLength;
      chunks := [];
      currentChunk := None;
    }

    /** Whatever the state before, the new state is that of a walk over this input alone. */
    method Parse(html: Option<string>, parsed: seq<Node>)
      modifies this
      ensures State() == ParseWalk(html, parsed, minChunkLength)
      ensures chunks == ParseChunks(html, parsed, minChunkLength)
    {
      var body := Body(html, parsed);
      chunks := [];
      currentChunk := None;
      if body.None? {
        return;
      }
      Traverse(body.value.children);
      SaveCurrentChunkIfValid();
    }

    method SaveCurrentChunkIfValid()
      modifies this
      ensures State() == SaveStep(old(State()), minChunkLength)
    {
      if currentChunk.Some? && |currentChunk.value.data| >= minChunkLength {
        chunks := chunks + [currentChunk.value];
      }
      currentChunk := None;
    }

    method Traverse(elements: seq<Node>)
      modifies this
      ensures State() == WalkNodes(elements, old(State()), minChunkLength)
      decreases elements
    {
      var i := 0;
      while i < |elements|
        invariant 0 <= i <= |elements|
        invariant State() == WalkNodes(elements[..i], old(State()), minChunkLength)
      {
        var element := elements[i];
        assert elements[..i + 1][..i] == elements[..i];
        if element.Element? {
          var wasFlowBreakingTag := HandleTag(element.name);
          Traverse(element.children);
          if wasFlowBreakingTag {
            SaveCurrentChunkIfValid();
          }
        } else {
          HandleText(element.text);
        }
        i := i + 1;
      }
      assert elements[..i] == elements;
    }

    method HandleText(text: string)
      modifies this
      ensures State() == TextStep(old(State()), text)
    {
      if !IsBlank(Some(text)) {
        var stripped := Strip(text);
        if currentChunk.None? {
          currentChunk := Some(Chunk(stripped));
        } else {
          currentChunk := Some(currentChunk.value.AddData(stripped));
        }
      }
    }

    /** Entering an element: one that is not inline finalizes the open chunk. */
    method HandleTag(name: string) returns (breaking: bool)
      modifies this
      ensures breaking <==> !IsInline(name)
      ensures State() == if breaking then SaveStep(old(State()), minChunkLength) else old(State())
    {
      breaking := !IsInline(name);
      if breaking {
        SaveCurrentChunkIfValid();
      }
    }

    /** `chunks_as_text`: the chunk data, one per line; "" for no chunks. */
    function ChunksAsText(): (text: string)
      reads this
      ensures chunks == [] ==> text == ""
      ensures chunks != [] && (forall k :: 0 <= k < |chunks| ==> '\n' !in chunks[k].data) ==>
                SplitOn(text, '\n') == Datas(chunks)
    {
      var text := JoinWith(Datas(chunks), "\n");
      if chunks != [] && (forall k :: 0 <= k < |chunks| ==> '\n' !in chunks[k].data) then
        SplitJoin(Datas(chunks), '\n');
        text
      else text
    }
  }

  // ---------------------------------------------------------------------
  // The typed walk with the types forgotten

  function EraseChunks(cs: seq<Typed.Chunk>): (r: seq<Chunk>)
    ensures |r| == |cs| && forall k :: 0 <= k < |cs| ==> r[k] == Chunk(cs[k].data)
  {
    seq(|cs|, k requires 0 <= k < |cs| => Chunk(cs[k].data))
  }

  function Erase(w: Typed.Walk): Walk
  {
    Walk(EraseChunks(w.chunks), if w.current.Some? then Some(Chunk(w.current.value.data)) else None)
  }

  /** A typed state, all untyped, whose erasure is `w`. */
  function Lift(w: Walk): (t: Typed.Walk)
    ensures Erase(t) == w
  {
    var cs := seq(|w.chunks|, k requires 0 <= k < |w.chunks| => Typed.Chunk(w.chunks[k].data, Typed.Untyped));
    var current := if w.current.Some? then Some(Typed.Chunk(w.current.value.data, Typed.Untyped)) else None;
    assert EraseChunks(cs) == w.chunks;
    Typed.Walk(cs, current, Typed.Untyped)
  }

  lemma SameInlineTags()
    ensures forall name :: IsInline(name) <==> Typed.IsFlowPreserving(name)
  {
    assert InlineTags == Typed.FlowPreservingTags;
  }

  lemma SaveErase(w: Typed.Walk, minChunkLength: int)
    ensures SaveStep(Erase(w), minChunkLength) == Erase(Typed.SaveStep(w, minChunkLength))
  {
    if w.current.Some? && |w.current.value.data| >= minChunkLength {
      assert EraseChunks(w.chunks + [w.current.value]) == EraseChunks(w.chunks) + [Chunk(w.current.value.data)];
    }
  }

  /** The untyped walk is the typed walk, its types erased. */
  lemma {:induction false} WalkNodesErase(ns: seq<Node>, w: Typed.Walk, minChunkLength: int)
    ensures WalkNodes(ns, Erase(w), minChunkLength) == Erase(Typed.WalkNodes(ns, w, minChunkLength))
    decreases ns
  {
    if ns != [] {
      WalkNodesErase(Init(ns), w, minChunkLength);
      WalkNodeErase(Last(ns), Typed.WalkNodes(Init(ns), w, minChunkLength), minChunkLength);
    }
  }

  lemma {:induction false} WalkNodeErase(n: Node, w: Typed.Walk, minChunkLength: int)
    ensures WalkNode(n, Erase(w), minChunkLength) == Erase(Typed.WalkNode(n, w, minChunkLength))
    decreases n
  {
    match n
    case Element(name, kids) =>
      SameInlineTags();
      var entered := Typed.TypeStep(w, name);
      assert Erase(entered) == Erase(w);
      var breaking := !IsInline(name);
      var inner := if breaking then Typed.SaveStep(entered, minChunkLength) else entered;
      SaveErase(entered, minChunkLength);
      assert Erase(inner) == if breaking then SaveStep(Erase(w), minChunkLength) else Erase(w);
      WalkNodesErase(kids, inner, minChunkLength);
      SaveErase(Typed.WalkNodes(kids, inner, minChunkLength), minChunkLength);
    case _ =>
  }

  /** `html2text`'s `parse` returns the typed chunker's chunks without their types. */
  lemma ParseErase(html: Option<string>, parsed: seq<Node>, minChunkLength: int)
    ensures ParseChunks(html, parsed, minChunkLength) == EraseChunks(Typed.ParseChunks(html, parsed, minChunkLength))
  {
    var body := Body(html, parsed);
    assert Erase(Typed.Start) == Start;
    if body.Some? {
      var w := Typed.WalkNodes(body.value.children, Typed.Start, minChunkLength);
      WalkNodesErase(body.value.children, Typed.Start, minChunkLength);
      SaveErase(w, minChunkLength);
    }
  }

  // ---------------------------------------------------------------------
  // Properties carried over from the typed walk

  /** Every chunk `parse` leaves is non-empty, trimmed and at least `minChunkLength` long. */
  lemma ParseChunksValid(html: Option<string>, parsed: seq<Node>, minChunkLength: int)
    ensures forall k :: 0 <= k < |ParseChunks(html, parsed, minChunkLength)| ==>
              var d := ParseChunks(html, parsed, minChunkLength)[k].data;
              d != [] && IsTrimmed(d) && |d| >= minChunkLength
  {
    ParseErase(html, parsed, minChunkLength);
    Typed.ParseChunksValid(html, parsed, minChunkLength);
  }

  /**
   * With the default `minChunkLength` of -1 no text is lost: the chunks
   * joined by single spaces equal the body's non-blank strings, stripped
   * and joined by single spaces, in document order.
   */
  lemma ParseKeepsText(html: Option<string>, parsed: seq<Node>, minChunkLength: int)
    requires minChunkLength <= 0
    ensures match Body(html, parsed)
            case None => ParseChunks(html, parsed, minChunkLength) == []
            case Some(body) =>
              JoinWith(Datas(ParseChunks(html, parsed, minChunkLength)), " ") == JoinWith(Texts(body.children), " ")
  {
    ParseErase(html, parsed, minChunkLength);
    Typed.ParseKeepsText(html, parsed, minChunkLength);
    var typed := Typed.ParseChunks(html, parsed, minChunkLength);
    assert Datas(EraseChunks(typed)) == Typed.Datas(typed);
  }

  /**
   * For a document `<html><body>…</body></html>`, the chunks joined by
   * single spaces equal the strings of the body's children outside
   * preformatted strings and `script`/`style` subtrees.
   */
  lemma DocumentKeepsText(html: Option<string>, kids: seq<Node>, minChunkLength: int)
    requires !IsBlank(html) && minChunkLength <= 0
    ensures JoinWith(Datas(ParseChunks(html, [Element("html", [Element("body", kids)])], minChunkLength)), " ") ==
            JoinWith(KeptTexts(kids), " ")
  {
    var parsed := [Element("html", [Element("body", kids)])];
    ParseErase(html, parsed, minChunkLength);
    Typed.DocumentKeepsText(html, kids, minChunkLength);
    var typed := Typed.ParseChunks(html, parsed, minChunkLength);
    assert Datas(EraseChunks(typed)) == Typed.Datas(typed);
  }

  /**
   * Of a page holding a style sheet, a `div` with "Divme" and a script
   * (the assumed parse tree `HtmlChunks.StyleScriptBody`), only the chunk
   * "Divme" is kept.
   */
  lemma StyleAndScriptIgnored(html: string)
    requires html == "<html><body>" + "<style>{foo zeug: sliderkram} css</style><div>Divme</div>"
                     + "<script type='text/javascript'>some script</body></html>"
    ensures ParseChunks(Some(html), [Element("html", [Element("body", Typed.StyleScriptBody)])], ParserDefaultMinChunkLength) ==
            [Chunk("Divme")]
  {
    var parsed := [Element("html", [Element("body", Typed.StyleScriptBody)])];
    ParseErase(Some(html), parsed, ParserDefaultMinChunkLength);
    Typed.StyleAndScriptIgnored(html);
  }

  /** `parse` returns at most one chunk per non-blank string of the body. */
  lemma ParseCount(html: Option<string>, parsed: seq<Node>, minChunkLength: int)
    ensures match Body(html, parsed)
            case None => ParseChunks(html, parsed, minChunkLength) == []
            case Some(body) => |ParseChunks(html, parsed, minChunkLength)| <= |Texts(body.children)|
  {
    ParseErase(html, parsed, minChunkLength);
    Typed.ParseCount(html, parsed, minChunkLength);
  }

  /**
   * Only the inline tags keep a chunk open: an element that is not inline
   * finalizes the open chunk on entry, leaves no chunk open on exit, and
   * emits the same chunks whatever came before it.
   */
  lemma BreakingElementIsolates(name: string, kids: seq<Node>, w: Walk, minChunkLength: int)
    requires !IsInline(name)
    ensures WalkNode(Element(name, kids), w, minChunkLength).current == None
    ensures WalkNode(Element(name, kids), w, minChunkLength).chunks ==
            SaveStep(w, minChunkLength).chunks + WalkNode(Element(name, kids), Start, minChunkLength).chunks
  {
    SameInlineTags();
    var t := Lift(w);
    var n := Element(name, kids);
    var typed := Typed.WalkNode(n, t, minChunkLength);
    var alone := Typed.WalkNode(n, Typed.Start, minChunkLength);
    var saved := Typed.SaveStep(t, minChunkLength);
    assert WalkNode(n, w, minChunkLength) == Erase(typed) by {
      WalkNodeErase(n, t, minChunkLength);
    }
    assert WalkNode(n, Start, minChunkLength).chunks == EraseChunks(alone.chunks) by {
      assert Erase(Typed.Start) == Start;
      WalkNodeErase(n, Typed.Start, minChunkLength);
    }
    assert SaveStep(w, minChunkLength).chunks == EraseChunks(saved.chunks) by {
      SaveErase(t, minChunkLength);
    }
    assert typed.chunks == saved.chunks + alone.chunks && typed.current == None by {
      Typed.BreakingElementIsolates(name, kids, t, minChunkLength);
    }
    EraseClosed(typed, saved.chunks, alone.chunks);
  }

  /**
   * An element that is not inline, over inline-only content, emits exactly
   * one chunk: its strings joined by single spaces (none when blank or
   * too short), after finalizing the chunk open before it.
   */
  lemma BreakingInlineElement(name: string, kids: seq<Node>, w: Walk, minChunkLength: int)
    requires !IsInline(name) && Typed.InlineOnly(kids)
    ensures var before := SaveStep(w, minChunkLength).chunks;
            var text := JoinWith(Texts(kids), " ");
            WalkNode(Element(name, kids), w, minChunkLength) ==
            if Texts(kids) != [] && |text| >= minChunkLength then Walk(before + [Chunk(text)], None)
            else Walk(before, None)
  {
    SameInlineTags();
    var t := Lift(w);
    var n := Element(name, kids);
    var typed := Typed.WalkNode(n, t, minChunkLength);
    assert WalkNode(n, w, minChunkLength) == Erase(typed) by {
      WalkNodeErase(n, t, minChunkLength);
    }
    var typedBefore := Typed.SaveStep(t, minChunkLength).chunks;
    assert SaveStep(w, minChunkLength).chunks == EraseChunks(typedBefore) by {
      SaveErase(t, minChunkLength);
    }
    var text := JoinWith(Texts(kids), " ");
    var emitted := if Texts(kids) != [] && |text| >= minChunkLength then [Typed.Chunk(text, Typed.ElementType(name))] else [];
    assert typed.chunks == typedBefore + emitted && typed.current == None by {
      Typed.BreakingInlineElement(name, kids, t, minChunkLength);
    }
    EraseClosed(typed, typedBefore, emitted);
    assert EraseChunks(emitted) == if emitted == [] then [] else [Chunk(text)];
  }

  /** Erasing a state with no open chunk erases its chunk list piece by piece. */
  lemma EraseClosed(tw: Typed.Walk, before: seq<Typed.Chunk>, extra: seq<Typed.Chunk>)
    requires tw.chunks == before + extra && tw.current == None
    ensures Erase(tw) == Walk(EraseChunks(before) + EraseChunks(extra), None)
  {
    assert EraseChunks(before + extra) == EraseChunks(before) + EraseChunks(extra);
  }

  // ---------------------------------------------------------------------
  // The converter entry point

  /** The parser's default `min_chunk_length`: every non-empty chunk is kept. */
  const ParserDefaultMinChunkLength: int := -1

  /**
   * `Html2TextChunksConverter.to_text_chunks`: the chunks of a default
   * parser. Each is non-empty and trimmed, and together they hold all the
   * text of the body.
   */
  method ToTextChunks(html: Option<string>, parsed: seq<Node>) returns (chunks: seq<Chunk>)
    ensures chunks == ParseChunks(html, parsed, ParserDefaultMinChunkLength)
    ensures forall k :: 0 <= k < |chunks| ==> chunks[k].data != [] && IsTrimmed(chunks[k].data)
    ensures match Body(html, parsed)
            case None => chunks == []
            case Some(body) => JoinWith(Datas(chunks), " ") == JoinWith(Texts(body.children), " ")
  {
    var parser := new ChunkHtmlParser(ParserDefaultMinChunkLength);
    parser.Parse(html, parsed);
    chunks := parser.chunks;
    ParseChunksValid(html, parsed, ParserDefaultMinChunkLength);
    ParseKeepsText(html, parsed, ParserDefaultMinChunkLength);
  }
}
