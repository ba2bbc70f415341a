/**
 * The typed chunker of `docconv/htmlchunks`: a depth-first walk over the
 * body of a parsed document that splits its text into chunks at every
 * flow-breaking element and tags each chunk as untyped, headline or list.
 *
 * The walk is first given as functions over a `Walk` state (the three
 * fields the parser object keeps), then as the parser class whose methods
 * are proved to follow those functions, then as lemmas about the walk.
 */
module HtmlChunks {
  import opened Wrappers
  import opened TextUtil
  import opened Markup

  datatype ChunkType = Untyped | Headline | ListItem

  /** A piece of text that no flow-breaking element splits. */
  datatype Chunk = Chunk(data: string, chunkType: ChunkType)
  {
    /**
     * `Chunk.add_data`: the data grows by one space and the new text; the
     * type stays. Two trimmed, non-empty pieces give trimmed, non-empty data.
     */
    function AddData(text: string): (r: Chunk)
      ensures r.chunkType == chunkType
      ensures data <= r.data && |r.data| == |data| + 1 + |text| && r.data[|data| + 1..] == text
      ensures r.data[|data|] == ' '
      ensures data != [] && text != [] && IsTrimmed(data) && IsTrimmed(text) ==> r.data != [] && IsTrimmed(r.data)
    {
      var d := data + " " + text;
      assert d[..|data|] == data && d[|data| + 1..] == text;
      assert data != [] ==> d[0] == data[0];
      assert text != [] ==> d[|d| - 1] == text[|text| - 1];
      Chunk(d, chunkType)
    }
  }

  /** Inline tags: entering or leaving them never ends a chunk. */
  const FlowPreservingTags: seq<string> :=
    ["span", "sub", "sup", "abbr", "acronym", "em", "b", "font", "i", "strong", "u", "a"]

  const HeadlineTags: seq<string> := ["h1", "h2", "h3", "h4", "h5", "h6"]

  predicate IsFlowPreserving(name: string)
  {
    name in FlowPreservingTags
  }

  /** The chunk type a flow-breaking tag announces for the next chunk. */
  function ElementType(name: string): (t: ChunkType)
    ensures t == ListItem <==> name == "li"
    ensures t == Headline <==> name in HeadlineTags
  {
    if name == "li" then ListItem
    else if name in HeadlineTags then Headline
    else Untyped
  }

  /**
   * The parser's state during a walk: the chunks emitted so far, the chunk
   * being built (if any) and the type waiting for the next chunk to open.
   */
  datatype Walk = Walk(chunks: seq<Chunk>, current: Option<Chunk>, pending: ChunkType)

  const Start: Walk := Walk([], None, Untyped)

  /** Finalize the open chunk: emit it when it is long enough; close it either way. */
  function SaveStep(w: Walk, minChunkLength: int): (r: Walk)
    ensures r.current == None && r.pending == w.pending
    ensures w.chunks <= r.chunks && |r.chunks| <= |w.chunks| + 1
    ensures |r.chunks| == |w.chunks| + 1 <==> w.current.Some? && |w.current.value.data| >= minChunkLength
    ensures |r.chunks| == |w.chunks| + 1 ==> r.chunks[|w.chunks|] == w.current.value
  {
    if w.current.Some? && |w.current.value.data| >= minChunkLength then
      Walk(w.chunks + [w.current.value], None, w.pending)
    else
      Walk(w.chunks, None, w.pending)
  }

  /** Entering an element: only a flow-breaking tag replaces the pending type. */
  function TypeStep(w: Walk, name: string): (r: Walk)
    ensures r.chunks == w.chunks && r.current == w.current
    ensures IsFlowPreserving(name) ==> r == w
    ensures !IsFlowPreserving(name) ==> r.pending == ElementType(name)
  {
    if IsFlowPreserving(name) then w else w.(pending := ElementType(name))
  }

  /**
   * A string node: blank text is ignored; otherwise its stripped text
   * opens a chunk (taking the pending type, which is then reset) or joins
   * the open chunk after one space. The ensures fix the old data as a
   * prefix; that exactly one space and the stripped text follow is proved by
   * `TextStepKeepsText` and, for a whole walk, `WalkNodesKeepsText`.
   */
  function TextStep(w: Walk, text: string): (r: Walk)
    ensures r.chunks == w.chunks
    ensures IsBlank(Some(text)) ==> r == w
    ensures !IsBlank(Some(text)) ==> r.current.Some?
    ensures !IsBlank(Some(text)) && w.current.Some? ==>
              w.current.value.data <= r.current.value.data &&
              r.current.value.chunkType == w.current.value.chunkType && r.pending == w.pending
    ensures !IsBlank(Some(text)) && w.current.None? ==>
              r.current.value.data == Strip(text) && r.current.value.chunkType == w.pending && r.pending == Untyped
  {
    if IsBlank(Some(text)) then w
    else
      var t := Strip(text);
      match w.current
      case None => Walk(w.chunks, Some(Chunk(t, w.pending)), Untyped)
      case Some(c) => Walk(w.chunks, Some(c.AddData(t)), w.pending)
  }

  /**
   * One node of the walk. An element sets the pending type, closes the
   * open chunk on entry when it is flow-breaking, walks its children and
   * closes the open chunk again on exit when it is flow-breaking.
   */
  function WalkNode(n: Node, w: Walk, minChunkLength: int): (r: Walk)
    ensures |w.chunks| <= |r.chunks| && r.chunks[..|w.chunks|] == w.chunks
    decreases n
  {
    match n
    case Element(name, kids) =>
      var breaking := !IsFlowPreserving(name);
      var entered := TypeStep(w, name);
      var inner := if breaking then SaveStep(entered, minChunkLength) else entered;
      var walked := WalkNodes(kids, inner, minChunkLength);
      if breaking then SaveStep(walked, minChunkLength) else walked
    case _ => TextStep(w, n.text)
  }

  /** The walk over a sequence of sibling nodes, in order. */
  function WalkNodes(ns: seq<Node>, w: Walk, minChunkLength: int): (r: Walk)
    ensures |w.chunks| <= |r.chunks| && r.chunks[..|w.chunks|] == w.chunks
    decreases ns
  {
    if ns == [] then w
    else WalkNode(Last(ns), WalkNodes(Init(ns), w, minChunkLength), minChunkLength)
  }

  /**
   * The parser's state after `parse(html)`: a fresh state, the walk over
   * the body's children and one final save; no body leaves the fresh state.
   */
  function ParseWalk(html: Option<string>, parsed: seq<Node>, minChunkLength: int): Walk
  {
    match Body(html, parsed)
    case None => Start
    case Some(body) => SaveStep(WalkNodes(body.children, Start, minChunkLength), minChunkLength)
  }

  function ParseChunks(html: Option<string>, parsed: seq<Node>, minChunkLength: int): seq<Chunk>
  {
    ParseWalk(html, parsed, minChunkLength).chunks
  }

  function Datas(cs: seq<Chunk>): (r: seq<string>)
    ensures |r| == |cs| && forall k :: 0 <= k < |cs| ==> r[k] == cs[k].data
  {
    seq(|cs|, k requires 0 <= k < |cs| => cs[k].data)
  }

  /** The parser object: its three fields are the state of the walk. */
  class ChunkHtmlParser {
    const minChunkLength: int
    var chunks: seq<Chunk>
    var currentChunk: Option<Chunk>
    var currentChunkType: ChunkType

    function State(): Walk
      reads this
    {
      Walk(chunks, currentChunk, currentChunkType)
    }

    constructor (minChunkLength: int)
      ensures this.minChunkLength == minChunkLength
      ensures State() == Start
    {
      this.minChunkLength := minChunkLength;
      chunks := [];
      currentChunk := None;
      currentChunkType := Untyped;
    }

    /** Whatever the state before, the new state is that of a walk over this input alone. */
    method Parse(html: Option<string>, parsed: seq<Node>)
      modifies this
      ensures State() == ParseWalk(html, parsed, minChunkLength)
      ensures chunks == ParseChunks(html, parsed, minChunkLength)
    {
      var body := Body(html, parsed);
      chunks := [];
      currentChunk := None;
      currentChunkType := Untyped;
      if body.None? {
        return;
      }
      Traverse(body.value.children);
      SaveCurrentChunkIfValid();
    }

    method SaveCurrentChunkIfValid()
      modifies this
      ensures State() == SaveStep(old(State()), minChunkLength)
    {
      if currentChunk.Some? && |currentChunk.value.data| >= minChunkLength {
        chunks := chunks + [currentChunk.value];
      }
      currentChunk := None;
    }

    method Traverse(elements: seq<Node>)
      modifies this
      ensures State() == WalkNodes(elements, old(State()), minChunkLength)
      decreases elements
    {
      var i := 0;
      while i < |elements|
        invariant 0 <= i <= |elements|
        invariant State() == WalkNodes(elements[..i], old(State()), minChunkLength)
      {
        var element := elements[i];
        assert elements[..i + 1][..i] == elements[..i];
        if element.Element? {
          SetCurrentChunkType(element.name);
          var wasFlowBreakingTag := HandleTag(element.name);
          Traverse(element.children);
          if wasFlowBreakingTag {
            SaveCurrentChunkIfValid();
          }
        } else {
          HandleText(element.text);
        }
        i := i + 1;
      }
      assert elements[..i] == elements;
    }

    method SetCurrentChunkType(name: string)
      modifies this
      ensures State() == TypeStep(old(State()), name)
    {
      if !IsFlowPreserving(name) {
        currentChunkType := ElementType(name);
      }
    }

    method HandleText(text: string)
      modifies this
      ensures State() == TextStep(old(State()), text)
    {
      if !IsBlank(Some(text)) {
        var stripped := Strip(text);
        if currentChunk.None? {
          currentChunk := Some(Chunk(stripped, currentChunkType));
          currentChunkType := Untyped;
        } else {
          currentChunk := Some(currentChunk.value.AddData(stripped));
        }
      }
    }

    /** Entering an element: a flow-breaking one finalizes the open chunk. */
    method HandleTag(name: string) returns (breaking: bool)
      modifies this
      ensures breaking <==> !IsFlowPreserving(name)
      ensures State() == if breaking then SaveStep(old(State()), minChunkLength) else old(State())
    {
      breaking := !IsFlowPreserving(name);
      if breaking {
        SaveCurrentChunkIfValid();
      }
    }

    /** `chunks_as_text`: the chunk data, one per line; "" for no chunks. */
    function ChunksAsText(): (text: string)
      reads this
      ensures chunks == [] ==> text == ""
      ensures chunks != [] && (forall k :: 0 <= k < |chunks| ==> '\n' !in chunks[k].data) ==>
                SplitOn(text, '\n') == Datas(chunks)
    {
      var text := JoinWith(Datas(chunks), "\n");
      if chunks != [] && (forall k :: 0 <= k < |chunks| ==> '\n' !in chunks[k].data) then
        SplitJoin(Datas(chunks), '\n');
        text
      else text
    }
  }

  // ---------------------------------------------------------------------
  // What every emitted chunk satisfies

  /** An emitted chunk: non-empty, no whitespace at either end, long enough. */
  predicate ValidChunk(c: Chunk, minChunkLength: int)
  {
    c.data != [] && IsTrimmed(c.data) && |c.data| >= minChunkLength
  }

  /** Emitted chunks are valid; the open chunk is non-empty and trimmed. */
  predicate ValidWalk(w: Walk, minChunkLength: int)
  {
    (forall k :: 0 <= k < |w.chunks| ==> ValidChunk(w.chunks[k], minChunkLength)) &&
    (w.current.Some? ==> w.current.value.data != [] && IsTrimmed(w.current.value.data))
  }

  lemma {:induction false} WalkNodesValid(ns: seq<Node>, w: Walk, minChunkLength: int)
    requires ValidWalk(w, minChunkLength)
    ensures ValidWalk(WalkNodes(ns, w, minChunkLength), minChunkLength)
    decreases ns
  {
    if ns != [] {
      WalkNodesValid(Init(ns), w, minChunkLength);
      WalkNodeValid(Last(ns), WalkNodes(Init(ns), w, minChunkLength), minChunkLength);
    }
  }

  lemma {:induction false} WalkNodeValid(n: Node, w: Walk, minChunkLength: int)
    requires ValidWalk(w, minChunkLength)
    ensures ValidWalk(WalkNode(n, w, minChunkLength), minChunkLength)
    decreases n
  {
    match n
    case Element(name, kids) =>
      var entered := TypeStep(w, name);
      var inner := if !IsFlowPreserving(name) then SaveStep(entered, minChunkLength) else entered;
      WalkNodesValid(kids, inner, minChunkLength);
    case _ =>
      if !IsBlank(Some(n.text)) && w.current.Some? {
        var d, t := w.current.value.data, Strip(n.text);
        assert (d + " " + t)[0] == d[0];
        assert (d + " " + t)[|d + " " + t| - 1] == t[|t| - 1];
      }
  }

  /** Every chunk `parse` leaves is non-empty, trimmed and at least `minChunkLength` long. */
  lemma ParseChunksValid(html: Option<string>, parsed: seq<Node>, minChunkLength: int)
    ensures forall k :: 0 <= k < |ParseChunks(html, parsed, minChunkLength)| ==>
              ValidChunk(ParseChunks(html, parsed, minChunkLength)[k], minChunkLength)
  {
    var body := Body(html, parsed);
    if body.Some? {
      WalkNodesValid(body.value.children, Start, minChunkLength);
    }
  }

  // ---------------------------------------------------------------------
  // The chunk list only grows, and what is already in it plays no part

  /**
   * The walk appends to the chunk list and never reads it: starting from
   * any list gives that list followed by what the walk emits from an
   * empty one, and the same open chunk and pending type.
   */
  lemma {:induction false} WalkNodesFrame(ns: seq<Node>, w: Walk, minChunkLength: int)
    ensures WalkNodes(ns, w, minChunkLength).chunks ==
            w.chunks + WalkNodes(ns, w.(chunks := []), minChunkLength).chunks
    ensures WalkNodes(ns, w, minChunkLength).(chunks := []) ==
            WalkNodes(ns, w.(chunks := []), minChunkLength).(chunks := [])
    decreases ns, 0
  {
    if ns != [] {
      var mid := WalkNodes(Init(ns), w, minChunkLength);
      var mid0 := WalkNodes(Init(ns), w.(chunks := []), minChunkLength);
      WalkNodesFrame(Init(ns), w, minChunkLength);
      WalkNodeFrame(Last(ns), mid, minChunkLength);
      WalkNodeFrame(Last(ns), mid0, minChunkLength);
      assert mid.(chunks := []) == mid0.(chunks := []);
    }
  }

  lemma {:induction false} WalkNodeFrame(n: Node, w: Walk, minChunkLength: int)
    ensures WalkNode(n, w, minChunkLength).chunks ==
            w.chunks + WalkNode(n, w.(chunks := []), minChunkLength).chunks
    ensures WalkNode(n, w, minChunkLength).(chunks := []) ==
            WalkNode(n, w.(chunks := []), minChunkLength).(chunks := [])
    decreases n
  {
    match n
    case Element(name, kids) =>
      var w0 := w.(chunks := []);
      var pre := w.chunks;
      var entered, entered0 := TypeStep(w, name), TypeStep(w0, name);
      var breaking := !IsFlowPreserving(name);
      var inner := if breaking then SaveStep(entered, minChunkLength) else entered;
      var inner0 := if breaking then SaveStep(entered0, minChunkLength) else entered0;
      assert Shifted(inner, inner0, pre) by {
        assert Shifted(w, w0, pre);
        StepsShifted(w, w0, pre, name, minChunkLength);
        StepsShifted(entered, entered0, pre, name, minChunkLength);
      }
      var walked, walked0 := WalkNodes(kids, inner, minChunkLength), WalkNodes(kids, inner0, minChunkLength);
      WalkNodesShifted(kids, inner, inner0, pre, minChunkLength);
      StepsShifted(walked, walked0, pre, name, minChunkLength);
    case _ =>
  }

  lemma WalkNodesShifted(ns: seq<Node>, v: Walk, v0: Walk, pre: seq<Chunk>, minChunkLength: int)
    requires Shifted(v, v0, pre)
    ensures Shifted(WalkNodes(ns, v, minChunkLength), WalkNodes(ns, v0, minChunkLength), pre)
    decreases ns, 1
  {
    WalkNodesFrame(ns, v, minChunkLength);
    WalkNodesFrame(ns, v0, minChunkLength);
    assert v.(chunks := []) == v0.(chunks := []);
    assert WalkNodes(ns, v, minChunkLength).chunks ==
           pre + v0.chunks + WalkNodes(ns, v.(chunks := []), minChunkLength).chunks;
  }

  /** `v` is `v0` with `pre` in front of its chunk list. */
  predicate Shifted(v: Walk, v0: Walk, pre: seq<Chunk>)
  {
    v.chunks == pre + v0.chunks && v.(chunks := []) == v0.(chunks := [])
  }

  lemma StepsShifted(v: Walk, v0: Walk, pre: seq<Chunk>, name: string, minChunkLength: int)
    requires Shifted(v, v0, pre)
    ensures Shifted(TypeStep(v, name), TypeStep(v0, name), pre)
    ensures Shifted(SaveStep(v, minChunkLength), SaveStep(v0, minChunkLength), pre)
  {
    assert v.current == v0.current && v.pending == v0.pending by {
      assert v.(chunks := []).current == v0.(chunks := []).current;
      assert v.(chunks := []).pending == v0.(chunks := []).pending;
    }
    if v.current.Some? && |v.current.value.data| >= minChunkLength {
      assert v.chunks + [v.current.value] == pre + (v0.chunks + [v.current.value]);
    }
  }

  /**
   * A flow-breaking element isolates its content: the chunks before it are
   * finalized on entry, and what it emits does not depend on anything
   * before it.
   */
  lemma BreakingElementIsolates(name: string, kids: seq<Node>, w: Walk, minChunkLength: int)
    requires !IsFlowPreserving(name)
    ensures WalkNode(Element(name, kids), w, minChunkLength).current == None
    ensures WalkNode(Element(name, kids), w, minChunkLength) ==
            var alone := WalkNode(Element(name, kids), Start, minChunkLength);
            alone.(chunks := SaveStep(w, minChunkLength).chunks + alone.chunks)
  {
    var inner := SaveStep(TypeStep(w, name), minChunkLength);
    var inner0 := SaveStep(TypeStep(Start, name), minChunkLength);
    var pre := SaveStep(w, minChunkLength).chunks;
    assert Shifted(inner, inner0, pre) by {
      assert inner.chunks == pre && inner0.chunks == [];
      assert inner.(chunks := []) == inner0;
    }
    var walked, walked0 := WalkNodes(kids, inner, minChunkLength), WalkNodes(kids, inner0, minChunkLength);
    WalkNodesShifted(kids, inner, inner0, pre, minChunkLength);
    StepsShifted(walked, walked0, pre, name, minChunkLength);
  }

  // ---------------------------------------------------------------------
  // No text is lost and the order is kept

  /** The emitted chunk data followed by the open chunk's data. */
  function Pieces(w: Walk): seq<string>
  {
    Datas(w.chunks) + (if w.current.Some? then [w.current.value.data] else [])
  }

  predicate AllNonEmpty(ss: seq<string>)
  {
    forall k :: 0 <= k < |ss| ==> ss[k] != []
  }

  lemma JoinCongruence(a: seq<string>, b: seq<string>, t: seq<string>)
    requires AllNonEmpty(a) && AllNonEmpty(b)
    requires JoinWith(a, " ") == JoinWith(b, " ")
    ensures JoinWith(a + t, " ") == JoinWith(b + t, " ")
  {
    JoinAppend(a, t, " ");
    JoinAppend(b, t, " ");
    if a != [] { JoinNonEmpty(a); }
    if b != [] { JoinNonEmpty(b); }
  }

  lemma {:induction false} JoinNonEmpty(a: seq<string>)
    requires a != [] && AllNonEmpty(a)
    ensures JoinWith(a, " ") != []
  {
    if |a| > 1 {
      assert JoinWith(a, " ") == a[0] + " " + JoinWith(a[1..], " ");
    }
  }

  lemma DatasAppend(cs: seq<Chunk>, c: Chunk)
    ensures Datas(cs + [c]) == Datas(cs) + [c.data]
  {
  }

  lemma ValidPieces(w: Walk, minChunkLength: int)
    requires ValidWalk(w, minChunkLength)
    ensures AllNonEmpty(Pieces(w))
  {
    var p := Pieces(w);
    forall k | 0 <= k < |p| ensures p[k] != [] {
      if k < |w.chunks| {
        assert p[k] == w.chunks[k].data;
      }
    }
  }

  /**
   * When every chunk is kept (`minChunkLength <= 0`, the default being -1),
   * the walk loses no text: joined with single spaces, the chunk data and
   * the open chunk read exactly as the state before followed by every
   * non-blank string of `ns`, stripped, in document order.
   */
  lemma {:induction false} WalkNodesKeepsText(ns: seq<Node>, w: Walk, minChunkLength: int)
    requires minChunkLength <= 0 && ValidWalk(w, minChunkLength)
    ensures JoinWith(Pieces(WalkNodes(ns, w, minChunkLength)), " ") == JoinWith(Pieces(w) + Texts(ns), " ")
    decreases ns
  {
    if ns != [] {
      var mid := WalkNodes(Init(ns), w, minChunkLength);
      var before := Pieces(w) + Texts(Init(ns));
      var last := NodeTexts(Last(ns));
      WalkNodesValid(Init(ns), w, minChunkLength);
      assert JoinWith(Pieces(WalkNodes(ns, w, minChunkLength)), " ") == JoinWith(Pieces(mid) + last, " ") by {
        WalkNodeKeepsText(Last(ns), mid, minChunkLength);
      }
      assert JoinWith(Pieces(mid) + last, " ") == JoinWith(before + last, " ") by {
        WalkNodesKeepsText(Init(ns), w, minChunkLength);
        ValidPieces(mid, minChunkLength);
        ValidPieces(w, minChunkLength);
        NonEmptyConcat(Pieces(w), Texts(Init(ns)));
        JoinCongruence(Pieces(mid), before, last);
      }
      assert before + last == Pieces(w) + Texts(ns);
    } else {
      assert Pieces(w) + Texts(ns) == Pieces(w);
    }
  }

  lemma NonEmptyConcat(a: seq<string>, b: seq<string>)
    requires AllNonEmpty(a)
    requires forall k :: 0 <= k < |b| ==> b[k] != [] && IsTrimmed(b[k])
    ensures AllNonEmpty(a + b)
  {
    forall k | 0 <= k < |a + b| ensures (a + b)[k] != [] {
      if k >= |a| { assert (a + b)[k] == b[k - |a|]; }
    }
  }

  lemma {:induction false} WalkNodeKeepsText(n: Node, w: Walk, minChunkLength: int)
    requires minChunkLength <= 0 && ValidWalk(w, minChunkLength)
    ensures JoinWith(Pieces(WalkNode(n, w, minChunkLength)), " ") == JoinWith(Pieces(w) + NodeTexts(n), " ")
    decreases n
  {
    match n
    case Element(name, kids) =>
      var entered := TypeStep(w, name);
      var breaking := !IsFlowPreserving(name);
      var inner := if breaking then SaveStep(entered, minChunkLength) else entered;
      assert Pieces(inner) == Pieces(w) && ValidWalk(inner, minChunkLength) by {
        SaveKeepsPieces(entered, minChunkLength);
        TypeStepValid(w, name, minChunkLength);
        SaveStepValid(entered, minChunkLength);
      }
      WalkNodesKeepsText(kids, inner, minChunkLength);
      SaveKeepsPieces(WalkNodes(kids, inner, minChunkLength), minChunkLength);
    case _ =>
      TextStepKeepsText(w, n.text);
  }

  lemma TextStepKeepsText(w: Walk, text: string)
    ensures JoinWith(Pieces(TextStep(w, text)), " ") ==
            JoinWith(Pieces(w) + (if IsBlank(Some(text)) then [] else [Strip(text)]), " ")
  {
    var p := Datas(w.chunks);
    if IsBlank(Some(text)) {
      assert Pieces(w) + [] == Pieces(w);
    } else if w.current.Some? {
      var d, t := w.current.value.data, Strip(text);
      assert Pieces(TextStep(w, text)) == p + [d + " " + t] by {
        assert TextStep(w, text).current.value.data == d + " " + t;
      }
      assert Pieces(w) + [t] == p + [d] + [t];
      JoinExtendsLast(p, d, t);
    } else {
      assert Pieces(w) == p;
      assert Pieces(TextStep(w, text)) == p + [Strip(text)];
    }
  }

  /** Gluing a piece onto the last one with a space leaves the space-joined text unchanged. */
  lemma JoinExtendsLast(p: seq<string>, d: string, t: string)
    ensures JoinWith(p + [d + " " + t], " ") == JoinWith(p + [d] + [t], " ")
  {
    JoinAppend(p, [d + " " + t], " ");
    JoinAppend(p, [d, t], " ");
    JoinAppend([d], [t], " ");
    assert p + [d] + [t] == p + [d, t];
  }

  lemma TypeStepValid(w: Walk, name: string, minChunkLength: int)
    requires ValidWalk(w, minChunkLength)
    ensures ValidWalk(TypeStep(w, name), minChunkLength)
  {
  }

  lemma SaveStepValid(w: Walk, minChunkLength: int)
    requires ValidWalk(w, minChunkLength)
    ensures ValidWalk(SaveStep(w, minChunkLength), minChunkLength)
  {
  }

  lemma SaveKeepsPieces(w: Walk, minChunkLength: int)
    requires minChunkLength <= 0
    ensures Pieces(SaveStep(w, minChunkLength)) == Pieces(w)
  {
    if w.current.Some? {
      DatasAppend(w.chunks, w.current.value);
    }
  }

  /**
   * With the default `minChunkLength` of -1, the chunks of `parse` joined
   * with single spaces equal the non-blank strings of the body, stripped
   * and joined with single spaces, in document order.
   */
  lemma ParseKeepsText(html: Option<string>, parsed: seq<Node>, minChunkLength: int)
    requires minChunkLength <= 0
    ensures match Body(html, parsed)
            case None => ParseChunks(html, parsed, minChunkLength) == []
            case Some(body) =>
              JoinWith(Datas(ParseChunks(html, parsed, minChunkLength)), " ") == JoinWith(Texts(body.children), " ")
  {
    var body := Body(html, parsed);
    if body.Some? {
      var w := WalkNodes(body.value.children, Start, minChunkLength);
      WalkNodesKeepsText(body.value.children, Start, minChunkLength);
      SaveKeepsPieces(w, minChunkLength);
      assert Pieces(Start) + Texts(body.value.children) == Texts(body.value.children);
      var saved := SaveStep(w, minChunkLength);
      assert saved.current == None;
      assert Pieces(saved) == Datas(saved.chunks);
    }
  }

  /**
   * For a document `<html><body>…</body></html>`, nothing but the
   * removed markup is lost between the input tree and the chunks: joined
   * by single spaces they equal the strings of the body's children outside
   * preformatted strings and `script`/`style` subtrees.
   */
  lemma DocumentKeepsText(html: Option<string>, kids: seq<Node>, minChunkLength: int)
    requires !IsBlank(html) && minChunkLength <= 0
    ensures JoinWith(Datas(ParseChunks(html, [Element("html", [Element("body", kids)])], minChunkLength)), " ") ==
            JoinWith(KeptTexts(kids), " ")
  {
    var parsed := [Element("html", [Element("body", kids)])];
    assert Body(html, parsed) == Some(Element("body", Clean(kids))) by {
      CleanDocument(kids);
    }
    ParseKeepsText(html, parsed, minChunkLength);
    CleanKeepsTexts(kids);
  }

  /** Cleaning `<html><body>…</body></html>` cleans the body's children; the body is found first. */
  lemma CleanDocument(kids: seq<Node>)
    ensures Clean([Element("html", [Element("body", kids)])]) == [Element("html", [Element("body", Clean(kids))])]
    ensures FirstNamed(Preorder(Clean([Element("html", [Element("body", kids)])])), "body") ==
            Some(Element("body", Clean(kids)))
  {
    var body := Element("body", Clean(kids));
    assert Clean([Element("body", kids)]) == [body] by {
      assert Init([Element("body", kids)]) == [];
    }
    assert Clean([Element("html", [Element("body", kids)])]) == [Element("html", [body])] by {
      assert Init([Element("html", [Element("body", kids)])]) == [];
    }
    var ps := Preorder([Element("html", [body])]);
    assert ps == [Element("html", [body])] + ([body] + Preorder(body.children)) by {
      assert [Element("html", [body])][1..] == [] && [body][1..] == [];
      assert Preorder([body]) == NodePreorder(body) + Preorder([]);
      assert ps == NodePreorder(Element("html", [body])) + Preorder([]);
    }
    assert ps[1] == body;
    assert !Named(ps[0], "body") && ps[1..][0] == body;
  }

  /**
   * The body of a page holding a style sheet, a `div` with "Divme" and a
   * script, as the markup parser is assumed to build it. The page leaves its
   * `script` unclosed, so the parser may put the rest of the markup into the
   * script's text; that text is removed with the script either way.
   */
  const StyleScriptBody: seq<Node> :=
    [Element("style", [Text("{foo zeug: sliderkram} css")]),
     Element("div", [Text("Divme")]),
     Element("script", [Text("some script")])]

  /**
   * `<style>` and `<script>` subtrees are dropped with their text: of
   * such a page only one untyped chunk "Divme" is kept.
   */
  lemma StyleAndScriptIgnored(html: string)
    requires html == "<html><body>" + "<style>{foo zeug: sliderkram} css</style><div>Divme</div>"
                     + "<script type='text/javascript'>some script</body></html>"
    ensures ParseChunks(Some(html), [Element("html", [Element("body", StyleScriptBody)])], ParserDefaultMinChunkLength) ==
            [Chunk("Divme", Untyped)]
  {
    var div := Element("div", [Text("Divme")]);
    assert !IsBlank(Some(html)) by {
      assert html[0] == '<' && !IsWs(html[0]);
    }
    assert Body(Some(html), [Element("html", [Element("body", StyleScriptBody)])]) == Some(Element("body", [div])) by {
      StyleScriptBodyClean();
      CleanDocument(StyleScriptBody);
    }
    DivmeWalk();
  }

  lemma StyleScriptBodyClean()
    ensures Clean(StyleScriptBody) == [Element("div", [Text("Divme")])]
  {
    var kids := StyleScriptBody;
    CleanAppend([kids[0]], kids[1..]);
    CleanAppend([kids[1]], [kids[2]]);
    assert kids == [kids[0]] + ([kids[1]] + [kids[2]]);
    assert Clean([kids[0]]) == [] by { assert Init([kids[0]]) == []; }
    assert Clean([kids[2]]) == [] by { assert Init([kids[2]]) == []; }
    assert Clean([kids[1]]) == [kids[1]] by {
      assert Init([kids[1]]) == [];
      assert Clean(kids[1].children) == kids[1].children by { assert Init(kids[1].children) == []; }
    }
  }

  lemma DivmeWalk()
    ensures WalkNodes([Element("div", [Text("Divme")])], Start, ParserDefaultMinChunkLength) ==
            Walk([Chunk("Divme", Untyped)], None, Untyped)
  {
    StripTrimmed("Divme");
    var m := ParserDefaultMinChunkLength;
    assert TypeStep(Start, "div") == Start;
    var inside := WalkNodes([Text("Divme")], SaveStep(Start, m), m);
    assert inside == Walk([], Some(Chunk("Divme", Untyped)), Untyped) by {
      assert Init([Text("Divme")]) == [];
    }
    assert Init([Element("div", [Text("Divme")])]) == [];
  }

  // ---------------------------------------------------------------------
  // Each chunk is opened by one string; none is emitted twice

  /** Chunks emitted or open. */
  function Opened(w: Walk): nat
  {
    |w.chunks| + if w.current.Some? then 1 else 0
  }

  /**
   * Every chunk is opened by a distinct non-blank string and emitted at
   * most once: the walk adds no more chunks than `ns` holds such strings.
   */
  lemma {:induction false} WalkNodesCount(ns: seq<Node>, w: Walk, minChunkLength: int)
    ensures Opened(WalkNodes(ns, w, minChunkLength)) <= Opened(w) + |Texts(ns)|
    decreases ns
  {
    if ns != [] {
      WalkNodesCount(Init(ns), w, minChunkLength);
      WalkNodeCount(Last(ns), WalkNodes(Init(ns), w, minChunkLength), minChunkLength);
    }
  }

  lemma {:induction false} WalkNodeCount(n: Node, w: Walk, minChunkLength: int)
    ensures Opened(WalkNode(n, w, minChunkLength)) <= Opened(w) + |NodeTexts(n)|
    decreases n
  {
    match n
    case Element(name, kids) =>
      var entered := TypeStep(w, name);
      var inner := if !IsFlowPreserving(name) then SaveStep(entered, minChunkLength) else entered;
      WalkNodesCount(kids, inner, minChunkLength);
    case _ =>
  }

  /** `parse` returns at most one chunk per non-blank string of the body. */
  lemma ParseCount(html: Option<string>, parsed: seq<Node>, minChunkLength: int)
    ensures match Body(html, parsed)
            case None => ParseChunks(html, parsed, minChunkLength) == []
            case Some(body) => |ParseChunks(html, parsed, minChunkLength)| <= |Texts(body.children)|
  {
    var body := Body(html, parsed);
    if body.Some? {
      WalkNodesCount(body.value.children, Start, minChunkLength);
    }
  }

  // ---------------------------------------------------------------------
  // Inline content forms one chunk

  /** Only strings and flow-preserving elements, all the way down. */
  predicate InlineOnly(ns: seq<Node>)
    decreases ns
  {
    forall k :: 0 <= k < |ns| ==> InlineNode(ns[k])
  }

  predicate InlineNode(n: Node)
    decreases n
  {
    match n
    case Element(name, kids) => IsFlowPreserving(name) && InlineOnly(kids)
    case _ => true
  }

  /**
   * The state after feeding the strings `ts` into `w` with no boundary in
   * between: unchanged for no strings; otherwise one open chunk holding
   * them joined by spaces, after the open chunk's data if there was one.
   */
  function Absorbed(w: Walk, ts: seq<string>): Walk
  {
    if ts == [] then w
    else
      match w.current
      case None => Walk(w.chunks, Some(Chunk(JoinWith(ts, " "), w.pending)), Untyped)
      case Some(c) => Walk(w.chunks, Some(Chunk(c.data + " " + JoinWith(ts, " "), c.chunkType)), w.pending)
  }

  lemma AbsorbedAppend(w: Walk, a: seq<string>, b: seq<string>)
    ensures Absorbed(Absorbed(w, a), b) == Absorbed(w, a + b)
  {
    if a == [] {
      assert a + b == b;
    } else if b == [] {
      assert a + b == a;
    } else {
      JoinAppend(a, b, " ");
      var ja, jb := JoinWith(a, " "), JoinWith(b, " ");
      assert JoinWith(a + b, " ") == ja + " " + jb;
      if w.current.Some? {
        var d := w.current.value.data;
        assert (d + " " + ja) + " " + jb == d + " " + (ja + " " + jb);
      }
    }
  }

  /**
   * Tags in the flow-preserving list never end a chunk, and do not touch
   * the pending type: walking inline-only content emits nothing and
   * simply feeds its strings into the open chunk (or opens one).
   */
  lemma {:induction false} InlineNodesAbsorbed(ns: seq<Node>, w: Walk, minChunkLength: int)
    requires InlineOnly(ns)
    ensures WalkNodes(ns, w, minChunkLength) == Absorbed(w, Texts(ns))
    decreases ns
  {
    if ns != [] {
      assert InlineNode(Last(ns));
      assert InlineOnly(Init(ns)) by {
        forall k | 0 <= k < |Init(ns)| ensures InlineNode(Init(ns)[k]) {
          assert Init(ns)[k] == ns[k];
        }
      }
      InlineNodesAbsorbed(Init(ns), w, minChunkLength);
      InlineNodeAbsorbed(Last(ns), WalkNodes(Init(ns), w, minChunkLength), minChunkLength);
      AbsorbedAppend(w, Texts(Init(ns)), NodeTexts(Last(ns)));
      assert Texts(ns) == Texts(Init(ns)) + NodeTexts(Last(ns));
    }
  }

  lemma {:induction false} InlineNodeAbsorbed(n: Node, w: Walk, minChunkLength: int)
    requires InlineNode(n)
    ensures WalkNode(n, w, minChunkLength) == Absorbed(w, NodeTexts(n))
    decreases n
  {
    match n
    case Element(name, kids) =>
      InlineNodesAbsorbed(kids, w, minChunkLength);
    case _ =>
  }

  /**
   * A flow-breaking element whose content is inline-only emits exactly
   * one chunk for it: its strings joined by single spaces, typed by the
   * element's tag (li: list, h1-h6: headline) - or none, when the content
   * is blank (the pending type then stays set for the next chunk) or too
   * short. The open chunk before it is finalized first.
   */
  lemma BreakingInlineElement(name: string, kids: seq<Node>, w: Walk, minChunkLength: int)
    requires !IsFlowPreserving(name) && InlineOnly(kids)
    ensures var before := SaveStep(w, minChunkLength).chunks;
            var text := JoinWith(Texts(kids), " ");
            WalkNode(Element(name, kids), w, minChunkLength) ==
            if Texts(kids) == [] then Walk(before, None, ElementType(name))
            else if |text| >= minChunkLength then Walk(before + [Chunk(text, ElementType(name))], None, Untyped)
            else Walk(before, None, Untyped)
  {
    var inner := SaveStep(TypeStep(w, name), minChunkLength);
    InlineNodesAbsorbed(kids, inner, minChunkLength);
  }

  /** Walking two runs of siblings is walking the first, then the second. */
  lemma {:induction false} WalkNodesConcat(a: seq<Node>, b: seq<Node>, w: Walk, minChunkLength: int)
    ensures WalkNodes(a + b, w, minChunkLength) == WalkNodes(b, WalkNodes(a, w, minChunkLength), minChunkLength)
    decreases b
  {
    if b == [] {
      assert a + b == a;
    } else {
      assert Init(a + b) == a + Init(b);
      assert Last(a + b) == Last(b);
      WalkNodesConcat(a, Init(b), w, minChunkLength);
    }
  }

  /**
   * An empty flow-breaking element emits nothing but leaves its type
   * pending, so the next chunk takes it: `<h1></h1><b>x</b>` yields one
   * headline chunk "x".
   */
  lemma EmptyElementTypesNextChunk(name: string, ns: seq<Node>, w: Walk, minChunkLength: int)
    requires !IsFlowPreserving(name) && InlineOnly(ns) && Texts(ns) != []
    ensures WalkNodes([Element(name, [])] + ns, w, minChunkLength) ==
            Walk(SaveStep(w, minChunkLength).chunks, Some(Chunk(JoinWith(Texts(ns), " "), ElementType(name))), Untyped)
  {
    WalkNodesConcat([Element(name, [])], ns, w, minChunkLength);
    assert Init([Element(name, [])]) == [];
    assert Last([Element(name, [])]) == Element(name, []);
    var inner := SaveStep(TypeStep(w, name), minChunkLength);
    assert WalkNodes([], inner, minChunkLength) == inner;
    assert inner.chunks == SaveStep(w, minChunkLength).chunks;
    var after := WalkNodes([Element(name, [])], w, minChunkLength);
    assert after == Walk(SaveStep(w, minChunkLength).chunks, None, ElementType(name));
    InlineNodesAbsorbed(ns, after, minChunkLength);
  }

  // ---------------------------------------------------------------------
  // Where chunk types come from

  /** The types the flow-breaking elements of `ns` announce. */
  function TagTypes(ns: seq<Node>): set<ChunkType>
    decreases ns
  {
    if ns == [] then {} else TagTypes(Init(ns)) + NodeTagTypes(Last(ns))
  }

  function NodeTagTypes(n: Node): set<ChunkType>
    decreases n
  {
    match n
    case Element(name, kids) =>
      (if IsFlowPreserving(name) then {} else {ElementType(name)}) + TagTypes(kids)
    case _ => {}
  }

  /** Every type in the state (emitted, open, pending) is in `types`. */
  predicate TypesWithin(w: Walk, types: set<ChunkType>)
  {
    (forall k :: 0 <= k < |w.chunks| ==> w.chunks[k].chunkType in types) &&
    (w.current.Some? ==> w.current.value.chunkType in types) &&
    w.pending in types
  }

  /**
   * A chunk's type is only ever the pending type, which only a
   * flow-breaking tag sets: every type after the walk is untyped, was
   * present before, or is announced by an element of `ns`.
   */
  lemma {:induction false} WalkNodesTypes(ns: seq<Node>, w: Walk, types: set<ChunkType>, minChunkLength: int)
    requires Untyped in types && TypesWithin(w, types)
    ensures TypesWithin(WalkNodes(ns, w, minChunkLength), types + TagTypes(ns))
    decreases ns
  {
    if ns != [] {
      WalkNodesTypes(Init(ns), w, types, minChunkLength);
      WalkNodeTypes(Last(ns), WalkNodes(Init(ns), w, minChunkLength), types + TagTypes(Init(ns)), minChunkLength);
    }
  }

  lemma {:induction false} WalkNodeTypes(n: Node, w: Walk, types: set<ChunkType>, minChunkLength: int)
    requires Untyped in types && TypesWithin(w, types)
    ensures TypesWithin(WalkNode(n, w, minChunkLength), types + NodeTagTypes(n))
    decreases n
  {
    match n
    case Element(name, kids) =>
      var entered := TypeStep(w, name);
      var inner := if !IsFlowPreserving(name) then SaveStep(entered, minChunkLength) else entered;
      var all := types + NodeTagTypes(n);
      assert TypesWithin(inner, all);
      WalkNodesTypes(kids, inner, all, minChunkLength);
      assert all + TagTypes(kids) == all;
    case _ =>
  }

  /** A body with no h1-h6 element yields no headline chunk; with no li, no list chunk. */
  lemma ParseTypes(html: Option<string>, parsed: seq<Node>, minChunkLength: int)
    ensures match Body(html, parsed)
            case None => true
            case Some(body) =>
              forall k :: 0 <= k < |ParseChunks(html, parsed, minChunkLength)| ==>
                var t := ParseChunks(html, parsed, minChunkLength)[k].chunkType;
                t == Untyped || t in TagTypes(body.children)
  {
    var body := Body(html, parsed);
    if body.Some? {
      WalkNodesTypes(body.value.children, Start, {Untyped}, minChunkLength);
    }
  }

  // ---------------------------------------------------------------------
  // The converter entry point

  /** The parser's default `min_chunk_length`: every non-empty chunk is kept. */
  const ParserDefaultMinChunkLength: int := -1

  /**
   * `Html2TextChunksConverter.to_text_chunks`: the chunks of a default
   * parser. Each is non-empty and trimmed, and together they hold all the
   * text of the body.
   */
  method ToTextChunks(html: Option<string>, parsed: seq<Node>) returns (chunks: seq<Chunk>)
    ensures chunks == ParseChunks(html, parsed, ParserDefaultMinChunkLength)
    ensures forall k :: 0 <= k < |chunks| ==> chunks[k].data != [] && IsTrimmed(chunks[k].data)
    ensures match Body(html, parsed)
            case None => chunks == []
            case Some(body) => JoinWith(Datas(chunks), " ") == JoinWith(Texts(body.children), " ")
  {
    var parser := new ChunkHtmlParser(ParserDefaultMinChunkLength);
    parser.Parse(html, parsed);
    chunks := parser.chunks;
    ParseChunksValid(html, parsed, ParserDefaultMinChunkLength);
    ParseKeepsText(html, parsed, ParserDefaultMinChunkLength);
  }
}
