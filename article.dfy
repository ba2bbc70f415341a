/**
 * The two consumers of a chunk list in `docconv/htmlchunks`:
 * `ArticleDetector.is_article`, a verdict on whether the chunks hold
 * enough real text, and `ArticleChunksExtractor.extract`, which drops the
 * boilerplate before the article. Their thresholds, constructor arguments
 * in the source, are parameters here; the defaults are constants.
 */
module Article {
  import opened Wrappers
  import opened HtmlChunks

  // ---------------------------------------------------------------------
  // ArticleDetector

  const DefaultMinArticleLength: int := 1000
  const DefaultMinChunkLength: int := 50

  /**
   * The chunks counted by the detector: every chunk at least
   * `minChunkLength` long, as often as it occurs in the list.
   */
  function Qualifying(cs: seq<Chunk>, minChunkLength: int): (r: seq<Chunk>)
    ensures |r| <= |cs|
    ensures forall k :: 0 <= k < |r| ==> |r[k].data| >= minChunkLength
    ensures forall c :: c in r <==> c in cs && |c.data| >= minChunkLength
  {
    if cs == [] then []
    else (if |cs[0].data| >= minChunkLength then [cs[0]] else []) + Qualifying(cs[1..], minChunkLength)
  }

  /** Every chunk at least `minChunkLength` long is counted as often as it occurs, and no other chunk is. */
  lemma {:induction false} QualifyingCounts(cs: seq<Chunk>, minChunkLength: int)
    ensures forall c :: multiset(Qualifying(cs, minChunkLength))[c] ==
                        if |c.data| >= minChunkLength then multiset(cs)[c] else 0
  {
    if cs != [] {
      QualifyingCounts(cs[1..], minChunkLength);
      assert cs == [cs[0]] + cs[1..];
      var head := if |cs[0].data| >= minChunkLength then [cs[0]] else [];
      assert multiset(Qualifying(cs, minChunkLength)) == multiset(head) + multiset(Qualifying(cs[1..], minChunkLength));
    }
  }

  /** The number of characters in all the chunks. */
  function TotalLength(cs: seq<Chunk>): nat
  {
    if cs == [] then 0 else |cs[0].data| + TotalLength(cs[1..])
  }

  /**
   * `is_article`: the qualifying chunks hold at least `minArticleLength`
   * characters. A threshold of zero or less always holds; otherwise the
   * list needs that many characters and at least one qualifying chunk.
   */
  function IsArticle(cs: seq<Chunk>, minArticleLength: int, minChunkLength: int): (b: bool)
    ensures minArticleLength <= 0 ==> b
    ensures b ==> TotalLength(cs) >= minArticleLength
    ensures b && minArticleLength > 0 ==> exists k :: 0 <= k < |cs| && |cs[k].data| >= minChunkLength
  {
    var q := Qualifying(cs, minChunkLength);
    QualifyingBounded(cs, minChunkLength);
    assert q != [] ==> q[0] in cs;
    TotalLength(q) >= minArticleLength
  }

  lemma {:induction false} TotalLengthAppend(a: seq<Chunk>, b: seq<Chunk>)
    ensures TotalLength(a + b) == TotalLength(a) + TotalLength(b)
  {
    if a != [] {
      assert (a + b)[1..] == a[1..] + b;
      TotalLengthAppend(a[1..], b);
    } else {
      assert a + b == b;
    }
  }

  lemma {:induction false} QualifyingAppend(a: seq<Chunk>, b: seq<Chunk>, minChunkLength: int)
    ensures Qualifying(a + b, minChunkLength) == Qualifying(a, minChunkLength) + Qualifying(b, minChunkLength)
  {
    if a != [] {
      var head := if |a[0].data| >= minChunkLength then [a[0]] else [];
      assert Qualifying(a + b, minChunkLength) == head + Qualifying(a[1..] + b, minChunkLength) by {
        assert (a + b)[1..] == a[1..] + b;
        assert (a + b)[0] == a[0];
      }
      QualifyingAppend(a[1..], b, minChunkLength);
      assert head + (Qualifying(a[1..], minChunkLength) + Qualifying(b, minChunkLength)) ==
             (head + Qualifying(a[1..], minChunkLength)) + Qualifying(b, minChunkLength);
    } else {
      assert a + b == b;
    }
  }

  /** The counted characters never exceed the characters of all the chunks. */
  lemma {:induction false} QualifyingBounded(cs: seq<Chunk>, minChunkLength: int)
    ensures TotalLength(Qualifying(cs, minChunkLength)) <= TotalLength(cs)
  {
    if cs != [] {
      QualifyingBounded(cs[1..], minChunkLength);
      var head := if |cs[0].data| >= minChunkLength then [cs[0]] else [];
      TotalLengthAppend(head, Qualifying(cs[1..], minChunkLength));
    }
  }

  /**
   * Adding chunks to the list never takes characters away from the
   * count, so a list that is an article stays one.
   */
  lemma IsArticleMonotone(cs: seq<Chunk>, more: seq<Chunk>, minArticleLength: int, minChunkLength: int)
    ensures TotalLength(Qualifying(cs, minChunkLength)) <= TotalLength(Qualifying(cs + more, minChunkLength))
    ensures IsArticle(cs, minArticleLength, minChunkLength) ==> IsArticle(cs + more, minArticleLength, minChunkLength)
  {
    QualifyingAppend(cs, more, minChunkLength);
    TotalLengthAppend(Qualifying(cs, minChunkLength), Qualifying(more, minChunkLength));
  }

  /**
   * A stricter chunk threshold counts fewer characters: raising
   * `minChunkLength` can turn the verdict from true to false, never back.
   */
  lemma {:induction false} StricterChunkThreshold(cs: seq<Chunk>, lower: int, higher: int, minArticleLength: int)
    requires lower <= higher
    ensures TotalLength(Qualifying(cs, higher)) <= TotalLength(Qualifying(cs, lower))
    ensures IsArticle(cs, minArticleLength, higher) ==> IsArticle(cs, minArticleLength, lower)
  {
    if cs != [] {
      StricterChunkThreshold(cs[1..], lower, higher, minArticleLength);
      var hl := if |cs[0].data| >= lower then [cs[0]] else [];
      var hh := if |cs[0].data| >= higher then [cs[0]] else [];
      TotalLengthAppend(hl, Qualifying(cs[1..], lower));
      TotalLengthAppend(hh, Qualifying(cs[1..], higher));
    }
  }

  /** No chunks are an article only under a threshold of zero or less; never under the default. */
  lemma EmptyIsArticle(minArticleLength: int, minChunkLength: int)
    ensures IsArticle([], minArticleLength, minChunkLength) <==> minArticleLength <= 0
    ensures !IsArticle([], DefaultMinArticleLength, minChunkLength)
  {
  }

  /** A single chunk is an article exactly when it passes both thresholds. */
  lemma SingleChunkArticle(c: Chunk, minArticleLength: int, minChunkLength: int)
    requires minArticleLength > 0
    ensures IsArticle([c], minArticleLength, minChunkLength) <==>
            |c.data| >= minChunkLength && |c.data| >= minArticleLength
  {
    assert [c][1..] == [];
    var q := Qualifying([c], minChunkLength);
    assert q == if |c.data| >= minChunkLength then [c] else [];
    assert TotalLength([c]) == |c.data| by {
      assert TotalLength([c]) == |c.data| + TotalLength([]);
    }
  }

  // ---------------------------------------------------------------------
  // ArticleChunksExtractor

  const DefaultMinTextParagraphLength: int := 200

  /** How many chunks before the anchor are searched for a headline. */
  const LookBack: nat := 5

  predicate IsLong(c: Chunk, minTextParagraphLength: int)
  {
    |c.data| >= minTextParagraphLength
  }

  /** The first chunk at least `minTextParagraphLength` long (the anchor), if any. */
  function Anchor(cs: seq<Chunk>, minTextParagraphLength: int): (r: Option<nat>)
    ensures r.Some? ==> r.value < |cs| && IsLong(cs[r.value], minTextParagraphLength)
    ensures r.Some? ==> forall j :: 0 <= j < r.value ==> !IsLong(cs[j], minTextParagraphLength)
    ensures r.None? ==> forall j :: 0 <= j < |cs| ==> !IsLong(cs[j], minTextParagraphLength)
  {
    if cs == [] then None
    else if IsLong(cs[0], minTextParagraphLength) then Some(0)
    else
      match Anchor(cs[1..], minTextParagraphLength)
      case None => None
      case Some(a) => Some(a + 1)
  }

  /** The anchor is the long chunk with only short chunks before it. */
  lemma AnchorIs(cs: seq<Chunk>, minTextParagraphLength: int, a: nat)
    requires a < |cs| && IsLong(cs[a], minTextParagraphLength)
    requires forall j :: 0 <= j < a ==> !IsLong(cs[j], minTextParagraphLength)
    ensures Anchor(cs, minTextParagraphLength) == Some(a)
  {
    var r := Anchor(cs, minTextParagraphLength);
    assert r.Some?;
  }

  /** The first index of the window searched for a headline: 5 chunks back, clipped at 0. */
  function WindowStart(a: nat): (s: nat)
    ensures s <= a && a - s <= LookBack
    ensures a >= LookBack ==> a - s == LookBack
    ensures a < LookBack ==> s == 0
  {
    if a >= LookBack then a - LookBack else 0
  }

  function IsHeadline(c: Chunk): bool
  {
    c.chunkType == Headline
  }

  /**
   * Where the article starts, given the window `[k, a]`: the earliest
   * headline in it, or `a` when there is none.
   */
  function FirstHeadline(cs: seq<Chunk>, k: nat, a: nat): (s: nat)
    requires k <= a < |cs|
    ensures k <= s <= a
    ensures forall j :: k <= j < s ==> !IsHeadline(cs[j])
    ensures (exists j :: k <= j <= a && IsHeadline(cs[j])) ==> IsHeadline(cs[s])
    ensures !IsHeadline(cs[s]) ==> s == a
    decreases a - k
  {
    if k == a then a
    else if IsHeadline(cs[k]) then k
    else FirstHeadline(cs, k + 1, a)
  }

  /**
   * What `extract` returns: the chunks unchanged when none is long;
   * otherwise the suffix from the earliest headline among the anchor and
   * the 5 chunks before it, or from the anchor when there is none.
   */
  function Extracted(cs: seq<Chunk>, minTextParagraphLength: int): (r: seq<Chunk>)
    ensures |r| <= |cs| && r == cs[|cs| - |r|..]
    ensures Anchor(cs, minTextParagraphLength).None? ==> r == cs
    ensures Anchor(cs, minTextParagraphLength).Some? ==>
              WindowStart(Anchor(cs, minTextParagraphLength).value) <= |cs| - |r| <= Anchor(cs, minTextParagraphLength).value
  {
    match Anchor(cs, minTextParagraphLength)
    case None => cs
    case Some(a) => cs[FirstHeadline(cs, WindowStart(a), a)..]
  }

  /**
   * `ArticleChunksExtractor.extract`: find the anchor, then walk back from
   * it over `range(index, max(-1, index - 6), -1)`, letting every headline
   * found overwrite the start index.
   */
  method Extract(chunks: seq<Chunk>, minTextParagraphLength: int) returns (r: seq<Chunk>)
    ensures r == Extracted(chunks, minTextParagraphLength)
  {
    var index := 0;
    while index < |chunks| && |chunks[index].data| < minTextParagraphLength
      invariant 0 <= index <= |chunks|
      invariant forall j :: 0 <= j < index ==> !IsLong(chunks[j], minTextParagraphLength)
    {
      index := index + 1;
    }
    if index == |chunks| {
      return chunks;
    }
    AnchorIs(chunks, minTextParagraphLength, index);
    var headlineIdx := index;
    var stop := if -1 > index - 6 then -1 else index - 6;
    var i := index;
    while i > stop
      invariant stop <= i <= index
      invariant i == index ==> headlineIdx == index
      invariant i < index ==> headlineIdx == FirstHeadline(chunks, i + 1, index)
    {
      if chunks[i].chunkType == Headline {
        headlineIdx := i;
      }
      i := i - 1;
    }
    assert i + 1 == WindowStart(index);
    r := chunks[headlineIdx..];
  }

  /** With no long chunk (in particular with no chunks at all), nothing is dropped. */
  lemma ExtractWithoutLongChunk(cs: seq<Chunk>, minTextParagraphLength: int)
    requires forall j :: 0 <= j < |cs| ==> !IsLong(cs[j], minTextParagraphLength)
    ensures Extracted(cs, minTextParagraphLength) == cs
  {
  }

  /**
   * Otherwise the result is the suffix from a start `s` in the window of
   * the anchor `a` and the 5 chunks before it: the earliest headline in
   * the window, or the anchor when the window has none. It keeps the
   * anchor at position `a - s`, and every chunk before it is short.
   */
  lemma ExtractWindow(cs: seq<Chunk>, minTextParagraphLength: int, a: nat)
    requires Anchor(cs, minTextParagraphLength) == Some(a)
    ensures exists s :: WindowStart(a) <= s <= a && Extracted(cs, minTextParagraphLength) == cs[s..] &&
              (forall j :: WindowStart(a) <= j < s ==> !IsHeadline(cs[j])) &&
              ((exists j :: WindowStart(a) <= j <= a && IsHeadline(cs[j])) ==> IsHeadline(cs[s])) &&
              ((forall j :: WindowStart(a) <= j <= a ==> !IsHeadline(cs[j])) ==> s == a)
    ensures var r := Extracted(cs, minTextParagraphLength);
            |r| > 0 && a - (|cs| - |r|) >= 0 && r[a - (|cs| - |r|)] == cs[a] &&
            forall j :: 0 <= j < a - (|cs| - |r|) ==> !IsLong(r[j], minTextParagraphLength)
  {
    var s := FirstHeadline(cs, WindowStart(a), a);
    var r := cs[s..];
    assert |cs| - |r| == s;
    forall j | 0 <= j < a - s ensures !IsLong(r[j], minTextParagraphLength) {
      assert r[j] == cs[s + j];
    }
  }

  /** Extracting from an extracted list changes nothing. */
  lemma ExtractIdempotent(cs: seq<Chunk>, minTextParagraphLength: int)
    ensures Extracted(Extracted(cs, minTextParagraphLength), minTextParagraphLength) ==
            Extracted(cs, minTextParagraphLength)
  {
    match Anchor(cs, minTextParagraphLength)
    case None =>
    case Some(a) =>
      var s := FirstHeadline(cs, WindowStart(a), a);
      var r := cs[s..];
      forall j | 0 <= j < a - s ensures !IsLong(r[j], minTextParagraphLength) {
        assert r[j] == cs[s + j];
      }
      assert r[a - s] == cs[a];
      AnchorIs(r, minTextParagraphLength, a - s);
      assert WindowStart(a - s) == 0;
      assert FirstHeadline(r, 0, a - s) == 0 by {
        if s < a {
          assert r[0] == cs[s];
        }
      }
      assert r[0..] == r;
  }
}
