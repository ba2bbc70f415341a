/** Chunk lists from the unit tests of the detector and the extractor, with their verdicts. */
module ArticleExamples {
  import opened HtmlChunks
  import opened Article

  function Plain(data: string): Chunk
  {
    Chunk(data, Untyped)
  }

  function Head(data: string): Chunk
  {
    Chunk(data, Headline)
  }

  /** Both chunks count (3 + 3 >= 5); then neither counts (2 < 3). */
  lemma DetectorThresholds()
    ensures IsArticle([Plain("buz"), Plain("baz")], 5, 2)
    ensures !IsArticle([Plain("bu"), Plain("ba")], 3, 3)
    ensures IsArticle([Plain("batzen"), Plain("ba")], 5, 3)
  {
  }

  /** A headline exactly 5 chunks before the anchor is kept. */
  lemma HeadlineWithinWindow()
    ensures Extracted([Head("a"), Plain("a"), Plain("a"), Plain("a"), Plain("a"), Plain("bbbbbbbbbbb")], 10)
            == [Head("a"), Plain("a"), Plain("a"), Plain("a"), Plain("a"), Plain("bbbbbbbbbbb")]
  {
  }

  /** A headline 6 chunks before the anchor is not. */
  lemma HeadlineTooFarAway()
    ensures Extracted([Head("a"), Plain("a"), Plain("a"), Plain("a"), Plain("a"), Plain("a"), Plain("bbbbbbbbbbb")], 10)
            == [Plain("bbbbbbbbbbb")]
  {
  }

  /** Of several headlines in the window, the earliest wins. */
  lemma EarliestHeadlineWins()
    ensures Extracted([Head("x"), Head("c"), Plain("a"), Plain("a"), Head("a"), Plain("a"), Plain("bbbbbbbbbbb")], 10)
            == [Head("c"), Plain("a"), Plain("a"), Head("a"), Plain("a"), Plain("bbbbbbbbbbb")]
  {
  }

  /** Without a headline the result starts at the anchor; a list chunk before it is dropped. */
  lemma NoHeadlineStartsAtAnchor()
    ensures Extracted([Plain("aaaaa"), Chunk("aaaaa", ListItem), Plain("bbbbbbbbbbb")], 10) == [Plain("bbbbbbbbbbb")]
  {
  }

  /** A chunk of exactly the threshold length is long. */
  lemma AnchorJustLongEnough()
    ensures Extracted([Plain("aaaaa"), Plain("aaaaa"), Plain("bbbbbbbbbb")], 10) == [Plain("bbbbbbbbbb")]
  {
  }

  /** Under the default thresholds: 1000 characters make an article and 999 do not; a chunk of 50 counts and one of 49 does not. */
  lemma DefaultDetectorThresholds()
    ensures IsArticle([Plain(seq(1000, _ => 'b'))], DefaultMinArticleLength, 0)
    ensures !IsArticle([Plain(seq(999, _ => 'b'))], DefaultMinArticleLength, 0)
    ensures IsArticle([Plain(seq(50, _ => 'b'))], 1, DefaultMinChunkLength)
    ensures !IsArticle([Plain(seq(49, _ => 'b'))], 1, DefaultMinChunkLength)
  {
    SingleChunkArticle(Plain(seq(1000, _ => 'b')), DefaultMinArticleLength, 0);
    SingleChunkArticle(Plain(seq(999, _ => 'b')), DefaultMinArticleLength, 0);
    SingleChunkArticle(Plain(seq(50, _ => 'b')), 1, DefaultMinChunkLength);
    SingleChunkArticle(Plain(seq(49, _ => 'b')), 1, DefaultMinChunkLength);
  }

  /** Under the default paragraph length a chunk of 199 characters is short and one of 200 is long. */
  lemma DefaultParagraphLength()
    ensures var long := Plain(seq(200, _ => 'b'));
            Extracted([Plain(seq(199, _ => 'b')), Plain("a"), long], DefaultMinTextParagraphLength) == [long]
  {
    var long := Plain(seq(200, _ => 'b'));
    var cs := [Plain(seq(199, _ => 'b')), Plain("a"), long];
    AnchorIs(cs, DefaultMinTextParagraphLength, 2);
    assert cs[2..] == [long];
  }
}
