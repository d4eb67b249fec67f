/** What the paragraph partition promises its callers: every paragraph lands in exactly
    one chunk, multi-paragraph chunks stay within the size limit, strong headings end
    their chunk, images stay with their paragraphs, and the partition is the only one
    that follows the greedy rule. */
module ChunkProperties {
  import opened Std
  import opened DocModel
  import opened Chunking

  predicate InChunk(c: DocumentChunk, j: int) {
    c.startParagraphIndex <= j <= c.endParagraphIndex
  }

  lemma {:induction false} TilesOrdered(chunks: seq<DocumentChunk>, m: int, k1: int, k2: int)
    requires Tiles(chunks, m) && 0 <= k1 < k2 < |chunks|
    ensures chunks[k1].endParagraphIndex < chunks[k2].startParagraphIndex
    decreases k2 - k1
  {
    if k1 + 1 < k2 {
      TilesOrdered(chunks, m, k1 + 1, k2);
    }
  }

  /** The chunk that holds paragraph `j`. */
  lemma TilesCover(chunks: seq<DocumentChunk>, m: int, j: int) returns (k: nat)
    requires Tiles(chunks, m) && 0 <= j < m
    ensures k < |chunks| && InChunk(chunks[k], j)
  {
    k := 0;
    while chunks[k].endParagraphIndex < j
      invariant 0 <= k < |chunks| && chunks[k].startParagraphIndex <= j
      decreases |chunks| - k
    {
      k := k + 1;
    }
  }

  /** Each paragraph index belongs to exactly one chunk. */
  lemma EveryParagraphInOneChunk(doc: DocumentContent, positions: map<int, seq<ImagePosition>>,
                                 chunkSize: int, j: int)
    requires 0 <= j < |doc.paragraphs|
    ensures var chunks := ChunkDocument(doc, positions, chunkSize);
            (exists k :: 0 <= k < |chunks| && InChunk(chunks[k], j))
            && (forall k1, k2 ::
                  (0 <= k1 < |chunks| && 0 <= k2 < |chunks| && InChunk(chunks[k1], j) && InChunk(chunks[k2], j))
                  ==> k1 == k2)
  {
    TilesOnce(ChunkDocument(doc, positions, chunkSize), |doc.paragraphs|, j);
  }

  /** In a tiling of paragraphs 0 .. `m - 1`, paragraph `j` lies in exactly one range. */
  lemma TilesOnce(chunks: seq<DocumentChunk>, m: int, j: int)
    requires Tiles(chunks, m) && 0 <= j < m
    ensures (exists k :: 0 <= k < |chunks| && InChunk(chunks[k], j))
            && (forall k1, k2 ::
                  (0 <= k1 < |chunks| && 0 <= k2 < |chunks| && InChunk(chunks[k1], j) && InChunk(chunks[k2], j))
                  ==> k1 == k2)
  {
    var k := TilesCover(chunks, m, j);
    forall k1, k2 | 0 <= k1 < |chunks| && 0 <= k2 < |chunks| && InChunk(chunks[k1], j) && InChunk(chunks[k2], j)
      ensures k1 == k2
    {
      if k1 < k2 {
        TilesOrdered(chunks, m, k1, k2);
      } else if k2 < k1 {
        TilesOrdered(chunks, m, k2, k1);
      }
    }
  }

  /** A chunk of two or more paragraphs holds at most `chunkSize` characters; only a
      single paragraph longer than the limit makes a chunk exceed it. */
  lemma ChunkSizeBound(doc: DocumentContent, positions: map<int, seq<ImagePosition>>, chunkSize: int, k: int)
    requires 0 <= k < |ChunkDocument(doc, positions, chunkSize)|
    ensures var c := ChunkDocument(doc, positions, chunkSize)[k];
            c.startParagraphIndex < c.endParagraphIndex ==> c.charCount <= chunkSize
  {
    var ps := doc.paragraphs;
    var c := ChunkDocument(doc, positions, chunkSize)[k];
    AllOKAt(ps, positions, doc.images, chunkSize, ChunkDocument(doc, positions, chunkSize), k);
    var s, e := c.startParagraphIndex, c.endParagraphIndex;
    if s < e {
      assert Fits(ps, chunkSize, s, e - 1);
    }
  }

  /** A chunk ended by the size rule would have overflowed with the next paragraph. */
  lemma OverflowEndsChunk(doc: DocumentContent, positions: map<int, seq<ImagePosition>>, chunkSize: int, k: int)
    requires 0 <= k < |ChunkDocument(doc, positions, chunkSize)|
    ensures var ps := doc.paragraphs;
            var c := ChunkDocument(doc, positions, chunkSize)[k];
            var e := c.endParagraphIndex;
            e + 1 < |ps| && !ClosesChunk(ps[e]) ==> c.charCount + |ParaText(ps[e + 1])| > chunkSize
  {
    var ps := doc.paragraphs;
    var c := ChunkDocument(doc, positions, chunkSize)[k];
    AllOKAt(ps, positions, doc.images, chunkSize, ChunkDocument(doc, positions, chunkSize), k);
  }

  /** A heading of level at most 2 is the last paragraph of its chunk. */
  lemma HeadingEndsChunk(doc: DocumentContent, positions: map<int, seq<ImagePosition>>, chunkSize: int, j: int)
    requires 0 <= j < |doc.paragraphs| && ClosesChunk(doc.paragraphs[j])
    ensures var chunks := ChunkDocument(doc, positions, chunkSize);
            exists k :: 0 <= k < |chunks| && chunks[k].endParagraphIndex == j
  {
    var chunks := ChunkDocument(doc, positions, chunkSize);
    var k := TilesCover(chunks, |doc.paragraphs|, j);
    AllOKAt(doc.paragraphs, positions, doc.images, chunkSize, chunks, k);
  }

  /** The images a list of positions finds, stated directly. */
  lemma {:induction false} FoundByMeans(poss: seq<ImagePosition>, docImages: seq<ImageInfo>, x: ImageInfo)
    ensures x in FoundBy(poss, docImages) <==> exists q :: q in poss && FindImageByPosition(q, docImages) == Some(x)
    decreases |poss|
  {
    if poss != [] {
      FoundByMeans(poss[1..], docImages, x);
      assert forall q :: q in poss <==> q == poss[0] || q in poss[1..];
      var rest := FoundBy(poss[1..], docImages);
      if FindImageByPosition(poss[0], docImages) == Some(x) {
        assert FoundBy(poss, docImages) == {x} + rest;
        assert poss[0] in poss;
      } else {
        assert x in FoundBy(poss, docImages) <==> x in rest;
      }
    }
  }

  /** The images collected for a paragraph range, stated directly. */
  lemma {:induction false} CollectedMeans(positions: map<int, seq<ImagePosition>>, docImages: seq<ImageInfo>,
                                          lo: int, hi: int, x: ImageInfo)
    ensures x in Collected(positions, docImages, lo, hi)
            <==> exists j, q :: lo <= j < hi && q in PositionsAt(positions, j) && FindImageByPosition(q, docImages) == Some(x)
    decreases hi - lo
  {
    if lo < hi {
      CollectedMeans(positions, docImages, lo, hi - 1, x);
      FoundByMeans(PositionsAt(positions, hi - 1), docImages, x);
      assert Collected(positions, docImages, lo, hi)
             == Collected(positions, docImages, lo, hi - 1) + FoundBy(PositionsAt(positions, hi - 1), docImages);
      if x in Collected(positions, docImages, lo, hi - 1) {
        var j, q :| lo <= j < hi - 1 && q in PositionsAt(positions, j) && FindImageByPosition(q, docImages) == Some(x);
        assert lo <= j < hi;
      } else if x in FoundBy(PositionsAt(positions, hi - 1), docImages) {
        var q :| q in PositionsAt(positions, hi - 1) && FindImageByPosition(q, docImages) == Some(x);
        assert lo <= hi - 1 < hi;
      } else {
        forall j, q | lo <= j < hi && q in PositionsAt(positions, j)
          ensures FindImageByPosition(q, docImages) != Some(x)
        {
          if j < hi - 1 {
            assert lo <= j < hi - 1;
          }
        }
      }
    }
  }

  /** The positions map is grouped by paragraph index, as the import path builds it. */
  ghost predicate KeyedByParagraph(positions: map<int, seq<ImagePosition>>) {
    forall i, q :: i in positions && q in positions[i] ==> q.paragraphIndex == Some(i)
  }

  /** An image is in a chunk exactly when a position of one of the chunk's paragraphs finds it. */
  lemma ChunkImages(doc: DocumentContent, positions: map<int, seq<ImagePosition>>, chunkSize: int,
                    k: int, x: ImageInfo)
    requires 0 <= k < |ChunkDocument(doc, positions, chunkSize)|
    ensures var c := ChunkDocument(doc, positions, chunkSize)[k];
            x in c.images <==> exists j, q :: InChunk(c, j) && q in PositionsAt(positions, j)
                                              && FindImageByPosition(q, doc.images) == Some(x)
  {
    var chunks := ChunkDocument(doc, positions, chunkSize);
    ImagesAt(doc.paragraphs, positions, doc.images, chunkSize, chunks, k);
    CollectedChunk(chunks[k], positions, doc.images, x);
  }

  /** The images of the `k`-th chunk of a well-formed list are the ones collected for its range. */
  lemma ImagesAt(ps: seq<Paragraph>, positions: map<int, seq<ImagePosition>>,
                 docImages: seq<ImageInfo>, chunkSize: int, chunks: seq<DocumentChunk>, k: int)
    requires AllOK(ps, positions, docImages, chunkSize, chunks) && 0 <= k < |chunks|
    ensures Elems(chunks[k].images)
            == Collected(positions, docImages, chunks[k].startParagraphIndex, chunks[k].endParagraphIndex + 1)
  {
    AllOKAt(ps, positions, docImages, chunkSize, chunks, k);
  }

  /** The image test of `ChunkImages` for one chunk whose images are the ones collected for its range. */
  lemma CollectedChunk(c: DocumentChunk, positions: map<int, seq<ImagePosition>>, docImages: seq<ImageInfo>,
                       x: ImageInfo)
    requires Elems(c.images) == Collected(positions, docImages, c.startParagraphIndex, c.endParagraphIndex + 1)
    ensures x in c.images <==> exists j, q :: InChunk(c, j) && q in PositionsAt(positions, j)
                                              && FindImageByPosition(q, docImages) == Some(x)
  {
    var lo, hi := c.startParagraphIndex, c.endParagraphIndex + 1;
    assert x in c.images <==> x in Elems(c.images);
    CollectedMeans(positions, docImages, lo, hi, x);
    if x in c.images {
      var j, q :| lo <= j < hi && q in PositionsAt(positions, j) && FindImageByPosition(q, docImages) == Some(x);
      assert InChunk(c, j);
    } else {
      forall j, q | InChunk(c, j) && q in PositionsAt(positions, j)
        ensures FindImageByPosition(q, docImages) != Some(x)
      {
        assert lo <= j < hi;
      }
    }
  }

  /** With positions grouped by paragraph, every image of a chunk is a document image
      anchored at one of the chunk's paragraphs. */
  lemma ChunkImagesAnchored(doc: DocumentContent, positions: map<int, seq<ImagePosition>>, chunkSize: int,
                            k: int, x: ImageInfo)
    requires KeyedByParagraph(positions)
    requires 0 <= k < |ChunkDocument(doc, positions, chunkSize)|
    requires x in ChunkDocument(doc, positions, chunkSize)[k].images
    ensures x in doc.images
    ensures exists j :: InChunk(ChunkDocument(doc, positions, chunkSize)[k], j) && AnchoredAt(x, Some(j))
  {
    AnchoredInList(doc.paragraphs, positions, doc.images, chunkSize, ChunkDocument(doc, positions, chunkSize), k, x);
  }

  /** `ChunkImagesAnchored` for any list of chunks each correct for its place. */
  lemma AnchoredInList(ps: seq<Paragraph>, positions: map<int, seq<ImagePosition>>,
                       docImages: seq<ImageInfo>, chunkSize: int, chunks: seq<DocumentChunk>, k: int, x: ImageInfo)
    requires KeyedByParagraph(positions)
    requires AllOK(ps, positions, docImages, chunkSize, chunks) && 0 <= k < |chunks|
    requires x in chunks[k].images
    ensures x in docImages
    ensures exists j :: InChunk(chunks[k], j) && AnchoredAt(x, Some(j))
  {
    ImagesAt(ps, positions, docImages, chunkSize, chunks, k);
    CollectedAnchored(chunks[k], positions, docImages, x);
  }

  /** The anchoring of `ChunkImagesAnchored` for one chunk whose images are the ones collected for its range. */
  lemma CollectedAnchored(c: DocumentChunk, positions: map<int, seq<ImagePosition>>, docImages: seq<ImageInfo>,
                          x: ImageInfo)
    requires KeyedByParagraph(positions)
    requires Elems(c.images) == Collected(positions, docImages, c.startParagraphIndex, c.endParagraphIndex + 1)
    requires x in c.images
    ensures x in docImages
    ensures exists j :: InChunk(c, j) && AnchoredAt(x, Some(j))
  {
    CollectedChunk(c, positions, docImages, x);
    var j, q :| InChunk(c, j) && q in PositionsAt(positions, j) && FindImageByPosition(q, docImages) == Some(x);
    assert q.paragraphIndex == Some(j);
  }

  /** The paragraph ranges of a chunk list. */
  function Ranges(chunks: seq<DocumentChunk>): (rs: seq<(int, int)>)
    ensures |rs| == |chunks|
    ensures forall k :: 0 <= k < |chunks| ==>
              rs[k] == (chunks[k].startParagraphIndex, chunks[k].endParagraphIndex)
  {
    seq(|chunks|, k requires 0 <= k < |chunks| => (chunks[k].startParagraphIndex, chunks[k].endParagraphIndex))
  }

  /** A reference description of the partition: consecutive ranges from the first paragraph
      to the last, each following the greedy rule and ending for a reason. */
  ghost predicate Partition(ps: seq<Paragraph>, chunkSize: int, rs: seq<(int, int)>) {
    (|rs| == 0 <==> |ps| == 0)
    && (forall k :: 0 <= k < |rs| ==> 0 <= rs[k].0 <= rs[k].1 < |ps|)
    && (forall k :: 0 <= k < |rs| ==> Greedy(ps, chunkSize, rs[k].0, rs[k].1) && Closed(ps, chunkSize, rs[k].0, rs[k].1))
    && (|rs| > 0 ==> rs[0].0 == 0 && rs[|rs| - 1].1 == |ps| - 1)
    && (forall k :: 0 <= k < |rs| - 1 ==> rs[k + 1].0 == rs[k].1 + 1)
  }

  lemma ChunkDocumentIsPartition(doc: DocumentContent, positions: map<int, seq<ImagePosition>>, chunkSize: int)
    ensures Partition(doc.paragraphs, chunkSize, Ranges(ChunkDocument(doc, positions, chunkSize)))
  {
    var ps, chunks := doc.paragraphs, ChunkDocument(doc, positions, chunkSize);
    forall k | 0 <= k < |chunks|
      ensures Greedy(ps, chunkSize, chunks[k].startParagraphIndex, chunks[k].endParagraphIndex)
      ensures Closed(ps, chunkSize, chunks[k].startParagraphIndex, chunks[k].endParagraphIndex)
    {
      AllOKAt(ps, positions, doc.images, chunkSize, chunks, k);
    }
    TilesPartition(ps, chunkSize, chunks);
  }

  /** Chunks that tile the paragraphs, each greedy and closed, have ranges forming the
      partition. */
  lemma TilesPartition(ps: seq<Paragraph>, chunkSize: int, chunks: seq<DocumentChunk>)
    requires Tiles(chunks, |ps|)
    requires forall k :: 0 <= k < |chunks| ==>
               Greedy(ps, chunkSize, chunks[k].startParagraphIndex, chunks[k].endParagraphIndex)
               && Closed(ps, chunkSize, chunks[k].startParagraphIndex, chunks[k].endParagraphIndex)
    ensures Partition(ps, chunkSize, Ranges(chunks))
  {
    var rs := Ranges(chunks);
    forall k | 0 <= k < |rs|
      ensures Greedy(ps, chunkSize, rs[k].0, rs[k].1) && Closed(ps, chunkSize, rs[k].0, rs[k].1)
    {
      assert rs[k] == (chunks[k].startParagraphIndex, chunks[k].endParagraphIndex);
    }
  }

  /** A range's start determines its end. */
  lemma EndUnique(ps: seq<Paragraph>, chunkSize: int, s: int, e1: int, e2: int)
    requires 0 <= s <= e1 < |ps| && 0 <= s <= e2 < |ps|
    requires Greedy(ps, chunkSize, s, e1) && Closed(ps, chunkSize, s, e1)
    requires Greedy(ps, chunkSize, s, e2) && Closed(ps, chunkSize, s, e2)
    ensures e1 == e2
  {
  }

  lemma {:induction false} PartitionsAgreeUpTo(ps: seq<Paragraph>, chunkSize: int, r1: seq<(int, int)>,
                                               r2: seq<(int, int)>, k: int)
    requires Partition(ps, chunkSize, r1) && Partition(ps, chunkSize, r2)
    requires 0 <= k < |r1| && k < |r2|
    ensures r1[k] == r2[k]
  {
    if k > 0 {
      PartitionsAgreeUpTo(ps, chunkSize, r1, r2, k - 1);
      assert r1[k].0 == r1[k - 1].1 + 1 && r2[k].0 == r2[k - 1].1 + 1;
    }
    assert r1[k].0 == r2[k].0;
    assert Greedy(ps, chunkSize, r1[k].0, r1[k].1) && Closed(ps, chunkSize, r1[k].0, r1[k].1);
    assert Greedy(ps, chunkSize, r2[k].0, r2[k].1) && Closed(ps, chunkSize, r2[k].0, r2[k].1);
    EndUnique(ps, chunkSize, r1[k].0, r1[k].1, r2[k].1);
  }

  /** Only the last range of a partition reaches the last paragraph. */
  lemma NotLastEndsEarly(ps: seq<Paragraph>, chunkSize: int, rs: seq<(int, int)>, k: int)
    requires Partition(ps, chunkSize, rs) && 0 <= k < |rs| - 1
    ensures rs[k].1 < |ps| - 1
  {
    assert rs[k + 1].0 == rs[k].1 + 1;
  }

  /** At most one list of ranges is a partition: the chunker's output is the only one. */
  lemma PartitionUnique(ps: seq<Paragraph>, chunkSize: int, r1: seq<(int, int)>, r2: seq<(int, int)>)
    requires Partition(ps, chunkSize, r1) && Partition(ps, chunkSize, r2)
    ensures r1 == r2
  {
    forall k | 0 <= k < |r1| && k < |r2|
      ensures r1[k] == r2[k]
    {
      PartitionsAgreeUpTo(ps, chunkSize, r1, r2, k);
    }
    if |r1| < |r2| {
      NotLastEndsEarly(ps, chunkSize, r2, |r1| - 1);
    } else if |r2| < |r1| {
      NotLastEndsEarly(ps, chunkSize, r1, |r2| - 1);
    }
  }

  /** The chunker's ranges are the partition any other correct chunker must produce. */
  lemma ChunkDocumentIsThePartition(doc: DocumentContent, positions: map<int, seq<ImagePosition>>,
                                    chunkSize: int, rs: seq<(int, int)>)
    requires Partition(doc.paragraphs, chunkSize, rs)
    ensures Ranges(ChunkDocument(doc, positions, chunkSize)) == rs
  {
    ChunkDocumentIsPartition(doc, positions, chunkSize);
    PartitionUnique(doc.paragraphs, chunkSize, Ranges(ChunkDocument(doc, positions, chunkSize)), rs);
  }
}
