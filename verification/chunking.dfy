/** The paragraph chunk partitioner of the import path: `chunkDocumentIntelligently`
    with `createDocumentChunk`, `hasHeadings`, `countWords` and `findImageByPosition`
    (MilvusServiceImplV2; MilvusServiceImpl holds a textually identical copy). */
module Chunking {
  import opened Std
  import opened JavaText
  import opened DocModel

  /** What a paragraph appends to the chunk buffer. */
  function ParaText(p: Paragraph): string {
    p.text + "\n"
  }

  /** The buffer built from paragraphs `lo` .. `hi - 1`. */
  function Raw(ps: seq<Paragraph>, lo: int, hi: int): string
    requires 0 <= lo <= hi <= |ps|
    decreases hi - lo
  {
    if lo == hi then [] else Raw(ps, lo, hi - 1) + ParaText(ps[hi - 1])
  }

  /** A heading of level at most 2 ends the chunk it belongs to. */
  predicate ClosesChunk(p: Paragraph) {
    p.kind == "heading" && p.level <= 2
  }

  /** What `hasHeadings` looks for in a paragraph. */
  predicate IsHeadingLike(p: Paragraph) {
    p.kind == "heading" || p.level > 0
  }

  /** `countWords`: 0 for blank text, otherwise the length of `trim().split("\\s+")`. */
  function CountWords(text: string): (r: nat)
    ensures r == 0 <==> Trim(text) == []
  {
    var t := Trim(text);
    if t == [] then 0
    else
      SplitTrimmedIsTokens(t, IsRegexSpace);
      |SplitRuns(t, IsRegexSpace)|
  }

  /** The words counted are the maximal runs of non-`\s` code units of the trimmed text. */
  lemma CountWordsIsTokens(text: string)
    ensures CountWords(text) == |Tokens(Trim(text), IsRegexSpace)|
    ensures forall w :: w in Tokens(Trim(text), IsRegexSpace) ==> w != [] && forall i :: 0 <= i < |w| ==> !IsRegexSpace(w[i])
  {
    var t := Trim(text);
    if t != [] {
      SplitTrimmedIsTokens(t, IsRegexSpace);
    }
  }

  function AnyHeadingFrom(ps: seq<Paragraph>, i: nat, endIndex: int): (r: bool)
    ensures r <==> exists j :: i <= j <= endIndex && j < |ps| && IsHeadingLike(ps[j])
    decreases |ps| - i
  {
    if i > endIndex || i >= |ps| then false
    else IsHeadingLike(ps[i]) || AnyHeadingFrom(ps, i + 1, endIndex)
  }

  /** `hasHeadings`: false for an out-of-range window, otherwise whether some paragraph
      of the window is a heading or has a positive level. */
  function HasHeadings(ps: seq<Paragraph>, startIndex: int, endIndex: int): (r: bool)
    ensures r <==> 0 <= startIndex && endIndex < |ps|
                   && exists j :: startIndex <= j <= endIndex && IsHeadingLike(ps[j])
  {
    if startIndex < 0 || endIndex >= |ps| then false
    else AnyHeadingFrom(ps, startIndex, endIndex)
  }

  /** `findImageByPosition`: the first image anchored at the position's paragraph. */
  function FindImageByPosition(pos: ImagePosition, images: seq<ImageInfo>): (r: Option<ImageInfo>)
    ensures r.Some? ==> r.value in images && AnchoredAt(r.value, pos.paragraphIndex)
    ensures r.None? <==> forall k :: 0 <= k < |images| ==> !AnchoredAt(images[k], pos.paragraphIndex)
    ensures forall k :: 0 <= k < |images| && AnchoredAt(images[k], pos.paragraphIndex)
              ==> r.Some? && (r.value == images[k] || r.value in images[..k])
  {
    if images == [] then None
    else if AnchoredAt(images[0], pos.paragraphIndex) then Some(images[0])
    else
      var r := FindImageByPosition(pos, images[1..]);
      assert forall k :: 1 <= k <= |images| ==> images[1..][..k - 1] == images[1..k];
      r
  }

  predicate NoDup<T(==)>(s: seq<T>) {
    forall i, j :: 0 <= i < j < |s| ==> s[i] != s[j]
  }

  function Elems<T>(s: seq<T>): set<T> {
    set x | x in s
  }

  /** The images a list of positions finds. */
  function FoundBy(poss: seq<ImagePosition>, docImages: seq<ImageInfo>): (r: set<ImageInfo>)
    ensures forall x :: x in r ==> x in docImages
    decreases |poss|
  {
    if poss == [] then {}
    else
      var rest := FoundBy(poss[1..], docImages);
      match FindImageByPosition(poss[0], docImages)
      case Some(img) => {img} + rest
      case None => rest
  }

  /** Adds, position by position, the image each one finds unless the list already has it. */
  function AddImages(imgs: seq<ImageInfo>, poss: seq<ImagePosition>, docImages: seq<ImageInfo>)
    : (r: seq<ImageInfo>)
    ensures NoDup(imgs) ==> NoDup(r)
    ensures Elems(r) == Elems(imgs) + FoundBy(poss, docImages)
    ensures |imgs| <= |r| && r[..|imgs|] == imgs
    decreases |poss|
  {
    if poss == [] then imgs
    else
      var found := FindImageByPosition(poss[0], docImages);
      var next := if found.Some? && found.value !in imgs then imgs + [found.value] else imgs;
      var r := AddImages(next, poss[1..], docImages);
      assert r[..|imgs|] == r[..|next|][..|imgs|];
      r
  }

  function PositionsAt(positions: map<int, seq<ImagePosition>>, i: int): seq<ImagePosition> {
    if i in positions then positions[i] else []
  }

  /** `createDocumentChunk`: id, trimmed text, counts over the raw buffer, images and the
      four metadata entries. */
  function MakeChunk(id: int, raw: string, imgs: seq<ImageInfo>, s: int, e: int, ps: seq<Paragraph>)
    : (c: DocumentChunk)
    requires 0 <= s <= e < |ps|
    ensures c.metadata.containsHeadings <==> exists j :: s <= j <= e && IsHeadingLike(ps[j])
    ensures c.metadata.imageCount == |c.images|
    ensures c.wordCount == 0 <==> c.text == []
  {
    DocumentChunk(id, Trim(raw), imgs, s, e, CountWords(raw), |raw|,
                  ChunkMeta(ps[s].id, ps[e].id, HasHeadings(ps, s, e), |imgs|))
  }

  /** A chunk as the loop closes it: the arguments `createDocumentChunk` receives
      apart from its id, which is the chunk's position in the output. */
  datatype Draft = Draft(raw: string, imgs: seq<ImageInfo>, s: int, e: int)

  /** The loop state: closed chunks, the open chunk's first paragraph, its buffer and images. */
  datatype Acc = Acc(drafts: seq<Draft>, start: int, buf: string, imgs: seq<ImageInfo>)

  predicate StepReady(ps: seq<Paragraph>, i: int, a: Acc) {
    0 <= a.start <= i < |ps| && (a.buf != [] ==> a.start < i)
  }

  /** Before appending paragraph `i`: close the open chunk if `i` would overflow it. */
  function Flush(ps: seq<Paragraph>, chunkSize: int, i: int, a: Acc): Acc
    requires StepReady(ps, i, a)
  {
    if |a.buf| + |ParaText(ps[i])| > chunkSize && |a.buf| > 0 then
      Acc(a.drafts + [Draft(a.buf, a.imgs, a.start, i - 1)], i, [], [])
    else a
  }

  /** Append paragraph `i` and the images its positions find. */
  function Append(ps: seq<Paragraph>, positions: map<int, seq<ImagePosition>>,
                  docImages: seq<ImageInfo>, i: int, a: Acc): Acc
    requires 0 <= i < |ps|
  {
    a.(buf := a.buf + ParaText(ps[i]), imgs := AddImages(a.imgs, PositionsAt(positions, i), docImages))
  }

  /** After appending paragraph `i`: a heading of level at most 2 closes the chunk. */
  function Close(ps: seq<Paragraph>, i: int, a: Acc): Acc
    requires 0 <= i < |ps|
  {
    if ClosesChunk(ps[i]) && |a.buf| > 0 then
      Acc(a.drafts + [Draft(a.buf, a.imgs, a.start, i)], i + 1, [], [])
    else a
  }

  /** One iteration of the paragraph loop. */
  function Step(ps: seq<Paragraph>, positions: map<int, seq<ImagePosition>>,
                docImages: seq<ImageInfo>, chunkSize: int, i: int, a: Acc): Acc
    requires StepReady(ps, i, a)
  {
    Close(ps, i, Append(ps, positions, docImages, i, Flush(ps, chunkSize, i, a)))
  }

  /** The paragraph loop from paragraph `i` on. */
  function Run(ps: seq<Paragraph>, positions: map<int, seq<ImagePosition>>,
               docImages: seq<ImageInfo>, chunkSize: int, i: int, a: Acc): (r: Acc)
    requires 0 <= a.start <= i <= |ps| && (a.buf != [] ==> a.start < i)
    ensures 0 <= r.start <= |ps| && (r.buf != [] ==> r.start < |ps|)
    decreases |ps| - i
  {
    if i == |ps| then a
    else Run(ps, positions, docImages, chunkSize, i + 1, Step(ps, positions, docImages, chunkSize, i, a))
  }

  /** The chunks, numbered in emission order. */
  function Build(ps: seq<Paragraph>, drafts: seq<Draft>): (chunks: seq<DocumentChunk>)
    requires forall k :: 0 <= k < |drafts| ==> 0 <= drafts[k].s <= drafts[k].e < |ps|
    ensures |chunks| == |drafts|
    ensures forall k :: 0 <= k < |drafts| ==>
              chunks[k] == MakeChunk(k, drafts[k].raw, drafts[k].imgs, drafts[k].s, drafts[k].e, ps)
  {
    seq(|drafts|, k requires 0 <= k < |drafts| =>
      MakeChunk(k, drafts[k].raw, drafts[k].imgs, drafts[k].s, drafts[k].e, ps))
  }

  /** `chunkDocumentIntelligently` over the document's paragraphs and images and the
      positions grouped per paragraph index. */
  function ChunkDocument(doc: DocumentContent, positions: map<int, seq<ImagePosition>>, chunkSize: int)
    : (chunks: seq<DocumentChunk>)
    ensures Tiles(chunks, |doc.paragraphs|)
    ensures AllOK(doc.paragraphs, positions, doc.images, chunkSize, chunks)
  {
    var ps := doc.paragraphs;
    var drafts := CloseAll(ps, positions, doc.images, chunkSize);
    DraftsOKFacts(ps, positions, doc.images, chunkSize, drafts, |ps|);
    BuildOK(ps, positions, doc.images, chunkSize, drafts);
    BuildTiles(ps, drafts);
    Build(ps, drafts)
  }

  /** The paragraph loop followed by the closing of the last open chunk. */
  function CloseAll(ps: seq<Paragraph>, positions: map<int, seq<ImagePosition>>,
                    docImages: seq<ImageInfo>, chunkSize: int): (drafts: seq<Draft>)
    ensures DraftsOK(ps, positions, docImages, chunkSize, drafts, |ps|)
  {
    var a := Run(ps, positions, docImages, chunkSize, 0, Acc([], 0, [], []));
    FreshInv(ps, positions, docImages, chunkSize, 0, []);
    RunKeepsInvariant(ps, positions, docImages, chunkSize, 0, Acc([], 0, [], []));
    FinalDrafts(ps, positions, docImages, chunkSize, a);
    if |a.buf| > 0 then a.drafts + [Draft(a.buf, a.imgs, a.start, |ps| - 1)] else a.drafts
  }

  // ---------------------------------------------------------------------------
  // Specification of a chunking

  /** The images collected for paragraphs `lo` .. `hi - 1`: those some position of theirs finds. */
  function Collected(positions: map<int, seq<ImagePosition>>, docImages: seq<ImageInfo>,
                     lo: int, hi: int): set<ImageInfo>
    decreases hi - lo
  {
    if hi <= lo then {} else Collected(positions, docImages, lo, hi - 1) + FoundBy(PositionsAt(positions, hi - 1), docImages)
  }

  /** Paragraph `j + 1` still fits into a chunk that starts at `s` and holds `s` .. `j`. */
  ghost predicate Fits(ps: seq<Paragraph>, chunkSize: int, s: int, j: int)
    requires 0 <= s <= j && j + 1 < |ps|
  {
    |Raw(ps, s, j + 1)| + |ParaText(ps[j + 1])| <= chunkSize
  }

  /** Inside chunk `s` .. `e` no paragraph closes the chunk and every next paragraph fits. */
  ghost predicate Greedy(ps: seq<Paragraph>, chunkSize: int, s: int, e: int)
    requires 0 <= s <= e < |ps|
  {
    forall j :: s <= j < e ==> !ClosesChunk(ps[j]) && Fits(ps, chunkSize, s, j)
  }

  /** Chunk `s` .. `e` ends because the document ends, a heading closes it, or the next
      paragraph would overflow it. */
  ghost predicate Closed(ps: seq<Paragraph>, chunkSize: int, s: int, e: int)
    requires 0 <= s <= e < |ps|
  {
    e == |ps| - 1 || ClosesChunk(ps[e]) || !Fits(ps, chunkSize, s, e)
  }

  /** The `k`-th emitted chunk is built from its paragraph range as `createDocumentChunk`
      builds it, follows the greedy rule and ends for a reason. */
  ghost predicate ChunkOK(ps: seq<Paragraph>, positions: map<int, seq<ImagePosition>>,
                          docImages: seq<ImageInfo>, chunkSize: int, c: DocumentChunk, k: int)
  {
    var s, e := c.startParagraphIndex, c.endParagraphIndex;
    0 <= s <= e < |ps|
    && c.chunkId == k
    && c.text == Trim(Raw(ps, s, e + 1))
    && c.charCount == |Raw(ps, s, e + 1)|
    && c.wordCount == CountWords(Raw(ps, s, e + 1))
    && c.metadata == ChunkMeta(ps[s].id, ps[e].id, HasHeadings(ps, s, e), |c.images|)
    && NoDup(c.images)
    && Elems(c.images) == Collected(positions, docImages, s, e + 1)
    && Greedy(ps, chunkSize, s, e)
    && Closed(ps, chunkSize, s, e)
  }

  /** The chunk ranges cover paragraphs 0 .. `m - 1` left to right without gaps or overlaps. */
  ghost predicate Tiles(chunks: seq<DocumentChunk>, m: int) {
    (|chunks| == 0 <==> m == 0)
    && (forall k :: 0 <= k < |chunks| ==> 0 <= chunks[k].startParagraphIndex <= chunks[k].endParagraphIndex < m)
    && (|chunks| > 0 ==> chunks[0].startParagraphIndex == 0 && chunks[|chunks| - 1].endParagraphIndex == m - 1)
    && (forall k :: 0 <= k < |chunks| - 1 ==> chunks[k + 1].startParagraphIndex == chunks[k].endParagraphIndex + 1)
  }

  /** Every emitted chunk is correct for its place. */
  ghost predicate AllOK(ps: seq<Paragraph>, positions: map<int, seq<ImagePosition>>,
                        docImages: seq<ImageInfo>, chunkSize: int, chunks: seq<DocumentChunk>)
  {
    forall k :: 0 <= k < |chunks| ==> ChunkOK(ps, positions, docImages, chunkSize, chunks[k], k)
  }

  /** The images collected for paragraphs `s` .. `i - 1`, each once. */
  ghost predicate ImagesOf(positions: map<int, seq<ImagePosition>>, docImages: seq<ImageInfo>,
                           s: int, i: int, imgs: seq<ImageInfo>)
  {
    NoDup(imgs) && Elems(imgs) == Collected(positions, docImages, s, i)
  }

  /** A closed chunk: its range, buffer and images, the greedy rule and a reason to end. */
  ghost predicate DraftOK(ps: seq<Paragraph>, positions: map<int, seq<ImagePosition>>,
                          docImages: seq<ImageInfo>, chunkSize: int, d: Draft)
  {
    0 <= d.s <= d.e < |ps|
    && d.raw == Raw(ps, d.s, d.e + 1)
    && ImagesOf(positions, docImages, d.s, d.e + 1, d.imgs)
    && Greedy(ps, chunkSize, d.s, d.e)
    && Closed(ps, chunkSize, d.s, d.e)
  }

  /** The closed chunks' ranges cover paragraphs 0 .. `m - 1` left to right. */
  ghost predicate DraftsTile(drafts: seq<Draft>, m: int) {
    (|drafts| == 0 <==> m == 0)
    && (forall k :: 0 <= k < |drafts| ==> 0 <= drafts[k].s <= drafts[k].e < m)
    && (|drafts| > 0 ==> drafts[0].s == 0 && drafts[|drafts| - 1].e == m - 1)
    && (forall k :: 0 <= k < |drafts| - 1 ==> drafts[k + 1].s == drafts[k].e + 1)
  }

  ghost predicate AllDraftsOK(ps: seq<Paragraph>, positions: map<int, seq<ImagePosition>>,
                              docImages: seq<ImageInfo>, chunkSize: int, drafts: seq<Draft>)
  {
    forall k :: 0 <= k < |drafts| ==> DraftOK(ps, positions, docImages, chunkSize, drafts[k])
  }

  /** The closed chunks, last first: each correct and ending where the next one starts,
      the whole covering paragraphs 0 .. `m - 1`. */
  ghost predicate DraftsOK(ps: seq<Paragraph>, positions: map<int, seq<ImagePosition>>,
                           docImages: seq<ImageInfo>, chunkSize: int, drafts: seq<Draft>, m: int)
    decreases |drafts|
  {
    if drafts == [] then m == 0
    else
      var d := drafts[|drafts| - 1];
      d.e == m - 1
      && DraftOK(ps, positions, docImages, chunkSize, d)
      && DraftsOK(ps, positions, docImages, chunkSize, drafts[..|drafts| - 1], d.s)
  }

  /** What holds of the loop state before paragraph `i`. */
  ghost predicate Inv(ps: seq<Paragraph>, positions: map<int, seq<ImagePosition>>,
                      docImages: seq<ImageInfo>, chunkSize: int, i: int, a: Acc)
  {
    0 <= a.start <= i <= |ps|
    && a.buf == Raw(ps, a.start, i)
    && DraftsOK(ps, positions, docImages, chunkSize, a.drafts, a.start)
    && ImagesOf(positions, docImages, a.start, i, a.imgs)
    && (forall j :: a.start <= j < i ==> !ClosesChunk(ps[j]))
    && (forall j :: a.start <= j < i - 1 ==> Fits(ps, chunkSize, a.start, j))
  }

  lemma {:induction false} RawEmpty(ps: seq<Paragraph>, lo: int, hi: int)
    requires 0 <= lo <= hi <= |ps|
    ensures Raw(ps, lo, hi) == [] <==> lo == hi
    ensures |Raw(ps, lo, hi)| >= hi - lo
    decreases hi - lo
  {
    if lo < hi {
      RawEmpty(ps, lo, hi - 1);
    }
  }

  /** The recursive form of the closed chunks gives the tiling and every chunk's correctness. */
  lemma {:induction false} DraftsOKFacts(ps: seq<Paragraph>, positions: map<int, seq<ImagePosition>>,
                                         docImages: seq<ImageInfo>, chunkSize: int, drafts: seq<Draft>, m: int)
    requires DraftsOK(ps, positions, docImages, chunkSize, drafts, m)
    ensures DraftsTile(drafts, m)
    ensures AllDraftsOK(ps, positions, docImages, chunkSize, drafts)
    decreases |drafts|
  {
    if drafts != [] {
      var n := |drafts| - 1;
      var d := drafts[n];
      var pre := drafts[..n];
      assert DraftOK(ps, positions, docImages, chunkSize, d) && d.e == m - 1;
      DraftsOKFacts(ps, positions, docImages, chunkSize, pre, d.s);
      assert pre + [d] == drafts;
      TileSnoc(pre, d, m);
      AllDraftsSnoc(ps, positions, docImages, chunkSize, pre, d);
    }
  }

  /** A range starting where the tiled ones end extends the tiling. */
  lemma TileSnoc(pre: seq<Draft>, d: Draft, m: int)
    requires DraftsTile(pre, d.s) && 0 <= d.s <= d.e && d.e == m - 1
    ensures DraftsTile(pre + [d], m)
  {
    var all := pre + [d];
    forall k | 0 <= k < |all| ensures 0 <= all[k].s <= all[k].e < m {
      if k < |pre| { assert all[k] == pre[k]; }
    }
    forall k | 0 <= k < |all| - 1 ensures all[k + 1].s == all[k].e + 1 {
      if k + 1 < |pre| {
        assert all[k + 1] == pre[k + 1] && all[k] == pre[k];
      } else {
        assert all[k] == pre[|pre| - 1];
      }
    }
    if pre != [] {
      assert all[0] == pre[0];
    }
  }

  lemma AllDraftsSnoc(ps: seq<Paragraph>, positions: map<int, seq<ImagePosition>>,
                      docImages: seq<ImageInfo>, chunkSize: int, pre: seq<Draft>, d: Draft)
    requires AllDraftsOK(ps, positions, docImages, chunkSize, pre)
    requires DraftOK(ps, positions, docImages, chunkSize, d)
    ensures AllDraftsOK(ps, positions, docImages, chunkSize, pre + [d])
  {
    var all := pre + [d];
    forall k | 0 <= k < |all| ensures DraftOK(ps, positions, docImages, chunkSize, all[k]) {
      if k < |pre| { assert all[k] == pre[k]; }
    }
  }

  /** Closing a correct chunk right after the closed ones keeps them correct and adjacent. */
  lemma EmitKeepsOK(ps: seq<Paragraph>, positions: map<int, seq<ImagePosition>>,
                    docImages: seq<ImageInfo>, chunkSize: int, drafts: seq<Draft>, d: Draft)
    requires DraftsOK(ps, positions, docImages, chunkSize, drafts, d.s)
    requires DraftOK(ps, positions, docImages, chunkSize, d)
    ensures DraftsOK(ps, positions, docImages, chunkSize, drafts + [d], d.e + 1)
  {
    assert (drafts + [d])[..|drafts|] == drafts;
  }

  /** A state with no open chunk after correct closed chunks satisfies the invariant. */
  lemma FreshInv(ps: seq<Paragraph>, positions: map<int, seq<ImagePosition>>,
                 docImages: seq<ImageInfo>, chunkSize: int, i: int, drafts: seq<Draft>)
    requires 0 <= i <= |ps| && DraftsOK(ps, positions, docImages, chunkSize, drafts, i)
    ensures Inv(ps, positions, docImages, chunkSize, i, Acc(drafts, i, [], []))
  {
  }

  lemma StepKeepsInvariant(ps: seq<Paragraph>, positions: map<int, seq<ImagePosition>>,
                           docImages: seq<ImageInfo>, chunkSize: int, i: int, a: Acc)
    requires i < |ps| && Inv(ps, positions, docImages, chunkSize, i, a)
    ensures StepReady(ps, i, a)
    ensures Inv(ps, positions, docImages, chunkSize, i + 1, Step(ps, positions, docImages, chunkSize, i, a))
  {
    RawEmpty(ps, a.start, i);
    var f := Flush(ps, chunkSize, i, a);
    FlushKeepsInvariant(ps, positions, docImages, chunkSize, i, a);
    var g := Append(ps, positions, docImages, i, f);
    AppendExtendsBuffer(ps, positions, docImages, chunkSize, i, f);
    CloseKeepsInvariant(ps, positions, docImages, chunkSize, i, g);
  }

  lemma FlushKeepsInvariant(ps: seq<Paragraph>, positions: map<int, seq<ImagePosition>>,
                            docImages: seq<ImageInfo>, chunkSize: int, i: int, a: Acc)
    requires i < |ps| && Inv(ps, positions, docImages, chunkSize, i, a)
    requires StepReady(ps, i, a)
    ensures Inv(ps, positions, docImages, chunkSize, i, Flush(ps, chunkSize, i, a))
    ensures var f := Flush(ps, chunkSize, i, a);
            f.buf != [] ==> |f.buf| + |ParaText(ps[i])| <= chunkSize
  {
    if |a.buf| + |ParaText(ps[i])| > chunkSize && |a.buf| > 0 {
      FlushEmits(ps, positions, docImages, chunkSize, i, a);
    }
  }

  /** Closing the open chunk because paragraph `i` does not fit leaves a fresh state at `i`. */
  lemma FlushEmits(ps: seq<Paragraph>, positions: map<int, seq<ImagePosition>>,
                   docImages: seq<ImageInfo>, chunkSize: int, i: int, a: Acc)
    requires i < |ps| && Inv(ps, positions, docImages, chunkSize, i, a)
    requires 0 <= a.start < i && |a.buf| + |ParaText(ps[i])| > chunkSize
    ensures Inv(ps, positions, docImages, chunkSize, i,
                Acc(a.drafts + [Draft(a.buf, a.imgs, a.start, i - 1)], i, [], []))
  {
    var d := Draft(a.buf, a.imgs, a.start, i - 1);
    DraftIsOK(ps, positions, docImages, chunkSize, d);
    EmitKeepsOK(ps, positions, docImages, chunkSize, a.drafts, d);
    FreshInv(ps, positions, docImages, chunkSize, i, a.drafts + [d]);
  }

  lemma AppendExtendsBuffer(ps: seq<Paragraph>, positions: map<int, seq<ImagePosition>>,
                            docImages: seq<ImageInfo>, chunkSize: int, i: int, f: Acc)
    requires i < |ps| && Inv(ps, positions, docImages, chunkSize, i, f)
    requires f.buf != [] ==> |f.buf| + |ParaText(ps[i])| <= chunkSize
    ensures var g := Append(ps, positions, docImages, i, f);
            && 0 <= g.start <= i
            && g.buf == Raw(ps, g.start, i + 1) && g.buf != []
            && g.drafts == f.drafts && g.start == f.start
            && ImagesOf(positions, docImages, g.start, i + 1, g.imgs)
            && (forall j :: g.start <= j < i ==> !ClosesChunk(ps[j]))
            && (forall j :: g.start <= j < i ==> Fits(ps, chunkSize, g.start, j))
  {
    var g := Append(ps, positions, docImages, i, f);
    assert g.buf == Raw(ps, f.start, i) + ParaText(ps[i]) == Raw(ps, f.start, i + 1);
    RawEmpty(ps, f.start, i + 1);
    AppendImages(positions, docImages, f.start, i, f.imgs);
    BufferFits(ps, chunkSize, f.start, i, f.buf);
  }

  /** When paragraph `i` fits after a non-empty buffer, every paragraph of the buffer
      was followed by one that fit. */
  lemma BufferFits(ps: seq<Paragraph>, chunkSize: int, s: int, i: int, buf: string)
    requires 0 <= s <= i < |ps| && buf == Raw(ps, s, i)
    requires forall j :: s <= j < i - 1 ==> Fits(ps, chunkSize, s, j)
    requires buf != [] ==> |buf| + |ParaText(ps[i])| <= chunkSize
    ensures forall j :: s <= j < i ==> Fits(ps, chunkSize, s, j)
  {
    if s < i {
      RawEmpty(ps, s, i);
      assert Fits(ps, chunkSize, s, i - 1);
    }
  }

  /** Adding the images of paragraph `i` extends the images of `s` .. `i - 1` to `s` .. `i`. */
  lemma AppendImages(positions: map<int, seq<ImagePosition>>, docImages: seq<ImageInfo>,
                     s: int, i: int, imgs: seq<ImageInfo>)
    requires s <= i && ImagesOf(positions, docImages, s, i, imgs)
    ensures ImagesOf(positions, docImages, s, i + 1, AddImages(imgs, PositionsAt(positions, i), docImages))
  {
  }

  /** The open chunk `s` .. `e` with its buffer and images, closed, is a correct chunk. */
  lemma DraftIsOK(ps: seq<Paragraph>, positions: map<int, seq<ImagePosition>>,
                  docImages: seq<ImageInfo>, chunkSize: int, d: Draft)
    requires 0 <= d.s <= d.e < |ps| && d.raw == Raw(ps, d.s, d.e + 1)
    requires ImagesOf(positions, docImages, d.s, d.e + 1, d.imgs)
    requires forall j :: d.s <= j < d.e ==> !ClosesChunk(ps[j])
    requires forall j :: d.s <= j < d.e ==> Fits(ps, chunkSize, d.s, j)
    requires Closed(ps, chunkSize, d.s, d.e)
    ensures DraftOK(ps, positions, docImages, chunkSize, d)
  {
  }

  /** A heading that closes the open chunk leaves a fresh state after it. */
  lemma CloseEmits(ps: seq<Paragraph>, positions: map<int, seq<ImagePosition>>,
                   docImages: seq<ImageInfo>, chunkSize: int, i: int, g: Acc)
    requires 0 <= g.start <= i < |ps|
    requires DraftsOK(ps, positions, docImages, chunkSize, g.drafts, g.start)
    requires g.buf == Raw(ps, g.start, i + 1)
    requires ImagesOf(positions, docImages, g.start, i + 1, g.imgs)
    requires forall j :: g.start <= j < i ==> !ClosesChunk(ps[j])
    requires forall j :: g.start <= j < i ==> Fits(ps, chunkSize, g.start, j)
    requires ClosesChunk(ps[i])
    ensures Inv(ps, positions, docImages, chunkSize, i + 1,
                Acc(g.drafts + [Draft(g.buf, g.imgs, g.start, i)], i + 1, [], []))
  {
    var d := Draft(g.buf, g.imgs, g.start, i);
    DraftIsOK(ps, positions, docImages, chunkSize, d);
    EmitKeepsOK(ps, positions, docImages, chunkSize, g.drafts, d);
    FreshInv(ps, positions, docImages, chunkSize, i + 1, g.drafts + [d]);
  }

  lemma CloseKeepsInvariant(ps: seq<Paragraph>, positions: map<int, seq<ImagePosition>>,
                            docImages: seq<ImageInfo>, chunkSize: int, i: int, g: Acc)
    requires 0 <= g.start <= i < |ps|
    requires DraftsOK(ps, positions, docImages, chunkSize, g.drafts, g.start)
    requires g.buf == Raw(ps, g.start, i + 1) && g.buf != []
    requires ImagesOf(positions, docImages, g.start, i + 1, g.imgs)
    requires forall j :: g.start <= j < i ==> !ClosesChunk(ps[j])
    requires forall j :: g.start <= j < i ==> Fits(ps, chunkSize, g.start, j)
    ensures Inv(ps, positions, docImages, chunkSize, i + 1, Close(ps, i, g))
  {
    if ClosesChunk(ps[i]) {
      CloseEmits(ps, positions, docImages, chunkSize, i, g);
    }
  }

  lemma RunUnfold(ps: seq<Paragraph>, positions: map<int, seq<ImagePosition>>,
                  docImages: seq<ImageInfo>, chunkSize: int, i: int, a: Acc)
    requires StepReady(ps, i, a)
    ensures Run(ps, positions, docImages, chunkSize, i, a)
         == Run(ps, positions, docImages, chunkSize, i + 1, Step(ps, positions, docImages, chunkSize, i, a))
  {
  }

  lemma {:induction false} RunKeepsInvariant(ps: seq<Paragraph>, positions: map<int, seq<ImagePosition>>,
                                             docImages: seq<ImageInfo>, chunkSize: int, i: int, a: Acc)
    requires Inv(ps, positions, docImages, chunkSize, i, a)
    ensures Inv(ps, positions, docImages, chunkSize, |ps|, Run(ps, positions, docImages, chunkSize, i, a))
    decreases |ps| - i
  {
    if i < |ps| {
      RawEmpty(ps, a.start, i);
      StepKeepsInvariant(ps, positions, docImages, chunkSize, i, a);
      var b := Step(ps, positions, docImages, chunkSize, i, a);
      RunKeepsInvariant(ps, positions, docImages, chunkSize, i + 1, b);
      RunUnfold(ps, positions, docImages, chunkSize, i, a);
    }
  }

  /** Closing the last open chunk completes a tiling of all paragraphs. */
  lemma FinalDrafts(ps: seq<Paragraph>, positions: map<int, seq<ImagePosition>>,
                    docImages: seq<ImageInfo>, chunkSize: int, a: Acc)
    requires Inv(ps, positions, docImages, chunkSize, |ps|, a)
    ensures var drafts := if |a.buf| > 0 then a.drafts + [Draft(a.buf, a.imgs, a.start, |ps| - 1)] else a.drafts;
            DraftsOK(ps, positions, docImages, chunkSize, drafts, |ps|)
  {
    RawEmpty(ps, a.start, |ps|);
    if |a.buf| > 0 {
      var d := Draft(a.buf, a.imgs, a.start, |ps| - 1);
      DraftIsOK(ps, positions, docImages, chunkSize, d);
      EmitKeepsOK(ps, positions, docImages, chunkSize, a.drafts, d);
    }
  }

  /** `createDocumentChunk` applied to a correct closed chunk gives a correct chunk. */
  lemma DraftChunkOK(ps: seq<Paragraph>, positions: map<int, seq<ImagePosition>>,
                     docImages: seq<ImageInfo>, chunkSize: int, d: Draft, k: int)
    requires DraftOK(ps, positions, docImages, chunkSize, d)
    ensures ChunkOK(ps, positions, docImages, chunkSize, MakeChunk(k, d.raw, d.imgs, d.s, d.e, ps), k)
  {
  }

  /** Numbering correct closed chunks in order gives correct chunks. */
  lemma BuildOK(ps: seq<Paragraph>, positions: map<int, seq<ImagePosition>>,
                docImages: seq<ImageInfo>, chunkSize: int, drafts: seq<Draft>)
    requires AllDraftsOK(ps, positions, docImages, chunkSize, drafts)
    ensures AllOK(ps, positions, docImages, chunkSize, Build(ps, drafts))
  {
    var chunks := Build(ps, drafts);
    forall k | 0 <= k < |chunks| ensures ChunkOK(ps, positions, docImages, chunkSize, chunks[k], k) {
      DraftChunkOK(ps, positions, docImages, chunkSize, drafts[k], k);
    }
  }

  /** The `k`-th chunk of a correct list is correct for its place. */
  lemma AllOKAt(ps: seq<Paragraph>, positions: map<int, seq<ImagePosition>>,
               docImages: seq<ImageInfo>, chunkSize: int, chunks: seq<DocumentChunk>, k: int)
    requires AllOK(ps, positions, docImages, chunkSize, chunks) && 0 <= k < |chunks|
    ensures ChunkOK(ps, positions, docImages, chunkSize, chunks[k], k)
  {
  }

  /** Numbering closed chunks that tile the paragraphs gives chunks that tile them. */
  lemma BuildTiles(ps: seq<Paragraph>, drafts: seq<Draft>)
    requires DraftsTile(drafts, |ps|)
    ensures Tiles(Build(ps, drafts), |ps|)
  {
  }
}
