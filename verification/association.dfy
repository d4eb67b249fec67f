/** Grouping image positions by paragraph before chunking (associateImagesWithDocument
    with calculateCharPosition and getImageContext). Each stored position is the image's
    own position object, completed with the image's offset inside its paragraph and the
    text of the paragraphs around it. */
module Association {
  import opened Std
  import opened DocModel
  import opened StructureParser
  import opened StructureProperties
  import opened PositionExtractor
  import ChunkProperties

  /** The characters in the non-null texts of runs `0 .. k - 1`. */
  function TextBefore(runs: seq<RunInfo>, k: nat): nat
    requires k <= |runs|
  {
    if k == 0 then 0 else TextBefore(runs, k - 1) + (if runs[k - 1].text.Some? then |runs[k - 1].text.value| else 0)
  }

  lemma {:induction false} TextBeforeGrows(runs: seq<RunInfo>, j: nat, k: nat)
    requires j <= k <= |runs|
    ensures TextBefore(runs, j) <= TextBefore(runs, k)
    decreases k - j
  {
    if j < k {
      TextBeforeGrows(runs, j, k - 1);
    }
  }

  /** Where an image of run `runIndex` starts in its paragraph: 0 when the run index is
      not below the number of runs. */
  function CharPosition(para: Paragraph, runIndex: int): int {
    if |para.runs| <= runIndex || runIndex <= 0 then 0 else TextBefore(para.runs, runIndex)
  }

  /** `calculateCharPosition`, the loop over the runs before the image's run; it agrees
      with `CharPosition` and lies between 0 and the length of all run texts. */
  method CalculateCharPosition(para: Paragraph, runIndex: int) returns (position: int)
    ensures position == CharPosition(para, runIndex)
    ensures 0 <= position <= TextBefore(para.runs, |para.runs|)
    ensures runIndex >= |para.runs| ==> position == 0
  {
    if |para.runs| <= runIndex {
      return 0;
    }
    position := 0;
    var i := 0;
    while i < runIndex
      invariant 0 <= i <= |para.runs| && (runIndex >= 0 ==> i <= runIndex) && (runIndex < 0 ==> i == 0)
      invariant position == TextBefore(para.runs, i)
    {
      var run := para.runs[i];
      if run.text.Some? {
        position := position + |run.text.value|;
      }
      i := i + 1;
    }
    TextBeforeGrows(para.runs, i, |para.runs|);
  }

  /** The first paragraph of an image's context window. */
  function WindowStart(i: int): int {
    if i - 2 < 0 then 0 else i - 2
  }

  /** The last paragraph of an image's context window. */
  function WindowEnd(n: int, i: int): int {
    if n - 1 < i + 2 then n - 1 else i + 2
  }

  /** The texts of paragraphs `a .. b - 1`, each followed by "\n". */
  function Joined(ps: seq<Paragraph>, a: int, b: int): string
    requires 0 <= a && b <= |ps|
    decreases b - a
  {
    if b <= a then [] else Joined(ps, a, b - 1) + ps[b - 1].text + "\n"
  }

  /** The context of an image in paragraph `i`: the window of paragraphs around it. */
  function Context(ps: seq<Paragraph>, i: int): string {
    Joined(ps, WindowStart(i), WindowEnd(|ps|, i) + 1)
  }

  /** `getImageContext`, the loop appending each paragraph of the window. */
  method ImageContext(ps: seq<Paragraph>, i: int) returns (context: string)
    ensures context == Context(ps, i)
  {
    context := [];
    var start := if 0 < i - 2 then i - 2 else 0;
    var end := if |ps| - 1 < i + 2 then |ps| - 1 else i + 2;
    var j := start;
    while j <= end
      invariant 0 <= start <= j && (j <= end + 1 || j == start)
      invariant context == if j <= end + 1 then Joined(ps, start, j) else []
    {
      context := context + ps[j].text + "\n";
      j := j + 1;
    }
  }

  predicate InWindow(n: int, i: int, j: int) {
    WindowStart(i) <= j <= WindowEnd(n, i)
  }

  /** The window holds exactly the paragraphs at most two away from paragraph `i`, so at
      most five, and paragraph `i` itself when it exists. */
  lemma ContextWindow(n: nat, i: int)
    ensures forall j :: 0 <= j < n ==> (InWindow(n, i, j) <==> i - 2 <= j <= i + 2)
    ensures WindowEnd(n, i) - WindowStart(i) + 1 <= 5
    ensures 0 <= i < n ==> WindowStart(i) <= i <= WindowEnd(n, i)
  {
  }

  /** Whether an image's position can be grouped: it has none, or its paragraph index is
      set and either lies past the last paragraph or is a paragraph with a run index. */
  predicate Associable(img: ImageInfo, n: int) {
    || img.position.None?
    || (img.position.value.paragraphIndex.Some?
        && var pi := img.position.value.paragraphIndex.value;
           pi >= n || (0 <= pi && img.position.value.runIndex.Some?))
  }

  /** The position as stored for paragraph `pi`: completed with the offset and the context
      when `pi` is a paragraph of the document, as it was otherwise. */
  function Completed(pos: ImagePosition, ps: seq<Paragraph>, pi: int): ImagePosition {
    if 0 <= pi < |ps| && pos.runIndex.Some? then
      pos.(charPosition := Some(CharPosition(ps[pi], pos.runIndex.value)), context := Some(Context(ps, pi)))
    else pos
  }

  /** One image's position: `paragraphs.get` throws for a negative index, and unboxing a
      null run index throws. */
  function Complete(pos: ImagePosition, ps: seq<Paragraph>, pi: int): (r: Result<ImagePosition>)
  {
    if pi < |ps| then
      if pi < 0 then Err(IndexOutOfBounds)
      else if pos.runIndex.None? then Err(NullPointer)
      else Ok(Completed(pos, ps, pi))
    else Ok(pos)
  }

  function ListAt(m: map<int, seq<ImagePosition>>, k: int): seq<ImagePosition> {
    if k in m then m[k] else []
  }

  /** `associateImagesWithDocument` over images `0 .. |images| - 1`: an image with a
      position is appended to its paragraph's list; unboxing a null paragraph index throws. */
  function Associate(images: seq<ImageInfo>, ps: seq<Paragraph>): Result<map<int, seq<ImagePosition>>>
    decreases |images|
  {
    if images == [] then Ok(map[])
    else
      var prev :- Associate(images[..|images| - 1], ps);
      var img := images[|images| - 1];
      if img.position.None? then Ok(prev)
      else if img.position.value.paragraphIndex.None? then Err(NullPointer)
      else
        var pi := img.position.value.paragraphIndex.value;
        var pos :- Complete(img.position.value, ps, pi);
        Ok(prev[pi := ListAt(prev, pi) + [pos]])
  }

  /** Reference grouping: the completed positions of the images anchored at paragraph
      `k`, in image order. */
  function GroupAt(images: seq<ImageInfo>, ps: seq<Paragraph>, k: int): seq<ImagePosition>
    decreases |images|
  {
    if images == [] then []
    else
      var img := images[|images| - 1];
      GroupAt(images[..|images| - 1], ps, k)
      + (if AnchoredAt(img, Some(k)) then [Completed(img.position.value, ps, k)] else [])
  }

  /** Grouping succeeds exactly when every image is associable. */
  lemma {:induction false} AssociateFails(images: seq<ImageInfo>, ps: seq<Paragraph>)
    ensures Associate(images, ps).Ok? <==> forall j :: 0 <= j < |images| ==> Associable(images[j], |ps|)
    decreases |images|
  {
    if images != [] {
      var init := images[..|images| - 1];
      AssociateFails(init, ps);
      forall j | 0 <= j < |images| - 1
        ensures images[j] == init[j]
      {
      }
    }
  }

  /** On success the map has a key exactly for each paragraph index some image is
      anchored at, and its list is the reference grouping for that index. */
  lemma {:induction false} AssociateGroups(images: seq<ImageInfo>, ps: seq<Paragraph>)
    requires Associate(images, ps).Ok?
    ensures var m := Associate(images, ps).value;
            forall k :: (k in m <==> exists j :: 0 <= j < |images| && AnchoredAt(images[j], Some(k)))
                        && ListAt(m, k) == GroupAt(images, ps, k)
    decreases |images|
  {
    if images != [] {
      var init := images[..|images| - 1];
      AssociateSnoc(images, ps);
      AssociateGroups(init, ps);
      var m := Associate(images, ps).value;
      var prev := Associate(init, ps).value;
      var img := images[|images| - 1];
      forall k
        ensures k in m <==> exists j :: 0 <= j < |images| && AnchoredAt(images[j], Some(k))
        ensures ListAt(m, k) == GroupAt(images, ps, k)
      {
        AnchoredSnoc(images, init, k);
        assert GroupAt(images, ps, k) == GroupAt(init, ps, k)
          + (if AnchoredAt(img, Some(k)) then [Completed(img.position.value, ps, k)] else []);
      }
    }
  }

  /** Every position the reference grouping lists for `k` names paragraph `k`. */
  lemma {:induction false} GroupAtKeyed(images: seq<ImageInfo>, ps: seq<Paragraph>, k: int, q: ImagePosition)
    requires q in GroupAt(images, ps, k)
    ensures q.paragraphIndex == Some(k)
    decreases |images|
  {
    var init, img := images[..|images| - 1], images[|images| - 1];
    if q in GroupAt(init, ps, k) {
      GroupAtKeyed(init, ps, k, q);
    } else {
      assert AnchoredAt(img, Some(k)) && q == Completed(img.position.value, ps, k);
    }
  }

  /** The grouped positions are keyed by their own paragraph index, as the chunker's
      image lookup expects. */
  lemma AssociateKeyed(images: seq<ImageInfo>, ps: seq<Paragraph>)
    requires Associate(images, ps).Ok?
    ensures ChunkProperties.KeyedByParagraph(Associate(images, ps).value)
  {
    var m := Associate(images, ps).value;
    AssociateGroups(images, ps);
    forall i: int, q: ImagePosition | i in m && q in m[i]
      ensures q.paragraphIndex == Some(i)
    {
      assert ListAt(m, i) == GroupAt(images, ps, i);
      GroupAtKeyed(images, ps, i, q);
    }
  }

  /** The last image's effect on the grouping: its paragraph's list gains its completed
      position, every other list stays as it was. */
  lemma AssociateSnoc(images: seq<ImageInfo>, ps: seq<Paragraph>)
    requires images != [] && Associate(images, ps).Ok?
    ensures Associate(images[..|images| - 1], ps).Ok?
    ensures var m, prev, img := Associate(images, ps).value, Associate(images[..|images| - 1], ps).value, images[|images| - 1];
            forall k :: (k in m <==> k in prev || AnchoredAt(img, Some(k)))
                        && ListAt(m, k) == ListAt(prev, k)
                             + (if AnchoredAt(img, Some(k)) then [Completed(img.position.value, ps, k)] else [])
  {
    var init, img := images[..|images| - 1], images[|images| - 1];
    assert Associate(init, ps).Ok?;
    var prev := Associate(init, ps).value;
    if img.position.Some? {
      var pi := img.position.value.paragraphIndex.value;
      var pos := Complete(img.position.value, ps, pi);
      assert pos == Ok(Completed(img.position.value, ps, pi));
      assert Associate(images, ps).value == prev[pi := ListAt(prev, pi) + [pos.value]];
    } else {
      assert Associate(images, ps).value == prev;
    }
  }

  /** Some image is anchored at `k` exactly when one before the last is or the last is. */
  lemma AnchoredSnoc(images: seq<ImageInfo>, init: seq<ImageInfo>, k: int)
    requires images != [] && init == images[..|images| - 1]
    ensures (exists j :: 0 <= j < |images| && AnchoredAt(images[j], Some(k))) <==>
              (exists j :: 0 <= j < |init| && AnchoredAt(init[j], Some(k)))
              || AnchoredAt(images[|images| - 1], Some(k))
  {
    if exists j :: 0 <= j < |images| && AnchoredAt(images[j], Some(k)) {
      var j :| 0 <= j < |images| && AnchoredAt(images[j], Some(k));
      if j < |init| {
        assert init[j] == images[j];
      }
    }
    if exists j :: 0 <= j < |init| && AnchoredAt(init[j], Some(k)) {
      var j :| 0 <= j < |init| && AnchoredAt(init[j], Some(k));
      assert images[j] == init[j];
    }
  }

  /** The positions the position-recording extractor produces always group: every one
      names a paragraph the structure parser produced for the same document, with a run. */
  lemma ExtractedImagesAssociate(fileName: string, src: DocxSource, outputDir: string, join: (string, string) -> string)
    requires IsDocxName(fileName)
    requires ExtractImages(Some(fileName), src, outputDir, join).Ok?
    requires ParseDocx(src).Ok?
    ensures Associate(ExtractImages(Some(fileName), src, outputDir, join).value, ParseDocx(src).value.paragraphs).Ok?
  {
    var images := ExtractImages(Some(fileName), src, outputDir, join).value;
    var ps := ParseDocx(src).value.paragraphs;
    ExtractedPositionsInRange(fileName, src, outputDir, join);
    ParsedPlaced(src);
    AssociateFails(images, ps);
    forall j | 0 <= j < |images|
      ensures Associable(images[j], |ps|)
    {
    }
  }
}
