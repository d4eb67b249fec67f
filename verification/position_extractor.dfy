/** The position-recording image extractor (ImageExtractorWithPosition): one record per
    picture of the document, then a walk over paragraphs, runs and embedded pictures that
    stamps each matching record with the place it was met. The document's parts are
    the abstract inputs of the structure parser; writing the picture files is I/O and
    only its null check is kept. */
module PositionExtractor {
  import opened Std
  import opened JavaText
  import opened DocModel
  import opened StructureParser

  /** One embedded picture met while walking paragraphs, their runs and the runs'
      pictures in document order. */
  datatype Occurrence = Occurrence(para: nat, run: nat, paraText: Option<string>, picture: Option<PictureData>)

  /** The position an occurrence records: a fresh position with the paragraph index, the
      run's index within the paragraph and the paragraph's text; every other field null. */
  function PositionOf(o: Occurrence): ImagePosition {
    EmptyPosition.(paragraphIndex := Some(o.para), runIndex := Some(o.run), paragraphText := o.paraText)
  }

  function RunOccurrences(q: ParagraphSource, p: nat, r: nat): (os: seq<Occurrence>)
    requires r < |q.runs|
    ensures |os| == |q.runs[r].pictures|
    ensures forall j :: 0 <= j < |os| ==> os[j] == Occurrence(p, r, q.text, q.runs[r].pictures[j])
  {
    seq(|q.runs[r].pictures|, j requires 0 <= j < |q.runs[r].pictures| => Occurrence(p, r, q.text, q.runs[r].pictures[j]))
  }

  /** The occurrences in runs `0 .. m - 1` of paragraph `p`. */
  function ParagraphOccurrences(q: ParagraphSource, p: nat, m: nat): (os: seq<Occurrence>)
    requires m <= |q.runs|
    ensures forall o :: o in os ==> o.para == p && o.run < m && o.paraText == q.text
  {
    if m == 0 then [] else ParagraphOccurrences(q, p, m - 1) + RunOccurrences(q, p, m - 1)
  }

  /** The occurrences in paragraphs `0 .. n - 1`, in walking order. */
  function Occurrences(qs: seq<ParagraphSource>, n: nat): (os: seq<Occurrence>)
    requires n <= |qs|
    ensures forall o :: o in os ==> o.para < n && o.run < |qs[o.para].runs| && o.paraText == qs[o.para].text
  {
    if n == 0 then [] else Occurrences(qs, n - 1) + ParagraphOccurrences(qs[n - 1], n - 1, |qs[n - 1].runs|)
  }

  /** `findImageInfoByData`: the first record whose bytes equal `data`, compared as
      `Arrays.equals` does (two null arrays are equal), or none. */
  function FindByData(data: Option<seq<Byte>>, imgs: seq<ImageInfo>): (r: Option<nat>)
    ensures r.Some? ==> r.value < |imgs| && imgs[r.value].data == data
                        && forall j :: 0 <= j < r.value ==> imgs[j].data != data
    ensures r.None? ==> forall j :: 0 <= j < |imgs| ==> imgs[j].data != data
  {
    if imgs == [] then None
    else if imgs[0].data == data then Some(0)
    else
      match FindByData(data, imgs[1..])
      case Some(k) => Some(k + 1)
      case None => None
  }

  /** The second pass: each occurrence overwrites the position of the record its bytes
      find; a picture without picture data is a NullPointerException. */
  function Assign(imgs: seq<ImageInfo>, os: seq<Occurrence>): (r: Result<seq<ImageInfo>>)
    ensures r.Ok? ==> |r.value| == |imgs|
    ensures r.Ok? ==> forall k :: 0 <= k < |imgs| ==> r.value[k] == imgs[k].(position := r.value[k].position)
    decreases |os|
  {
    if os == [] then Ok(imgs)
    else
      var prev :- Assign(imgs, os[..|os| - 1]);
      var o := os[|os| - 1];
      if o.picture.None? then Err(NullPointer)
      else
        match FindByData(o.picture.value.data, prev)
        case Some(k) => Ok(prev[k := prev[k].(position := Some(PositionOf(o)))])
        case None => Ok(prev)
  }

  /** The record of picture `k`: named `image_<k>.<ext>` inside the output directory. */
  function PictureRecord(pic: PictureData, k: nat, outputDir: string, join: (string, string) -> string): ImageInfo {
    var name := "image_" + NatToString(k) + "." + pic.ext;
    ImageInfo(k, name, Some(join(outputDir, name)), pic.ext, pic.data, None)
  }

  function PictureRecords(pics: seq<PictureData>, outputDir: string, join: (string, string) -> string)
    : (r: seq<ImageInfo>)
    ensures |r| == |pics|
    ensures forall k :: 0 <= k < |pics| ==> r[k] == PictureRecord(pics[k], k, outputDir, join)
  {
    seq(|pics|, k requires 0 <= k < |pics| => PictureRecord(pics[k], k, outputDir, join))
  }

  predicate IsDocxName(name: string) {
    EndsWith(ToLower(name), ".docx")
  }

  /** `extractImages`: a null name is a NullPointerException, a name not ending in ".docx"
      (in any letter case) gives no images, and a picture without bytes fails when it is
      written out. `join` is `Paths.get(dir, name).toString()`. */
  function ExtractImages(fileName: Option<string>, src: DocxSource, outputDir: string, join: (string, string) -> string)
    : (r: Result<seq<ImageInfo>>)
    ensures fileName.None? ==> r == Err(NullPointer)
    ensures fileName.Some? && !IsDocxName(fileName.value) ==> r == Ok([])
  {
    match fileName
    case None => Err(NullPointer)
    case Some(name) =>
      if !IsDocxName(name) then Ok([])
      else if exists k :: 0 <= k < |src.pictures| && src.pictures[k].data.None? then Err(NullPointer)
      else Assign(PictureRecords(src.pictures, outputDir, join), Occurrences(src.paragraphs, |src.paragraphs|))
  }

  // ---------------------------------------------------------------------------
  // Properties

  /** Occurrence `j` carries a picture whose bytes first match record `k`. */
  ghost predicate Hit(imgs: seq<ImageInfo>, os: seq<Occurrence>, j: int, k: int) {
    0 <= j < |os| && os[j].picture.Some? && FindByData(os[j].picture.value.data, imgs) == Some(k)
  }

  /** `pos` is what the last occurrence hitting record `k` recorded, or the record's own
      position when none hits it. */
  ghost predicate LastHitPosition(imgs: seq<ImageInfo>, os: seq<Occurrence>, k: int, pos: Option<ImagePosition>)
    requires 0 <= k < |imgs|
  {
    || (pos == imgs[k].position && forall j :: 0 <= j < |os| ==> !Hit(imgs, os, j, k))
    || (exists j :: Hit(imgs, os, j, k) && pos == Some(PositionOf(os[j]))
                    && forall j' :: j < j' < |os| ==> !Hit(imgs, os, j', k))
  }

  /** Overwriting positions does not change which record a byte array finds. */
  lemma {:induction false} FindByDataIgnoresPositions(data: Option<seq<Byte>>, a: seq<ImageInfo>, b: seq<ImageInfo>)
    requires |a| == |b| && forall k :: 0 <= k < |a| ==> a[k].data == b[k].data
    ensures FindByData(data, a) == FindByData(data, b)
    decreases |a|
  {
    if a != [] {
      FindByDataIgnoresPositions(data, a[1..], b[1..]);
    }
  }

  /** The walk succeeds exactly when every embedded picture has picture data. */
  lemma {:induction false} AssignFails(imgs: seq<ImageInfo>, os: seq<Occurrence>)
    ensures Assign(imgs, os).Ok? <==> forall j :: 0 <= j < |os| ==> os[j].picture.Some?
    ensures Assign(imgs, os).Err? ==> Assign(imgs, os).error == NullPointer
    decreases |os|
  {
    if os != [] {
      var init := os[..|os| - 1];
      AssignFails(imgs, init);
      if Assign(imgs, init).Ok? && os[|os| - 1].picture.Some? {
        forall j | 0 <= j < |os|
          ensures os[j].picture.Some?
        {
          if j < |os| - 1 {
            assert os[j] == init[j];
          }
        }
      }
      if Assign(imgs, init).Err? {
        var j :| 0 <= j < |init| && init[j].picture.None?;
        assert os[j] == init[j];
      }
    }
  }

  /** One more occurrence: it either hits record `k` and its position becomes the last
      one, or it misses and the position stays. */
  lemma LastHitExtend(imgs: seq<ImageInfo>, os: seq<Occurrence>, k: int, before: Option<ImagePosition>,
                      after: Option<ImagePosition>)
    requires os != [] && 0 <= k < |imgs|
    requires LastHitPosition(imgs, os[..|os| - 1], k, before)
    requires Hit(imgs, os, |os| - 1, k) ==> after == Some(PositionOf(os[|os| - 1]))
    requires !Hit(imgs, os, |os| - 1, k) ==> after == before
    ensures LastHitPosition(imgs, os, k, after)
  {
    var init := os[..|os| - 1];
    forall j | 0 <= j < |os| - 1
      ensures Hit(imgs, os, j, k) == Hit(imgs, init, j, k)
    {
      assert os[j] == init[j];
    }
  }

  /** The last occurrence wins: every record ends with the position of the last embedded
      picture whose bytes find it, and keeps its own position when there is none. */
  lemma {:induction false} LastOccurrenceWins(imgs: seq<ImageInfo>, os: seq<Occurrence>)
    requires Assign(imgs, os).Ok?
    ensures forall k :: 0 <= k < |imgs| ==> LastHitPosition(imgs, os, k, Assign(imgs, os).value[k].position)
    decreases |os|
  {
    if os != [] {
      var init := os[..|os| - 1];
      var o := os[|os| - 1];
      LastOccurrenceWins(imgs, init);
      var prev := Assign(imgs, init).value;
      var r := Assign(imgs, os).value;
      FindByDataIgnoresPositions(o.picture.value.data, prev, imgs);
      forall k | 0 <= k < |imgs|
        ensures LastHitPosition(imgs, os, k, r[k].position)
      {
        if Hit(imgs, os, |os| - 1, k) {
          assert r[k].position == Some(PositionOf(o));
        } else {
          assert r[k] == prev[k];
        }
        LastHitExtend(imgs, os, k, prev[k].position, r[k].position);
      }
    }
  }

  /** One record per picture, in order: index `k`, name `image_<k>.<ext>`, the picture's
      extension and bytes, and the position of the last run that embeds those bytes (none
      when no run does). */
  lemma ExtractImagesSpec(fileName: string, src: DocxSource, outputDir: string, join: (string, string) -> string)
    requires IsDocxName(fileName)
    requires ExtractImages(Some(fileName), src, outputDir, join).Ok?
    ensures var r := ExtractImages(Some(fileName), src, outputDir, join).value;
            var records := PictureRecords(src.pictures, outputDir, join);
            var os := Occurrences(src.paragraphs, |src.paragraphs|);
            && |r| == |src.pictures|
            && forall k :: 0 <= k < |r| ==>
                 && r[k].index == k
                 && r[k].fileName == "image_" + NatToString(k) + "." + src.pictures[k].ext
                 && r[k].format == src.pictures[k].ext
                 && r[k].data == src.pictures[k].data
                 && LastHitPosition(records, os, k, r[k].position)
  {
    var records := PictureRecords(src.pictures, outputDir, join);
    var os := Occurrences(src.paragraphs, |src.paragraphs|);
    LastOccurrenceWins(records, os);
  }

  /** A ".docx" extraction fails exactly when some picture has no bytes or some embedded
      picture has no picture data, and then with a NullPointerException. */
  lemma ExtractImagesFails(fileName: string, src: DocxSource, outputDir: string, join: (string, string) -> string)
    requires IsDocxName(fileName)
    ensures var r := ExtractImages(Some(fileName), src, outputDir, join);
            var os := Occurrences(src.paragraphs, |src.paragraphs|);
            && (r.Err? <==> (exists k :: 0 <= k < |src.pictures| && src.pictures[k].data.None?)
                            || exists j :: 0 <= j < |os| && os[j].picture.None?)
            && (r.Err? ==> r.error == NullPointer)
  {
    var r := ExtractImages(Some(fileName), src, outputDir, join);
    var imgs := PictureRecords(src.pictures, outputDir, join);
    var os := Occurrences(src.paragraphs, |src.paragraphs|);
    if exists k :: 0 <= k < |src.pictures| && src.pictures[k].data.None? {
      assert r == Err(NullPointer);
    } else {
      assert r == Assign(imgs, os);
      AssignFails(imgs, os);
      if exists j :: 0 <= j < |os| && os[j].picture.None? {
        var j :| 0 <= j < |os| && os[j].picture.None?;
        assert r.Err? && Occurrences(src.paragraphs, |src.paragraphs|)[j].picture.None?;
      } else {
        assert forall j :: 0 <= j < |os| ==> os[j].picture.Some?;
        assert r.Ok?;
      }
    }
  }

  /** Every position the extractor records names a paragraph of the document and a run
      of that paragraph. */
  lemma ExtractedPositionsInRange(fileName: string, src: DocxSource, outputDir: string, join: (string, string) -> string)
    requires IsDocxName(fileName)
    requires ExtractImages(Some(fileName), src, outputDir, join).Ok?
    ensures var r := ExtractImages(Some(fileName), src, outputDir, join).value;
            forall k :: 0 <= k < |r| && r[k].position.Some? ==>
              var pos := r[k].position.value;
              && pos.paragraphIndex.Some? && 0 <= pos.paragraphIndex.value < |src.paragraphs|
              && pos.runIndex.Some? && 0 <= pos.runIndex.value < |src.paragraphs[pos.paragraphIndex.value].runs|
  {
    var records := PictureRecords(src.pictures, outputDir, join);
    var os := Occurrences(src.paragraphs, |src.paragraphs|);
    var r := ExtractImages(Some(fileName), src, outputDir, join).value;
    ExtractImagesSpec(fileName, src, outputDir, join);
    forall k | 0 <= k < |r| && r[k].position.Some?
      ensures var pos := r[k].position.value;
              && pos.paragraphIndex.Some? && 0 <= pos.paragraphIndex.value < |src.paragraphs|
              && pos.runIndex.Some? && 0 <= pos.runIndex.value < |src.paragraphs[pos.paragraphIndex.value].runs|
    {
      assert LastHitPosition(records, os, k, r[k].position);
      var j :| Hit(records, os, j, k) && r[k].position == Some(PositionOf(os[j]));
      assert os[j] in os;
    }
  }
}
