/** The structure-aware DOCX parser of the import path (service DocumentParserWithStructure):
    one paragraph record per body paragraph with trimmed text and character offsets into
    the joined text, the type and heading-level heuristics, and the anchoring of pictures
    to paragraphs, first by relationship id in the paragraph markup, then by the pictures
    embedded in the paragraph's runs, with unanchored pictures appended at the end.

    The POI document is given as plain data: each paragraph's text, style id, markup and
    runs, and the document's pictures with their relationship ids. */
module StructureParser {
  import opened Std
  import opened JavaText
  import opened Patterns
  import opened DocModel

  /** An `XWPFPictureData`: its bytes, file name, suggested extension and the ids of its
      package relationships. */
  datatype PictureData = PictureData(data: Option<seq<Byte>>, fileName: Option<string>, ext: string, relIds: seq<string>)

  /** An `XWPFRun`: `getText(0)` and the picture data of its embedded pictures. */
  datatype RunSource = RunSource(text: Option<string>, pictures: seq<Option<PictureData>>)

  /** An `XWPFParagraph`: `getText()`, `getStyle()`, the XML of its `CTP`, and its runs. */
  datatype ParagraphSource = ParagraphSource(text: Option<string>, style: Option<string>, markup: string, runs: seq<RunSource>)

  /** An `XWPFDocument`: body paragraphs and `getAllPictures()`. */
  datatype DocxSource = DocxSource(paragraphs: seq<ParagraphSource>, pictures: seq<PictureData>)

  // ---------------------------------------------------------------------------
  // Classification

  /** `detectParagraphType`: the colon rule first, then the two list patterns, then any
      style at all; the text is trimmed again before each test. */
  function DetectParagraphType(text: string, style: Option<string>): (kind: string)
    ensures var t := Trim(text);
            var colon := |t| < 150 && (EndsWith(t, ":") || EndsWith(t, "："));
            var list := NumberedItem(t) || CjkNumberedItem(t);
            && (kind == "heading" <==> colon || (!list && style.Some?))
            && (kind == "list_item" <==> !colon && list)
            && (kind == "normal" <==> !colon && !list && style.None?)
  {
    var t := Trim(text);
    if |t| < 150 && (EndsWith(t, ":") || EndsWith(t, "：")) then "heading"
    else if NumberedItem(t) || CjkNumberedItem(t) then "list_item"
    else if style.Some? then "heading"
    else "normal"
  }

  /** The level the text alone gives: 第…章 is 1, `d.d ` is 2, `d.d.d ` is 3, else 0. */
  function TextHeadingLevel(text: string): (level: int)
    ensures 0 <= level <= 3
    ensures level == 1 <==> ChapterHeading(Trim(text))
    ensures level == 2 <==> Section2(Trim(text))
    ensures level == 3 <==> Section3(Trim(text))
  {
    var t := Trim(text);
    HeadingPatternsExclusive(t);
    if ChapterHeading(t) then 1
    else if Section2(t) then 2
    else if Section3(t) then 3
    else 0
  }

  /** `detectHeadingLevel`: with a style, `Integer.parseInt(style) - 1` in `int`
      arithmetic, which throws for a style id that is not a decimal number; without one,
      the textual level. */
  function DetectHeadingLevel(text: string, style: Option<string>): (r: Result<int>)
    ensures style.None? ==> r == Ok(TextHeadingLevel(text))
    ensures style.Some? ==> (r.Ok? <==> ParseInt(style.value).Ok?)
    ensures style.Some? && r.Ok? ==> IsInt32(r.value) && (r.value + 1 - ParseInt(style.value).value) % 0x1_0000_0000 == 0
    ensures r.Err? ==> r.error == NumberFormat
  {
    match style
    case None => Ok(TextHeadingLevel(text))
    case Some(s) =>
      var v :- ParseInt(s);
      Ok(Wrap32(v - 1))
  }

  // ---------------------------------------------------------------------------
  // Picture anchoring

  /** A `fileName` that is null or empty is replaced by `fallback`. */
  function NameOr(name: Option<string>, fallback: string): (r: string)
    ensures r == fallback || (name == Some(r) && r != [])
  {
    if name.None? || name.value == [] then fallback else name.value
  }

  /** The three attribute spellings the paragraph XML is searched for. */
  function RelationshipAttributes(id: string): seq<string> {
    ["r:embed=\"" + id + "\"", "r:link=\"" + id + "\"", "r:id=\"" + id + "\""]
  }

  /** `isPictureInParagraph` for one paragraph: the picture's first relationship id,
      quoted as an embed, link or id attribute, occurs in the paragraph's XML. */
  predicate IsPictureInParagraph(pic: PictureData, markup: string) {
    pic.relIds != [] && exists a :: a in RelationshipAttributes(pic.relIds[0]) && Contains(markup, a)
  }

  /** The record for picture `k` found in paragraph `p` by relationship id. */
  function RelationshipImage(pic: PictureData, k: nat, p: nat, charPos: int): ImageInfo {
    ImageInfo(k, NameOr(pic.fileName, "image_" + NatToString(k + 1) + "." + pic.ext), None, pic.ext, pic.data,
              Some(ImagePosition(Some(p), Some(p), Some(-1), Some(charPos), None, None, None)))
  }

  /** Method 1: pictures `0 .. n - 1` in index order that the paragraph's markup refers to. */
  function RelationshipImages(pics: seq<PictureData>, markup: string, p: nat, charPos: int, n: nat): (r: seq<ImageInfo>)
    requires n <= |pics|
    decreases n
  {
    if n == 0 then []
    else
      var prev := RelationshipImages(pics, markup, p, charPos, n - 1);
      if IsPictureInParagraph(pics[n - 1], markup) then prev + [RelationshipImage(pics[n - 1], n - 1, p, charPos)]
      else prev
  }

  /** The record for an embedded picture of run `r` of paragraph `p`, numbered `idx`
      within the paragraph. */
  function RunImage(pd: PictureData, r: nat, p: nat, charPos: int, idx: nat, runText: Option<string>): ImageInfo {
    var fallback := "para_" + NatToString(p) + "_run_" + NatToString(r) + "_img_" + NatToString(idx) + "." + pd.ext;
    ImageInfo(idx, NameOr(pd.fileName, fallback), None, pd.ext, pd.data,
              Some(ImagePosition(Some(p), Some(p), Some(r), Some(charPos), None, None, runText)))
  }

  /** The first `m` embedded pictures of run `r`, numbered from `base`; a picture without
      picture data or bytes is skipped. */
  function PicturesOfRun(run: RunSource, r: nat, p: nat, charPos: int, base: nat, m: nat): (imgs: seq<ImageInfo>)
    requires m <= |run.pictures|
    ensures |imgs| <= m
    ensures forall j :: 0 <= j < |imgs| ==> imgs[j].index == base + j
    decreases m
  {
    if m == 0 then []
    else
      var prev := PicturesOfRun(run, r, p, charPos, base, m - 1);
      match run.pictures[m - 1]
      case Some(pd) =>
        if pd.data.Some? then prev + [RunImage(pd, r, p, charPos, base + |prev|, run.text)] else prev
      case None => prev
  }

  /** Method 2, `extractImagesFromRuns`: the embedded pictures of runs `0 .. n - 1`,
      numbered consecutively within the paragraph. */
  function RunImages(runs: seq<RunSource>, p: nat, charPos: int, n: nat): (imgs: seq<ImageInfo>)
    requires n <= |runs|
    ensures forall j :: 0 <= j < |imgs| ==> imgs[j].index == j
    decreases n
  {
    if n == 0 then []
    else
      var prev := RunImages(runs, p, charPos, n - 1);
      prev + PicturesOfRun(runs[n - 1], n - 1, p, charPos, |prev|, |runs[n - 1].pictures|)
  }

  /** The images of paragraph `p`: method 2 runs only when method 1 found nothing. */
  function ParagraphImages(q: ParagraphSource, pics: seq<PictureData>, p: nat, charPos: int): seq<ImageInfo> {
    var byId := RelationshipImages(pics, q.markup, p, charPos, |pics|);
    if byId != [] then byId else RunImages(q.runs, p, charPos, |q.runs|)
  }

  // ---------------------------------------------------------------------------
  // Paragraph records

  /** The trimmed text of a paragraph, a null text read as "". */
  function SourceText(q: ParagraphSource): string {
    Trim(q.text.GetOr(""))
  }

  /** The joined text after the first `n` paragraphs: each trimmed text followed by "\n". */
  function FullText(qs: seq<ParagraphSource>, n: nat): string
    requires n <= |qs|
  {
    if n == 0 then [] else FullText(qs, n - 1) + SourceText(qs[n - 1]) + "\n"
  }

  function RunInfos(runs: seq<RunSource>): (r: seq<RunInfo>)
    ensures |r| == |runs|
    ensures forall j :: 0 <= j < |runs| ==> r[j] == RunInfo(j, runs[j].text)
  {
    seq(|runs|, j requires 0 <= j < |runs| => RunInfo(j, runs[j].text))
  }

  /** The record of paragraph `i`, which starts at offset `charPos` of the joined text. */
  function ParseParagraph(q: ParagraphSource, pics: seq<PictureData>, i: nat, charPos: int): Result<Paragraph> {
    var text := SourceText(q);
    var kind := DetectParagraphType(text, q.style);
    var level :- DetectHeadingLevel(text, q.style);
    Ok(Paragraph(i, text, charPos, charPos + |text|, kind, level, RunInfos(q.runs),
                 ParagraphImages(q, pics, i, charPos)))
  }

  /** The records of the first `n` paragraphs, or the exception of the first one whose
      level cannot be read. */
  function ParseParagraphs(qs: seq<ParagraphSource>, pics: seq<PictureData>, n: nat): Result<seq<Paragraph>>
    requires n <= |qs|
  {
    if n == 0 then Ok([])
    else
      var prev :- ParseParagraphs(qs, pics, n - 1);
      var p :- ParseParagraph(qs[n - 1], pics, n - 1, |FullText(qs, n - 1)|);
      Ok(prev + [p])
  }

  /** All paragraph images, paragraph by paragraph. */
  function Flatten(ps: seq<Paragraph>): seq<ImageInfo> {
    if ps == [] then [] else Flatten(ps[..|ps| - 1]) + ps[|ps| - 1].images
  }

  /** The record for picture `k` that no paragraph took, placed after the last paragraph. */
  function LeftoverImage(pic: PictureData, k: nat, textLength: int): ImageInfo {
    ImageInfo(k, NameOr(pic.fileName, "image_" + NatToString(k + 1) + "." + pic.ext), None, pic.ext, pic.data,
              Some(EmptyPosition.(paragraphIndex := Some(-1), charPosition := Some(textLength))))
  }

  /** The leftover bucket: when fewer images were anchored than the document has pictures,
      pictures `m .. |pics| - 1`. */
  function Leftovers(pics: seq<PictureData>, m: nat, textLength: int): (r: seq<ImageInfo>)
    ensures |r| == if m < |pics| then |pics| - m else 0
    ensures forall j :: 0 <= j < |r| ==> r[j] == LeftoverImage(pics[m + j], m + j, textLength)
  {
    if m < |pics| then seq(|pics| - m, j requires 0 <= j < |pics| - m => LeftoverImage(pics[m + j], m + j, textLength))
    else []
  }

  /** `parseDocxWithStructure`. */
  function ParseDocx(src: DocxSource): Result<DocumentContent> {
    var paras :- ParseParagraphs(src.paragraphs, src.pictures, |src.paragraphs|);
    var text := FullText(src.paragraphs, |src.paragraphs|);
    var anchored := Flatten(paras);
    Ok(DocumentContent(text, paras, anchored + Leftovers(src.pictures, |anchored|, |text|)))
  }

  /** `parseDocumentWithStructure`: only a name ending in ".docx", in any letter case, is
      parsed; a null name is a NullPointerException. */
  function ParseDocument(fileName: Option<string>, src: DocxSource): (r: Result<DocumentContent>)
    ensures fileName.None? ==> r == Err(NullPointer)
    ensures fileName.Some? && !EndsWith(ToLower(fileName.value), ".docx") ==> r == Err(UnsupportedOperation)
    ensures r.Ok? ==> fileName.Some? && EndsWith(ToLower(fileName.value), ".docx")
  {
    match fileName
    case None => Err(NullPointer)
    case Some(name) =>
      if EndsWith(ToLower(name), ".docx") then ParseDocx(src) else Err(UnsupportedOperation)
  }
}
