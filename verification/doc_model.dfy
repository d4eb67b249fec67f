/** The records of a parsed document shared by the parser, the position extractor,
    the association step and the chunker (the nested data classes of
    DocumentParserWithStructure). Lombok's `@Data` gives them value equality, which
    datatypes have too; byte arrays compare by content as `Arrays.equals` does, and a
    null array is `None`. */
module DocModel {
  import opened Std

  type Byte = bv8

  /** A text run of a paragraph; font attributes are not modelled. */
  datatype RunInfo = RunInfo(index: int, text: Option<string>)

  /** Where an image sits. Every field is nullable in the source. */
  datatype ImagePosition = ImagePosition(
    paragraphIndex: Option<int>,
    paragraphId: Option<int>,
    runIndex: Option<int>,
    charPosition: Option<int>,
    paragraphText: Option<string>,
    context: Option<string>,
    runText: Option<string>)

  /** The position record with every field null. */
  const EmptyPosition := ImagePosition(None, None, None, None, None, None, None)

  datatype ImageInfo = ImageInfo(
    index: int,
    fileName: string,
    filePath: Option<string>,
    format: string,
    data: Option<seq<Byte>>,
    position: Option<ImagePosition>)

  /** A parsed paragraph; the style map is not modelled. */
  datatype Paragraph = Paragraph(
    id: int,
    text: string,
    startPos: int,
    endPos: int,
    kind: string,
    level: int,
    runs: seq<RunInfo>,
    images: seq<ImageInfo>)

  datatype DocumentContent = DocumentContent(
    text: string,
    paragraphs: seq<Paragraph>,
    images: seq<ImageInfo>)

  /** The four entries of a chunk's metadata map. */
  datatype ChunkMeta = ChunkMeta(
    startParagraphId: int,
    endParagraphId: int,
    containsHeadings: bool,
    imageCount: int)

  datatype DocumentChunk = DocumentChunk(
    chunkId: int,
    text: string,
    images: seq<ImageInfo>,
    startParagraphIndex: int,
    endParagraphIndex: int,
    wordCount: int,
    charCount: int,
    metadata: ChunkMeta)

  /** `image.getPosition().getParagraphIndex().equals(index)`, guarded by the null checks. */
  predicate AnchoredAt(image: ImageInfo, index: Option<int>) {
    image.position.Some? && image.position.value.paragraphIndex.Some?
    && index == image.position.value.paragraphIndex
  }
}
