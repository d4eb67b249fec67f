# Document ingestion core, modelled in Dafny

The system imports Word (.docx) documents into a Milvus vector collection. It turns a document into paragraph records with character offsets, heading types and levels. It finds the embedded pictures and anchors each to the paragraph it sits in. It cuts the paragraph sequence into size-bounded chunks that end at major headings and carry their pictures. Before insertion, it sanitizes every field so that no value is null and every vector has the collection's dimension. Beside this path sit two plain-text chunkers, a flat paragraph parser, and an image extractor with small pure helpers.

This project states that logic as pure Dafny functions over immutable datatypes and proves what the code promises about it:

- **Partitioner** (`Chunking`, `ChunkProperties`): `chunkDocumentIntelligently`, `createDocumentChunk`, `hasHeadings`, `countWords`. The chunk ranges tile the paragraphs. A chunk of several paragraphs fits the budget. A level-1 or level-2 heading closes its chunk. Image lists are duplicate-free and anchored inside their chunk.
- **Structure parsers** (`StructureParser`, `StructureProperties`, `Patterns`, `PictureLookup`): the service parser's paragraph records, offsets, picture anchoring and leftover bucket. The component parser's id helpers, the map lookups and the XML numeric fallback. Every regular expression is written as a predicate on strings.
- **Position extractor and association** (`PositionExtractor`, `Association`): `ImageExtractorWithPosition` naming and position assignment, where the last occurrence wins. Then `associateImagesWithDocument`, `calculateCharPosition` and `getImageContext`.
- **Sanitizer and service helpers** (`Sanitizer`, `ServiceHelpers`): the V2 sanitizer and the first version's field fixing, plus `detectDocumentType`, `findImagesByPage` and `mergeSearchResults`.
- **Plain-text chunkers** (`TextChunker`, `ManualSections`, `ManualChunker`): `DocumentChunker` and `ManualDocumentChunker`. Each has a version as written, which can loop, throw or lose text, and a corrected version. Lemmas connect the two wherever the written one returns; for `ManualDocumentChunker` they do so from chunk size 49, below which the written loop can drop a character.
- **Flat parser and image helpers** (`FlatParser`, `ImageUtil`): `DocumentParser` and the pure helpers of `ImageExtractor`.
- **Shared modules**: `Std` holds `Option` and `Result`. `JavaText` holds the Java string operations the code relies on:
  - `trim` strips code units up to U+0020;
  - `split` drops trailing empty strings;
  - `toLowerCase` is taken on ASCII;
  - `Integer.parseInt`;
  - 32-bit wrap-around.
  `DocModel` holds the paragraph, image and chunk records.

A Java `String` is a `seq<char>`, one Dafny `char` per Java `char`, and `null` is `None`. A Dafny `char` is a Unicode scalar value, so this is exact for text inside the Basic Multilingual Plane; a character outside it is one `char` here and a surrogate pair of two in Java. A call that throws gives `Err(...)` naming the exception. Parts of the document that Apache POI would supply are parameters:
- the paragraph markup;
- the runs and their embedded pictures;
- the pictures' relationship ids and bytes.

A predicate that is only a definition, such as `isPictureInParagraph` (`StructureParser.IsPictureInParagraph`) or `isSentenceEnd` (`ManualChunker.IsSentenceEnd`), is checked through the lemmas that use it.

## Model

| member | source | states |
|---|---|---|
| JavaText.TrimSpec | src/main/java/com/example/langchain/milvus/service/MilvusServiceImplV2.java:1075 | `trim()` returns the substring left after removing the maximal leading and trailing runs of code units up to U+0020 |
| JavaText.SplitTrimmedIsTokens | src/main/java/com/example/langchain/milvus/service/MilvusServiceImplV2.java:1075 | splitting a trimmed, non-empty text on `\s+` gives exactly its maximal runs of non-`\s` code units |
| JavaText.PiecesOnJoin | src/main/java/com/example/langchain/milvus/utils/ManualDocumentChunker.java:288 | joining the pieces of a split on a literal separator with that separator gives the text back |
| JavaText.NatToStringRoundTrip | src/main/java/com/example/langchain/milvus/utils/ImageExtractor.java:1763-1764 | reading back the decimal digits written for a number gives the number |
| JavaText.ParseInt | src/main/java/com/example/langchain/milvus/service/DocumentParserWithStructure.java:305 | a parsed value is a 32-bit int read from an optionally signed digit string, and a plain digit string within range parses to its value |
| JavaText.Wrap32 | src/main/java/com/example/langchain/milvus/utils/ImageExtractor.java:1130 | the wrapped value is a 32-bit int congruent to the exact value modulo 2^32, and equal to it when that is already in range |
| Patterns.HeadingPatternsExclusive | src/main/java/com/example/langchain/milvus/service/DocumentParserWithStructure.java:309-316 | the chapter, two-part and three-part section patterns never hold together, so the order they are tried in does not matter |
| Patterns.NumberedItemMeans | src/main/java/com/example/langchain/milvus/service/DocumentParserWithStructure.java:289 | a numbered item is exactly digits, a list mark, one `\s` and a tail without line terminators |
| Chunking.CountWords | src/main/java/com/example/langchain/milvus/service/MilvusServiceImplV2.java:1070-1076 | the word count is zero exactly when the trimmed text is empty |
| Chunking.CountWordsIsTokens | src/main/java/com/example/langchain/milvus/service/MilvusServiceImplV2.java:1070-1076 | the count equals the number of maximal runs of non-`\s` code units in the trimmed text, each run non-empty and free of `\s` |
| Chunking.HasHeadings | src/main/java/com/example/langchain/milvus/service/MilvusServiceImplV2.java:661-676 | true exactly when the window lies inside the list and some paragraph in it is a heading or has a positive level |
| Chunking.FindImageByPosition | src/main/java/com/example/langchain/milvus/service/MilvusServiceImplV2.java:643-658 | a found image is a document image anchored at the position's paragraph; nothing is found only when no image is anchored there; the one found comes no later than any anchored image |
| Chunking.AddImages | src/main/java/com/example/langchain/milvus/service/MilvusServiceImplV2.java:779-787 | the list keeps its prefix, stays free of duplicates, and gains exactly the images the positions find |
| Chunking.MakeChunk | src/main/java/com/example/langchain/milvus/service/MilvusServiceImplV2.java:817-838 | `contains_headings` holds exactly when a paragraph of the range is heading-like, `image_count` is the number of images, and the word count is zero exactly when the trimmed text is empty |
| Chunking.ChunkDocument | src/main/java/com/example/langchain/milvus/service/MilvusServiceImplV2.java:744-815 | the chunk ranges tile the paragraphs left to right; chunk k has id k, the trimmed concatenated text of its paragraphs (each followed by a newline), the raw length and word count, the metadata of `createDocumentChunk`, each collected image once, no closing heading or non-overflowing step inside it, and ends at the document's end, at a heading of level at most 2, or before a paragraph that would overflow it |
| Chunking.RunKeepsInvariant | src/main/java/com/example/langchain/milvus/service/MilvusServiceImplV2.java:757-803 | the paragraph loop keeps its invariant: closed chunks correct and adjacent, the open buffer equal to the open paragraphs' text, its images collected once, no closing heading and only fitting steps inside it |
| Chunking.FinalDrafts | src/main/java/com/example/langchain/milvus/service/MilvusServiceImplV2.java:805-812 | closing the last open chunk after the loop completes a tiling of all paragraphs by correct chunks |
| ChunkProperties.EveryParagraphInOneChunk | src/main/java/com/example/langchain/milvus/service/MilvusServiceImplV2.java:744-815 | every paragraph index lies in exactly one chunk |
| ChunkProperties.ChunkSizeBound | src/main/java/com/example/langchain/milvus/service/MilvusServiceImplV2.java:761-762 | a chunk of two or more paragraphs has at most `chunkSize` characters |
| ChunkProperties.OverflowEndsChunk | src/main/java/com/example/langchain/milvus/service/MilvusServiceImplV2.java:761-773 | a chunk that is neither last nor ended by a heading would have exceeded `chunkSize` with the next paragraph |
| ChunkProperties.HeadingEndsChunk | src/main/java/com/example/langchain/milvus/service/MilvusServiceImplV2.java:789-801 | a heading of level at most 2 is the last paragraph of some chunk |
| ChunkProperties.FoundByMeans | src/main/java/com/example/langchain/milvus/service/MilvusServiceImplV2.java:779-787 | an image is found by a list of positions exactly when some position in it finds that image |
| ChunkProperties.CollectedMeans | src/main/java/com/example/langchain/milvus/service/MilvusServiceImplV2.java:779-787 | an image is collected for a paragraph range exactly when a position of some paragraph in the range finds it |
| ChunkProperties.ChunkImages | src/main/java/com/example/langchain/milvus/service/MilvusServiceImplV2.java:779-787 | an image belongs to a chunk exactly when a position of one of the chunk's paragraphs finds it |
| ChunkProperties.ChunkImagesAnchored | src/main/java/com/example/langchain/milvus/service/MilvusServiceImplV2.java:643-658 | with positions keyed by their paragraph, every image of a chunk is a document image anchored at one of the chunk's paragraphs |
| ChunkProperties.ChunkDocumentIsPartition | src/main/java/com/example/langchain/milvus/service/MilvusServiceImplV2.java:744-815 | the chunk ranges form the reference partition: consecutive, covering every paragraph, each greedy and each ended for a reason |
| ChunkProperties.PartitionUnique | src/main/java/com/example/langchain/milvus/service/MilvusServiceImplV2.java:744-815 | at most one list of ranges satisfies the reference partition |
| ChunkProperties.ChunkDocumentIsThePartition | src/main/java/com/example/langchain/milvus/service/MilvusServiceImplV2.java:744-815 | any list of ranges satisfying the reference partition is exactly the chunker's ranges |
| StructureParser.DetectParagraphType | src/main/java/com/example/langchain/milvus/service/DocumentParserWithStructure.java:284-300 | "heading" exactly when the trimmed text is under 150 code units and ends in an ASCII or full-width colon, or it is not a list item and a style is present; "list_item" exactly when the colon rule fails and a list pattern matches; "normal" otherwise |
| StructureParser.TextHeadingLevel | src/main/java/com/example/langchain/milvus/service/DocumentParserWithStructure.java:309-317 | the level is 1, 2 or 3 exactly when the chapter, two-number or three-number pattern matches the trimmed text, and 0 otherwise |
| StructureParser.DetectHeadingLevel | src/main/java/com/example/langchain/milvus/service/DocumentParserWithStructure.java:302-318 | without a style, the textual level; with one, success exactly when `Integer.parseInt` accepts the style, the level being the parsed value minus one modulo 2^32 in the `int` range; failure is a NumberFormatException |
| StructureParser.NameOr | src/main/java/com/example/langchain/milvus/service/DocumentParserWithStructure.java:113-117 | a null or empty file name is replaced by the fallback, any other name is kept |
| StructureParser.PicturesOfRun | src/main/java/com/example/langchain/milvus/service/DocumentParserWithStructure.java:101-142 | at most one image per embedded picture, numbered consecutively from the images already found |
| StructureParser.RunImages | src/main/java/com/example/langchain/milvus/service/DocumentParserWithStructure.java:87-149 | the images found in the runs are numbered 0, 1, 2, … in the order found |
| StructureParser.Leftovers | src/main/java/com/example/langchain/milvus/service/DocumentParserWithStructure.java:251-273 | when m images were anchored and the document has more pictures than that, one record per picture from index m on, in index order, whichever pictures were anchored; else none |
| StructureParser.ParseDocument | src/main/java/com/example/langchain/milvus/service/DocumentParserWithStructure.java:30-39 | a null name is a NullPointerException; a name whose lower-case form does not end in ".docx" is an UnsupportedOperationException; only ".docx" names are parsed |
| StructureProperties.ParseParagraphRecord | src/main/java/com/example/langchain/milvus/service/DocumentParserWithStructure.java:174-192 | one paragraph parses exactly when its level can be read, then into record i with the trimmed text, its offsets, type, level, runs and images |
| StructureProperties.ParseParagraphFails | src/main/java/com/example/langchain/milvus/service/DocumentParserWithStructure.java:190 | one paragraph fails exactly when it has a style that `Integer.parseInt` rejects, and then with a NumberFormatException |
| StructureProperties.ParseParagraphsFails | src/main/java/com/example/langchain/milvus/service/DocumentParserWithStructure.java:174-249 | parsing the paragraphs fails exactly when some paragraph has a non-numeric style, always with a NumberFormatException |
| StructureProperties.ParseParagraphsOrder | src/main/java/com/example/langchain/milvus/service/DocumentParserWithStructure.java:174-249 | a successful parse has one record per body paragraph, in order, none skipped |
| StructureProperties.ParseParagraphsSpec | src/main/java/com/example/langchain/milvus/service/DocumentParserWithStructure.java:174-249 | success exactly when every style is numeric, and then record i is paragraph i's record for every i |
| StructureProperties.FullTextPrefix | src/main/java/com/example/langchain/milvus/service/DocumentParserWithStructure.java:247-248 | the joined text of the first i paragraphs is a prefix of that of the first n |
| StructureProperties.ParagraphInFullText | src/main/java/com/example/langchain/milvus/service/DocumentParserWithStructure.java:183-248 | paragraph i's trimmed text sits at its start offset in the joined text, followed by a line feed |
| StructureProperties.RecordsAdjacent | src/main/java/com/example/langchain/milvus/service/DocumentParserWithStructure.java:185-186 | consecutive records are one line feed apart: the next starts one past the previous end |
| StructureProperties.ParseDocxOffsets | src/main/java/com/example/langchain/milvus/service/DocumentParserWithStructure.java:151-282 | the first paragraph starts at 0, each ends its text's length after its start, the next starts one past that end, and the joined text ends one past the last end; ids count 0, 1, 2, … |
| StructureProperties.ParseDocxTextAt | src/main/java/com/example/langchain/milvus/service/DocumentParserWithStructure.java:151-282 | every record's offsets lie inside the joined text and slice out exactly the record's text |
| StructureProperties.RelationshipImagesSpec | src/main/java/com/example/langchain/milvus/service/DocumentParserWithStructure.java:199-236 | method 1 takes exactly the pictures whose first relationship id the paragraph markup cites as embed, link or id, in increasing picture index, each positioned at the paragraph with run index -1 |
| StructureProperties.PicturesOfRunSpec | src/main/java/com/example/langchain/milvus/service/DocumentParserWithStructure.java:101-142 | a run contributes one image per embedded picture that has bytes, each positioned at its paragraph and run with the run's text |
| StructureProperties.RunImagesSpec | src/main/java/com/example/langchain/milvus/service/DocumentParserWithStructure.java:87-149 | method 2 yields exactly one image per embedded picture with bytes, each positioned at its paragraph and at one of its runs |
| StructureProperties.ParagraphImagesAnchored | src/main/java/com/example/langchain/milvus/service/DocumentParserWithStructure.java:197-243 | every image a paragraph record holds has that paragraph as index and id and the paragraph's start offset |
| StructureProperties.ParseDocxImages | src/main/java/com/example/langchain/milvus/service/DocumentParserWithStructure.java:244-273 | the document's images are the paragraphs' images in paragraph order followed, when fewer than the pictures, by the remaining pictures with paragraph index -1 and the joined text's length; max(anchored, pictures) in all |
| StructureProperties.NoPicturesNoImages | src/main/java/com/example/langchain/milvus/service/DocumentParserWithStructure.java:151-282 | a document without pictures and without embedded run pictures yields no images |
| StructureProperties.LeftoverRepeatsAnchored | src/main/java/com/example/langchain/milvus/service/DocumentParserWithStructure.java:251-273 | with pictures A and B where the paragraph markup cites only B, the document lists B twice, both records at index 1, and no image with A's bytes |
| StructureProperties.LeftoverLosesPicture | src/main/java/com/example/langchain/milvus/service/DocumentParserWithStructure.java:251-273 | a concrete document with pictures [1] and [2] and markup citing only the second gives two images, neither holding [1] |
| PositionExtractor.FindByData | src/main/java/com/example/langchain/milvus/service/ImageExtractorWithPosition.java:85-92 | a found record holds equal bytes and no earlier record does; nothing is found only when no record holds equal bytes |
| PositionExtractor.Assign | src/main/java/com/example/langchain/milvus/service/ImageExtractorWithPosition.java:62-79 | the walk keeps every record and changes nothing in it but its position |
| PositionExtractor.Occurrences | src/main/java/com/example/langchain/milvus/service/ImageExtractorWithPosition.java:62-79 | every embedded picture the walk meets names a paragraph of the document, a run of that paragraph, and that paragraph's text |
| PositionExtractor.ExtractImages | src/main/java/com/example/langchain/milvus/service/ImageExtractorWithPosition.java:24-31 | a null file name is a NullPointerException and a name not ending in ".docx" in any letter case gives an empty list |
| PositionExtractor.FindByDataIgnoresPositions | src/main/java/com/example/langchain/milvus/service/ImageExtractorWithPosition.java:85-92 | the lookup depends only on the records' bytes, so overwriting positions during the walk never changes which record later pictures find |
| PositionExtractor.AssignFails | src/main/java/com/example/langchain/milvus/service/ImageExtractorWithPosition.java:62-79 | the walk succeeds exactly when every embedded picture has picture data, and otherwise fails with a NullPointerException |
| PositionExtractor.LastOccurrenceWins | src/main/java/com/example/langchain/milvus/service/ImageExtractorWithPosition.java:62-79 | each record ends with the position of the last embedded picture whose bytes find it, or keeps its own when none does |
| PositionExtractor.ExtractImagesSpec | src/main/java/com/example/langchain/milvus/service/ImageExtractorWithPosition.java:33-83 | one record per picture in document order, with index `k`, name `image_<k>.<ext>`, the picture's extension and bytes, and the last-occurrence position |
| PositionExtractor.ExtractImagesFails | src/main/java/com/example/langchain/milvus/service/ImageExtractorWithPosition.java:33-83 | a ".docx" extraction fails exactly when a picture has no bytes or an embedded picture has no picture data, and then with a NullPointerException |
| PositionExtractor.ExtractedPositionsInRange | src/main/java/com/example/langchain/milvus/service/ImageExtractorWithPosition.java:62-79 | every recorded position names an existing paragraph and an existing run of it |
| Association.CalculateCharPosition | src/main/java/com/example/langchain/milvus/service/MilvusServiceImplV2.java:712-727 | the offset is the total text length of the runs before the image's run, 0 when the run index is out of range, and never more than the length of all runs |
| Association.ImageContext | src/main/java/com/example/langchain/milvus/service/MilvusServiceImplV2.java:731-740 | the context is the text of each paragraph of the window followed by a newline, in order |
| Association.ContextWindow | src/main/java/com/example/langchain/milvus/service/MilvusServiceImplV2.java:731-740 | the window holds exactly the paragraphs at most two away from the image's paragraph, at most five of them, including that paragraph when it exists |
| Association.AssociateFails | src/main/java/com/example/langchain/milvus/service/MilvusServiceImplV2.java:679-709 | grouping succeeds exactly when every positioned image has a paragraph index, and that index is past the last paragraph or names a paragraph while the run index is set |
| Association.AssociateGroups | src/main/java/com/example/langchain/milvus/service/MilvusServiceImplV2.java:679-709 | the map has a key exactly for each paragraph some image is anchored at, and that key's list is the completed positions of those images in image order |
| Association.AssociateSnoc | src/main/java/com/example/langchain/milvus/service/MilvusServiceImplV2.java:685-706 | one more image appends its completed position to its own paragraph's list and leaves every other list as it was |
| Association.AssociateKeyed | src/main/java/com/example/langchain/milvus/service/MilvusServiceImplV2.java:679-709 | every grouped position is filed under its own paragraph index, which is what the chunker's image lookup relies on |
| Association.ExtractedImagesAssociate | src/main/java/com/example/langchain/milvus/service/MilvusServiceImplV2.java:115-125 | on the import path the extractor's images always group against the structure parser's paragraphs for the same document |
| PictureLookup.FindIdMatch | src/main/java/com/example/langchain/milvus/component/DocumentParserWithStructure.java:462-464 | the match found is the leftmost index where `rId<digits>` or `image<digits>` starts, letters in any case, and nothing matches before it; none only when no index matches |
| PictureLookup.IdOfMediaName | src/main/java/com/example/langchain/milvus/component/DocumentParserWithStructure.java:473-482 | an id exactly for a name under `/media/` whose extension-less base name starts with "image", and then one that starts with "rId" |
| PictureLookup.ExtractRelationshipId | src/main/java/com/example/langchain/milvus/component/DocumentParserWithStructure.java:459-488 | null exactly for a null name, or a name with no id match that is not a `/media/` picture named "image…"; any id returned starts with "rId" or "image" in some letter case |
| PictureLookup.ImageFileNameGivesRelationshipId | src/main/java/com/example/langchain/milvus/component/DocumentParserWithStructure.java:465-468 | a name "image<digits>…" gives "rId<digits>" |
| PictureLookup.RelationshipFileNameKeepsId | src/main/java/com/example/langchain/milvus/component/DocumentParserWithStructure.java:465-470 | a name "rId<digits>…" gives "rId<digits>" back |
| PictureLookup.ExtractNumberFromId | src/main/java/com/example/langchain/milvus/component/DocumentParserWithStructure.java:656-668 | the result is never negative, and 0 when the id has no digit |
| PictureLookup.ExtractNumberFromIdOfWritten | src/main/java/com/example/langchain/milvus/component/DocumentParserWithStructure.java:656-668 | a number up to the `int` maximum written after a digit-free prefix and before a non-digit is read back exactly |
| PictureLookup.FindPictureInMap | src/main/java/com/example/langchain/milvus/component/DocumentParserWithStructure.java:825-847 | the exact key wins; otherwise a picture is found exactly when the id starts with "rId" and some key contains the rest of the id, and the picture found is that key's |
| PictureLookup.FindPictureById | src/main/java/com/example/langchain/milvus/component/DocumentParserWithStructure.java:950-968 | the exact key wins; otherwise a picture is found exactly when some key contains the id or is contained in it, and the picture found is that key's |
| PictureLookup.ResolveEmbedId | src/main/java/com/example/langchain/milvus/component/DocumentParserWithStructure.java:606-626 | the id lookup wins when it finds a picture; otherwise a picture is found exactly when the id's number `n` is between 1 and the number of pictures, and it is the `n`-th in iteration order |
| PictureLookup.ResolveRelationshipNumber | src/main/java/com/example/langchain/milvus/component/DocumentParserWithStructure.java:616-626 | an unmatched "rId<n>" with `n` between 1 and the number of pictures falls back to the `n`-th picture |
| PictureLookup.CreateImageInfo | src/main/java/com/example/langchain/milvus/component/DocumentParserWithStructure.java:970-1002 | the record keeps the index and bytes, has the suggested extension or "png", the picture's own name unless it is null or blank, never a blank name, and a position holding only the paragraph index and offset |
| PictureLookup.DefaultImageNamesDistinct | src/main/java/com/example/langchain/milvus/component/DocumentParserWithStructure.java:988-991 | two default names are equal only for the same paragraph, index and format |
| Sanitizer.DefaultFor | src/main/java/com/example/langchain/milvus/service/MilvusServiceImplV2.java:462-477 | never null: "{}" for metadata, the clock reading for create_time, an empty list for the vector, and "" for text, ids, images and any other name |
| Sanitizer.RemoveNulls | src/main/java/com/example/langchain/milvus/service/MilvusServiceImplV2.java:306-311 | the cleaned list has no null, is no longer than the original, and is the original when it held no null |
| Sanitizer.RemoveNullsAppend | src/main/java/com/example/langchain/milvus/service/MilvusServiceImplV2.java:306-311 | cleaning distributes over concatenation, so exactly the non-null elements survive, in their order |
| Sanitizer.RemoveNullsEmpty | src/main/java/com/example/langchain/milvus/service/MilvusServiceImplV2.java:312-316 | the cleaned list is empty exactly when the original held only nulls |
| Sanitizer.SanitizeField | src/main/java/com/example/langchain/milvus/service/MilvusServiceImplV2.java:232-335 | the field keeps its name and its number of values, a null list counting as empty; every vector entry has the configured dimension and holds only numbers; no other entry is null or a list with a null |
| Sanitizer.SanitizeFields | src/main/java/com/example/langchain/milvus/service/MilvusServiceImplV2.java:235-334 | every field is sanitized in place and in order |
| Sanitizer.SanitizeVectorSpec | src/main/java/com/example/langchain/milvus/service/MilvusServiceImplV2.java:246-287 | a well-formed vector entry is kept; a null, a non-list or a list of the wrong length becomes the zero vector; a non-number inside a kept list becomes 0 |
| Sanitizer.SanitizeValueSpec | src/main/java/com/example/langchain/milvus/service/MilvusServiceImplV2.java:289-322 | null, blank or "null" strings and lists holding only nulls become the default; other strings and objects are kept; other lists lose exactly their nulls |
| Sanitizer.SanitizeIdempotent | src/main/java/com/example/langchain/milvus/service/MilvusServiceImplV2.java:232-335 | sanitizing a sanitized field changes nothing |
| Sanitizer.FixJson | src/main/java/com/example/langchain/milvus/service/MilvusServiceImplV2.java:417-459 | the literal empty, "[]", "null" and "undefined" strings, unparsable text and empty arrays give "{}"; a non-empty array gives its wrapping object; any other JSON gives the trimmed text |
| Sanitizer.FixField | src/main/java/com/example/langchain/milvus/service/MilvusServiceImplV2.java:338-362 | the field keeps its name; a null list becomes the one default value; otherwise every value is fixed in place; afterwards no value is null and no list has a null |
| Sanitizer.FixFields | src/main/java/com/example/langchain/milvus/service/MilvusServiceImplV2.java:338-362 | every field is fixed in place and in order |
| Sanitizer.FixValueSpec | src/main/java/com/example/langchain/milvus/service/MilvusServiceImplV2.java:367-412 | empty or "null" strings and lists that are empty or hold only nulls become the default, metadata strings go through the JSON fix, other strings and objects are kept, and a list with some non-null keeps exactly those elements in order |
| Sanitizer.FirstDefaultFor | src/main/java/com/example/langchain/milvus/service/impl/MilvusServiceImpl.java:360-379 | "{}" for images and metadata, "" for text and ids, the clock reading for create_time, an empty list for the vector, "" otherwise |
| Sanitizer.FirstFixValue | src/main/java/com/example/langchain/milvus/service/impl/MilvusServiceImpl.java:271-310 | the result is never null and no list in it holds a null; a null or empty string becomes the field's default; a non-empty string of a JSON field (images, metadata) goes through the JSON fix, any other non-empty string is kept; a list keeps exactly its non-null elements, even when none is left; numbers and other objects are kept |
| Sanitizer.FirstFixFields | src/main/java/com/example/langchain/milvus/service/impl/MilvusServiceImpl.java:249-266 | succeeds exactly when no field has a null value list, failing otherwise with a NullPointerException; on success field i keeps its name and its number of values, value j of it is the fixed value j of the original field, and no value is null |
| ServiceHelpers.DetectDocumentType | src/main/java/com/example/langchain/milvus/service/impl/MilvusServiceImpl.java:922-947 | a manual exactly when the lower-cased text contains a manual keyword |
| ServiceHelpers.DetectDocumentTypeMonotone | src/main/java/com/example/langchain/milvus/service/impl/MilvusServiceImpl.java:922-947 | adding text before or after never moves the guess to a lower-priority type |
| ServiceHelpers.PaperOnlyByOwnKeywords | src/main/java/com/example/langchain/milvus/service/impl/MilvusServiceImpl.java:932-944 | because "abstract" and "结论" are also report keywords, a paper is recognised only by 参考文献, "reference", 摘要 or 引言 |
| ServiceHelpers.FindImagesByPage | src/main/java/com/example/langchain/milvus/service/impl/MilvusServiceImpl.java:1731-1760 | an image is returned exactly when it is a non-null member of a non-null list, its stored name is unused, and its page number equals the chunk index plus one as an `int` |
| ServiceHelpers.FindImagesByPageAppend | src/main/java/com/example/langchain/milvus/service/impl/MilvusServiceImpl.java:1740-1759 | the filter keeps the list's order: the result for two joined lists is the result for the first followed by the result for the second |
| ServiceHelpers.PutTextsSpec | src/main/java/com/example/langchain/milvus/service/impl/MilvusServiceImpl.java:2075-2079 | after the text loop the map holds each passing chunk id once, in order of first appearance, with the last passing text result for it |
| ServiceHelpers.AddImagesSpec | src/main/java/com/example/langchain/milvus/service/impl/MilvusServiceImpl.java:2081-2087 | the image loop keeps every earlier entry and adds each new passing chunk id once, in order of first appearance, with the first passing image result for it |
| ServiceHelpers.MergeSearchResultsSpec | src/main/java/com/example/langchain/milvus/service/impl/MilvusServiceImpl.java:2067-2090 | the merge has one result per passing chunk id, in order of first appearance among text then image results, each the last passing text result for its id or, without one, the first passing image result |
| ServiceHelpers.MergeSearchResultsProperties | src/main/java/com/example/langchain/milvus/service/impl/MilvusServiceImpl.java:2067-2090 | every merged result passes the threshold and comes from one of the two lists, chunk ids are distinct, and a text result beats an image result with the same chunk id |
| TextChunker.LastPunct | src/main/java/com/example/langchain/milvus/utils/DocumentChunker.java:153-164 | the index found holds sentence punctuation and no later index in the range does; -1 when none does |
| TextChunker.LastIndexOfFrom | src/main/java/com/example/langchain/milvus/utils/DocumentChunker.java:171 | the index found is at most `from` and holds the character, or -1 |
| TextChunker.FindSentenceBoundary | src/main/java/com/example/langchain/milvus/utils/DocumentChunker.java:142-177 | the text's length for a target at or past the end; otherwise the target itself, just after punctuation less than 100 before it, a space less than 50 before it, or -1 for a target under 49; a `StringIndexOutOfBoundsException` exactly when the target is below -100 |
| TextChunker.WindowEnd | src/main/java/com/example/langchain/milvus/utils/DocumentChunker.java:113-121 | a window never ends past the paragraph or more than one past `start + chunkSize`, and for a positive chunk size it ends after `start` |
| TextChunker.SplitStepAsWritten | src/main/java/com/example/langchain/milvus/utils/DocumentChunker.java:123-131 | the next start is the window's end minus the overlap, floored at 0; without overlap that is always a forward step |
| TextChunker.SplitLongParagraphLoops | src/main/java/com/example/langchain/milvus/utils/DocumentChunker.java:111-137 | on "aaa" with chunk size 2 and overlap 1 the start goes 0, 1, 2, 2: the loop emits "a" forever |
| TextChunker.NextStart | src/main/java/com/example/langchain/milvus/utils/DocumentChunker.java:128-131 | the corrected step always moves the start forward |
| TextChunker.SplitLongParagraphSpec | src/main/java/com/example/langchain/milvus/utils/DocumentChunker.java:103-140 | for a paragraph longer than the chunk size the pieces are exactly the non-empty trimmed windows of the walk the loop takes (each window ends where `findSentenceBoundary` says, the next starts `overlap` before that end but at least one further on, and the walk stops at the window that reaches the end or whose successor would start past it), and with a positive chunk size and an overlap that is not negative every visible code unit lies in some piece |
| TextChunker.SplitFromChain | src/main/java/com/example/langchain/milvus/utils/DocumentChunker.java:111-137 | a successful split from `start` is the non-empty trimmed windows of some window walk from `start` |
| TextChunker.ChainSplit | src/main/java/com/example/langchain/milvus/utils/DocumentChunker.java:111-137 | conversely, the split of any window walk from `start` is exactly that walk's non-empty trimmed windows |
| TextChunker.SplitFromCovers | src/main/java/com/example/langchain/milvus/utils/DocumentChunker.java:111-137 | with a positive chunk size and an overlap that is not negative, every visible code unit at or after `start` lies in some piece, taken whole or trimmed |
| TextChunker.SplitFromStopsAtEnd | src/main/java/com/example/langchain/milvus/utils/DocumentChunker.java:111-137 | "abcdef" with chunk size 4 and overlap 2 gives "abcd" and "cdef" only: the walk stops once a window reaches the end |
| TextChunker.SeparatorEnd | src/main/java/com/example/langchain/milvus/utils/DocumentChunker.java:33 | a match of `\n\s*\n` starting at a newline ends at a later newline with only spaces between, and none exists only when every later newline has a non-space before it |
| TextChunker.FirstSeparator | src/main/java/com/example/langchain/milvus/utils/DocumentChunker.java:33 | the separator found is the leftmost at or after the index, and none precedes it |
| TextChunker.Paragraphs | src/main/java/com/example/langchain/milvus/utils/DocumentChunker.java:33 | the whole text when there is no blank line, and no piece contains a blank line |
| TextChunker.SplitBlankLinesClean | src/main/java/com/example/langchain/milvus/utils/DocumentChunker.java:33 | no piece of the split contains the separator |
| TextChunker.OverlapSeed | src/main/java/com/example/langchain/milvus/utils/DocumentChunker.java:74-79 | the overlap is the last `min(overlap, length)` characters of the chunk before the flushed one |
| TextChunker.AddParagraph | src/main/java/com/example/langchain/milvus/utils/DocumentChunker.java:37-92 | a blank paragraph changes nothing; one that fits is appended after a blank line; one that overflows flushes the trimmed chunk and restarts from the overlap; a long one flushes and adds its split pieces; the chunk list only grows |
| TextChunker.ChunkBySemantic | src/main/java/com/example/langchain/milvus/utils/DocumentChunker.java:22-101 | no chunks for a text without a visible character; a positive chunk size never fails |
| TextChunker.AddParagraphsGood | src/main/java/com/example/langchain/milvus/utils/DocumentChunker.java:37-93 | every flushed chunk is non-empty and trimmed, and the chunk being built holds a visible character whenever its size is positive |
| TextChunker.ChunksTidy | src/main/java/com/example/langchain/milvus/utils/DocumentChunker.java:22-101 | every chunk returned is non-empty and trimmed |
| TextChunker.ShortKept | src/main/java/com/example/langchain/milvus/utils/DocumentChunker.java:37-93 | after the loop every non-blank paragraph within the chunk size lies in some flushed chunk or in the chunk being built |
| TextChunker.ShortParagraphsKept | src/main/java/com/example/langchain/milvus/utils/DocumentChunker.java:22-101 | every non-blank paragraph within the chunk size occurs, trimmed, inside some returned chunk |
| ManualSections.IsTableRow | src/main/java/com/example/langchain/milvus/utils/ManualDocumentChunker.java:206-212 | a table row exactly when the trimmed line starts with "\|" or "+", or starts with "-" and holds more than three dashes |
| ManualSections.CodeBlockAt | src/main/java/com/example/langchain/milvus/utils/ManualDocumentChunker.java:217-232 | the raw line counts as code exactly when it or some earlier line starts with four spaces, a tab or a code fence |
| ManualSections.IsCodeBlock | src/main/java/com/example/langchain/milvus/utils/ManualDocumentChunker.java:217-232 | the trimmed line counts as code exactly when it starts code itself or some earlier raw line does |
| ManualSections.DottedSectionNeedsDigitsAfterDot | src/main/java/com/example/langchain/milvus/utils/ManualDocumentChunker.java:20-21 | "1.1 概述" matches the numbered-section pattern and "1. 简介" does not |
| ManualSections.IsHeadingFormat | src/main/java/com/example/langchain/milvus/utils/ManualDocumentChunker.java:237-260 | a line is a heading format exactly when it is shorter than 50 and lies between blank lines or the document's ends, or is wrapped in "**", or is wrapped in "==" |
| ManualSections.IsSectionTitle | src/main/java/com/example/langchain/milvus/utils/ManualDocumentChunker.java:161-201 | a title is a non-empty line of at most 200 code units that is no table row and follows no code line; every such line matching a section pattern is a title |
| ManualSections.SectionsOfIsSegments | src/main/java/com/example/langchain/milvus/utils/ManualDocumentChunker.java:110-156 | the line loop yields exactly the segments between consecutive title lines, with the leading segment kept only when it has content |
| ManualSections.SectionsCover | src/main/java/com/example/langchain/milvus/utils/ManualDocumentChunker.java:110-156 | every title line not spelt "文档开始" starts a section holding the raw lines up to the next title, and every non-empty non-title line lies in the content of a section starting at or before it |
| ManualChunker.LastBreak | src/main/java/com/example/langchain/milvus/utils/ManualDocumentChunker.java:477-496 | the break found lies in the window and no later index in the window is a break of that kind |
| ManualChunker.FindGoodBreakPoint | src/main/java/com/example/langchain/milvus/utils/ManualDocumentChunker.java:471-499 | the text's length for a position at or past the end; otherwise the position itself or a paragraph, sentence or word break within reach (100, 50, 30) before it, and the last paragraph break in reach whenever there is one |
| ManualChunker.ChunkByLengthAsWritten | src/main/java/com/example/langchain/milvus/utils/ManualDocumentChunker.java:436-466 | a text within the chunk size is its only chunk |
| ManualChunker.ChunkByLengthThrows | src/main/java/com/example/langchain/milvus/utils/ManualDocumentChunker.java:444-463 | "\n\naaaaaaaaaa" with chunk size 5 throws: the break point moves back to 0, before the window's start, and `substring` fails |
| ManualChunker.WindowsShape | src/main/java/com/example/langchain/milvus/utils/ManualDocumentChunker.java:444-463 | with the break point kept inside the window, every chunk is at most one longer than the chunk size and trimmed and non-empty, except possibly the last, which is a suffix of the text |
| ManualChunker.ChunkByLength | src/main/java/com/example/langchain/milvus/utils/ManualDocumentChunker.java:436-466 | a text within the chunk size is its only chunk; a longer one gives exactly the pieces of a window walk from 0 (`LengthChain`), in order: a window `[a, e)` ends at the text's end once `a + chunkSize` reaches it and otherwise at the good break point kept inside the window, the next window starts at `max(a + 1, e - overlap)`, each window gives its trimmed text when that is not empty, and the final one gives the rest of the text untrimmed; the chunks are at most one longer than the chunk size, trimmed and non-empty except a last one that is a suffix of the text; with an overlap that is not negative every visible code unit lies in some chunk |
| ManualChunker.WindowsFromChain | src/main/java/com/example/langchain/milvus/utils/ManualDocumentChunker.java:444-463 | the loop from any start gives the pieces of a window walk from that start |
| ManualChunker.ChainWindows | src/main/java/com/example/langchain/milvus/utils/ManualDocumentChunker.java:444-463 | every window walk from a start gives what the loop from that start gives, so the walk determines the chunks |
| ManualChunker.ChunkByLengthSpec | src/main/java/com/example/langchain/milvus/utils/ManualDocumentChunker.java:436-466 | a text longer than the chunk size is cut along a window walk from 0, and every window walk from 0 gives those same chunks |
| ManualChunker.LengthAgrees | src/main/java/com/example/langchain/milvus/utils/ManualDocumentChunker.java:444-463 | from chunk size 49, wherever the loop as written returns it returns the corrected windows; from 100 the break point never falls before the window's start, so it always returns |
| ManualChunker.WindowStop | src/main/java/com/example/langchain/milvus/utils/ManualDocumentChunker.java:444-463 | the corrected window end lies inside the window; it is the good break point whenever that lies past the start, or at the start on a code unit trimming drops; it equals the start only on such a code unit |
| ManualChunker.BreakAtStartIsSpace | src/main/java/com/example/langchain/milvus/utils/ManualDocumentChunker.java:444-463 | from chunk size 49 a break point at the window's start is on a code unit trimming drops, so the source's step by one loses nothing there |
| ManualChunker.EmptyWindowSkipped | src/main/java/com/example/langchain/milvus/utils/ManualDocumentChunker.java:444-463 | on "ab\n\ncdef\n\nhij" with chunk size 5 and no overlap the break at the window's start yields an empty window that is skipped, and both loops give "ab", "cdef", "\n\nhij" |
| ManualChunker.ChunkByLengthDropsText | src/main/java/com/example/langchain/milvus/utils/ManualDocumentChunker.java:444-463 | on "ab.cdef.hij" with chunk size 3 and no overlap the loop as written returns "ab.", "def.", "hij": the "c" is in no chunk |
| JavaText.CollapseShape | src/main/java/com/example/langchain/milvus/utils/ManualDocumentChunker.java:403 | after collapsing, every space is a single ' ', no two spaces are adjacent, and the result starts with a space exactly when the input does |
| JavaText.CollapseKeepsText | src/main/java/com/example/langchain/milvus/utils/ManualDocumentChunker.java:403 | collapsing keeps every non-space character, in order |
| JavaText.CollapseBeforeText | src/main/java/com/example/langchain/milvus/utils/ManualDocumentChunker.java:403 | collapsing a text whose second part does not start with `\s` collapses the two parts separately |
| JavaText.CollapseAfterCollapsed | src/main/java/com/example/langchain/milvus/utils/ManualDocumentChunker.java:403 | text already in collapsed form that does not end in `\s` passes through collapsing unchanged, and whatever follows it is collapsed on its own |
| ManualChunker.CleanTidy | src/main/java/com/example/langchain/milvus/utils/ManualDocumentChunker.java:396-405 | the cleaned chunk is empty exactly when the chunk is blank, and otherwise trimmed |
| ManualChunker.MoveText | src/main/java/com/example/langchain/milvus/utils/ManualDocumentChunker.java:396-427 | a pushed or short last chunk carries the cleaned chunk, and a kept chunk ends with it, after its label when there is one |
| ManualChunker.PostMove | src/main/java/com/example/langchain/milvus/utils/ManualDocumentChunker.java:396-427 | a chunk is skipped exactly when blank; a short chunk is pushed forward unless it is the last; a kept chunk has at least 20 code units and, when there are several chunks, starts with its part label |
| ManualChunker.PostProcessThrows | src/main/java/com/example/langchain/milvus/utils/ManualDocumentChunker.java:408-419 | on ["abcde", "fgh"] the short first chunk is pushed into the second, and the short merged last chunk reaches `processed.set(-1, …)` on an empty list |
| ManualChunker.PostAgrees | src/main/java/com/example/langchain/milvus/utils/ManualDocumentChunker.java:392-431 | wherever the loop as written does not throw, it gives what the corrected loop gives |
| ManualChunker.PostProcessJoins | src/main/java/com/example/langchain/milvus/utils/ManualDocumentChunker.java:408-419 | the corrected loop turns ["abcde", "fgh"] into the single chunk "abcde fgh" |
| ManualChunker.CleanPushed | src/main/java/com/example/langchain/milvus/utils/ManualDocumentChunker.java:403-411 | a short cleaned chunk prepended with "\n\n" to the next chunk makes that chunk not blank, and cleaning it gives the short chunk first and the next chunk's cleaned text last |
| ManualChunker.PostKeepsText | src/main/java/com/example/langchain/milvus/utils/ManualDocumentChunker.java:392-431 | nothing is dropped: the cleaned text of every input chunk that is not blank occurs inside some output chunk, whether it was kept, pushed into the next chunk or merged into the last kept one |
| ManualChunker.PostProcessSpec | src/main/java/com/example/langchain/milvus/utils/ManualDocumentChunker.java:392-431 | every output chunk is non-empty and trimmed; the output is empty exactly when every input chunk is blank; with two or more outputs each has at least 20 code units and, for several inputs, a part label; the cleaned text of every input chunk that is not blank occurs inside some output chunk |
| ManualChunker.BuildChunk | src/main/java/com/example/langchain/milvus/utils/ManualDocumentChunker.java:370-375 | the chunk starts with the title and ends with the content |
| ManualChunker.MergeChunks | src/main/java/com/example/langchain/milvus/utils/ManualDocumentChunker.java:380-387 | the merge starts with the first chunk, ends with the second, and adds a "。" between them exactly when the first does not already end a sentence |
| ManualChunker.HandleSmallSection | src/main/java/com/example/langchain/milvus/utils/ManualDocumentChunker.java:265-279 | a small section merges into a last chunk shorter than 300 and is added otherwise; earlier chunks are only extended, and the last chunk ends with the section's chunk |
| ManualChunker.SplitBySentences | src/main/java/com/example/langchain/milvus/utils/ManualDocumentChunker.java:328-365 | earlier chunks are kept and parts are only appended |
| ManualChunker.SplitLargeSection | src/main/java/com/example/langchain/milvus/utils/ManualDocumentChunker.java:284-323 | earlier chunks are kept and parts are only appended |
| ManualChunker.PackJoin | src/main/java/com/example/langchain/milvus/utils/ManualDocumentChunker.java:296-322 | packing loses and reorders nothing: its parts joined by the separator are the items joined by it |
| ManualChunker.ParagraphPartsSpec | src/main/java/com/example/langchain/milvus/utils/ManualDocumentChunker.java:284-323 | the paragraph parts joined by a blank line are the section's non-blank paragraphs joined the same way, and each part stays within 1500 plus the separator unless it is one paragraph |
| ManualChunker.SentencePartsSpec | src/main/java/com/example/langchain/milvus/utils/ManualDocumentChunker.java:328-365 | the sentence parts joined by "。" are the section's trimmed sentences joined the same way, and each part stays within 1500 plus the separator unless it is one sentence |
| ManualChunker.AddSections | src/main/java/com/example/langchain/milvus/utils/ManualDocumentChunker.java:84-102 | earlier chunks are only extended and never dropped |
| ManualChunker.AddSectionsKeep | src/main/java/com/example/langchain/milvus/utils/ManualDocumentChunker.java:84-102 | every section of at most 2000 code units ends up, title and content, inside one chunk |
| ManualChunker.IntelligentKeeps | src/main/java/com/example/langchain/milvus/utils/ManualDocumentChunker.java:77-105 | every section of at most 2000 code units of the text lies, title and content, inside one chunk |
| ManualChunker.ChunkBySemanticAsWritten | src/main/java/com/example/langchain/milvus/utils/ManualDocumentChunker.java:54-72 | a null or blank text gives no chunks |
| ManualChunker.ChunkBySemantic | src/main/java/com/example/langchain/milvus/utils/ManualDocumentChunker.java:54-72 | a null or blank text gives no chunks; every chunk is non-empty and trimmed; and for any other text the cleaned text of every window or section that is not blank occurs inside some chunk |
| ManualChunker.ByLengthAgrees | src/main/java/com/example/langchain/milvus/utils/ManualDocumentChunker.java:436-466 | from chunk size 49 the length-based chunker as written agrees with the corrected one wherever it returns, and from 100 it always returns |
| ManualChunker.ChunkBySemanticAgrees | src/main/java/com/example/langchain/milvus/utils/ManualDocumentChunker.java:54-72 | for chunk sizes that are absent, not positive, or at least 49, the chunker as written agrees with the corrected one wherever it does not throw |
| ManualChunker.LengthChunksExist | src/main/java/com/example/langchain/milvus/utils/ManualDocumentChunker.java:54-72 | a non-blank text with a positive chunk size and non-negative overlap always gives some chunk |
| ManualChunker.LengthCutsPlainText | src/main/java/com/example/langchain/milvus/utils/ManualDocumentChunker.java:436-466 | "abcdefgh" with chunk size 5 and no overlap is cut into "abcde" and "fgh" |
| ManualChunker.ChunkBySemanticThrows | src/main/java/com/example/langchain/milvus/utils/ManualDocumentChunker.java:54-72 | "abcdefgh" with chunk size 5 and overlap 0 throws `IndexOutOfBoundsException` inside the post-processing |
| FlatParser.DetectParagraphType | src/main/java/com/example/langchain/milvus/utils/DocumentParser.java:448-488 | one of the six kinds; "empty" exactly for blank text; a title or heading style makes non-blank text a heading; a list item, table caption or figure caption only when the trimmed text matches that pattern |
| FlatParser.TypeIgnoresPadding | src/main/java/com/example/langchain/milvus/utils/DocumentParser.java:448-488 | the type depends only on the trimmed text |
| FlatParser.ColonRuleIsAscii | src/main/java/com/example/langchain/milvus/utils/DocumentParser.java:465-468 | a short line ending in the full-width colon is not a heading in this parser |
| FlatParser.StyleLevel | src/main/java/com/example/langchain/milvus/utils/DocumentParser.java:490-506 | a level from the style lies between 1 and 6 |
| FlatParser.HeadingStyleLevels | src/main/java/com/example/langchain/milvus/utils/DocumentParser.java:490-506 | "Title" and "Heading1" give level 1 and "Heading2" to "Heading6" give levels 2 to 6 |
| FlatParser.HeadingDigitLevel | src/main/java/com/example/langchain/milvus/utils/DocumentParser.java:490-506 | "Heading" followed by a digit from 1 to 6 gives that level |
| FlatParser.DottedNumberHasDot | src/main/java/com/example/langchain/milvus/utils/DocumentParser.java:510-512 | text that matches the numbered form of the level-1 test always contains a dot, so that form can never give level 1 |
| FlatParser.TextLevel | src/main/java/com/example/langchain/milvus/utils/DocumentParser.java:509-520 | level 1 exactly for a chapter heading shorter than 100; levels 2 and 3 only for the two- and three-number forms; 0 for text of 100 or more |
| FlatParser.DetectHeadingLevel | src/main/java/com/example/langchain/milvus/utils/DocumentParser.java:490-523 | between 0 and 6: the style's level when the style gives one, the textual level otherwise |
| FlatParser.ParseParagraph | src/main/java/com/example/langchain/milvus/utils/DocumentParser.java:410-446 | the end offset lies the text's length past the start; a numbering level makes the record a list item with that level; otherwise its type is the detected one; its level lies between 0 and 6 |
| FlatParser.ParseTable | src/main/java/com/example/langchain/milvus/utils/DocumentParser.java:613-655 | a "table" record with the trimmed flattened text and the row count, column count and cell texts of the table |
| FlatParser.TableEndPastText | src/main/java/com/example/langchain/milvus/utils/DocumentParser.java:613-655 | for a non-empty table the end offset lies past the end of the trimmed text, because it is measured on the untrimmed text |
| FlatParser.TableTextDecodes | src/main/java/com/example/langchain/milvus/utils/DocumentParser.java:617-628 | when no cell holds a tab or newline, splitting the flattened text on newlines and then tabs gives back the rows and cells |
| FlatParser.Record | src/main/java/com/example/langchain/milvus/utils/DocumentParser.java:162-195 | an element contributes a record exactly when it is a paragraph or table with non-blank text, and that record carries the element's text, index, offset and id |
| FlatParser.SurvivorsSpec | src/main/java/com/example/langchain/milvus/utils/DocumentParser.java:159-196 | the surviving element indices are exactly the kept elements, ascending |
| FlatParser.BodyKeeps | src/main/java/com/example/langchain/milvus/utils/DocumentParser.java:159-196 | one record per surviving element, in element order, carrying that element's text and index |
| FlatParser.BodyNonBlank | src/main/java/com/example/langchain/milvus/utils/DocumentParser.java:159-196 | no record has blank text |
| FlatParser.BodyIds | src/main/java/com/example/langchain/milvus/utils/DocumentParser.java:159-196 | record ids run 0, 1, 2, … in order |
| FlatParser.BodyChain | src/main/java/com/example/langchain/milvus/utils/DocumentParser.java:159-196 | the joined text is each record's text followed by a blank line, and each record's start offset is the length of the joined text before it |
| FlatParser.BodyOffsets | src/main/java/com/example/langchain/milvus/utils/DocumentParser.java:159-196 | the first record starts at 0 and each next one starts two past the end of the previous text |
| FlatParser.Marked | src/main/java/com/example/langchain/milvus/utils/DocumentParser.java:198-222 | the header or footer loop keeps the earlier records and text, adds only non-blank records of its own kind, and keeps ids in order |
| FlatParser.ParseDocxShape | src/main/java/com/example/langchain/milvus/utils/DocumentParser.java:149-241 | the records are the body records, then header and footer records; ids run in order; no record is blank |
| FlatParser.ParseDocument | src/main/java/com/example/langchain/milvus/utils/DocumentParser.java:116-143 | a null file name throws; content comes back exactly for a ".docx" name in any letter case, an openable document, and numbering levels that parse as `int`; anything else gives null |
| FlatParser.PutIfNotNull | src/main/java/com/example/langchain/milvus/utils/DocumentParser.java:386-390 | a null or blank value leaves the map as it was; any other is stored trimmed under the key; no other key changes |
| FlatParser.PutStoresTrimmed | src/main/java/com/example/langchain/milvus/utils/DocumentParser.java:386-390 | a stored value is non-empty and already trimmed |
| FlatParser.FileExtension | src/main/java/com/example/langchain/milvus/utils/DocumentParser.java:740-750 | the extension has no dot and is lower-case, and is empty exactly for a null name, a name without a dot, or a name ending in a dot |
| FlatParser.ExtensionRoundTrip | src/main/java/com/example/langchain/milvus/utils/DocumentParser.java:740-750 | a base, a dot and a dot-free extension give back the lower-cased extension |
| ImageUtil.FirstKeyword | src/main/java/com/example/langchain/milvus/utils/ImageExtractor.java:1830-1837 | the extension found is that of the first keyword, in the source's order, that the content type contains, and none is found exactly when it contains no keyword from there on |
| ImageUtil.ContentTypeExtension | src/main/java/com/example/langchain/milvus/utils/ImageExtractor.java:1817-1840 | a null content type gives no extension; any extension given is a lower-case ASCII word |
| ImageUtil.StandardContentTypes | src/main/java/com/example/langchain/milvus/utils/ImageExtractor.java:1830-1837 | image/png, image/jpeg, image/gif and image/x-emf give png, jpg, gif and emf; image/svg+xml gives none |
| ImageUtil.ChooseExtension | src/main/java/com/example/langchain/milvus/utils/ImageExtractor.java:139-146 | the saved extension is never empty, holds no dot, is lower case, and is the content type's extension whenever that one exists |
| ImageUtil.BaseFileName | src/main/java/com/example/langchain/milvus/utils/ImageExtractor.java:1845-1854 | "file" for a null name; otherwise the name cut before its last dot when some dot lies past index 0, and the whole name when none does |
| ImageUtil.SavedNameExtension | src/main/java/com/example/langchain/milvus/utils/ImageExtractor.java:1763-1764 | reading the extension back from "<base>_img<n>.<ext>" gives the extension the picture was saved under |
| ImageUtil.CollectFrom | src/main/java/com/example/langchain/milvus/utils/ImageExtractor.java:127-196 | every index the loop saves is a picture of the document |
| ImageUtil.EligibleFrom | src/main/java/com/example/langchain/milvus/utils/ImageExtractor.java:127-196 | the reference list names only pictures of the document from the start index on |
| ImageUtil.CollectFromIsPrefix | src/main/java/com/example/langchain/milvus/utils/ImageExtractor.java:127-196 | the loop, started with fewer than 100 saved, saves the eligible pictures from its start index on, cut at 100 images in total |
| ImageUtil.EligibleFromSpec | src/main/java/com/example/langchain/milvus/utils/ImageExtractor.java:131-160 | the reference list holds, ascending, exactly the pictures whose size is in range and that were saved |
| ImageUtil.CollectIndices | src/main/java/com/example/langchain/milvus/utils/ImageExtractor.java:127-196 | the loop saves the first 100 eligible pictures, in document order |
| ImageUtil.CollectDocxImagesSpec | src/main/java/com/example/langchain/milvus/utils/ImageExtractor.java:127-196 | the images returned are the first 100 eligible pictures, each named with its one-based index in the document |
| ImageUtil.CollectKeepsAll | src/main/java/com/example/langchain/milvus/utils/ImageExtractor.java:127-196 | in a document with at most 100 eligible pictures, every eligible picture is among the images returned |
| ImageUtil.PositionIndex | src/main/java/com/example/langchain/milvus/utils/ImageExtractor.java:1127-1131 | the position index is a 32-bit value |
| ImageUtil.PositionIndexDecodes | src/main/java/com/example/langchain/milvus/utils/ImageExtractor.java:1127-1131 | with run and inline index below 100 and no overflow, the index decodes back to paragraph, run and inline index, whatever the image index |
| ImageUtil.AbsolutePosition | src/main/java/com/example/langchain/milvus/utils/ImageExtractor.java:1136-1139 | the absolute position is a 32-bit value |
| ImageUtil.AbsolutePositionDecodes | src/main/java/com/example/langchain/milvus/utils/ImageExtractor.java:1136-1139 | with run below 100, image below 10 and no overflow, the absolute position decodes back to its three parts |
| ImageUtil.JavaDiv | src/main/java/com/example/langchain/milvus/utils/ImageExtractor.java:1147 | Java's integer division: the floor for non-negative dividends, and zero or a negative quotient, zero exactly above minus the divisor, for negative ones |
| ImageUtil.EstimatePageNumber | src/main/java/com/example/langchain/milvus/utils/ImageExtractor.java:1144-1148 | the page is at least 1, and for a non-negative paragraph index it is the index's block of twenty plus one |
| ImageUtil.RemoveControls | src/main/java/com/example/langchain/milvus/utils/ImageExtractor.java:347 | no control character U+0000 to U+001F or U+007F is left, and the text does not grow |
| ImageUtil.RemoveBom | src/main/java/com/example/langchain/milvus/utils/ImageExtractor.java:348 | no byte-order mark is left, the text does not grow, and every code unit left comes from the input |
| ImageUtil.CollapseNewlinesFree | src/main/java/com/example/langchain/milvus/utils/ImageExtractor.java:344 | the newline pass leaves text without a newline as it is |
| ImageUtil.CleanParagraphText | src/main/java/com/example/langchain/milvus/utils/ImageExtractor.java:336-351 | the cleaned text holds no control character and no byte-order mark |
| ImageUtil.NewlinePassIsIdle | src/main/java/com/example/langchain/milvus/utils/ImageExtractor.java:342-344 | after the `\s+` pass no newline is left, so the `\n+` pass changes nothing |
| ImageUtil.CleanKeepsShown | src/main/java/com/example/langchain/milvus/utils/ImageExtractor.java:336-351 | cleaning drops only spacing, control characters and byte-order marks: every other code unit survives, in order |
| ImageUtil.RelationshipIdFromBlip | src/main/java/com/example/langchain/milvus/utils/ImageExtractor.java:975-998 | an id given is "rId" followed by the end of the blip id; a blip id starting with "rId" is returned as it is; any other id given is "rId" and a non-empty run of digits |
| ImageUtil.RelationshipIdAfterPrefix | src/main/java/com/example/langchain/milvus/utils/ImageExtractor.java:986-995 | a prefix without an 'r' followed by "rId" and digits gives "rId" and those digits |
| ImageUtil.OnlyFirstRelationshipId | src/main/java/com/example/langchain/milvus/utils/ImageExtractor.java:986-995 | only the first "rId" is tried: "xrIdArId7" gives null although a well-formed id follows |
| ImageUtil.Spanned | src/main/java/com/example/langchain/milvus/utils/ImageExtractor.java:1877-1880 | the first i paragraphs span at least i characters |
| ImageUtil.SpannedGrows | src/main/java/com/example/langchain/milvus/utils/ImageExtractor.java:1877-1880 | each further paragraph adds at least its end mark to the span |
| ImageUtil.FindPictureParagraphIndex | src/main/java/com/example/langchain/milvus/utils/ImageExtractor.java:1874-1891 | the paragraph returned is the first whose end lies past the offset, and 0 when the offset lies past the last paragraph |

## Where the code and its design description differ

The model follows the code in each case below.

- **Paragraph type in the service parser.** The description checks the style before the colon rule. `detectParagraphType` tries the colon rule first (service/DocumentParserWithStructure.java:284-300), and `StructureParser.DetectParagraphType` does too.
- **Sequential fallback.** The description anchors left-over pictures by picture order. That fallback exists only as commented-out code (component/DocumentParserWithStructure.java:308-362), so the model has no such step.
- **Unanchored pictures.** The description says an unanchored picture is never dropped and is appended with paragraph index -1. The structure parser appends by count, not by which pictures were taken: with m images anchored it appends pictures m, m + 1, … (`StructureParser.Leftovers`). When the anchored pictures are not the first m, an anchored picture is listed twice and an unanchored one is lost: with pictures A and B and only B cited, the result holds B twice and no A (`StructureProperties.LeftoverRepeatsAnchored`, `StructureProperties.LeftoverLosesPicture`). The import path, though, associates the images of `ImageExtractorWithPosition`, not the parser's. `Association.ExtractedImagesAssociate` proves that this association never fails.
- **Heading level without heading type.** The description ties a positive heading level to type "heading". The code sets type and level independently: "1.1 Scope" with no style is typed "normal" and gets level 2.
- **Style levels.** A paragraph style that is not a number makes `Integer.parseInt` throw, and the whole service parse fails (`StructureProperties.ParseParagraphsFails`).
- **Component parser.** Its classifiers (component/DocumentParserWithStructure.java:1004-1038) match the service copy (service/DocumentParserWithStructure.java:284-318) line for line, so one definition serves both.
- **First service version.** The chunk partitioner of `MilvusServiceImpl` (impl/MilvusServiceImpl.java:783-854) is the V2 one line for line, so `Chunking` serves both.
- **Null pass in the V2 sanitizer.** Its null-replacing pass comes after nulls have already been removed, so it changes nothing (`Sanitizer.ReplaceNullsIsIdentity`).
- **Regular-expression passes that never match.** In `cleanParagraphText` the `\n+` pass and in `postProcessChunks` the `\n{3,}` pass never match, because the preceding `\s+` pass leaves no line feed (`ImageUtil.NewlinePassIsIdle`, `JavaText.CollapseShape`).
- **Dotted section titles.** `ManualDocumentChunker` treats "1. 简介" as no dotted section title, since `(\.\d+)*` cannot take a dot without digits (`ManualSections.DottedSectionNeedsDigitsAfterDot`).
- **`intelligentChunking`.**
  - `handleSmallSection` is called only while no chunk exists, so its merge branch is never taken.
  - A title line that reads "文档开始" and has no lines under it is not saved as a section, so the title line itself is lost.
- **`DocumentChunker`.** It tests for blank text with `StringUtils.hasText`, which treats Unicode spaces such as U+3000 as blank. It then trims with `trim`, which keeps them.
- **Flat parser (`DocumentParser`).**
  - Content controls never produce a record, because `extractControlText` returns null.
  - A header or footer record's start offset points at the "[页眉] " / "[页脚] " marker, not at its text.
  - A table's end offset counts the untrimmed table text.
  - The colon rule accepts only the ASCII colon (`FlatParser.ColonRuleIsAscii`).
  - A null file name throws before the `try`, so that error escapes although every other one is caught.
- **Duplicated helper.** `ImageExtractor.getFileExtension` is the `DocumentParser` one line for line, so `FlatParser.FileExtension` serves both.

## Left out

- Milvus client calls (collection and index creation, insert, search), the metric and index type mapping, and the embedding model with `generateRandomVector`: these are remote calls and floating-point work over library types.
- File and stream I/O: saving pictures, image dimension reads, temporary files, PDF, .doc and Tika readers. Whether saving and locating a picture succeeded is the `saved` flag of `ImageUtil.PictureSource`. The position extractor's file write is taken to succeed, except that null picture data throws.
- Apache POI and XmlBeans traversal: XmlCursor walks, `getEmbeddedPictures`, package relationships, run font attributes and the paragraph style map. The markup, runs, picture payloads and relationship ids are inputs instead.
- `extractAllPicturesEnhanced`, the XmlCursor-based anchoring methods of the component parser, and `extractImagesFromDrawingsWithPosition`, the drawing fallback of the DOCX image loop: each walks POI objects, and the model has no document object to walk.
- The blip-pattern passes of `ImageExtractor` beyond `getRelationshipIdFromBlipId`: they search XML with POI-specific cursors.
- Jackson: `JsonUtils`, `convertMetadataToString`, `fixNestedArrays`, and JSON parsing in `fixJsonStringForMilvus` beyond its literal quick path. The parse is a parameter that says whether a string is invalid, an empty array, a non-empty array with its wrapped form, or no array.
- Clocks and randomness: `System.currentTimeMillis`, `LocalDateTime.now()` and UUIDs. A create-time default is a `now` parameter.
- HashMap iteration order in `findPictureInMap` and `findPictureById`: the lookups are stated as returning some matching entry, and an `order` parameter lists the keys.
- Floating point: vector components are `real`, so the float rounding of stored vectors is not modelled.
- Logging, debug printing, the controller, configuration classes and the DTOs beyond their shape as datatypes.
- Integer overflow in `findPictureParagraphIndex`: its character count is an unbounded integer, since a document would need more than two billion characters to wrap it.
- `ImageUtil.PositionIndexCollides`: the collision it shows is a consequence of the formula, not a fault, because the code never relies on decoding the index.
- ManualChunker.SentencePartsSpec: does not state the cap of ten sentences per part. It states only that the parts are non-empty, fit the limit, and rejoin to the sentences.
- ManualChunker.IntelligentKeeps: covers only sections of at most 2000 code units of content. Longer sections are split by paragraph or sentence, and `ParagraphPartsSpec` and `SentencePartsSpec` describe that split.
- JavaText.ParseInt: accepts ASCII digits only. Java's `Integer.parseInt` also accepts other Unicode decimal digits, such as the full-width "２", so a style id written in them is rejected here but parsed in Java.
- ServiceHelpers.MergeSearchResults: scores and the threshold are `real` and never null. In the source the score is a nullable `Double` and the threshold a nullable `Float`: a null one throws a NullPointerException on unboxing (impl/MilvusServiceImpl.java:2076, 2082), and a NaN score never passes the threshold. Neither case is modelled.
- Text lengths: thresholds such as the chunk size count Java `char`s. For text outside the Basic Multilingual Plane the model counts one per character where Java counts two, so lengths and cut points differ there.
- ManualChunker.LengthAgrees, ManualChunker.ByLengthAgrees and ManualChunker.ChunkBySemanticAgrees: agreement is stated from chunk size 49 only. Below it the written loop can cut a window at its own start after a sentence end, and its step by one then drops a character (`ManualChunker.ChunkByLengthDropsText`); the corrected loop keeps it, so the two differ there.
- TextChunker.ShortParagraphsKept: states that short paragraphs survive whole. It does not place long paragraphs, whose pieces `SplitLongParagraph` describes.

## Findings

| source | as written | input that shows it | evidently intended | confidence | as-written member | corrected member |
|---|---|---|---|---|---|---|
| src/main/java/com/example/langchain/milvus/utils/DocumentChunker.java:111-137 | `splitLongParagraph` sets `start = end - overlapSize`. Once `end` reaches the paragraph's length the window repeats, and the guard at the loop's end never fires, so the loop does not terminate for a positive overlap. | paragraph "aaa", chunk size 2, overlap 1: the start goes 0, 1, 2, 2, 2, … | the start always moves forward, as in `ManualDocumentChunker` (`max(start + 1, end - overlap)`), and the loop stops once a window reaches the paragraph's end | not executed | TextChunker.SplitLongParagraphLoops | TextChunker.SplitLongParagraphSpec |
| src/main/java/com/example/langchain/milvus/utils/ManualDocumentChunker.java:408-419 | A short last chunk is merged into `processed.get(processed.size() - 1)` even when nothing has been kept, so `processed.set(-1, …)` throws. | chunks ["abcde", "fgh"], which `chunkBySemantic("abcdefgh", 5, 0)` produces | a short last chunk with nothing kept before it is kept on its own | not executed | ManualChunker.PostProcessThrows | ManualChunker.PostProcessSpec |
| src/main/java/com/example/langchain/milvus/utils/ManualDocumentChunker.java:444-463 | `findGoodBreakPoint` can return a break before the window's start, and `text.substring(start, end)` then throws. | text "\n\naaaaaaaaaa", chunk size 5, overlap 0: the break point for the second window is 0 | a break point before the start is ignored and the window is cut at `start + chunkSize` | not executed | ManualChunker.ChunkByLengthThrows | ManualChunker.ChunkByLength |
| src/main/java/com/example/langchain/milvus/utils/ManualDocumentChunker.java:444-463 | A break point equal to the window's start gives an empty window, and the next window starts one further on, so the code unit at the start is in no chunk. After a sentence end that code unit can be visible. No exception is thrown. | text "ab.cdef.hij", chunk size 3, overlap 0: the chunks are "ab.", "def.", "hij" and the "c" is lost | a break point at the start on a visible code unit is ignored and the window is cut at `start + chunkSize`, so every visible code unit lies in some chunk | not executed | ManualChunker.ChunkByLengthDropsText | ManualChunker.ChunkByLength |

The corrected members are what the rest of the model uses:
- `TextChunker.SplitLongParagraph` and `TextChunker.ChunkBySemantic` build on `TextChunker.SplitFrom` and `TextChunker.NextStart`.
- `ManualChunker.ChunkBySemantic` builds on `ManualChunker.ChunkByLength` and `ManualChunker.PostProcess`.

The as-written versions are connected to the corrected ones wherever the written code returns:
- `TextChunker.SplitStepAsWritten` takes the corrected step when the overlap is 0.
- `ManualChunker.PostAgrees` shows that the as-written post-processing equals the corrected one whenever it does not throw.
- `ManualChunker.LengthAgrees`, `ManualChunker.ByLengthAgrees` and `ManualChunker.ChunkBySemanticAgrees` show the same for the length-based loop and the whole chunker, from chunk size 49, where the fourth finding cannot occur.
- `ManualChunker.ChunkBySemanticThrows` shows the second finding is reached from the public entry point.
