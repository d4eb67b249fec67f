/** The pure helpers of the image extractor (utils ImageExtractor): the extension an
    extracted DOCX picture is saved under, the size filter and the 100-picture cap of the
    DOCX loop, the position formulas, the page estimate, paragraph-text cleaning, the
    relationship id read from a blip id, and the paragraph lookup by character offset of
    the .doc path. */
module ImageUtil {
  import opened Std
  import opened JavaText
  import FP = FlatParser

  // ---------------------------------------------------------------------------
  // Extensions and names

  /** The keywords `getFileExtensionFromContentType` looks for, in order, and the
      extension each gives. */
  const Keywords: seq<string> := ["png", "jpeg", "jpg", "gif", "bmp", "tiff", "webp", "wmf", "emf"]
  const KeywordExtensions: seq<string> := ["png", "jpg", "jpg", "gif", "bmp", "tiff", "webp", "wmf", "emf"]

  /** The extension of the first keyword from index `k` on that the content type holds. */
  function FirstKeyword(ct: string, k: nat): (ext: string)
    requires k <= |Keywords|
    ensures ext == [] <==> forall j :: k <= j < |Keywords| ==> !Contains(ct, Keywords[j])
    ensures ext != [] ==> exists j :: k <= j < |Keywords| && Contains(ct, Keywords[j]) && ext == KeywordExtensions[j]
                                     && forall l :: k <= l < j ==> !Contains(ct, Keywords[l])
    decreases |Keywords| - k
  {
    if k == |Keywords| then []
    else if Contains(ct, Keywords[k]) then KeywordExtensions[k]
    else FirstKeyword(ct, k + 1)
  }

  /** `getFileExtensionFromContentType`: the extension of the first keyword the content
      type contains, or empty for a null or unrecognised content type. */
  function ContentTypeExtension(contentType: Option<string>): (ext: string)
    ensures ext == [] || LowerWord(ext)
    ensures contentType.None? ==> ext == []
  {
    if contentType.None? then [] else KeywordExtensionsLower(); FirstKeyword(contentType.value, 0)
  }

  /** Lower-case ASCII letters only. */
  predicate LowerWord(e: string) {
    forall i :: 0 <= i < |e| ==> 'a' <= e[i] <= 'z'
  }

  lemma KeywordExtensionsLower()
    ensures forall j :: 0 <= j < |KeywordExtensions| ==> LowerWord(KeywordExtensions[j])
  {
  }

  lemma LowerWordPlain(e: string)
    requires LowerWord(e)
    ensures ToLower(e) == e && forall i :: 0 <= i < |e| ==> e[i] != '.'
  {
  }

  lemma {:induction false} FirstKeywordIs(ct: string, k: nat, j: nat)
    requires k <= j < |Keywords| && Contains(ct, Keywords[j])
    requires forall l :: k <= l < j ==> !Contains(ct, Keywords[l])
    ensures FirstKeyword(ct, k) == KeywordExtensions[j]
    decreases j - k
  {
    if k < j {
      FirstKeywordIs(ct, k + 1, j);
    }
  }

  /** The registered image MIME types map to their usual extensions; a type the list
      does not name, such as SVG, maps to none. */
  lemma StandardContentTypes()
    ensures ContentTypeExtension(Some("image/png")) == "png"
    ensures ContentTypeExtension(Some("image/jpeg")) == "jpg"
    ensures ContentTypeExtension(Some("image/gif")) == "gif"
    ensures ContentTypeExtension(Some("image/x-emf")) == "emf"
    ensures ContentTypeExtension(Some("image/svg+xml")) == ""
  {
    assert OccursAt("image/png", Keywords[0], 6);
    FirstKeywordIs("image/png", 0, 0);
    JpegType();
    GifType();
    EmfType();
    SvgType();
  }

  /** No occurrence of `t` where no offset matches its first two code units. */
  lemma NoPairMatch(s: string, t: string)
    requires |t| >= 2
    requires forall i :: 0 <= i < |s| - 1 ==> s[i] != t[0] || s[i + 1] != t[1]
    ensures !Contains(s, t)
  {
    forall i | 0 <= i <= |s| - |t| ensures !OccursAt(s, t, i) {
      assert s[i..i + |t|][0] == s[i] && s[i..i + |t|][1] == s[i + 1];
    }
  }

  lemma JpegType()
    ensures ContentTypeExtension(Some("image/jpeg")) == "jpg"
  {
    var t := "image/jpeg";
    NoPairMatch(t, Keywords[0]);
    assert OccursAt(t, Keywords[1], 6);
    FirstKeywordIs(t, 0, 1);
  }

  lemma GifType()
    ensures ContentTypeExtension(Some("image/gif")) == "gif"
  {
    var t := "image/gif";
    NoPairMatch(t, Keywords[0]);
    NoPairMatch(t, Keywords[1]);
    NoPairMatch(t, Keywords[2]);
    assert OccursAt(t, Keywords[3], 6);
    FirstKeywordIs(t, 0, 3);
  }

  lemma EmfType()
    ensures ContentTypeExtension(Some("image/x-emf")) == "emf"
  {
    var t := "image/x-emf";
    NoPairMatch(t, Keywords[0]);
    NoPairMatch(t, Keywords[1]);
    NoPairMatch(t, Keywords[2]);
    NoPairMatch(t, Keywords[3]);
    NoPairMatch(t, Keywords[4]);
    NoPairMatch(t, Keywords[5]);
    NoPairMatch(t, Keywords[6]);
    NoPairMatch(t, Keywords[7]);
    assert OccursAt(t, Keywords[8], 8);
    FirstKeywordIs(t, 0, 8);
  }

  lemma SvgType()
    ensures ContentTypeExtension(Some("image/svg+xml")) == ""
  {
    var t := "image/svg+xml";
    NoPairMatch(t, Keywords[0]);
    NoPairMatch(t, Keywords[1]);
    NoPairMatch(t, Keywords[2]);
    NoPairMatch(t, Keywords[3]);
    NoPairMatch(t, Keywords[4]);
    NoPairMatch(t, Keywords[5]);
    NoPairMatch(t, Keywords[6]);
    NoPairMatch(t, Keywords[7]);
    NoPairMatch(t, Keywords[8]);
    assert FirstKeyword(t, 0) == [];
  }

  /** The extension a DOCX picture is saved under: from its content type, else from its
      file name, else "png". */
  function ChooseExtension(contentType: Option<string>, pictureName: Option<string>): (ext: string)
    ensures ext != []
    ensures forall i :: 0 <= i < |ext| ==> ext[i] != '.'
    ensures ToLower(ext) == ext
    ensures ContentTypeExtension(contentType) != [] ==> ext == ContentTypeExtension(contentType)
  {
    var byType := ContentTypeExtension(contentType);
    if byType != [] then
      LowerWordPlain(byType);
      byType
    else
      var byName := FP.FileExtension(pictureName);
      if byName != [] then byName else "png"
  }

  /** `getBaseFileName`: the name before its last dot, unless that dot is the first code
      unit; "file" for a null name. */
  function BaseFileName(fileName: Option<string>): (r: string)
    ensures fileName.None? ==> r == "file"
    ensures fileName.Some? ==> StartsWith(fileName.value, r)
    ensures fileName.Some? && r != fileName.value ==>
              0 < |r| < |fileName.value| && fileName.value[|r|] == '.'
              && forall j :: |r| < j < |fileName.value| ==> fileName.value[j] != '.'
    ensures fileName.Some? && (exists j :: 0 < j < |fileName.value| && fileName.value[j] == '.') ==>
              r != fileName.value
  {
    if fileName.None? then "file"
    else
      var dot := LastIndexOf(fileName.value, '.');
      if dot > 0 then fileName.value[..dot] else fileName.value
  }

  /** The name `saveWordImage` writes: "<base>_img<index>.<ext>". */
  function ImageName(docName: Option<string>, index: nat, ext: string): string {
    BaseFileName(docName) + "_img" + NatToString(index) + "." + ext
  }

  /** Reading the extension back from a saved picture's name gives the extension it
      was saved under. */
  lemma SavedNameExtension(docName: Option<string>, index: nat, contentType: Option<string>, pictureName: Option<string>)
    ensures var ext := ChooseExtension(contentType, pictureName);
            FP.FileExtension(Some(ImageName(docName, index, ext))) == ext
  {
    var ext := ChooseExtension(contentType, pictureName);
    FP.ExtensionRoundTrip(BaseFileName(docName) + "_img" + NatToString(index), ext);
  }

  // ---------------------------------------------------------------------------
  // The DOCX picture loop

  predicate ValidImageSize(size: int, minSize: int, maxSize: int) {
    minSize <= size <= maxSize
  }

  /** A picture of the document: its byte count (None when the data is null), file name
      and content type, and whether saving and locating it succeeded. */
  datatype PictureSource = PictureSource(size: Option<int>, fileName: Option<string>, contentType: Option<string>, saved: bool)

  datatype SavedImage = SavedImage(indexInDoc: nat, name: string, ext: string)

  const MaxDocxImages: nat := 100

  predicate Eligible(p: PictureSource, minSize: int, maxSize: int) {
    p.size.Some? && ValidImageSize(p.size.value, minSize, maxSize) && p.saved
  }

  function Saved(pics: seq<PictureSource>, i: nat, docName: Option<string>): SavedImage
    requires i < |pics|
  {
    var ext := ChooseExtension(pics[i].contentType, pics[i].fileName);
    SavedImage(i + 1, ImageName(docName, i + 1, ext), ext)
  }

  /** The loop from picture `i` on, as the indices of the pictures it saves, with `acc`
      saved so far: a null payload throws and is skipped, an out-of-range size is
      skipped, an unsaved picture adds nothing, and the loop stops once 100 images are
      saved. */
  function CollectFrom(pics: seq<PictureSource>, i: nat, minSize: int, maxSize: int, acc: seq<nat>): (r: seq<nat>)
    ensures (forall k :: 0 <= k < |acc| ==> acc[k] < |pics|) ==> forall k :: 0 <= k < |r| ==> r[k] < |pics|
    decreases |pics| - i
  {
    if i >= |pics| then acc
    else if !(pics[i].size.Some? && ValidImageSize(pics[i].size.value, minSize, maxSize)) then
      CollectFrom(pics, i + 1, minSize, maxSize, acc)
    else
      var next := if pics[i].saved then acc + [i] else acc;
      if |next| >= MaxDocxImages then next
      else CollectFrom(pics, i + 1, minSize, maxSize, next)
  }

  /** The images of the DOCX loop, each saved as "<base>_img<i+1>.<ext>". */
  function CollectDocxImages(pics: seq<PictureSource>, docName: Option<string>, minSize: int, maxSize: int): seq<SavedImage> {
    var idx := CollectFrom(pics, 0, minSize, maxSize, []);
    seq(|idx|, k requires 0 <= k < |idx| => Saved(pics, idx[k], docName))
  }

  /** Reference: every eligible picture from `i` on, in order, with no cap. */
  function EligibleFrom(pics: seq<PictureSource>, i: nat, minSize: int, maxSize: int): (r: seq<nat>)
    ensures forall k :: 0 <= k < |r| ==> i <= r[k] < |pics|
    decreases |pics| - i
  {
    if i >= |pics| then []
    else (if Eligible(pics[i], minSize, maxSize) then [i] else []) + EligibleFrom(pics, i + 1, minSize, maxSize)
  }

  lemma {:induction false} CollectFromIsPrefix(pics: seq<PictureSource>, i: nat, minSize: int, maxSize: int, acc: seq<nat>)
    requires |acc| < MaxDocxImages
    ensures var all := acc + EligibleFrom(pics, i, minSize, maxSize);
            CollectFrom(pics, i, minSize, maxSize, acc) == all[..Min(|all|, MaxDocxImages)]
    decreases |pics| - i
  {
    var all := acc + EligibleFrom(pics, i, minSize, maxSize);
    if i >= |pics| {
      assert all == acc;
    } else {
      var rest := EligibleFrom(pics, i + 1, minSize, maxSize);
      if !(pics[i].size.Some? && ValidImageSize(pics[i].size.value, minSize, maxSize)) {
        CollectFromIsPrefix(pics, i + 1, minSize, maxSize, acc);
        assert all == acc + rest;
      } else {
        var next := if pics[i].saved then acc + [i] else acc;
        assert all == next + rest;
        if |next| >= MaxDocxImages {
          assert all[..MaxDocxImages] == next;
        } else {
          CollectFromIsPrefix(pics, i + 1, minSize, maxSize, next);
        }
      }
    }
  }

  /** `all` lists, in ascending order, exactly the eligible pictures from index `i` on. */
  predicate ListsEligible(pics: seq<PictureSource>, i: nat, minSize: int, maxSize: int, all: seq<nat>) {
    && (forall k :: 0 <= k < |all| ==> i <= all[k] < |pics| && Eligible(pics[all[k]], minSize, maxSize))
    && (forall k, l :: 0 <= k < l < |all| ==> all[k] < all[l])
    && (forall j :: i <= j < |pics| && Eligible(pics[j], minSize, maxSize) ==> j in all)
  }

  /** The reference list holds exactly the eligible pictures from `i` on, ascending. */
  lemma {:induction false} EligibleFromSpec(pics: seq<PictureSource>, i: nat, minSize: int, maxSize: int)
    ensures ListsEligible(pics, i, minSize, maxSize, EligibleFrom(pics, i, minSize, maxSize))
    decreases |pics| - i
  {
    if i < |pics| {
      EligibleFromSpec(pics, i + 1, minSize, maxSize);
      var rest := EligibleFrom(pics, i + 1, minSize, maxSize);
      var head: seq<nat> := if Eligible(pics[i], minSize, maxSize) then [i] else [];
      assert EligibleFrom(pics, i, minSize, maxSize) == head + rest;
      EligibleCons(pics, i, minSize, maxSize, head, rest);
    }
  }

  /** Listing picture `i` when it is eligible in front of the eligible pictures after it
      lists the eligible pictures from `i` on. */
  lemma EligibleCons(pics: seq<PictureSource>, i: nat, minSize: int, maxSize: int, head: seq<nat>, rest: seq<nat>)
    requires i < |pics| && head == if Eligible(pics[i], minSize, maxSize) then [i] else []
    requires ListsEligible(pics, i + 1, minSize, maxSize, rest)
    ensures ListsEligible(pics, i, minSize, maxSize, head + rest)
  {
    var all := head + rest;
    assert forall k :: 0 <= k < |rest| ==> all[|head| + k] == rest[k];
    if head != [] {
      assert all[0] == i;
    }
  }

  /** The saved picture indices are the first 100 eligible ones. */
  lemma CollectIndices(pics: seq<PictureSource>, minSize: int, maxSize: int)
    ensures var all := EligibleFrom(pics, 0, minSize, maxSize);
            CollectFrom(pics, 0, minSize, maxSize, []) == all[..Min(|all|, MaxDocxImages)]
  {
    CollectFromIsPrefix(pics, 0, minSize, maxSize, []);
    assert [] + EligibleFrom(pics, 0, minSize, maxSize) == EligibleFrom(pics, 0, minSize, maxSize);
  }

  /** The collected images are the first 100 eligible pictures (size in range, saved), in
      document order. */
  lemma CollectDocxImagesSpec(pics: seq<PictureSource>, docName: Option<string>, minSize: int, maxSize: int)
    ensures var all := EligibleFrom(pics, 0, minSize, maxSize);
            var r := CollectDocxImages(pics, docName, minSize, maxSize);
            && |r| == Min(|all|, MaxDocxImages)
            && forall k :: 0 <= k < |r| ==> r[k] == Saved(pics, all[k], docName)
  {
    CollectIndices(pics, minSize, maxSize);
  }

  /** A document with at most 100 eligible pictures loses none of them. */
  lemma CollectKeepsAll(pics: seq<PictureSource>, docName: Option<string>, minSize: int, maxSize: int, j: nat)
    requires |EligibleFrom(pics, 0, minSize, maxSize)| <= MaxDocxImages
    requires j < |pics| && Eligible(pics[j], minSize, maxSize)
    ensures exists k :: 0 <= k < |CollectDocxImages(pics, docName, minSize, maxSize)|
                        && CollectDocxImages(pics, docName, minSize, maxSize)[k] == Saved(pics, j, docName)
  {
    var all := EligibleFrom(pics, 0, minSize, maxSize);
    CollectIndices(pics, minSize, maxSize);
    EligibleFromSpec(pics, 0, minSize, maxSize);
    var k :| 0 <= k < |all| && all[k] == j;
    assert CollectDocxImages(pics, docName, minSize, maxSize)[k] == Saved(pics, j, docName);
  }

  // ---------------------------------------------------------------------------
  // Positions and pages

  /** `calculatePositionIndex`: paragraph * 10000 + run * 100 + inline, in `int`
      arithmetic; the image index takes no part. */
  function PositionIndex(paragraph: int, run: int, inline: int, image: int): (r: int)
    ensures IsInt32(r)
  {
    Wrap32(paragraph * 10000 + run * 100 + inline)
  }

  /** With run and inline index below 100 and no overflow, the position index decodes
      back to the paragraph, run and inline index, whatever the image index. */
  lemma PositionIndexDecodes(paragraph: int, run: int, inline: int, image: int)
    requires 0 <= paragraph && 0 <= run < 100 && 0 <= inline < 100
    requires paragraph * 10000 + run * 100 + inline <= IntMax
    ensures var r := PositionIndex(paragraph, run, inline, image);
            r / 10000 == paragraph && (r / 100) % 100 == run && r % 100 == inline
  {
    var r := paragraph * 10000 + run * 100 + inline;
    assert PositionIndex(paragraph, run, inline, image) == r;
    assert r / 100 == paragraph * 100 + run;
  }

  /** Without the bound the index is not unique: run 1 and inline index 100 of the same
      run collide. */
  lemma PositionIndexCollides()
    ensures PositionIndex(0, 1, 0, 0) == PositionIndex(0, 0, 100, 0)
  {
  }

  /** `calculateAbsolutePosition`: paragraph * 1000 + run * 10 + image, in `int`
      arithmetic. */
  function AbsolutePosition(paragraph: int, run: int, image: int): (r: int)
    ensures IsInt32(r)
  {
    Wrap32(paragraph * 1000 + run * 10 + image)
  }

  /** With run below 100 and image below 10 and no overflow, the absolute position
      decodes back to its three parts. */
  lemma AbsolutePositionDecodes(paragraph: int, run: int, image: int)
    requires 0 <= paragraph && 0 <= run < 100 && 0 <= image < 10
    requires paragraph * 1000 + run * 10 + image <= IntMax
    ensures var r := AbsolutePosition(paragraph, run, image);
            r / 1000 == paragraph && (r / 10) % 100 == run && r % 10 == image
  {
    var r := paragraph * 1000 + run * 10 + image;
    assert AbsolutePosition(paragraph, run, image) == r;
    assert r / 10 == paragraph * 100 + run;
  }

  /** Java's `/` on `int`: the quotient rounded toward zero. */
  function JavaDiv(a: int, b: int): (q: int)
    requires b > 0
    ensures a >= 0 ==> q == a / b
    ensures a < 0 ==> q <= 0 && (q == 0 <==> a > -b)
  {
    if a >= 0 then a / b else -((-a) / b)
  }

  const ParagraphsPerPage: int := 20

  /** `estimatePageNumber`: twenty paragraphs to a page, never below page 1. */
  function EstimatePageNumber(paragraph: int, totalParagraphs: int): (page: int)
    ensures page >= 1
    ensures paragraph >= 0 ==> page == paragraph / ParagraphsPerPage + 1
  {
    Max(1, JavaDiv(paragraph, ParagraphsPerPage) + 1)
  }

  /** The estimated page is the one whose block of twenty paragraphs holds the
      paragraph, so later paragraphs never land on earlier pages. */
  lemma PageHoldsParagraph(paragraph: int, later: int, total: int)
    requires 0 <= paragraph <= later
    ensures var page := EstimatePageNumber(paragraph, total);
            (page - 1) * ParagraphsPerPage <= paragraph < page * ParagraphsPerPage
            && page <= EstimatePageNumber(later, total)
  {
  }

  // ---------------------------------------------------------------------------
  // Paragraph text

  predicate IsControl(c: char) {
    c <= '\U{1F}' || c == '\U{7F}'
  }

  /** `replaceAll("[\\x00-\\x1F\\x7F]", "")`. */
  function RemoveControls(s: string): (r: string)
    ensures |r| <= |s|
    ensures forall i :: 0 <= i < |r| ==> !IsControl(r[i])
  {
    if s == [] then [] else (if IsControl(s[0]) then [] else [s[0]]) + RemoveControls(s[1..])
  }

  /** `replaceAll("\\uFEFF", "")`. */
  function RemoveBom(s: string): (r: string)
    ensures |r| <= |s|
    ensures forall i :: 0 <= i < |r| ==> r[i] != '\U{FEFF}'
    ensures forall i :: 0 <= i < |r| ==> exists j :: 0 <= j < |s| && s[j] == r[i]
  {
    if s == [] then []
    else
      var rest := RemoveBom(s[1..]);
      assert forall i :: 0 <= i < |rest| ==> exists j :: 0 <= j < |s| && s[j] == rest[i] by {
        forall i | 0 <= i < |rest| ensures exists j :: 0 <= j < |s| && s[j] == rest[i] {
          var j :| 0 <= j < |s[1..]| && s[1..][j] == rest[i];
          assert s[j + 1] == rest[i];
        }
      }
      (if s[0] == '\U{FEFF}' then [] else [s[0]]) + rest
  }

  /** `replaceAll("\\n+", " ")`. */
  function CollapseNewlines(s: string): string
    decreases |s|
  {
    if s == [] then []
    else if s[0] == '\n' then [' '] + CollapseNewlines(DropNewlines(s[1..]))
    else [s[0]] + CollapseNewlines(s[1..])
  }

  function DropNewlines(s: string): (r: string)
    ensures |r| <= |s|
  {
    if s != [] && s[0] == '\n' then DropNewlines(s[1..]) else s
  }

  /** Text without a newline is left as it is. */
  lemma {:induction false} CollapseNewlinesFree(s: string)
    requires FP.Free(s, '\n')
    ensures CollapseNewlines(s) == s
    decreases |s|
  {
    if s != [] {
      CollapseNewlinesFree(s[1..]);
    }
  }

  /** `cleanParagraphText`: null reads as empty; trim, collapse `\s` runs and newline
      runs to one space, then drop control characters and byte-order marks. */
  function CleanParagraphText(text: Option<string>): (r: string)
    ensures forall i :: 0 <= i < |r| ==> !IsControl(r[i]) && r[i] != '\U{FEFF}'
  {
    var s := text.GetOr("");
    var collapsed := CollapseSpaces(Trim(s));
    RemoveBom(RemoveControls(CollapseNewlines(collapsed)))
  }

  /** The newline pass can never match: after `\s` runs are collapsed, no newline is
      left. */
  lemma NewlinePassIsIdle(s: string)
    ensures var collapsed := CollapseSpaces(Trim(s));
            CollapseNewlines(collapsed) == collapsed
  {
    var collapsed := CollapseSpaces(Trim(s));
    CollapseShape(Trim(s));
    assert FP.Free(collapsed, '\n') by {
      forall i | 0 <= i < |collapsed| ensures collapsed[i] != '\n' {
        if collapsed[i] == '\n' {
          assert IsRegexSpace(collapsed[i]);
        }
      }
    }
    CollapseNewlinesFree(collapsed);
  }

  /** A code unit that shows: above U+0020 and neither DEL nor a byte-order mark. */
  predicate Shown(c: char) {
    c > ' ' && c != '\U{7F}' && c != '\U{FEFF}'
  }

  function ShownOf(s: string): string {
    if s == [] then [] else (if Shown(s[0]) then [s[0]] else []) + ShownOf(s[1..])
  }

  lemma {:induction false} ShownAppend(a: string, b: string)
    ensures ShownOf(a + b) == ShownOf(a) + ShownOf(b)
    decreases |a|
  {
    if a == [] {
      assert a + b == b;
    } else {
      ShownAppend(a[1..], b);
      assert (a + b)[0] == a[0];
      assert (a + b)[1..] == a[1..] + b;
    }
  }

  lemma {:induction false} ShownTrim(s: string)
    ensures ShownOf(Trim(s)) == ShownOf(s)
    decreases |s|
  {
    if s != [] && IsTrimSpace(s[0]) {
      ShownTrim(s[1..]);
    } else if s != [] && IsTrimSpace(s[|s| - 1]) {
      ShownTrim(s[..|s| - 1]);
      ShownAppend(s[..|s| - 1], [s[|s| - 1]]);
      assert s[..|s| - 1] + [s[|s| - 1]] == s;
    }
  }

  lemma {:induction false} ShownDropSpaces(s: string)
    ensures ShownOf(DropSpaces(s)) == ShownOf(s)
    decreases |s|
  {
    if s != [] && IsRegexSpace(s[0]) {
      ShownDropSpaces(s[1..]);
    }
  }

  lemma {:induction false} ShownCollapse(s: string)
    ensures ShownOf(CollapseSpaces(s)) == ShownOf(s)
    decreases |s|
  {
    if s != [] {
      if IsRegexSpace(s[0]) {
        var rest := DropSpaces(s[1..]);
        ShownCollapse(rest);
        ShownDropSpaces(s[1..]);
        assert CollapseSpaces(s) == [' '] + CollapseSpaces(rest);
      } else {
        ShownCollapse(s[1..]);
        assert CollapseSpaces(s) == [s[0]] + CollapseSpaces(s[1..]);
      }
    }
  }

  lemma {:induction false} ShownRemoveControls(s: string)
    ensures ShownOf(RemoveControls(s)) == ShownOf(s)
    decreases |s|
  {
    if s != [] {
      ShownRemoveControls(s[1..]);
      ShownAppend(if IsControl(s[0]) then [] else [s[0]], RemoveControls(s[1..]));
    }
  }

  lemma {:induction false} ShownRemoveBom(s: string)
    ensures ShownOf(RemoveBom(s)) == ShownOf(s)
    decreases |s|
  {
    if s != [] {
      ShownRemoveBom(s[1..]);
      ShownAppend(if s[0] == '\U{FEFF}' then [] else [s[0]], RemoveBom(s[1..]));
    }
  }

  /** Cleaning removes only spacing, control characters and byte-order marks: every
      other code unit of the text survives, in order. */
  lemma CleanKeepsShown(text: Option<string>)
    ensures ShownOf(CleanParagraphText(text)) == ShownOf(text.GetOr(""))
  {
    var s := text.GetOr("");
    var collapsed := CollapseSpaces(Trim(s));
    NewlinePassIsIdle(s);
    ShownTrim(s);
    ShownCollapse(Trim(s));
    ShownRemoveControls(collapsed);
    ShownRemoveBom(RemoveControls(collapsed));
  }

  // ---------------------------------------------------------------------------
  // Relationship ids

  /** `getRelationshipIdFromBlipId`: an id already starting with "rId" is returned as it
      is; otherwise the text from the first "rId" on, if what follows it there is a
      non-empty run of digits only; otherwise null. */
  function RelationshipIdFromBlip(blipId: Option<string>): (r: Option<string>)
    ensures r.Some? ==> blipId.Some? && StartsWith(r.value, "rId") && EndsWith(blipId.value, r.value)
    ensures blipId.Some? && StartsWith(blipId.value, "rId") ==> r == blipId
    ensures r.Some? && r != blipId ==> |r.value| > 3 && AllDigits(r.value[3..])
  {
    if blipId.None? || blipId.value == [] then None
    else
      var b := blipId.value;
      if StartsWith(b, "rId") then
        assert EndsWith(b, b);
        Some(b)
      else
        match IndexOfFrom(b, "rId", 0)
        case None => None
        case Some(i) =>
          var sub := b[i..];
          if |sub| > 3 && AllDigits(sub[3..]) then
            assert sub[..3] == "rId";
            assert sub == "rId" + sub[3..];
            assert b[|b| - |sub|..] == sub;
            Some("rId" + sub[3..])
          else None
  }

  /** Text before the first "rId" is dropped: any prefix without an 'r', then "rId" and
      digits, gives "rId" and those digits. */
  lemma RelationshipIdAfterPrefix(prefix: string, digits: string)
    requires FP.Free(prefix, 'r') && digits != [] && AllDigits(digits)
    ensures RelationshipIdFromBlip(Some(prefix + "rId" + digits)) == Some("rId" + digits)
  {
    var b := prefix + "rId" + digits;
    if prefix != [] {
      assert !StartsWith(b, "rId") by { assert b[0] == prefix[0]; }
      forall k | 0 <= k < |prefix| ensures !OccursAt(b, "rId", k) {
        assert b[k] == prefix[k];
      }
      assert OccursAt(b, "rId", |prefix|) by { assert b[|prefix|..|prefix| + 3] == "rId"; }
      assert IndexOfFrom(b, "rId", 0) == Some(|prefix|) by {
        IndexOfFromFirst(b, "rId", 0, |prefix|);
      }
      assert b[|prefix|..][3..] == digits;
    } else {
      assert b == "rId" + digits;
      assert StartsWith(b, "rId");
    }
  }

  lemma {:induction false} IndexOfFromFirst(s: string, t: string, i: nat, m: nat)
    requires i <= m && OccursAt(s, t, m) && forall k :: i <= k < m ==> !OccursAt(s, t, k)
    ensures IndexOfFrom(s, t, i) == Some(m)
    decreases m - i
  {
    if i < m {
      IndexOfFromFirst(s, t, i + 1, m);
    }
  }

  /** Only the first "rId" is tried: a later well-formed one does not rescue the id. */
  lemma OnlyFirstRelationshipId()
    ensures RelationshipIdFromBlip(Some("xrIdArId7")) == None
  {
    var b := "xrIdArId7";
    assert !StartsWith(b, "rId") by { assert b[0] == 'x'; }
    assert !OccursAt(b, "rId", 0);
    assert OccursAt(b, "rId", 1);
    IndexOfFromFirst(b, "rId", 0, 1);
    assert b[1..][3..] == "ArId7";
    assert b[1..][3..][0] == 'A';
  }

  // ---------------------------------------------------------------------------
  // Paragraph lookup by character offset (.doc)

  /** Characters the first `i` paragraphs span, each with its end mark. */
  function Spanned(texts: seq<string>, i: nat): (n: nat)
    requires i <= |texts|
    ensures n >= i
  {
    if i == 0 then 0 else Spanned(texts, i - 1) + |texts[i - 1]| + 1
  }

  lemma {:induction false} SpannedGrows(texts: seq<string>, i: nat, j: nat)
    requires i <= j <= |texts|
    ensures Spanned(texts, i) + (j - i) <= Spanned(texts, j)
    decreases j - i
  {
    if i < j {
      SpannedGrows(texts, i, j - 1);
    }
  }

  /** `findPictureParagraphIndex`: the first paragraph whose end, counted with one end
      mark per paragraph, lies past the character offset; 0 when there is none. */
  method FindPictureParagraphIndex(texts: seq<string>, offset: int) returns (r: nat)
    ensures Spanned(texts, |texts|) <= offset ==> r == 0
    ensures texts != [] && offset < Spanned(texts, |texts|) ==>
              r < |texts| && offset < Spanned(texts, r + 1)
              && forall i :: 1 <= i <= r ==> Spanned(texts, i) <= offset
    ensures 0 <= offset < Spanned(texts, |texts|) ==> Spanned(texts, r) <= offset
  {
    var current := 0;
    var i := 0;
    while i < |texts|
      invariant 0 <= i <= |texts|
      invariant current == Spanned(texts, i)
      invariant forall j :: 1 <= j <= i ==> Spanned(texts, j) <= offset
    {
      current := current + |texts[i]| + 1;
      if current > offset {
        SpannedGrows(texts, i + 1, |texts|);
        return i;
      }
      i := i + 1;
    }
    return 0;
  }
}
