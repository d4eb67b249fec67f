/** What the structure-aware parser guarantees: one record per body paragraph with ids
    in order, offsets that locate each paragraph's text in the joined text, failure only
    through an unreadable heading style, paragraph images anchored at their paragraph,
    and the leftover bucket after them. */
module StructureProperties {
  import opened Std
  import opened JavaText
  import opened DocModel
  import opened StructureParser

  /** Record `i` is paragraph `i` of the source, starting where the joined text of the
      paragraphs before it ends. */
  ghost predicate RecordOf(qs: seq<ParagraphSource>, pics: seq<PictureData>, i: nat, p: Paragraph)
    requires i < |qs|
  {
    var text := SourceText(qs[i]);
    var start := |FullText(qs, i)|;
    Placed(qs, i, p)
    && p.kind == DetectParagraphType(text, qs[i].style)
    && DetectHeadingLevel(text, qs[i].style) == Ok(p.level)
    && p.runs == RunInfos(qs[i].runs)
    && p.images == ParagraphImages(qs[i], pics, i, start)
  }

  /** Record `i` has id `i`, paragraph `i`'s trimmed text, and the offsets where that
      text starts and ends in the joined text. */
  ghost predicate Placed(qs: seq<ParagraphSource>, i: nat, p: Paragraph)
    requires i < |qs|
  {
    var text := SourceText(qs[i]);
    var start := |FullText(qs, i)|;
    p.id == i && p.text == text && p.startPos == start && p.endPos == start + |text|
  }

  /** Some paragraph among the first `n` has a style id `Integer.parseInt` rejects. */
  ghost predicate SomeBadStyle(qs: seq<ParagraphSource>, n: nat)
    requires n <= |qs|
  {
    exists i :: 0 <= i < n && BadStyle(qs[i])
  }

  /** The paragraph has a style id and `Integer.parseInt` rejects it. */
  predicate BadStyle(q: ParagraphSource) {
    q.style.Some? && ParseInt(q.style.value).Err?
  }

  /** One paragraph parses exactly when its level can be read, into record `i`. */
  lemma ParseParagraphRecord(qs: seq<ParagraphSource>, pics: seq<PictureData>, i: nat)
    requires i < |qs|
    ensures var q := ParseParagraph(qs[i], pics, i, |FullText(qs, i)|);
            && (q.Ok? <==> DetectHeadingLevel(SourceText(qs[i]), qs[i].style).Ok?)
            && (q.Err? ==> q.error == NumberFormat)
            && (q.Ok? ==> RecordOf(qs, pics, i, q.value))
  {
  }

  /** One paragraph fails to parse exactly when its style id is not a number. */
  lemma ParseParagraphFails(q: ParagraphSource, pics: seq<PictureData>, i: nat, charPos: int)
    ensures ParseParagraph(q, pics, i, charPos).Err? <==> BadStyle(q)
    ensures ParseParagraph(q, pics, i, charPos).Err? ==> ParseParagraph(q, pics, i, charPos).error == NumberFormat
  {
    var d := DetectHeadingLevel(SourceText(q), q.style);
    assert d.Err? <==> BadStyle(q);
  }

  /** Record `i` is what the single-paragraph parse gives for paragraph `i`. */
  ghost predicate ParsedAt(qs: seq<ParagraphSource>, pics: seq<PictureData>, i: nat, p: Paragraph)
    requires i < |qs|
  {
    ParseParagraph(qs[i], pics, i, |FullText(qs, i)|) == Ok(p)
  }

  /** Parsing fails exactly when some style id is not a number, and then with a
      `NumberFormatException`. */
  lemma {:induction false} ParseParagraphsFails(qs: seq<ParagraphSource>, pics: seq<PictureData>, n: nat)
    requires n <= |qs|
    ensures ParseParagraphs(qs, pics, n).Err? <==> SomeBadStyle(qs, n)
    ensures ParseParagraphs(qs, pics, n).Err? ==> ParseParagraphs(qs, pics, n).error == NumberFormat
    decreases n
  {
    if n > 0 {
      ParseParagraphsFails(qs, pics, n - 1);
      ParseParagraphFails(qs[n - 1], pics, n - 1, |FullText(qs, n - 1)|);
      BadStyleSnoc(qs, n);
    }
  }

  /** Some style among the first `n` is bad exactly when one among the first `n - 1` is or
      the `n`-th is. */
  lemma BadStyleSnoc(qs: seq<ParagraphSource>, n: nat)
    requires 0 < n <= |qs|
    ensures SomeBadStyle(qs, n) <==> SomeBadStyle(qs, n - 1) || BadStyle(qs[n - 1])
  {
    if SomeBadStyle(qs, n) {
      var i :| 0 <= i < n && BadStyle(qs[i]);
      if i < n - 1 {
        assert SomeBadStyle(qs, n - 1);
      }
    }
  }

  /** A successful parse yields every body paragraph's own parse, in order, none skipped. */
  lemma {:induction false} ParseParagraphsOrder(qs: seq<ParagraphSource>, pics: seq<PictureData>, n: nat)
    requires n <= |qs|
    ensures ParseParagraphs(qs, pics, n).Ok? ==>
              var ps := ParseParagraphs(qs, pics, n).value;
              |ps| == n && forall i :: 0 <= i < n ==> ParsedAt(qs, pics, i, ps[i])
    decreases n
  {
    if n > 0 && ParseParagraphs(qs, pics, n).Ok? {
      ParseParagraphsOrder(qs, pics, n - 1);
      var r := ParseParagraphs(qs, pics, n - 1).value;
      var q := ParseParagraph(qs[n - 1], pics, n - 1, |FullText(qs, n - 1)|).value;
      assert ParseParagraphs(qs, pics, n) == Ok(r + [q]);
      assert ParsedAt(qs, pics, n - 1, q);
      ParsedSnoc(qs, pics, r, q);
    }
  }

  lemma ParsedSnoc(qs: seq<ParagraphSource>, pics: seq<PictureData>, r: seq<Paragraph>, q: Paragraph)
    requires |r| < |qs| && (forall i :: 0 <= i < |r| ==> ParsedAt(qs, pics, i, r[i])) && ParsedAt(qs, pics, |r|, q)
    ensures forall i :: 0 <= i < |r| + 1 ==> ParsedAt(qs, pics, i, (r + [q])[i])
  {
    forall i | 0 <= i < |r| + 1 ensures ParsedAt(qs, pics, i, (r + [q])[i]) {
      if i < |r| {
        assert (r + [q])[i] == r[i];
      }
    }
  }

  /** Parsing succeeds exactly when every style id is a number, and then every body
      paragraph yields one record, in order, none skipped. */
  lemma ParseParagraphsSpec(qs: seq<ParagraphSource>, pics: seq<PictureData>, n: nat)
    requires n <= |qs|
    ensures ParseParagraphs(qs, pics, n).Err? <==> SomeBadStyle(qs, n)
    ensures ParseParagraphs(qs, pics, n).Err? ==> ParseParagraphs(qs, pics, n).error == NumberFormat
    ensures ParseParagraphs(qs, pics, n).Ok? ==>
              var ps := ParseParagraphs(qs, pics, n).value;
              |ps| == n && forall i :: 0 <= i < n ==> RecordOf(qs, pics, i, ps[i])
  {
    ParseParagraphsFails(qs, pics, n);
    ParseParagraphsOrder(qs, pics, n);
    if ParseParagraphs(qs, pics, n).Ok? {
      var ps := ParseParagraphs(qs, pics, n).value;
      forall i | 0 <= i < n
        ensures RecordOf(qs, pics, i, ps[i])
      {
        ParseParagraphRecord(qs, pics, i);
      }
    }
  }

  /** The joined text of a prefix of the paragraphs is a prefix of the joined text. */
  lemma {:induction false} FullTextPrefix(qs: seq<ParagraphSource>, i: nat, n: nat)
    requires i <= n <= |qs|
    ensures |FullText(qs, i)| <= |FullText(qs, n)|
    ensures FullText(qs, n)[..|FullText(qs, i)|] == FullText(qs, i)
    decreases n - i
  {
    if i < n {
      FullTextPrefix(qs, i, n - 1);
      var a := FullText(qs, n - 1);
      assert FullText(qs, n) == a + SourceText(qs[n - 1]) + "\n";
      assert FullText(qs, n)[..|a|] == a;
    }
  }

  /** Paragraph `i`'s offsets locate its text in the joined text, followed by its "\n". */
  lemma ParagraphInFullText(qs: seq<ParagraphSource>, i: nat, n: nat)
    requires i < n <= |qs|
    ensures var full := FullText(qs, n);
            var start := |FullText(qs, i)|;
            var t := SourceText(qs[i]);
            start + |t| < |full| && full[start..start + |t|] == t && full[start + |t|] == '\n'
  {
    FullTextPrefix(qs, i + 1, n);
    PieceInPrefix(FullText(qs, n), FullText(qs, i), SourceText(qs[i]), FullText(qs, i + 1));
  }

  /** A prefix `a + t + "\n"` of `full` puts `t` at `|a|` and a line feed after it. */
  lemma PieceInPrefix(full: string, a: string, t: string, b: string)
    requires b == a + t + "\n" && |b| <= |full| && full[..|b|] == b
    ensures |a| + |t| < |full| && full[|a|..|a| + |t|] == t && full[|a| + |t|] == '\n'
  {
    assert b[|a|..|a| + |t|] == t;
    assert full[|a|..|a| + |t|] == b[|a|..|a| + |t|];
    assert full[|a| + |t|] == b[|a| + |t|];
  }

  /** Consecutive records are one "\n" apart: the next starts one past the previous end. */
  lemma RecordsAdjacent(qs: seq<ParagraphSource>, i: nat, p1: Paragraph, p2: Paragraph)
    requires i + 1 < |qs| && Placed(qs, i, p1) && Placed(qs, i + 1, p2)
    ensures p2.startPos == p1.endPos + 1
  {
    assert FullText(qs, i + 1) == FullText(qs, i) + SourceText(qs[i]) + "\n";
  }

  /** A record's offsets locate its text in the joined text of all `n` paragraphs. */
  lemma RecordInFullText(qs: seq<ParagraphSource>, i: nat, n: nat, p: Paragraph)
    requires i < n <= |qs| && Placed(qs, i, p)
    ensures 0 <= p.startPos <= p.endPos < |FullText(qs, n)|
    ensures FullText(qs, n)[p.startPos..p.endPos] == p.text
  {
    ParagraphInFullText(qs, i, n);
  }

  /** The records of a successful parse are placed one per paragraph. */
  lemma ParsedPlaced(src: DocxSource)
    requires ParseDocx(src).Ok?
    ensures var ps := ParseDocx(src).value.paragraphs;
            |ps| == |src.paragraphs| && forall i :: 0 <= i < |ps| ==> Placed(src.paragraphs, i, ps[i])
  {
    var qs := src.paragraphs;
    ParseParagraphsSpec(qs, src.pictures, |qs|);
    var ps := ParseDocx(src).value.paragraphs;
    forall i | 0 <= i < |ps|
      ensures Placed(qs, i, ps[i])
    {
      assert RecordOf(qs, src.pictures, i, ps[i]);
    }
  }

  /** The offsets of a parsed document: the first paragraph starts at 0, each ends
      `|text|` after its start, the next starts one past that end (the "\n"), and the
      joined text ends one past the last end. */
  lemma ParseDocxOffsets(src: DocxSource)
    requires ParseDocx(src).Ok?
    ensures var doc := ParseDocx(src).value;
            var ps := doc.paragraphs;
            && |ps| == |src.paragraphs|
            && (|ps| > 0 ==> ps[0].startPos == 0 && |doc.text| == ps[|ps| - 1].endPos + 1)
            && (|ps| == 0 ==> doc.text == [])
            && (forall i :: 0 <= i < |ps| ==> ps[i].id == i && ps[i].text == SourceText(src.paragraphs[i]))
            && (forall i :: 0 <= i < |ps| ==> ps[i].endPos == ps[i].startPos + |ps[i].text|)
            && (forall i :: 0 <= i < |ps| - 1 ==> ps[i + 1].startPos == ps[i].endPos + 1)
  {
    var qs := src.paragraphs;
    var n := |qs|;
    ParsedPlaced(src);
    var ps := ParseDocx(src).value.paragraphs;
    forall i | 0 <= i < n - 1
      ensures ps[i + 1].startPos == ps[i].endPos + 1
    {
      RecordsAdjacent(qs, i, ps[i], ps[i + 1]);
    }
    if n > 0 {
      assert Placed(qs, n - 1, ps[n - 1]);
      assert FullText(qs, n) == FullText(qs, n - 1) + SourceText(qs[n - 1]) + "\n";
    }
  }

  /** The joined text holds each paragraph's text at its offsets. */
  lemma ParseDocxTextAt(src: DocxSource)
    requires ParseDocx(src).Ok?
    ensures var doc := ParseDocx(src).value;
            var ps := doc.paragraphs;
            forall i :: 0 <= i < |ps| ==>
              (0 <= ps[i].startPos <= ps[i].endPos < |doc.text|
               && doc.text[ps[i].startPos..ps[i].endPos] == ps[i].text)
  {
    var qs := src.paragraphs;
    ParsedPlaced(src);
    var doc := ParseDocx(src).value;
    forall i | 0 <= i < |doc.paragraphs|
      ensures 0 <= doc.paragraphs[i].startPos <= doc.paragraphs[i].endPos < |doc.text|
      ensures doc.text[doc.paragraphs[i].startPos..doc.paragraphs[i].endPos] == doc.paragraphs[i].text
    {
      RecordInFullText(qs, i, |qs|, doc.paragraphs[i]);
    }
  }

  /** The positions the relationship-id search gives: paragraph `p` as index and id,
      run index -1 and the paragraph's offset. */
  ghost predicate ByIdPosition(img: ImageInfo, p: nat, charPos: int) {
    img.position == Some(ImagePosition(Some(p), Some(p), Some(-1), Some(charPos), None, None, None))
  }

  /** Picture `k` is one method 1 takes: its first relationship id is cited in the markup. */
  ghost predicate TakenById(pics: seq<PictureData>, markup: string, p: nat, charPos: int, n: nat, x: ImageInfo) {
    exists k :: 0 <= k < n && k < |pics| && IsPictureInParagraph(pics[k], markup)
                && x == RelationshipImage(pics[k], k, p, charPos)
  }

  /** Method 1 takes exactly the pictures whose first relationship id the markup cites,
      in index order, each keeping its picture index. */
  lemma {:induction false} RelationshipImagesSpec(pics: seq<PictureData>, markup: string, p: nat, charPos: int, n: nat)
    requires n <= |pics|
    ensures forall x :: x in RelationshipImages(pics, markup, p, charPos, n) <==> TakenById(pics, markup, p, charPos, n, x)
    ensures forall j :: 0 <= j < |RelationshipImages(pics, markup, p, charPos, n)| ==>
              var x := RelationshipImages(pics, markup, p, charPos, n)[j];
              0 <= x.index < n && ByIdPosition(x, p, charPos)
    ensures forall j1, j2 :: 0 <= j1 < j2 < |RelationshipImages(pics, markup, p, charPos, n)| ==>
              RelationshipImages(pics, markup, p, charPos, n)[j1].index < RelationshipImages(pics, markup, p, charPos, n)[j2].index
    decreases n
  {
    if n > 0 {
      RelationshipImagesSpec(pics, markup, p, charPos, n - 1);
      var prev := RelationshipImages(pics, markup, p, charPos, n - 1);
      var r := RelationshipImages(pics, markup, p, charPos, n);
      if IsPictureInParagraph(pics[n - 1], markup) {
        var img := RelationshipImage(pics[n - 1], n - 1, p, charPos);
        assert r == prev + [img];
        forall x
          ensures x in r <==> TakenById(pics, markup, p, charPos, n, x)
        {
          if x in r && x !in prev {
            assert x == img;
          }
          if TakenById(pics, markup, p, charPos, n, x) && !TakenById(pics, markup, p, charPos, n - 1, x) {
            assert x == img;
          }
        }
        forall j | 0 <= j < |r|
          ensures 0 <= r[j].index < n && ByIdPosition(r[j], p, charPos)
        {
          if j < |prev| {
            assert r[j] == prev[j];
          }
        }
        forall j1, j2 | 0 <= j1 < j2 < |r|
          ensures r[j1].index < r[j2].index
        {
          assert r[j1] == prev[j1];
          if j2 < |prev| {
            assert r[j2] == prev[j2];
          }
        }
      } else {
        assert r == prev;
        forall x | TakenById(pics, markup, p, charPos, n, x)
          ensures TakenById(pics, markup, p, charPos, n - 1, x)
        {
          var k :| 0 <= k < n && k < |pics| && IsPictureInParagraph(pics[k], markup)
                   && x == RelationshipImage(pics[k], k, p, charPos);
          assert k < n - 1;
        }
      }
    }
  }

  predicate HasBytes(pic: Option<PictureData>) {
    pic.Some? && pic.value.data.Some?
  }

  /** The number of the first `m` pictures that have picture data with bytes. */
  function WithBytes(pics: seq<Option<PictureData>>, m: nat): nat
    requires m <= |pics|
  {
    if m == 0 then 0 else WithBytes(pics, m - 1) + (if HasBytes(pics[m - 1]) then 1 else 0)
  }

  /** The number of embedded pictures of runs `0 .. n - 1` that have picture data with bytes. */
  function EmbeddedCount(runs: seq<RunSource>, n: nat): nat
    requires n <= |runs|
  {
    if n == 0 then 0 else EmbeddedCount(runs, n - 1) + WithBytes(runs[n - 1].pictures, |runs[n - 1].pictures|)
  }

  /** The position the run search gives: paragraph `p` as index and id, run `r` with its
      text, and the paragraph's offset. */
  ghost predicate RunPosition(img: ImageInfo, p: nat, charPos: int, r: nat, runText: Option<string>) {
    img.position == Some(ImagePosition(Some(p), Some(p), Some(r), Some(charPos), None, None, runText))
  }

  lemma {:induction false} PicturesOfRunSpec(run: RunSource, r: nat, p: nat, charPos: int, base: nat, m: nat)
    requires m <= |run.pictures|
    ensures var imgs := PicturesOfRun(run, r, p, charPos, base, m);
            && |imgs| == WithBytes(run.pictures, m)
            && forall x :: x in imgs ==> RunPosition(x, p, charPos, r, run.text)
    decreases m
  {
    if m > 0 {
      PicturesOfRunSpec(run, r, p, charPos, base, m - 1);
    }
  }

  /** Method 2 numbers exactly the embedded pictures that carry bytes, `0 .. k - 1` in run
      order, each anchored at its paragraph and run. */
  lemma {:induction false} RunImagesSpec(runs: seq<RunSource>, p: nat, charPos: int, n: nat)
    requires n <= |runs|
    ensures var imgs := RunImages(runs, p, charPos, n);
            && |imgs| == EmbeddedCount(runs, n)
            && forall x :: x in imgs ==> exists r :: 0 <= r < n && RunPosition(x, p, charPos, r, runs[r].text)
    decreases n
  {
    if n > 0 {
      RunImagesSpec(runs, p, charPos, n - 1);
      var prev := RunImages(runs, p, charPos, n - 1);
      var last := PicturesOfRun(runs[n - 1], n - 1, p, charPos, |prev|, |runs[n - 1].pictures|);
      PicturesOfRunSpec(runs[n - 1], n - 1, p, charPos, |prev|, |runs[n - 1].pictures|);
      assert RunImages(runs, p, charPos, n) == prev + last;
      forall x | x in prev + last
        ensures exists r :: 0 <= r < n && RunPosition(x, p, charPos, r, runs[r].text)
      {
        if x in prev {
          var r :| 0 <= r < n - 1 && RunPosition(x, p, charPos, r, runs[r].text);
          assert 0 <= r < n;
        } else {
          assert x in last;
          assert RunPosition(x, p, charPos, n - 1, runs[n - 1].text);
        }
      }
    }
  }

  /** Every image a paragraph record holds is anchored at that paragraph and its offset. */
  lemma ParagraphImagesAnchored(q: ParagraphSource, pics: seq<PictureData>, p: nat, charPos: int)
    ensures forall x :: x in ParagraphImages(q, pics, p, charPos) ==>
              x.position.Some? && x.position.value.paragraphIndex == Some(p)
              && x.position.value.paragraphId == Some(p) && x.position.value.charPosition == Some(charPos)
  {
    var byId := RelationshipImages(pics, q.markup, p, charPos, |pics|);
    if byId != [] {
      RelationshipImagesSpec(pics, q.markup, p, charPos, |pics|);
      forall x | x in byId
        ensures ByIdPosition(x, p, charPos)
      {
        var j :| 0 <= j < |byId| && byId[j] == x;
      }
    } else {
      RunImagesSpec(q.runs, p, charPos, |q.runs|);
      forall x | x in RunImages(q.runs, p, charPos, |q.runs|)
        ensures x.position.Some? && x.position.value.paragraphIndex == Some(p)
                && x.position.value.paragraphId == Some(p) && x.position.value.charPosition == Some(charPos)
      {
        var r :| 0 <= r < |q.runs| && RunPosition(x, p, charPos, r, q.runs[r].text);
      }
    }
  }

  /** The document's image list: the paragraphs' images in paragraph order, then, when
      fewer were anchored than there are pictures, pictures `m .. total - 1` with
      paragraph index -1 and the joined text's length as offset; `max(m, total)` in all. */
  lemma ParseDocxImages(src: DocxSource)
    requires ParseDocx(src).Ok?
    ensures var doc := ParseDocx(src).value;
            var m := |Flatten(doc.paragraphs)|;
            var total := |src.pictures|;
            && |doc.images| == (if m < total then total else m)
            && doc.images[..m] == Flatten(doc.paragraphs)
            && forall k :: m <= k < total ==>
                 && doc.images[k].index == k
                 && doc.images[k].position == Some(EmptyPosition.(paragraphIndex := Some(-1), charPosition := Some(|doc.text|)))
                 && doc.images[k].data == src.pictures[k].data
  {
    var doc := ParseDocx(src).value;
    var m := |Flatten(doc.paragraphs)|;
    assert doc.images == Flatten(doc.paragraphs) + Leftovers(src.pictures, m, |doc.text|);
    forall k | m <= k < |src.pictures|
      ensures doc.images[k] == LeftoverImage(src.pictures[k], k, |doc.text|)
    {
      assert doc.images[k] == Leftovers(src.pictures, m, |doc.text|)[k - m];
    }
  }

  /** With no pictures at all, no paragraph and no leftover holds an image. */
  lemma NoPicturesNoImages(src: DocxSource)
    requires ParseDocx(src).Ok? && src.pictures == []
    requires forall i, r :: 0 <= i < |src.paragraphs| && 0 <= r < |src.paragraphs[i].runs| ==>
               src.paragraphs[i].runs[r].pictures == []
    ensures ParseDocx(src).value.images == []
  {
    var qs := src.paragraphs;
    ParseParagraphsSpec(qs, src.pictures, |qs|);
    var ps := ParseDocx(src).value.paragraphs;
    forall i | 0 <= i < |ps|
      ensures ps[i].images == []
    {
      assert RecordOf(qs, src.pictures, i, ps[i]);
      RunImagesSpec(qs[i].runs, i, ps[i].startPos, |qs[i].runs|);
      NoEmbedded(qs[i].runs, |qs[i].runs|);
    }
    FlattenEmpty(ps);
  }

  lemma {:induction false} NoEmbedded(runs: seq<RunSource>, n: nat)
    requires n <= |runs| && forall r :: 0 <= r < |runs| ==> runs[r].pictures == []
    ensures EmbeddedCount(runs, n) == 0
  {
    if n > 0 {
      NoEmbedded(runs, n - 1);
    }
  }

  lemma {:induction false} FlattenEmpty(ps: seq<Paragraph>)
    requires forall i :: 0 <= i < |ps| ==> ps[i].images == []
    ensures Flatten(ps) == []
  {
    if ps != [] {
      FlattenEmpty(ps[..|ps| - 1]);
    }
  }

  /** The leftover bucket counts images rather than tracking which pictures were taken:
      with pictures A and B where only B is anchored, picture 1 (B) is appended again
      and A appears nowhere. Every image of the result holds B's bytes. */
  lemma LeftoverRepeatsAnchored(a: PictureData, b: PictureData, q: ParagraphSource)
    requires q.text.None? && q.style.None? && q.runs == []
    requires !IsPictureInParagraph(a, q.markup) && IsPictureInParagraph(b, q.markup)
    ensures var r := ParseDocx(DocxSource([q], [a, b]));
            && r.Ok?
            && |r.value.images| == 2
            && r.value.images[0].index == 1 && r.value.images[1].index == 1
            && forall k :: 0 <= k < |r.value.images| ==> r.value.images[k].data == b.data
  {
    var pics := [a, b];
    assert RelationshipImages(pics, q.markup, 0, 0, 1) == [];
    assert RelationshipImages(pics, q.markup, 0, 0, 2) == [RelationshipImage(b, 1, 0, 0)];
    assert SourceText(q) == [];
    assert FullText([q], 0) == [];
    var level := DetectHeadingLevel([], None);
    assert level.Ok?;
    var p := Paragraph(0, [], 0, 0, DetectParagraphType([], None), level.value, [], [RelationshipImage(b, 1, 0, 0)]);
    assert ParseParagraph(q, pics, 0, 0) == Ok(p);
    assert ParseParagraphs([q], pics, 0) == Ok([]);
    assert [q][0] == q;
    assert ParseParagraphs([q], pics, 1) == Ok([] + [p]);
    assert Flatten([p]) == [RelationshipImage(b, 1, 0, 0)];
  }

  /** A concrete case: the paragraph refers to "rId2" only, so picture 0's bytes [1]
      are lost and picture 1's bytes [2] are listed twice. */
  lemma LeftoverLosesPicture()
    ensures var a := PictureData(Some([1]), Some("a.png"), "png", []);
            var b := PictureData(Some([2]), Some("b.png"), "png", ["rId2"]);
            var q := ParagraphSource(None, None, "r:embed=\"rId2\"", []);
            var r := ParseDocx(DocxSource([q], [a, b]));
            r.Ok? && |r.value.images| == 2 && forall k :: 0 <= k < 2 ==> r.value.images[k].data != a.data
  {
    var a := PictureData(Some([1]), Some("a.png"), "png", []);
    var b := PictureData(Some([2]), Some("b.png"), "png", ["rId2"]);
    var q := ParagraphSource(None, None, "r:embed=\"rId2\"", []);
    assert RelationshipAttributes(b.relIds[0])[0] == q.markup;
    assert OccursAt(q.markup, q.markup, 0);
    assert Contains(q.markup, RelationshipAttributes(b.relIds[0])[0]);
    LeftoverRepeatsAnchored(a, b, q);
  }
}
