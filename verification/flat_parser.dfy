/** The plain DOCX parser of the utilities package (utils DocumentParser): one record per
    body paragraph or table whose text is not blank, with consecutive ids and offsets into
    a text that joins the records with blank lines, followed by the header and footer
    paragraphs; the type and heading-level heuristics of this copy; table flattening; and
    the small helpers `putIfNotNull` and `getFileExtension`.

    The POI document is given as plain data: per body element its kind and content, and
    per paragraph its text, style id and numbering level. */
module FlatParser {
  import opened Std
  import opened JavaText
  import opened Patterns

  /** An `XWPFParagraph`: `getText()`, `getStyle()` and `getNumIlvl()`. */
  datatype ParaSource = ParaSource(text: Option<string>, style: Option<string>, numLevel: Option<int>)

  /** A body element; a table is its rows of cell texts. Content controls yield no text,
      because the extraction of their text always answers null. */
  datatype BodyElement =
    | ParagraphElement(para: ParaSource)
    | TableElement(rows: seq<seq<string>>)
    | ContentControl

  datatype FlatDocx = FlatDocx(body: seq<BodyElement>, headers: seq<ParaSource>, footers: seq<ParaSource>)

  /** The `rows`, `columns` and `table_data` entries of a table's style map. */
  datatype TableShape = TableShape(rows: nat, columns: nat, cells: seq<seq<string>>)

  datatype FlatParagraph = FlatParagraph(
    id: int,
    text: string,
    startPos: int,
    endPos: int,
    elementIndex: int,
    kind: string,
    level: int,
    listLevel: Option<int>,
    table: Option<TableShape>)

  datatype FlatContent = FlatContent(text: string, paragraphs: seq<FlatParagraph>)

  // ---------------------------------------------------------------------------
  // Classification

  /** The style id, lower-cased, names a title or a heading. */
  predicate StyleSaysHeading(style: Option<string>) {
    style.Some? && (Contains(ToLower(style.value), "title") || Contains(ToLower(style.value), "heading"))
  }

  /** Short text ending in an ASCII colon; the full-width colon does not count here. */
  predicate ColonHeading(t: string) {
    |t| < 150 && EndsWith(t, ":")
  }

  predicate ListText(t: string) {
    NumberedItem(t) || CjkNumberedItem(t) || BulletItem(t)
  }

  predicate IsParagraphKind(kind: string) {
    kind in {"empty", "heading", "list_item", "table_caption", "figure_caption", "normal"}
  }

  /** `detectParagraphType`: blank text first, then the style, then the colon rule, the
      list markers, and the table and figure captions. */
  function DetectParagraphType(text: string, style: Option<string>): (kind: string)
    ensures IsParagraphKind(kind)
    ensures kind == "empty" <==> IsBlank(text)
    ensures !IsBlank(text) && StyleSaysHeading(style) ==> kind == "heading"
    ensures kind == "list_item" ==> ListText(Trim(text))
    ensures kind == "table_caption" ==> TableCaption(Trim(text))
    ensures kind == "figure_caption" ==> FigureCaption(Trim(text))
  {
    if IsBlank(text) then "empty"
    else if StyleSaysHeading(style) then "heading"
    else
      var t := Trim(text);
      if ColonHeading(t) then "heading"
      else if ListText(t) then "list_item"
      else if TableCaption(t) then "table_caption"
      else if FigureCaption(t) then "figure_caption"
      else "normal"
  }

  /** Only the trimmed text matters: padding around a paragraph never changes its type. */
  lemma TypeIgnoresPadding(text: string, style: Option<string>)
    ensures DetectParagraphType(Trim(text), style) == DetectParagraphType(text, style)
  {
    TrimTwice(text);
  }

  /** Unlike the import-path parser, this copy accepts only the ASCII colon: a short
      line ending in a full-width colon is a heading there and plain text here. */
  lemma ColonRuleIsAscii()
    ensures DetectParagraphType("概述：", None) == "normal"
  {
    var t := "概述：";
    assert Trim(t) == t;
    assert !EndsWith(t, ":") by { assert t[|t| - 1] == '：'; }
    assert Span(t, IsDigit) == 0 && Span(t, IsCjkNumeral) == 0;
    assert !StartsWith(t, "Table") && !StartsWith(t, "Figure");
  }

  /** The first heading style the lower-cased style id contains, checked in the order
      heading1 or title, heading2, ..., heading6. */
  function StyleLevel(style: Option<string>): (level: Option<int>)
    ensures level.Some? ==> style.Some? && 1 <= level.value <= 6
  {
    if style.None? then None
    else
      var s := ToLower(style.value);
      if Contains(s, "heading1") || Contains(s, "title") then Some(1)
      else if Contains(s, "heading2") then Some(2)
      else if Contains(s, "heading3") then Some(3)
      else if Contains(s, "heading4") then Some(4)
      else if Contains(s, "heading5") then Some(5)
      else if Contains(s, "heading6") then Some(6)
      else None
  }

  /** No occurrence of `t` in a string without `t`'s first code unit. */
  lemma Absent(s: string, t: string)
    requires t != [] && Free(s, t[0])
    ensures !Contains(s, t)
  {
    forall i | 0 <= i <= |s| - |t| ensures !OccursAt(s, t, i) {
      assert s[i..i + |t|][0] == s[i];
    }
  }

  /** A string contains a different string of its own length nowhere. */
  lemma NotSameLength(s: string, t: string)
    requires |s| == |t| && s != t
    ensures !Contains(s, t)
  {
    forall i | 0 <= i <= |s| - |t| ensures !OccursAt(s, t, i) {
      assert s[i..i + |t|] == s;
    }
  }

  /** The style ids `StyleLevel` looks for after "title", in the order it tries them. */
  const HeadingTags: seq<string> := ["heading1", "heading2", "heading3", "heading4", "heading5", "heading6"]

  /** Each heading tag contains itself and no other tag, and none contains "title". */
  lemma TagFacts()
    ensures forall a, b :: 0 <= a < 6 && 0 <= b < 6 ==> (Contains(HeadingTags[a], HeadingTags[b]) <==> a == b)
    ensures forall a :: 0 <= a < 6 ==> !Contains(HeadingTags[a], "title")
  {
    var tags := HeadingTags;
    forall a, b | 0 <= a < 6 && 0 <= b < 6
      ensures Contains(tags[a], tags[b]) <==> a == b
    {
      if a == b {
        assert OccursAt(tags[a], tags[b], 0);
      } else {
        assert tags[a][7] != tags[b][7];
        NotSameLength(tags[a], tags[b]);
      }
    }
    forall a | 0 <= a < 6 ensures !Contains(tags[a], "title") {
      Absent(tags[a], "title");
    }
  }

  /** A style id that lower-cases to the `a`-th heading tag gives level `a + 1`. */
  lemma TagLevel(style: string, a: nat)
    requires a < 6 && ToLower(style) == HeadingTags[a]
    ensures StyleLevel(Some(style)) == Some(a + 1)
  {
    TagFacts();
    var t := HeadingTags;
    assert t[0] == "heading1" && t[1] == "heading2" && t[2] == "heading3";
    assert t[3] == "heading4" && t[4] == "heading5" && t[5] == "heading6";
  }

  /** "Heading" followed by a digit from 1 to 6, in any letter case, gives that level. */
  lemma HeadingDigitLevel(d: char)
    requires '1' <= d <= '6'
    ensures StyleLevel(Some("Heading" + [d])) == Some(d as int - '0' as int)
  {
    var a := d as int - '1' as int;
    ToLowerAppend("Heading", [d]);
    assert ToLower("Heading") == "heading";
    assert ToLower([d]) == [d];
    assert HeadingTags[a] == "heading" + [d] by {
      if a == 0 {} else if a == 1 {} else if a == 2 {} else if a == 3 {} else if a == 4 {} else {}
    }
    TagLevel("Heading" + [d], a);
  }

  /** Word's built-in style ids, in any letter case: "Title" and "Heading1" give level 1
      and "Heading<k>" gives level k up to 6. */
  lemma HeadingStyleLevels()
    ensures StyleLevel(Some("Title")) == Some(1)
    ensures StyleLevel(Some("Heading1")) == Some(1)
    ensures StyleLevel(Some("Heading2")) == Some(2)
    ensures StyleLevel(Some("Heading3")) == Some(3)
    ensures StyleLevel(Some("Heading4")) == Some(4)
    ensures StyleLevel(Some("Heading5")) == Some(5)
    ensures StyleLevel(Some("Heading6")) == Some(6)
  {
    assert ToLower("Title") == "title";
    assert OccursAt("title", "title", 0);
    HeadingDigitLevel('1');
    assert "Heading" + ['1'] == "Heading1";
    HeadingDigitLevel('2');
    assert "Heading" + ['2'] == "Heading2";
    HeadingDigitLevel('3');
    assert "Heading" + ['3'] == "Heading3";
    HeadingDigitLevel('4');
    assert "Heading" + ['4'] == "Heading4";
    HeadingDigitLevel('5');
    assert "Heading" + ['5'] == "Heading5";
    HeadingDigitLevel('6');
    assert "Heading" + ['6'] == "Heading6";
  }

  /** The `d.` disjunct of the level-1 test also demands that the text has no dot, which
      a text matching it always has: level 1 from text comes only from 第…章. */
  lemma DottedNumberHasDot(t: string)
    requires DottedNumberSpaces(t)
    ensures Contains(t, ".")
  {
    var a := Span(t, IsDigit);
    assert OccursAt(t, ".", a);
  }

  /** The level the trimmed text gives when it is shorter than 100 code units. */
  function TextLevel(t: string): (level: int)
    ensures 0 <= level <= 3
    ensures level == 1 <==> |t| < 100 && ChapterHeading(t)
    ensures level == 2 ==> |t| < 100 && Section2Spaces(t)
    ensures level == 3 ==> |t| < 100 && Section3Spaces(t)
    ensures |t| >= 100 ==> level == 0
  {
    if |t| < 100 then
      if ChapterHeading(t) || (DottedNumberSpaces(t) && !Contains(t, ".")) then
        (if DottedNumberSpaces(t) then DottedNumberHasDot(t); 1 else 1)
      else if Section2Spaces(t) then 2
      else if Section3Spaces(t) then 3
      else 0
    else 0
  }

  /** `detectHeadingLevel`: a heading style wins; otherwise the textual level. */
  function DetectHeadingLevel(text: string, style: Option<string>): (level: int)
    ensures 0 <= level <= 6
    ensures StyleLevel(style).Some? ==> level == StyleLevel(style).value
    ensures StyleLevel(style).None? ==> level == TextLevel(Trim(text))
  {
    match StyleLevel(style)
    case Some(l) => l
    case None => TextLevel(Trim(text))
  }

  // ---------------------------------------------------------------------------
  // Records

  /** `parseXWPFParagraph`: a null text reads as empty; a numbering level makes the
      paragraph a list item whatever its text says. */
  function ParseParagraph(src: ParaSource, elementIndex: int, pos: int, id: int): (p: FlatParagraph)
    ensures p.endPos - p.startPos == |p.text|
    ensures src.numLevel.Some? ==> p.kind == "list_item" && p.listLevel == src.numLevel
    ensures src.numLevel.None? ==> p.kind == DetectParagraphType(p.text, src.style) && p.listLevel.None?
    ensures 0 <= p.level <= 6
  {
    var text := src.text.GetOr("");
    var kind := if src.numLevel.Some? then "list_item" else DetectParagraphType(text, src.style);
    FlatParagraph(id, text, pos, pos + |text|, elementIndex, kind, DetectHeadingLevel(text, src.style),
                  src.numLevel, None)
  }

  /** Each string followed by `t`. */
  function Terminated(xs: seq<string>, t: string): string {
    if xs == [] then [] else xs[0] + t + Terminated(xs[1..], t)
  }

  /** Each row's cells, each followed by a tab. */
  function RowTexts(rows: seq<seq<string>>): (r: seq<string>)
    ensures |r| == |rows|
    ensures forall i :: 0 <= i < |rows| ==> r[i] == Terminated(rows[i], "\t")
  {
    if rows == [] then [] else [Terminated(rows[0], "\t")] + RowTexts(rows[1..])
  }

  /** The table text before trimming: the rows, each followed by a newline. */
  function RawTableText(rows: seq<seq<string>>): string {
    Terminated(RowTexts(rows), "\n")
  }

  /** `parseXWPFTable`: the trimmed flattened text, an end offset measured on the text
      before trimming, and the row and column counts (columns from the first row). */
  function ParseTable(rows: seq<seq<string>>, elementIndex: int, pos: int, id: int): (p: FlatParagraph)
    ensures p.kind == "table" && p.text == Trim(RawTableText(rows))
    ensures p.table.Some? && p.table.value.rows == |rows| && p.table.value.cells == rows
    ensures p.table.value.columns == (if rows == [] then 0 else |rows[0]|)
  {
    var raw := RawTableText(rows);
    FlatParagraph(id, Trim(raw), pos, pos + |raw|, elementIndex, "table", 0, None,
                  Some(TableShape(|rows|, if rows == [] then 0 else |rows[0]|, rows)))
  }

  /** The end offset of a non-empty table lies past its text: the raw text ends with a
      newline that trimming removes. */
  lemma TableEndPastText(rows: seq<seq<string>>, elementIndex: int, pos: int, id: int)
    requires rows != []
    ensures var p := ParseTable(rows, elementIndex, pos, id);
            p.endPos > p.startPos + |p.text|
  {
    var raw := RawTableText(rows);
    var rs := RowTexts(rows);
    assert raw == rs[0] + "\n" + Terminated(rs[1..], "\n");
    TerminatedEnds(rs, "\n");
    assert IsTrimSpace(raw[|raw| - 1]);
    TrimSpec(raw);
  }

  lemma {:induction false} TerminatedEnds(xs: seq<string>, t: string)
    requires xs != [] && t != []
    ensures EndsWith(Terminated(xs, t), t)
    decreases |xs|
  {
    if |xs| > 1 {
      TerminatedEnds(xs[1..], t);
    } else {
      assert Terminated(xs, t) == xs[0] + t;
    }
  }

  /** `s` has no code unit `c`. */
  predicate Free(s: string, c: char) {
    forall i :: 0 <= i < |s| ==> s[i] != c
  }

  lemma {:induction false} TerminatedFree(xs: seq<string>, t: string, c: char)
    requires Free(t, c) && forall k :: 0 <= k < |xs| ==> Free(xs[k], c)
    ensures Free(Terminated(xs, t), c)
    decreases |xs|
  {
    if xs != [] {
      TerminatedFree(xs[1..], t, c);
    }
  }

  /** The first `c` at or after `i` is at `m` when `s[i..m]` holds none. */
  lemma {:induction false} FirstChar(s: string, c: char, i: nat, m: nat)
    requires i <= m < |s| && s[m] == c && forall j :: i <= j < m ==> s[j] != c
    ensures IndexOfFrom(s, [c], i) == Some(m)
    decreases m - i
  {
    if i < m {
      assert !OccursAt(s, [c], i) by { assert s[i..i + 1][0] == s[i]; }
      FirstChar(s, c, i + 1, m);
    } else {
      assert s[m..m + 1] == [c];
    }
  }

  /** Splitting on the terminator gives the strings back, plus the empty piece after the
      last terminator, as long as no string holds the terminator. */
  lemma {:induction false} TerminatedPieces(xs: seq<string>, c: char)
    requires forall k :: 0 <= k < |xs| ==> Free(xs[k], c)
    ensures PiecesOn(Terminated(xs, [c]), [c]) == xs + [[]]
    decreases |xs|
  {
    var s := Terminated(xs, [c]);
    if xs == [] {
      assert IndexOfFrom(s, [c], 0) == None;
    } else {
      var x := xs[0];
      var rest := Terminated(xs[1..], [c]);
      assert s == x + [c] + rest;
      FirstChar(s, c, 0, |x|);
      assert s[..|x|] == x;
      assert s[|x| + 1..] == rest;
      TerminatedPieces(xs[1..], c);
      assert xs == [x] + xs[1..];
    }
  }

  /** The flattened table decodes back to its cells: the rows are the newline-separated
      pieces and each row's cells are its tab-separated pieces, as long as no cell holds
      a tab or a newline. */
  lemma TableTextDecodes(rows: seq<seq<string>>)
    requires forall i, j :: 0 <= i < |rows| && 0 <= j < |rows[i]| ==> Free(rows[i][j], '\t') && Free(rows[i][j], '\n')
    ensures PiecesOn(RawTableText(rows), "\n") == RowTexts(rows) + [[]]
    ensures forall i :: 0 <= i < |rows| ==> PiecesOn(RowTexts(rows)[i], "\t") == rows[i] + [[]]
  {
    var rs := RowTexts(rows);
    forall i | 0 <= i < |rows|
      ensures Free(rs[i], '\n') && PiecesOn(rs[i], "\t") == rows[i] + [[]]
    {
      TerminatedFree(rows[i], "\t", '\n');
      TerminatedPieces(rows[i], '\t');
    }
    TerminatedPieces(rs, '\n');
  }

  // ---------------------------------------------------------------------------
  // The body fold

  /** The text a body element's record would carry, or None for a content control. */
  function ElementText(e: BodyElement): Option<string> {
    match e
    case ParagraphElement(src) => Some(src.text.GetOr(""))
    case TableElement(rows) => Some(Trim(RawTableText(rows)))
    case ContentControl => None
  }

  predicate Kept(e: BodyElement) {
    ElementText(e).Some? && !IsBlank(ElementText(e).value)
  }

  /** The record element `i` contributes at offset `pos` as record `id`, if it survives
      the blank filter. */
  function Record(e: BodyElement, i: nat, pos: int, id: int): (r: Option<FlatParagraph>)
    ensures r.Some? <==> Kept(e)
    ensures r.Some? ==> Some(r.value.text) == ElementText(e) && r.value.elementIndex == i
                        && r.value.id == id && r.value.startPos == pos
  {
    match e
    case ParagraphElement(src) =>
      var p := ParseParagraph(src, i, pos, id);
      if IsBlank(p.text) then None else Some(p)
    case TableElement(rows) =>
      var p := ParseTable(rows, i, pos, id);
      if IsBlank(p.text) then None else Some(p)
    case ContentControl => None
  }

  /** The text built so far and the records collected so far. */
  datatype Acc = Acc(full: string, paras: seq<FlatParagraph>)

  function AddElement(acc: Acc, e: BodyElement, i: nat): Acc {
    match Record(e, i, |acc.full|, |acc.paras|)
    case None => acc
    case Some(p) => Acc(acc.full + p.text + "\n\n", acc.paras + [p])
  }

  /** The loop over the body elements, in order. */
  function Body(elems: seq<BodyElement>): Acc
    decreases |elems|
  {
    if elems == [] then Acc([], [])
    else AddElement(Body(elems[..|elems| - 1]), elems[|elems| - 1], |elems| - 1)
  }

  /** Reference: the indices of the elements that survive the filter, ascending. */
  function Survivors(elems: seq<BodyElement>): seq<nat>
    decreases |elems|
  {
    if elems == [] then []
    else Survivors(elems[..|elems| - 1]) + (if Kept(elems[|elems| - 1]) then [|elems| - 1] else [])
  }

  /** Reference: the records' texts, each followed by a blank line. */
  function Chain(ps: seq<FlatParagraph>): string
    decreases |ps|
  {
    if ps == [] then [] else Chain(ps[..|ps| - 1]) + ps[|ps| - 1].text + "\n\n"
  }

  /** The survivors are exactly the kept elements, in ascending order. */
  lemma {:induction false} SurvivorsSpec(elems: seq<BodyElement>)
    ensures var sv := Survivors(elems);
            && (forall k :: 0 <= k < |sv| ==> sv[k] < |elems| && Kept(elems[sv[k]]))
            && (forall k, l :: 0 <= k < l < |sv| ==> sv[k] < sv[l])
            && (forall i :: 0 <= i < |elems| && Kept(elems[i]) ==> i in sv)
    decreases |elems|
  {
    if elems != [] {
      var n := |elems| - 1;
      var init := elems[..n];
      SurvivorsSpec(init);
      assert forall k :: 0 <= k < |Survivors(init)| ==> Survivors(init)[k] < |init| && Kept(init[Survivors(init)[k]]);
      var s0 := Survivors(init);
      var sv := Survivors(elems);
      assert sv == s0 + (if Kept(elems[n]) then [n] else []);
      forall k | 0 <= k < |sv| ensures sv[k] < |elems| && Kept(elems[sv[k]]) {
        if k < |s0| {
          assert sv[k] == s0[k];
          assert elems[s0[k]] == init[s0[k]];
        } else {
          assert sv[k] == n;
        }
      }
      forall k, l | 0 <= k < l < |sv| ensures sv[k] < sv[l] {
        assert sv[k] == s0[k];
        if l < |s0| {
          assert sv[l] == s0[l];
        }
      }
      forall i | 0 <= i < |elems| && Kept(elems[i]) ensures i in sv {
        if i < n {
          assert init[i] == elems[i];
          var k :| 0 <= k < |s0| && s0[k] == i;
          assert sv[k] == i;
        } else {
          assert sv[|sv| - 1] == n;
        }
      }
    }
  }

  /** No record has blank text. */
  lemma {:induction false} BodyNonBlank(elems: seq<BodyElement>)
    ensures forall k :: 0 <= k < |Body(elems).paras| ==> !IsBlank(Body(elems).paras[k].text)
    decreases |elems|
  {
    if elems != [] {
      BodyNonBlank(elems[..|elems| - 1]);
    }
  }

  /** One record per surviving element, in element order, carrying that element's text:
      nothing is skipped but blank paragraphs, blank tables and content controls. */
  lemma {:induction false} BodyKeeps(elems: seq<BodyElement>)
    ensures var ps := Body(elems).paras;
            var sv := Survivors(elems);
            && |ps| == |sv|
            && forall k :: 0 <= k < |ps| ==>
                 0 <= sv[k] < |elems| && ps[k].elementIndex == sv[k] && Some(ps[k].text) == ElementText(elems[sv[k]])
    decreases |elems|
  {
    if elems != [] {
      var init := elems[..|elems| - 1];
      BodyKeeps(init);
      assert forall k :: 0 <= k < |init| ==> init[k] == elems[k];
    }
  }

  /** Record ids are 0, 1, 2, ... in order. */
  lemma {:induction false} BodyIds(elems: seq<BodyElement>)
    ensures forall k :: 0 <= k < |Body(elems).paras| ==> Body(elems).paras[k].id == k
    decreases |elems|
  {
    if elems != [] {
      BodyIds(elems[..|elems| - 1]);
    }
  }

  /** The joined text is the records' texts each followed by a blank line, and each
      record starts where the text of the records before it ends. */
  lemma {:induction false} BodyChain(elems: seq<BodyElement>)
    ensures var acc := Body(elems);
            && acc.full == Chain(acc.paras)
            && forall k :: 0 <= k < |acc.paras| ==> acc.paras[k].startPos == |Chain(acc.paras[..k])|
    decreases |elems|
  {
    if elems != [] {
      var init := elems[..|elems| - 1];
      BodyChain(init);
      var before := Body(init);
      assert Chained(before);
      var i := |elems| - 1;
      match Record(elems[i], i, |before.full|, |before.paras|)
      case None =>
        assert Body(elems) == before;
      case Some(p) =>
        assert Body(elems) == Acc(before.full + p.text + "\n\n", before.paras + [p]);
        ChainedSnoc(before, p);
    }
  }

  /** The joined text and the offsets of `BodyChain`, for one accumulator. */
  ghost predicate Chained(acc: Acc) {
    && acc.full == Chain(acc.paras)
    && forall k :: 0 <= k < |acc.paras| ==> acc.paras[k].startPos == |Chain(acc.paras[..k])|
  }

  lemma ChainedSnoc(acc: Acc, p: FlatParagraph)
    requires Chained(acc) && p.startPos == |acc.full|
    ensures Chained(Acc(acc.full + p.text + "\n\n", acc.paras + [p]))
  {
    var ps := acc.paras + [p];
    assert ps[..|acc.paras|] == acc.paras;
    assert ps[..|ps| - 1] == acc.paras;
    forall k | 0 <= k < |acc.paras|
      ensures ps[..k] == acc.paras[..k]
    {
    }
  }

  /** The offsets step by the text length plus the two newlines of the separator, from 0. */
  lemma BodyOffsets(elems: seq<BodyElement>)
    ensures var ps := Body(elems).paras;
            && (ps != [] ==> ps[0].startPos == 0)
            && forall k :: 0 <= k < |ps| - 1 ==> ps[k + 1].startPos == ps[k].startPos + |ps[k].text| + 2
  {
    BodyChain(elems);
    var ps := Body(elems).paras;
    forall k | 0 <= k < |ps| - 1
      ensures ps[k + 1].startPos == ps[k].startPos + |ps[k].text| + 2
    {
      assert ps[..k + 1][..k] == ps[..k];
    }
  }

  // ---------------------------------------------------------------------------
  // Headers, footers and the document

  /** A header or footer paragraph: parsed with its record index as element index, kept
      when not blank, retyped, and written to the text after its marker. */
  function AddMarked(acc: Acc, src: ParaSource, mark: string, kind: string): Acc {
    var p := ParseParagraph(src, |acc.paras|, |acc.full|, |acc.paras|);
    if IsBlank(p.text) then acc
    else Acc(acc.full + mark + p.text + "\n\n", acc.paras + [p.(kind := kind)])
  }

  predicate IdsInOrder(ps: seq<FlatParagraph>) {
    forall k :: 0 <= k < |ps| ==> ps[k].id == k
  }

  /** The header or footer loop extends the records without touching the earlier ones;
      every record it adds is non-blank, carries `kind`, and continues the id sequence. */
  function Marked(acc: Acc, srcs: seq<ParaSource>, mark: string, kind: string): (r: Acc)
    ensures |acc.paras| <= |r.paras| && r.paras[..|acc.paras|] == acc.paras
    ensures StartsWith(r.full, acc.full)
    ensures forall k :: |acc.paras| <= k < |r.paras| ==> r.paras[k].kind == kind && !IsBlank(r.paras[k].text)
    ensures IdsInOrder(acc.paras) ==> IdsInOrder(r.paras)
    decreases |srcs|
  {
    if srcs == [] then acc
    else
      var next := AddMarked(acc, srcs[0], mark, kind);
      var r := Marked(next, srcs[1..], mark, kind);
      AddMarkedExtends(acc, srcs[0], mark, kind);
      ExtendsTrans(acc, next, r, kind);
      r
  }

  /** `r` holds the records of `acc` first, then only non-blank ones of the given kind,
      its text starts with that of `acc`, and ids that were in order stay in order. */
  ghost predicate Extends(acc: Acc, r: Acc, kind: string) {
    && |acc.paras| <= |r.paras| && r.paras[..|acc.paras|] == acc.paras
    && StartsWith(r.full, acc.full)
    && (forall k :: |acc.paras| <= k < |r.paras| ==> r.paras[k].kind == kind && !IsBlank(r.paras[k].text))
    && (IdsInOrder(acc.paras) ==> IdsInOrder(r.paras))
  }

  lemma AddMarkedExtends(acc: Acc, src: ParaSource, mark: string, kind: string)
    ensures Extends(acc, AddMarked(acc, src, mark, kind), kind)
  {
    var r := AddMarked(acc, src, mark, kind);
    assert r.paras[..|acc.paras|] == acc.paras;
    assert r.full[..|acc.full|] == acc.full;
  }

  lemma ExtendsTrans(a: Acc, b: Acc, c: Acc, kind: string)
    requires Extends(a, b, kind) && Extends(b, c, kind)
    ensures Extends(a, c, kind)
  {
    assert c.paras[..|a.paras|] == c.paras[..|b.paras|][..|a.paras|];
    assert c.full[..|a.full|] == c.full[..|b.full|][..|a.full|];
    forall k | |a.paras| <= k < |c.paras|
      ensures c.paras[k].kind == kind && !IsBlank(c.paras[k].text)
    {
      if k < |b.paras| {
        assert c.paras[k] == c.paras[..|b.paras|][k];
      }
    }
  }

  /** `parseDocxWithStructure` past the opening of the file. */
  function ParseDocx(doc: FlatDocx): FlatContent {
    var body := Body(doc.body);
    var withHeaders := Marked(body, doc.headers, "[页眉] ", "header");
    var all := Marked(withHeaders, doc.footers, "[页脚] ", "footer");
    FlatContent(Trim(all.full), all.paras)
  }

  /** Header then footer records after the records `acc` already holds: those come
      first unchanged, the new ones are typed header or footer and are not blank, and the
      ids stay in order. */
  lemma MarkedTwice(acc: Acc, headers: seq<ParaSource>, footers: seq<ParaSource>, m1: string, k1: string, m2: string, k2: string)
    ensures var all := Marked(Marked(acc, headers, m1, k1), footers, m2, k2);
            && |acc.paras| <= |all.paras| && all.paras[..|acc.paras|] == acc.paras
            && (forall k :: |acc.paras| <= k < |all.paras| ==>
                  (all.paras[k].kind == k1 || all.paras[k].kind == k2) && !IsBlank(all.paras[k].text))
            && (IdsInOrder(acc.paras) ==> IdsInOrder(all.paras))
  {
    var h := Marked(acc, headers, m1, k1);
    var all := Marked(h, footers, m2, k2);
    assert Extends(acc, h, k1) && Extends(h, all, k2);
    ExtendsTwice(acc, h, all, k1, k2);
  }

  /** Two extensions in a row, each adding records of its own kind. */
  lemma ExtendsTwice(a: Acc, b: Acc, c: Acc, k1: string, k2: string)
    requires Extends(a, b, k1) && Extends(b, c, k2)
    ensures |a.paras| <= |c.paras| && c.paras[..|a.paras|] == a.paras
    ensures forall k :: |a.paras| <= k < |c.paras| ==>
              (c.paras[k].kind == k1 || c.paras[k].kind == k2) && !IsBlank(c.paras[k].text)
    ensures IdsInOrder(a.paras) ==> IdsInOrder(c.paras)
  {
    assert c.paras[..|a.paras|] == c.paras[..|b.paras|][..|a.paras|];
    forall k | |a.paras| <= k < |c.paras|
      ensures (c.paras[k].kind == k1 || c.paras[k].kind == k2) && !IsBlank(c.paras[k].text)
    {
      if k < |b.paras| {
        assert c.paras[k] == c.paras[..|b.paras|][k];
      }
    }
  }

  /** The records are the body records, then header and footer records; ids run 0, 1, 2,
      ... across all of them, and no record has blank text. */
  lemma ParseDocxShape(doc: FlatDocx)
    ensures var body := Body(doc.body).paras;
            var ps := ParseDocx(doc).paragraphs;
            && |body| <= |ps| && ps[..|body|] == body
            && (forall k :: |body| <= k < |ps| ==> ps[k].kind in {"header", "footer"})
            && IdsInOrder(ps)
            && (forall k :: 0 <= k < |ps| ==> !IsBlank(ps[k].text))
  {
    var body := Body(doc.body).paras;
    BodyIds(doc.body);
    BodyNonBlank(doc.body);
    MarkedTwice(Body(doc.body), doc.headers, doc.footers, "[页眉] ", "header", "[页脚] ", "footer");
    var ps := ParseDocx(doc).paragraphs;
    forall k | 0 <= k < |body| ensures ps[k] == body[k] {
      assert ps[..|body|][k] == ps[k];
    }
  }

  /** Every numbering level reads back through `Integer.parseInt`; a level outside the
      `int` range makes the whole parse throw. */
  predicate LevelsFit(doc: FlatDocx) {
    && (forall i :: 0 <= i < |doc.body| && doc.body[i].ParagraphElement? && doc.body[i].para.numLevel.Some?
                    ==> IsInt32(doc.body[i].para.numLevel.value))
    && (forall i :: 0 <= i < |doc.headers| && doc.headers[i].numLevel.Some? ==> IsInt32(doc.headers[i].numLevel.value))
    && (forall i :: 0 <= i < |doc.footers| && doc.footers[i].numLevel.Some? ==> IsInt32(doc.footers[i].numLevel.value))
  }

  /** `parseDocumentWithStructure`: a null file name throws before the guarded block; a
      name not ending in ".docx" in any case, a file POI cannot open (`doc` is None) or a
      failure inside the parse all answer null; otherwise the parsed content. */
  function ParseDocument(fileName: Option<string>, doc: Option<FlatDocx>): (r: Result<Option<FlatContent>>)
    ensures r.Err? <==> fileName.None?
    ensures r.Err? ==> r.error == NullPointer
    ensures r.Ok? && r.value.Some? <==>
              fileName.Some? && EndsWith(ToLower(fileName.value), ".docx") && doc.Some? && LevelsFit(doc.value)
  {
    if fileName.None? then Err(NullPointer)
    else if !EndsWith(ToLower(fileName.value), ".docx") then Ok(None)
    else if doc.None? || !LevelsFit(doc.value) then Ok(None)
    else Ok(Some(ParseDocx(doc.value)))
  }

  // ---------------------------------------------------------------------------
  // Helpers

  /** `putIfNotNull`: a non-null value whose string is not blank is stored trimmed under
      `key`; every other entry is left as it was. */
  function PutIfNotNull(m: map<string, string>, key: string, value: Option<string>): (r: map<string, string>)
    ensures value.None? || IsBlank(value.value) ==> r == m
    ensures value.Some? && !IsBlank(value.value) ==> key in r && r[key] == Trim(value.value)
    ensures forall k :: k != key ==> (k in r <==> k in m) && (k in m ==> r[k] == m[k])
    ensures key in r ==> key in m || (value.Some? && !IsBlank(value.value))
  {
    if value.Some? && !IsBlank(value.value) then m[key := Trim(value.value)] else m
  }

  /** A stored value is already trimmed and not empty. */
  lemma PutStoresTrimmed(m: map<string, string>, key: string, value: Option<string>)
    requires value.Some? && !IsBlank(value.value)
    ensures var r := PutIfNotNull(m, key, value);
            r[key] != [] && Trim(r[key]) == r[key]
  {
    TrimTwice(value.value);
  }

  /** `getFileExtension`: the lower-cased text after the last dot, or empty when there is
      no name, no dot, or nothing after the last dot. */
  function FileExtension(fileName: Option<string>): (r: string)
    ensures forall i :: 0 <= i < |r| ==> r[i] != '.'
    ensures r == [] <==> fileName.None? || !ContainsChar(fileName.value, '.') || EndsWith(fileName.value, ".")
    ensures ToLower(r) == r
  {
    if fileName.None? then []
    else
      var s := fileName.value;
      var dot := LastIndexOf(s, '.');
      if dot >= 0 && dot < |s| - 1 then
        var t := s[dot + 1..];
        assert forall i :: 0 <= i < |t| ==> t[i] == s[dot + 1 + i];
        assert s[|s| - 1] == t[|t| - 1];
        ToLower(t)
      else
        assert dot < 0 ==> !ContainsChar(s, '.');
        assert dot >= 0 ==> EndsWith(s, ".") by {
          if dot >= 0 { assert s[|s| - 1..] == ['.']; }
        }
        []
  }

  /** A name made of a base, a dot and a dot-free extension gives back the extension,
      lower-cased, whatever the base holds. */
  lemma ExtensionRoundTrip(base: string, ext: string)
    requires ext != [] && forall i :: 0 <= i < |ext| ==> ext[i] != '.'
    ensures FileExtension(Some(base + "." + ext)) == ToLower(ext)
  {
    var s := base + "." + ext;
    assert s[|base|] == '.';
    assert forall j :: |base| < j < |s| ==> s[j] == ext[j - |base| - 1];
    assert LastIndexOf(s, '.') == |base|;
    assert s[|base| + 1..] == ext;
  }
}
