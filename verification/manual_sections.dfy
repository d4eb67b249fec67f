/** Section detection for operation manuals (ManualDocumentChunker): the text is split
    into lines, a line is a section title when one of several patterns, keywords or a
    heading layout says so and it is neither a table row nor inside a code block, and
    the lines between two titles are the section's content. */
module ManualSections {
  import opened Std
  import opened JavaText
  import opened Patterns

  // ---------------------------------------------------------------------------
  // isTableRow

  /** How often `c` occurs in `s`: the multiplicity of `c` in the multiset of `s`. */
  function CountChar(s: string, c: char): (n: nat)
    ensures n == multiset(s)[c]
  {
    if s == [] then 0
    else
      assert s == s[..|s| - 1] + [s[|s| - 1]];
      CountChar(s[..|s| - 1], c) + (if s[|s| - 1] == c then 1 else 0)
  }

  /** Trimming removes only code units up to U+0020, so it keeps every other character. */
  lemma TrimCount(s: string, c: char)
    requires !IsTrimSpace(c)
    ensures multiset(Trim(s))[c] == multiset(s)[c]
  {
    TrimSpec(s);
    var l := LeadingTrimSpaces(s);
    var u := Trim(s);
    var a, b := s[..l], s[l + |u|..];
    assert s == a + u + b;
    assert multiset(s) == multiset(a) + multiset(u) + multiset(b);
    assert c !in a by {
      forall i | 0 <= i < |a| ensures a[i] != c {
        assert a[i] == s[i];
      }
    }
    assert c !in b by {
      forall i | 0 <= i < |b| ensures b[i] != c {
        assert b[i] == s[l + |u| + i];
      }
    }
    assert multiset(a)[c] == 0 && multiset(b)[c] == 0;
  }

  /** `isTableRow`: the trimmed line starts with "|" or "+", or starts with "-" and holds
      more than three '-' (`&&` binds tighter than `||`). The dashes can be counted on the
      untrimmed line. */
  function IsTableRow(line: string): (b: bool)
    ensures var t := Trim(line);
            b <==> || StartsWith(t, "|") || StartsWith(t, "+")
                   || (StartsWith(t, "-") && multiset(line)['-'] > 3)
  {
    var t := Trim(line);
    TrimCount(line, '-');
    StartsWith(t, "|") || StartsWith(t, "+") || (StartsWith(t, "-") && CountChar(t, '-') > 3)
  }

  // ---------------------------------------------------------------------------
  // isCodeBlock

  /** Four spaces, a tab or a code fence at the start of a line. */
  predicate StartsCode(line: string) {
    StartsWith(line, "    ") || StartsWith(line, "\t") || StartsWith(line, "```")
  }

  /** `isCodeBlock` on the raw line `j`, as the recursion calls it: the line or some
      earlier line starts code, so once true it stays true for every later line. */
  function CodeBlockAt(lines: seq<string>, j: nat): (b: bool)
    requires j < |lines|
    ensures b <==> exists k :: 0 <= k <= j && StartsCode(lines[k])
  {
    StartsCode(lines[j]) || (j > 0 && CodeBlockAt(lines, j - 1))
  }

  /** `isCodeBlock(line, i, lines)` as the title test calls it, with the trimmed line. */
  function IsCodeBlock(line: string, i: nat, lines: seq<string>): (b: bool)
    requires i <= |lines|
    ensures b <==> StartsCode(line) || exists k :: 0 <= k < i && StartsCode(lines[k])
  {
    StartsCode(line) || (i > 0 && CodeBlockAt(lines, i - 1))
  }

  // ---------------------------------------------------------------------------
  // The title patterns, each matched against the whole trimmed line

  /** `\s+[\S\s]+$` from offset `k`: a regex space there and at least one more character. */
  predicate SpaceTail(s: string, k: int) {
    0 <= k && k + 1 < |s| && IsRegexSpace(s[k])
  }

  /** Where the greedy `(\.\d+)*` ends when it starts at `i`. */
  function DottedEnd(s: string, i: nat): (e: nat)
    requires i <= |s|
    ensures i <= e <= |s|
    decreases |s| - i
  {
    if i + 1 < |s| && s[i] == '.' && IsDigit(s[i + 1]) then
      DottedEnd(s, i + 1 + Span(s[i + 1..], IsDigit))
    else i
  }

  /** `^(\d+(\.\d+)*)\s+[\S\s]+$`. A numbering ends at a digit, so only the longest one
      can be followed by a space. */
  predicate DottedSection(s: string) {
    var a := Span(s, IsDigit);
    a >= 1 && SpaceTail(s, DottedEnd(s, a))
  }

  /** `^[•\-\*]\s+[\S\s]+$` */
  predicate BulletSection(s: string) {
    |s| >= 1 && (s[0] == '•' || s[0] == '-' || s[0] == '*') && SpaceTail(s, 1)
  }

  predicate IsOpenParen(c: char) {
    c == '（' || c == '('
  }

  predicate IsCloseParen(c: char) {
    c == '）' || c == ')'
  }

  predicate IsParenNumeral(c: char) {
    IsCjkNumeral(c) || IsDigit(c)
  }

  predicate IsAsciiLetter(c: char) {
    ('a' <= c <= 'z') || ('A' <= c <= 'Z')
  }

  /** `^[（(][一二三四五六七八九十0-9]+[）)]\s+[\S\s]+$` */
  predicate ParenSection(s: string) {
    |s| >= 1 && IsOpenParen(s[0])
    && var k := Span(s[1..], IsParenNumeral);
       k >= 1 && k + 1 < |s| && IsCloseParen(s[k + 1]) && SpaceTail(s, k + 2)
  }

  /** `^第[一二三四五六七八九十]+[章节]\s+[\S\s]+$` */
  predicate ChapterSection(s: string) {
    |s| >= 1 && s[0] == '第'
    && var k := Span(s[1..], IsCjkNumeral);
       k >= 1 && k + 1 < |s| && (s[k + 1] == '章' || s[k + 1] == '节') && SpaceTail(s, k + 2)
  }

  /** `^\d+[）)]\s+[\S\s]+$` */
  predicate NumberParenSection(s: string) {
    var k := Span(s, IsDigit);
    k >= 1 && k < |s| && IsCloseParen(s[k]) && SpaceTail(s, k + 1)
  }

  /** `^[a-zA-Z][）)]\s+[\S\s]+$` */
  predicate LetterParenSection(s: string) {
    |s| >= 2 && IsAsciiLetter(s[0]) && IsCloseParen(s[1]) && SpaceTail(s, 2)
  }

  predicate MatchesSectionPattern(s: string) {
    || DottedSection(s) || BulletSection(s) || ParenSection(s)
    || ChapterSection(s) || NumberParenSection(s) || LetterParenSection(s)
  }

  /** The numbering must be followed directly by a space: "1.1 概述" is a title pattern
      but "1. 简介" is not, since `(\.\d+)*` cannot take a dot without digits. */
  lemma DottedSectionNeedsDigitsAfterDot()
    ensures DottedSection("1.1 概述")
    ensures !DottedSection("1. 简介")
  {
    var s := "1.1 概述";
    assert Span(s[2..], IsDigit) == 1;
    assert Span(s, IsDigit) == 1;
    assert DottedEnd(s, 3) == 3;
    var t := "1. 简介";
    assert Span(t, IsDigit) == 1;
    assert DottedEnd(t, 1) == 1;
  }

  // ---------------------------------------------------------------------------
  // Keywords and heading layout

  const SectionKeywords: seq<string> := [
    "章", "节", "部分", "篇", "单元",
    "简介", "概述", "引言", "前言", "摘要",
    "安装", "配置", "设置", "部署", "搭建",
    "使用", "操作", "功能", "特性", "特点",
    "步骤", "流程", "过程", "方法", "方式",
    "注意", "警告", "提示", "说明", "备注",
    "故障", "问题", "错误", "异常", "解决",
    "维护", "保养", "检查", "测试", "验证",
    "附录", "参考", "术语", "词汇表", "索引"
  ]

  /** A line shorter than 100 that holds a section keyword and none of the particles
      的, 了, 在 and 和, which mark ordinary prose. The particle test does not depend on
      the keyword, so the loop over the keywords reduces to one existential. */
  predicate KeywordTitle(line: string) {
    var lower := ToLower(line);
    && |line| < 100
    && (exists k :: 0 <= k < |SectionKeywords| && Contains(line, SectionKeywords[k]))
    && !Contains(lower, "的") && !Contains(lower, "了") && !Contains(lower, "在") && !Contains(lower, "和")
  }

  /** `isHeadingFormat`: a line shorter than 50 between blank lines (or the document's
      ends), or wrapped in "**" or "==". */
  function IsHeadingFormat(line: string, i: nat, lines: seq<string>): (b: bool)
    requires i < |lines|
    ensures b ==> |line| < 50
    ensures b ==> || ((i == 0 || IsBlank(lines[i - 1])) && (i == |lines| - 1 || IsBlank(lines[i + 1])))
                  || (StartsWith(line, "**") && EndsWith(line, "**"))
                  || (StartsWith(line, "==") && EndsWith(line, "=="))
    ensures |line| < 50 && StartsWith(line, "**") && EndsWith(line, "**") ==> b
    ensures |line| < 50 && StartsWith(line, "==") && EndsWith(line, "==") ==> b
    ensures |line| < 50 && (i == 0 || IsBlank(lines[i - 1])) && (i == |lines| - 1 || IsBlank(lines[i + 1])) ==> b
  {
    if |line| < 50 then
      var spaceBefore := i == 0 || IsBlank(lines[i - 1]);
      var spaceAfter := i == |lines| - 1 || IsBlank(lines[i + 1]);
      || (spaceBefore && spaceAfter)
      || (StartsWith(line, "**") && EndsWith(line, "**"))
      || (StartsWith(line, "==") && EndsWith(line, "=="))
    else false
  }

  /** `isSectionTitle` for the trimmed line `i`. A non-empty line of at most 200 code units
      that is neither a table row nor in a code block is a title when it matches a pattern,
      is a keyword title, or has a heading layout. No line after one that starts code is a
      title. */
  function IsSectionTitle(line: string, i: nat, lines: seq<string>): (b: bool)
    requires i < |lines|
    ensures b ==> 1 <= |line| <= 200 && !IsTableRow(line)
    ensures b ==> forall k :: 0 <= k < i ==> !StartsCode(lines[k])
    ensures 1 <= |line| <= 200 && !IsTableRow(line) && !IsCodeBlock(line, i, lines) && MatchesSectionPattern(line) ==> b
  {
    if line == [] || |line| > 200 then false
    else if IsTableRow(line) then false
    else if IsCodeBlock(line, i, lines) then false
    else MatchesSectionPattern(line) || KeywordTitle(line) || IsHeadingFormat(line, i, lines)
  }

  // ---------------------------------------------------------------------------
  // splitIntoSections

  /** The title of the section before the first title line. */
  const DocumentStart: string := "文档开始"

  datatype Section = Section(title: string, content: string, startLine: int)

  /** `text.split("\n")`. */
  function Lines(text: string): seq<string> {
    SplitOn(text, "\n")
  }

  /** For each line, whether its trimmed form is a section title. */
  function TitleFlags(lines: seq<string>): (flags: seq<bool>)
    ensures |flags| == |lines|
  {
    seq(|lines|, i requires 0 <= i < |lines| => IsSectionTitle(Trim(lines[i]), i, lines))
  }

  /** The raw line appended to the content, after a "\n" when the content is not empty. */
  function AppendLine(content: string, line: string): string {
    if |content| > 0 then content + "\n" + line else content + line
  }

  /** A section is saved when it has content or a title of its own. */
  function Emit(title: string, content: string, line: int): seq<Section> {
    if |content| > 0 || title != DocumentStart then [Section(title, content, line)] else []
  }

  /** The state of the line loop: the saved sections and the section being read. */
  datatype SectionAcc = SectionAcc(sections: seq<Section>, title: string, content: string, lineNumber: int)

  /** The line loop from line `i`, given which lines are titles: a title line saves the
      section being read and starts a new one; any other line is appended, untrimmed, to
      its content. */
  function SectionsFrom(lines: seq<string>, titles: seq<bool>, i: nat, acc: SectionAcc): seq<Section>
    requires |titles| == |lines| && i <= |lines|
    decreases |lines| - i
  {
    if i == |lines| then acc.sections + Emit(acc.title, acc.content, acc.lineNumber)
    else if titles[i] then
      SectionsFrom(lines, titles, i + 1, SectionAcc(acc.sections + Emit(acc.title, acc.content, acc.lineNumber), Trim(lines[i]), [], i))
    else
      SectionsFrom(lines, titles, i + 1, acc.(content := AppendLine(acc.content, lines[i])))
  }

  /** The sections of `lines`, given which of them are titles. */
  function SectionsOf(lines: seq<string>, titles: seq<bool>): seq<Section>
    requires |titles| == |lines|
  {
    SectionsFrom(lines, titles, 0, SectionAcc([], DocumentStart, [], 0))
  }

  /** `splitIntoSections`. */
  function SplitIntoSections(text: string): seq<Section> {
    var lines := Lines(text);
    SectionsOf(lines, TitleFlags(lines))
  }

  // Reference definition: sections as the segments between consecutive title lines.

  /** The first title line at or after `i`, or the number of lines. */
  function NextTitle(titles: seq<bool>, i: nat): (j: nat)
    requires i <= |titles|
    ensures i <= j <= |titles|
    ensures j < |titles| ==> titles[j]
    ensures forall k :: i <= k < j ==> !titles[k]
    decreases |titles| - i
  {
    if i == |titles| || titles[i] then i else NextTitle(titles, i + 1)
  }

  /** Lines `a .. b - 1` appended one by one to an empty content. */
  function Body(lines: seq<string>, a: nat, b: nat): string
    requires a <= b <= |lines|
    decreases b - a
  {
    if a == b then [] else AppendLine(Body(lines, a, b - 1), lines[b - 1])
  }

  /** The sections from the title line `t` on: its own, with the lines up to the next
      title as content, then those of the next title line. */
  function SegmentsFrom(lines: seq<string>, titles: seq<bool>, t: nat): seq<Section>
    requires |titles| == |lines| && t < |lines|
    decreases |lines| - t
  {
    var n := NextTitle(titles, t + 1);
    Emit(Trim(lines[t]), Body(lines, t + 1, n), t) + (if n < |lines| then SegmentsFrom(lines, titles, n) else [])
  }

  /** The leading section, saved only when it has content, then the titled sections. */
  function Segments(lines: seq<string>, titles: seq<bool>): seq<Section>
    requires |titles| == |lines|
  {
    var n := NextTitle(titles, 0);
    Emit(DocumentStart, Body(lines, 0, n), 0) + (if n < |lines| then SegmentsFrom(lines, titles, n) else [])
  }

  /** What the line loop from `i` yields, in the segment view: the section being read,
      with the lines up to the next title, then the segments from that title. */
  predicate LoopIsSegments(lines: seq<string>, titles: seq<bool>, i: nat, a: nat, acc: SectionAcc)
    requires |titles| == |lines| && a <= i <= |lines|
  {
    var n := NextTitle(titles, i);
    SectionsFrom(lines, titles, i, acc)
    == acc.sections + Emit(acc.title, Body(lines, a, n), acc.lineNumber)
       + (if n < |lines| then SegmentsFrom(lines, titles, n) else [])
  }

  lemma {:induction false} TitleStep(lines: seq<string>, titles: seq<bool>, i: nat, a: nat, acc: SectionAcc)
    requires |titles| == |lines| && a <= i < |lines| && titles[i]
    requires acc.content == Body(lines, a, i)
    ensures LoopIsSegments(lines, titles, i, a, acc)
    decreases |lines| - i, 0
  {
    var e := Emit(acc.title, acc.content, acc.lineNumber);
    var acc' := SectionAcc(acc.sections + e, Trim(lines[i]), [], i);
    var n' := NextTitle(titles, i + 1);
    var own := Emit(Trim(lines[i]), Body(lines, i + 1, n'), i);
    var rest := if n' < |lines| then SegmentsFrom(lines, titles, n') else [];
    assert SectionsFrom(lines, titles, i + 1, acc') == acc'.sections + own + rest by {
      SectionsFromSegments(lines, titles, i + 1, i + 1, acc');
    }
    assert SectionsFrom(lines, titles, i, acc) == SectionsFrom(lines, titles, i + 1, acc');
    assert SegmentsFrom(lines, titles, i) == own + rest;
    assert NextTitle(titles, i) == i;
    assert Emit(acc.title, Body(lines, a, NextTitle(titles, i)), acc.lineNumber) == e;
    Regroup(SectionsFrom(lines, titles, i, acc), acc.sections, e, own, rest, SegmentsFrom(lines, titles, i));
  }

  lemma Regroup<T>(whole: seq<T>, pre: seq<T>, e: seq<T>, own: seq<T>, rest: seq<T>, seg: seq<T>)
    requires whole == (pre + e) + own + rest && seg == own + rest
    ensures whole == pre + e + seg
  {
  }

  lemma {:induction false} LineStep(lines: seq<string>, titles: seq<bool>, i: nat, a: nat, acc: SectionAcc)
    requires |titles| == |lines| && a <= i < |lines| && !titles[i]
    requires acc.content == Body(lines, a, i)
    ensures LoopIsSegments(lines, titles, i, a, acc)
    decreases |lines| - i, 0
  {
    var acc' := acc.(content := AppendLine(acc.content, lines[i]));
    assert Body(lines, a, i + 1) == acc'.content;
    SectionsFromSegments(lines, titles, i + 1, a, acc');
    assert NextTitle(titles, i) == NextTitle(titles, i + 1);
  }

  lemma EndStep(lines: seq<string>, titles: seq<bool>, a: nat, acc: SectionAcc)
    requires |titles| == |lines| && a <= |lines|
    requires acc.content == Body(lines, a, |lines|)
    ensures LoopIsSegments(lines, titles, |lines|, a, acc)
  {
    var done := acc.sections + Emit(acc.title, acc.content, acc.lineNumber);
    assert done + [] == done;
  }

  /** The line loop agrees with the segment view at every step. */
  lemma {:induction false} SectionsFromSegments(lines: seq<string>, titles: seq<bool>, i: nat, a: nat, acc: SectionAcc)
    requires |titles| == |lines| && a <= i <= |lines|
    requires acc.content == Body(lines, a, i)
    ensures LoopIsSegments(lines, titles, i, a, acc)
    decreases |lines| - i, 1
  {
    if i == |lines| {
      EndStep(lines, titles, a, acc);
    } else if titles[i] {
      TitleStep(lines, titles, i, a, acc);
    } else {
      LineStep(lines, titles, i, a, acc);
    }
  }

  /** The sections are exactly the segments between consecutive title lines. */
  lemma SectionsOfIsSegments(lines: seq<string>, titles: seq<bool>)
    requires |titles| == |lines|
    ensures SectionsOf(lines, titles) == Segments(lines, titles)
  {
    SectionsFromSegments(lines, titles, 0, 0, SectionAcc([], DocumentStart, [], 0));
    assert LoopIsSegments(lines, titles, 0, 0, SectionAcc([], DocumentStart, [], 0));
  }

  /** Every line between `a` and `b` occurs in their body, in its raw form. */
  lemma {:induction false} BodyHolds(lines: seq<string>, a: nat, b: nat, k: nat)
    requires a <= k < b <= |lines|
    ensures Contains(Body(lines, a, b), lines[k])
    decreases b - a
  {
    assert Body(lines, a, b) == AppendLine(Body(lines, a, b - 1), lines[b - 1]);
    if k == b - 1 {
      AppendLineHas(Body(lines, a, b - 1), lines[k]);
    } else {
      BodyHolds(lines, a, b - 1, k);
      AppendLineKeeps(Body(lines, a, b - 1), lines[b - 1], lines[k]);
    }
  }

  /** A line appended to a section's content occurs in it. */
  lemma AppendLineHas(content: string, line: string)
    ensures Contains(AppendLine(content, line), line)
  {
    var r := AppendLine(content, line);
    assert r[|r| - |line|..] == line;
    assert OccursAt(r, line, |r| - |line|);
  }

  /** Appending a line keeps whatever the content already held. */
  lemma AppendLineKeeps(content: string, line: string, sub: string)
    requires Contains(content, sub)
    ensures Contains(AppendLine(content, line), sub)
  {
    if |content| > 0 {
      ContainsExtends(content, "\n" + line, sub);
      assert content + "\n" + line == content + ("\n" + line);
    } else {
      ContainsExtends(content, line, sub);
    }
  }

  lemma {:induction false} BodyNonEmpty(lines: seq<string>, a: nat, b: nat, k: nat)
    requires a <= k < b <= |lines| && lines[k] != []
    ensures Body(lines, a, b) != []
    decreases b - a
  {
    if k < b - 1 {
      BodyNonEmpty(lines, a, b - 1, k);
    }
  }

  /** A section saved for title line `t`: the trimmed line as title and, as content, the
      lines up to the next title. */
  predicate SectionOf(lines: seq<string>, titles: seq<bool>, s: Section, t: nat)
    requires |titles| == |lines| && t < |lines|
  {
    s == Section(Trim(lines[t]), Body(lines, t + 1, NextTitle(titles, t + 1)), t)
  }

  /** Every title line from `from` on whose title is not "文档开始" has its section in `ss`. */
  predicate TitlesSaved(lines: seq<string>, titles: seq<bool>, from: nat, ss: seq<Section>)
    requires |titles| == |lines|
  {
    forall j :: from <= j < |lines| && titles[j] && Trim(lines[j]) != DocumentStart ==>
      exists m :: 0 <= m < |ss| && SectionOf(lines, titles, ss[m], j)
  }

  /** Every non-empty line from `from` on that is not a title lies in the content of a
      section of `ss` starting at or before it. */
  predicate LinesKept(lines: seq<string>, titles: seq<bool>, from: nat, ss: seq<Section>)
    requires |titles| == |lines|
  {
    forall k :: from <= k < |lines| && !titles[k] && lines[k] != [] ==>
      exists m :: 0 <= m < |ss| && ss[m].startLine <= k && Contains(ss[m].content, lines[k])
  }

  lemma SavedAppend(lines: seq<string>, titles: seq<bool>, from: nat, head: seq<Section>, tail: seq<Section>)
    requires |titles| == |lines| && TitlesSaved(lines, titles, from, tail)
    ensures TitlesSaved(lines, titles, from, head + tail)
  {
    forall j | from <= j < |lines| && titles[j] && Trim(lines[j]) != DocumentStart
      ensures exists m :: 0 <= m < |head + tail| && SectionOf(lines, titles, (head + tail)[m], j)
    {
      var m :| 0 <= m < |tail| && SectionOf(lines, titles, tail[m], j);
      assert (head + tail)[|head| + m] == tail[m];
    }
  }

  lemma KeptAppend(lines: seq<string>, titles: seq<bool>, from: nat, head: seq<Section>, tail: seq<Section>)
    requires |titles| == |lines| && LinesKept(lines, titles, from, tail)
    ensures LinesKept(lines, titles, from, head + tail)
  {
    forall k | from <= k < |lines| && !titles[k] && lines[k] != []
      ensures exists m :: 0 <= m < |head + tail| && (head + tail)[m].startLine <= k && Contains((head + tail)[m].content, lines[k])
    {
      var m :| 0 <= m < |tail| && tail[m].startLine <= k && Contains(tail[m].content, lines[k]);
      assert (head + tail)[|head| + m] == tail[m];
    }
  }

  /** The lines `a .. n - 1`, none a title, lie in the content of a section starting at
      `a - 1` or `0` when that section leads `ss`. */
  lemma BodyKept(lines: seq<string>, titles: seq<bool>, from: nat, a: nat, n: nat, ss: seq<Section>, start: int)
    requires |titles| == |lines| && from <= a <= n <= |lines| && start <= a
    requires forall k :: from <= k < a ==> titles[k]
    requires forall k :: a <= k < n ==> !titles[k]
    requires n < |lines| ==> titles[n]
    requires Body(lines, a, n) != [] ==> ss != [] && ss[0].content == Body(lines, a, n) && ss[0].startLine == start
    requires n < |lines| ==> LinesKept(lines, titles, n, ss)
    ensures LinesKept(lines, titles, from, ss)
  {
    forall k | from <= k < |lines| && !titles[k] && lines[k] != []
      ensures exists m :: 0 <= m < |ss| && ss[m].startLine <= k && Contains(ss[m].content, lines[k])
    {
      if k < n {
        BodyHolds(lines, a, n, k);
        BodyNonEmpty(lines, a, n, k);
        assert ss[0].startLine <= k && Contains(ss[0].content, lines[k]);
      }
    }
  }

  lemma OwnSaved(lines: seq<string>, titles: seq<bool>, t: nat, head: seq<Section>, tail: seq<Section>)
    requires |titles| == |lines| && t < |lines| && titles[t]
    requires head == Emit(Trim(lines[t]), Body(lines, t + 1, NextTitle(titles, t + 1)), t)
    requires NextTitle(titles, t + 1) < |lines| ==> TitlesSaved(lines, titles, NextTitle(titles, t + 1), head + tail)
    ensures TitlesSaved(lines, titles, t, head + tail)
  {
    var ss := head + tail;
    forall j | t <= j < |lines| && titles[j] && Trim(lines[j]) != DocumentStart
      ensures exists m :: 0 <= m < |ss| && SectionOf(lines, titles, ss[m], j)
    {
      if j == t {
        assert SectionOf(lines, titles, ss[0], j);
      }
    }
  }

  /** From title line `t` on, every title line has its section. */
  lemma {:induction false} SegmentsFromSaved(lines: seq<string>, titles: seq<bool>, t: nat)
    requires |titles| == |lines| && t < |lines| && titles[t]
    ensures TitlesSaved(lines, titles, t, SegmentsFrom(lines, titles, t))
    decreases |lines| - t
  {
    var n := NextTitle(titles, t + 1);
    var head := Emit(Trim(lines[t]), Body(lines, t + 1, n), t);
    var tail := if n < |lines| then SegmentsFrom(lines, titles, n) else [];
    assert SegmentsFrom(lines, titles, t) == head + tail;
    if n < |lines| {
      SegmentsFromSaved(lines, titles, n);
      SavedAppend(lines, titles, n, head, tail);
    }
    OwnSaved(lines, titles, t, head, tail);
  }

  /** From title line `t` on, every non-empty line that is not a title lies in some
      section's content. */
  lemma {:induction false} SegmentsFromKept(lines: seq<string>, titles: seq<bool>, t: nat)
    requires |titles| == |lines| && t < |lines| && titles[t]
    ensures LinesKept(lines, titles, t, SegmentsFrom(lines, titles, t))
    decreases |lines| - t
  {
    var n := NextTitle(titles, t + 1);
    var head := Emit(Trim(lines[t]), Body(lines, t + 1, n), t);
    var tail := if n < |lines| then SegmentsFrom(lines, titles, n) else [];
    assert SegmentsFrom(lines, titles, t) == head + tail;
    if n < |lines| {
      SegmentsFromKept(lines, titles, n);
      KeptAppend(lines, titles, n, head, tail);
    }
    BodyKept(lines, titles, t, t + 1, n, head + tail, t);
  }

  /** What `splitIntoSections` promises, for any lines and any choice of title lines (the
      text's lines and `TitleFlags` in the service): every title line (unless its text is
      "文档开始") starts a section whose content is the lines up to the next title, and
      every non-empty line that is not a title lies, in its raw form, in the content of a
      section starting at or before it. */
  lemma SectionsCover(lines: seq<string>, titles: seq<bool>)
    requires |titles| == |lines|
    ensures TitlesSaved(lines, titles, 0, SectionsOf(lines, titles))
    ensures LinesKept(lines, titles, 0, SectionsOf(lines, titles))
  {
    SectionsOfIsSegments(lines, titles);
    var ss := Segments(lines, titles);
    var n := NextTitle(titles, 0);
    var head := Emit(DocumentStart, Body(lines, 0, n), 0);
    var tail := if n < |lines| then SegmentsFrom(lines, titles, n) else [];
    assert ss == head + tail;
    if n < |lines| {
      SegmentsFromSaved(lines, titles, n);
      SegmentsFromKept(lines, titles, n);
      SavedAppend(lines, titles, n, head, tail);
      KeptAppend(lines, titles, n, head, tail);
    }
    BodyKept(lines, titles, 0, 0, n, ss, 0);
  }
}
