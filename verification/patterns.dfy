/** The regular expressions the paragraph classifiers apply with `String.matches`, each
    written out as a predicate on the whole string. `.` excludes line terminators, `\s`
    is `[ \t\n\x0B\f\r]` and `\d` is `[0-9]`, as in `java.util.regex` without flags.
    A character class followed by a different class is matched by the maximal run, so
    each `X+` below is measured with `Span`. */
module Patterns {
  import opened JavaText

  /** Length of the leading run of code units in class `cls`. */
  function Span(s: string, cls: char -> bool): (k: nat)
    ensures k <= |s|
    ensures forall i :: 0 <= i < k ==> cls(s[i])
    ensures k < |s| ==> !cls(s[k])
  {
    if s == [] || !cls(s[0]) then 0 else 1 + Span(s[1..], cls)
  }

  /** `.*` as the tail of a full match. */
  predicate DotStar(s: string) {
    forall i :: 0 <= i < |s| ==> !IsLineTerminator(s[i])
  }

  predicate IsCjkNumeral(c: char) {
    c == '一' || c == '二' || c == '三' || c == '四' || c == '五'
    || c == '六' || c == '七' || c == '八' || c == '九' || c == '十'
  }

  /** The class `[、.]`. */
  predicate IsListMark(c: char) {
    c == '、' || c == '.'
  }

  /** A run of at least one `cls`, then a list mark, one `\s`, and `.*`. */
  predicate MarkedItem(s: string, cls: char -> bool) {
    var k := Span(s, cls);
    1 <= k && k + 2 <= |s| && IsListMark(s[k]) && IsRegexSpace(s[k + 1]) && DotStar(s[k + 2..])
  }

  /** `^[0-9]+[、.]\s.*` */
  predicate NumberedItem(s: string) {
    MarkedItem(s, IsDigit)
  }

  /** `^[一二三四五六七八九十]+[、.]\s.*` */
  predicate CjkNumberedItem(s: string) {
    MarkedItem(s, IsCjkNumeral)
  }

  /** `^第[一二三四五六七八九十]+章.*` */
  predicate ChapterHeading(s: string) {
    |s| >= 1 && s[0] == '第'
    && var k := Span(s[1..], IsCjkNumeral);
       1 <= k && k + 2 <= |s| && s[k + 1] == '章' && DotStar(s[k + 2..])
  }

  /** `^[0-9]+\.[0-9]+\s.*` */
  predicate Section2(s: string) {
    var a := Span(s, IsDigit);
    1 <= a && a + 1 <= |s| && s[a] == '.'
    && var b := Span(s[a + 1..], IsDigit);
       1 <= b && a + b + 2 <= |s| && IsRegexSpace(s[a + b + 1]) && DotStar(s[a + b + 2..])
  }

  /** `^[0-9]+\.[0-9]+\.[0-9]+\s.*` */
  predicate Section3(s: string) {
    var a := Span(s, IsDigit);
    1 <= a && a + 1 <= |s| && s[a] == '.'
    && var b := Span(s[a + 1..], IsDigit);
       1 <= b && a + b + 2 <= |s| && s[a + b + 1] == '.'
       && var c := Span(s[a + b + 2..], IsDigit);
          1 <= c && a + b + c + 3 <= |s| && IsRegexSpace(s[a + b + c + 2]) && DotStar(s[a + b + c + 3..])
  }

  /** The three textual heading patterns never hold together, so the order in which the
      level detector tries them does not matter. */
  lemma HeadingPatternsExclusive(s: string)
    ensures !(ChapterHeading(s) && Section2(s))
    ensures !(ChapterHeading(s) && Section3(s))
    ensures !(Section2(s) && Section3(s))
  {
    if ChapterHeading(s) {
      assert !IsDigit(s[0]);
      assert Span(s, IsDigit) == 0;
    }
  }

  /** A numbered list item is exactly a non-empty digit string, a list mark, one `\s`
      and a tail without line terminators: the maximal digit run is the only split. */
  lemma NumberedItemMeans(s: string)
    ensures NumberedItem(s) <==>
            exists k :: 1 <= k && k + 2 <= |s| && AllDigits(s[..k]) && IsListMark(s[k])
                        && IsRegexSpace(s[k + 1]) && DotStar(s[k + 2..])
  {
    var n := Span(s, IsDigit);
    if NumberedItem(s) {
      assert AllDigits(s[..n]);
    }
    forall k | 1 <= k && k + 2 <= |s| && AllDigits(s[..k]) && IsListMark(s[k])
               && IsRegexSpace(s[k + 1]) && DotStar(s[k + 2..])
      ensures NumberedItem(s)
    {
      assert n == k;
    }
  }

  /** `^[0-9]+\.\s+.*`: digits, a dot, at least one `\s`, and a tail without line
      terminators after the spaces. */
  predicate DottedNumberSpaces(s: string) {
    var a := Span(s, IsDigit);
    1 <= a && a + 1 <= |s| && s[a] == '.'
    && var w := Span(s[a + 1..], IsRegexSpace);
       1 <= w && DotStar(s[a + 1 + w..])
  }

  /** `^[0-9]+\.[0-9]+\s+.*` */
  predicate Section2Spaces(s: string) {
    var a := Span(s, IsDigit);
    1 <= a && a + 1 <= |s| && s[a] == '.'
    && var b := Span(s[a + 1..], IsDigit);
       1 <= b
       && var w := Span(s[a + b + 1..], IsRegexSpace);
          1 <= w && DotStar(s[a + b + 1 + w..])
  }

  /** `^[0-9]+\.[0-9]+\.[0-9]+\s+.*` */
  predicate Section3Spaces(s: string) {
    var a := Span(s, IsDigit);
    1 <= a && a + 1 <= |s| && s[a] == '.'
    && var b := Span(s[a + 1..], IsDigit);
       1 <= b && a + b + 2 <= |s| && s[a + b + 1] == '.'
       && var c := Span(s[a + b + 2..], IsDigit);
          1 <= c
          && var w := Span(s[a + b + c + 2..], IsRegexSpace);
             1 <= w && DotStar(s[a + b + c + 2 + w..])
  }

  predicate IsBullet(c: char) {
    c == '•' || c == '●' || c == '○' || c == '■' || c == '□' || c == '◆' || c == '◇'
    || c == '▶' || c == '▷' || c == '◀' || c == '◁' || c == '▪' || c == '▫'
  }

  /** `^[•●○■□◆◇▶▷◀◁▪▫]\s.*` */
  predicate BulletItem(s: string) {
    |s| >= 2 && IsBullet(s[0]) && IsRegexSpace(s[1]) && DotStar(s[2..])
  }

  /** `^<word>\s+\d+:.*` (the English captions "Table" and "Figure"). */
  predicate WordCaption(s: string, word: string) {
    StartsWith(s, word)
    && var w := Span(s[|word|..], IsRegexSpace);
       1 <= w
       && var d := Span(s[|word| + w..], IsDigit);
          1 <= d && |word| + w + d + 1 <= |s| && s[|word| + w + d] == ':'
          && DotStar(s[|word| + w + d + 1..])
  }

  /** `^<c>\s*\d+[:：].*` (the Chinese captions 表 and 图). */
  predicate CjkCaption(s: string, c: char) {
    |s| >= 1 && s[0] == c
    && var w := Span(s[1..], IsRegexSpace);
       var d := Span(s[1 + w..], IsDigit);
       1 <= d && w + d + 2 <= |s| && (s[1 + w + d] == ':' || s[1 + w + d] == '：')
       && DotStar(s[w + d + 2..])
  }

  predicate TableCaption(s: string) {
    WordCaption(s, "Table") || CjkCaption(s, '表')
  }

  predicate FigureCaption(s: string) {
    WordCaption(s, "Figure") || CjkCaption(s, '图')
  }

  /** The class `[。！？.!?]` both plain-text chunkers split sentences at. */
  predicate SentencePunct(c: char) {
    c == '。' || c == '！' || c == '？' || c == '.' || c == '!' || c == '?'
  }
}
