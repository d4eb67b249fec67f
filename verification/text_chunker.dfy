/** The plain-text chunker (DocumentChunker): the text is cut at blank lines into
    paragraphs, short paragraphs are packed into chunks of about `chunkSize` characters
    with an optional overlap, and a paragraph longer than `chunkSize` is cut into windows
    that end at a sentence boundary when one is near. */
module TextChunker {
  import opened Std
  import opened JavaText
  import opened Patterns

  const DefaultChunkSize: int := 1000
  const DefaultOverlapSize: int := 200

  // ---------------------------------------------------------------------------
  // findSentenceBoundary

  /** The last index in `[a, b)` holding sentence punctuation, or -1. */
  function LastPunct(s: string, a: nat, b: int): (r: int)
    requires b <= |s|
    ensures r == -1 || (a <= r < b && SentencePunct(s[r]))
    ensures forall k :: r < k < b && a <= k ==> !SentencePunct(s[k])
    decreases b - a
  {
    if b <= a then -1
    else if SentencePunct(s[b - 1]) then b - 1
    else LastPunct(s, a, b - 1)
  }

  /** `lastIndexOf(c, from)`: the last index up to `from` holding `c`, or -1. */
  function LastIndexOfFrom(s: string, c: char, from: int): (r: int)
    requires from < |s|
    ensures -1 <= r && (r >= 0 ==> r <= from && s[r] == c)
  {
    if from < 0 then -1
    else
      var r := LastIndexOf(s[..from + 1], c);
      assert r >= 0 ==> s[..from + 1][r] == s[r];
      r
  }

  /** `findSentenceBoundary(text, targetPos)`: just after the last sentence punctuation at
      most 100 characters before `targetPos` (and after the window's first index), else
      the last space up to `targetPos` when it is fewer than 50 characters back (-1 when
      there is no space and `targetPos < 49`), else `targetPos`. `substring` throws when
      the window is empty because `targetPos < -100`. */
  function FindSentenceBoundary(text: string, targetPos: int): (r: Result<int>)
    ensures targetPos >= |text| ==> r == Ok(|text|)
    ensures r.Ok? && targetPos < |text| ==> -1 <= r.value <= Max(targetPos + 1, -1)
    ensures r.Err? <==> targetPos < -100
    ensures r.Ok? && 0 <= targetPos < |text| ==>
              var b := r.value;
              || b == targetPos
              || (b == -1 && targetPos < 49)
              || (targetPos - 50 < b <= targetPos && text[b] == ' ')
              || (1 <= b <= targetPos + 1 && SentencePunct(text[b - 1]) && targetPos - 100 < b - 1)
  {
    if targetPos >= |text| then Ok(|text|)
    else
      var searchStart := Max(0, targetPos - 100);
      var searchEnd := Min(|text|, targetPos + 100);
      if searchEnd < searchStart then Err(IndexOutOfBounds)
      else
        var lastMatch := LastPunct(text, searchStart, Min(searchEnd, targetPos + 1));
        if lastMatch >= 0 && lastMatch > searchStart then Ok(lastMatch + 1)
        else
          var spacePos := LastIndexOfFrom(text, ' ', targetPos);
          if spacePos > targetPos - 50 then Ok(spacePos) else Ok(targetPos)
  }

  // ---------------------------------------------------------------------------
  // One window of splitLongParagraph

  /** Where the window starting at `start` ends: `start + chunkSize` capped at the length,
      moved to a sentence boundary when that lies after `start`. */
  function WindowEnd(p: string, chunkSize: int, start: nat): (r: Result<int>)
    requires start < |p|
    ensures r.Ok? ==> r.value <= |p| && r.value <= start + chunkSize + 1
    ensures r.Ok? && chunkSize >= 1 ==> start < r.value
    ensures chunkSize >= -100 ==> r.Ok?
  {
    var end := Min(start + chunkSize, |p|);
    if end < |p| then
      var sentenceEnd :- FindSentenceBoundary(p, end);
      Ok(if sentenceEnd > start then sentenceEnd else end)
    else Ok(end)
  }

  /** One pass of the `splitLongParagraph` loop as written: the trimmed window and the next
      start, `end - overlapSize` raised to 0. The loop goes on while that start is below the
      length; `substring` throws for a window that ends before it starts. */
  function SplitStepAsWritten(p: string, chunkSize: int, overlapSize: int, start: nat): (r: Result<(string, nat)>)
    requires start < |p|
    ensures r.Ok? ==> WindowEnd(p, chunkSize, start).Ok?
                      && r.value.1 == Max(0, WindowEnd(p, chunkSize, start).value - overlapSize)
    ensures chunkSize >= 1 && overlapSize <= 0 ==>
              r.Ok? && r.value.1 == NextStart(start, WindowEnd(p, chunkSize, start).value, overlapSize)
  {
    var end :- WindowEnd(p, chunkSize, start);
    if end < start then Err(IndexOutOfBounds)
    else Ok((Trim(p[start..end]), Max(0, end - overlapSize)))
  }

  /** With a positive overlap the as-written loop need not end: for "aaa", a chunk size of
      2 and an overlap of 1 the start goes 0, 1, 2 and then stays at 2, below the length,
      so the same window is emitted forever. */
  lemma SplitLongParagraphLoops()
    ensures SplitStepAsWritten("aaa", 2, 1, 0) == Ok(("aa", 1))
    ensures SplitStepAsWritten("aaa", 2, 1, 1) == Ok(("aa", 2))
    ensures SplitStepAsWritten("aaa", 2, 1, 2) == Ok(("a", 2))
  {
    var p := "aaa";
    assert LastPunct(p, 0, 3) == -1;
    assert LastIndexOf(p[..3], ' ') == -1;
    assert p[0..2] == "aa" && p[1..3] == "aa" && p[2..3] == "a";
    TrimKeeps("aa");
    TrimKeeps("a");
  }

  /** The evidently intended step: the start always moves forward, by the window length
      minus the overlap but at least by one, as the manual chunker's loop does. */
  function NextStart(start: nat, end: int, overlapSize: int): (next: nat)
    ensures next > start
  {
    Max(start + 1, end - overlapSize)
  }

  /** A window's text: non-empty, trimmed, and the trimmed text of a substring at most
      `chunkSize + 1` long. */
  ghost predicate PieceOf(p: string, chunkSize: int, piece: string) {
    && piece != [] && Trim(piece) == piece
    && exists a, b :: 0 <= a <= b <= |p| && b - a <= chunkSize + 1 && piece == Trim(p[a..b])
  }

  /** The corrected `splitLongParagraph` loop from `start`: the non-empty trimmed windows,
      stopping after the window that reaches the end of the paragraph, or once the next
      start would lie past it. */
  function SplitFrom(p: string, chunkSize: int, overlapSize: int, start: nat): (r: Result<seq<string>>)
    requires start <= |p|
    ensures r.Ok? ==> forall k :: 0 <= k < |r.value| ==> PieceOf(p, chunkSize, r.value[k])
    ensures chunkSize >= 1 ==> r.Ok?
    decreases |p| - start
  {
    if start == |p| then Ok([])
    else
      var end :- WindowEnd(p, chunkSize, start);
      if end < start then Err(IndexOutOfBounds)
      else
        var piece := Trim(p[start..end]);
        var next := NextStart(start, end, overlapSize);
        var rest :- if end >= |p| || next >= |p| then Ok([]) else SplitFrom(p, chunkSize, overlapSize, next);
        TrimTwice(p[start..end]);
        Ok(if piece != [] then [piece] + rest else rest)
  }

  /** `splitLongParagraph` with the corrected step: a paragraph within the chunk size is
      its own piece; a longer one is cut into windows. */
  function SplitLongParagraph(p: string, chunkSize: int, overlapSize: int): (r: Result<seq<string>>)
    ensures |p| <= chunkSize ==> r == Ok([p])
    ensures |p| > chunkSize && r.Ok? ==> forall k :: 0 <= k < |r.value| ==> PieceOf(p, chunkSize, r.value[k])
    ensures |p| > chunkSize && r.Ok? ==> forall k :: 0 <= k < |r.value| ==> Tidy(r.value[k])
    ensures chunkSize >= 1 ==> r.Ok?
  {
    if |p| <= chunkSize then Ok([p]) else SplitFrom(p, chunkSize, overlapSize, 0)
  }

  /** A window `[a, b)` of a long paragraph: it starts inside the paragraph and ends where
      `WindowEnd` puts it, not before its start. */
  predicate WindowLink(p: string, chunkSize: int, w: (nat, nat)) {
    w.0 < |p| && WindowEnd(p, chunkSize, w.0) == Ok(w.1) && w.0 <= w.1
  }

  /** The loop stops after window `w`: it reaches the end, or the next start does not lie
      inside the paragraph. */
  predicate LastWindow(p: string, overlapSize: int, w: (nat, nat)) {
    w.1 >= |p| || NextStart(w.0, w.1, overlapSize) >= |p|
  }

  /** The windows of the intended loop from `start`, as an independent description: none
      from the end of the paragraph; otherwise they follow each other by `NextStart`, and
      exactly the last one reaches the end of the paragraph or has its next start past
      it. */
  ghost predicate WindowChain(p: string, chunkSize: int, overlapSize: int, start: nat, ws: seq<(nat, nat)>) {
    if start >= |p| then ws == []
    else
      && |ws| > 0 && ws[0].0 == start
      && (forall k :: 0 <= k < |ws| ==> WindowLink(p, chunkSize, ws[k]))
      && (forall k :: 0 <= k < |ws| - 1 ==>
            !LastWindow(p, overlapSize, ws[k]) && ws[k + 1].0 == NextStart(ws[k].0, ws[k].1, overlapSize))
      && LastWindow(p, overlapSize, ws[|ws| - 1])
  }

  /** The trimmed text of window `w` as a list: empty when trimming leaves nothing. */
  function ShownOne(p: string, w: (nat, nat)): seq<string> {
    var piece := if w.0 <= w.1 <= |p| then Trim(p[w.0..w.1]) else [];
    if piece != [] then [piece] else []
  }

  /** The trimmed texts of the windows, empty ones left out. */
  function Shown(p: string, ws: seq<(nat, nat)>): seq<string> {
    if ws == [] then [] else ShownOne(p, ws[0]) + Shown(p, ws[1..])
  }

  /** One step of the corrected loop, unfolded. */
  lemma SplitFromStep(p: string, chunkSize: int, overlapSize: int, w: (nat, nat))
    requires WindowLink(p, chunkSize, w)
    ensures LastWindow(p, overlapSize, w) ==> SplitFrom(p, chunkSize, overlapSize, w.0) == Ok(ShownOne(p, w))
    ensures !LastWindow(p, overlapSize, w) ==>
              var next := NextStart(w.0, w.1, overlapSize);
              SplitFrom(p, chunkSize, overlapSize, w.0)
                == if SplitFrom(p, chunkSize, overlapSize, next).Ok?
                   then Ok(ShownOne(p, w) + SplitFrom(p, chunkSize, overlapSize, next).value)
                   else SplitFrom(p, chunkSize, overlapSize, next)
  {
    var piece := Trim(p[w.0..w.1]);
    var rest := if LastWindow(p, overlapSize, w) then Ok([]) else SplitFrom(p, chunkSize, overlapSize, NextStart(w.0, w.1, overlapSize));
    if rest.Ok? {
      if piece == [] {
        assert ShownOne(p, w) + rest.value == rest.value;
      } else {
        assert ShownOne(p, w) + rest.value == [piece] + rest.value;
      }
      assert ShownOne(p, w) + [] == ShownOne(p, w);
    }
  }

  /** A window that does not end the loop, put in front of a chain from its next start. */
  lemma ChainCons(p: string, chunkSize: int, overlapSize: int, w: (nat, nat), ws: seq<(nat, nat)>)
    requires WindowLink(p, chunkSize, w) && !LastWindow(p, overlapSize, w)
    requires WindowChain(p, chunkSize, overlapSize, NextStart(w.0, w.1, overlapSize), ws)
    ensures WindowChain(p, chunkSize, overlapSize, w.0, [w] + ws)
    ensures Shown(p, [w] + ws) == ShownOne(p, w) + Shown(p, ws)
  {
    var r := [w] + ws;
    assert r[1..] == ws;
    forall k | 0 <= k < |r| ensures WindowLink(p, chunkSize, r[k]) {
      if k > 0 { assert r[k] == ws[k - 1]; }
    }
    forall k | 0 <= k < |r| - 1
      ensures !LastWindow(p, overlapSize, r[k]) && r[k + 1].0 == NextStart(r[k].0, r[k].1, overlapSize)
    {
      if k > 0 { assert r[k] == ws[k - 1] && r[k + 1] == ws[k]; }
    }
  }

  /** A chain of more than one window without its first window is the chain from the
      next start. */
  lemma ChainTail(p: string, chunkSize: int, overlapSize: int, start: nat, ws: seq<(nat, nat)>)
    requires start < |p| && WindowChain(p, chunkSize, overlapSize, start, ws) && |ws| > 1
    ensures WindowChain(p, chunkSize, overlapSize, NextStart(ws[0].0, ws[0].1, overlapSize), ws[1..])
  {
    var r := ws[1..];
    assert !LastWindow(p, overlapSize, ws[0]);
    forall k | 0 <= k < |r| ensures WindowLink(p, chunkSize, r[k]) {
      assert r[k] == ws[k + 1];
    }
    forall k | 0 <= k < |r| - 1
      ensures !LastWindow(p, overlapSize, r[k]) && r[k + 1].0 == NextStart(r[k].0, r[k].1, overlapSize)
    {
      assert r[k] == ws[k + 1] && r[k + 1] == ws[k + 2];
    }
  }

  /** Whenever the corrected loop returns, its pieces are the shown windows of a chain. */
  lemma {:induction false} SplitFromChain(p: string, chunkSize: int, overlapSize: int, start: nat)
    requires start <= |p| && SplitFrom(p, chunkSize, overlapSize, start).Ok?
    ensures exists ws :: WindowChain(p, chunkSize, overlapSize, start, ws)
                         && SplitFrom(p, chunkSize, overlapSize, start).value == Shown(p, ws)
    decreases |p| - start
  {
    if start == |p| {
      assert WindowChain(p, chunkSize, overlapSize, start, []);
    } else {
      var end := WindowEnd(p, chunkSize, start).value;
      assert end >= start;
      var w: (nat, nat) := (start, end);
      SplitFromStep(p, chunkSize, overlapSize, w);
      if LastWindow(p, overlapSize, w) {
        assert Shown(p, [w]) == ShownOne(p, w) + Shown(p, []);
        assert WindowChain(p, chunkSize, overlapSize, start, [w]);
      } else {
        var next := NextStart(start, end, overlapSize);
        SplitFromChain(p, chunkSize, overlapSize, next);
        var ws :| WindowChain(p, chunkSize, overlapSize, next, ws)
                  && SplitFrom(p, chunkSize, overlapSize, next).value == Shown(p, ws);
        ChainCons(p, chunkSize, overlapSize, w, ws);
      }
    }
  }

  /** Conversely, the corrected loop returns the shown windows of any chain, so the chain
      is unique and the loop produces nothing beyond it. */
  lemma {:induction false} ChainSplit(p: string, chunkSize: int, overlapSize: int, start: nat, ws: seq<(nat, nat)>)
    requires start <= |p| && WindowChain(p, chunkSize, overlapSize, start, ws)
    ensures SplitFrom(p, chunkSize, overlapSize, start) == Ok(Shown(p, ws))
    decreases |ws|
  {
    if start < |p| {
      var w := ws[0];
      assert WindowLink(p, chunkSize, w);
      SplitFromStep(p, chunkSize, overlapSize, w);
      if |ws| > 1 {
        ChainTail(p, chunkSize, overlapSize, start, ws);
        ChainSplit(p, chunkSize, overlapSize, NextStart(w.0, w.1, overlapSize), ws[1..]);
      } else {
        assert Shown(p, ws) == ShownOne(p, w) + Shown(p, []);
      }
    }
  }

  /** With a positive chunk size and an overlap that is not negative the windows leave no
      gap: every code unit that trimming keeps lies in one of the pieces. */
  lemma {:induction false} SplitFromCovers(p: string, chunkSize: int, overlapSize: int, start: nat, j: nat)
    requires chunkSize >= 1 && overlapSize >= 0 && start <= j < |p| && !IsTrimSpace(p[j])
    ensures exists k :: 0 <= k < |SplitFrom(p, chunkSize, overlapSize, start).value|
                        && Holds(p, SplitFrom(p, chunkSize, overlapSize, start).value[k], j)
    decreases |p| - start
  {
    var r := SplitFrom(p, chunkSize, overlapSize, start).value;
    var end := WindowEnd(p, chunkSize, start).value;
    var piece := Trim(p[start..end]);
    var next := NextStart(start, end, overlapSize);
    var rest := if end >= |p| || next >= |p| then [] else SplitFrom(p, chunkSize, overlapSize, next).value;
    assert r == if piece != [] then [piece] + rest else rest;
    if j < end {
      VisibleKept(p, start, end, j);
      assert Holds(p, r[0], j);
    } else {
      assert next <= j;
      SplitFromCovers(p, chunkSize, overlapSize, next, j);
      var k :| 0 <= k < |rest| && Holds(p, rest[k], j);
      if piece != [] {
        assert r[k + 1] == rest[k];
      } else {
        assert r[k] == rest[k];
      }
    }
  }

  /** The corrected loop stops at the end: "abcdef" with a chunk size of 4 and an overlap
      of 2 gives "abcd" and "cdef" and no further suffix windows. */
  lemma SplitFromStopsAtEnd()
    ensures SplitLongParagraph("abcdef", 4, 2) == Ok(["abcd", "cdef"])
  {
    StopsAtEndWalk("abcdef");
  }

  /** `SplitFromStopsAtEnd` with the text as a parameter. */
  lemma StopsAtEndWalk(p: string)
    requires p == "abcdef"
    ensures SplitLongParagraph(p, 4, 2) == Ok(["abcd", "cdef"])
  {
    StopsAtEndFirst(p);
    StopsAtEndLast(p);
    assert p[0..4] == "abcd";
    TrimKeeps("abcd");
    assert NextStart(0, 4, 2) == 2;
    assert SplitFrom(p, 4, 2, 0) == Ok(["abcd"] + ["cdef"]);
    assert ["abcd"] + ["cdef"] == ["abcd", "cdef"];
  }

  /** The first window of "abcdef" with chunk size 4 ends at 4: no punctuation or space. */
  lemma StopsAtEndFirst(p: string)
    requires p == "abcdef"
    ensures WindowEnd(p, 4, 0) == Ok(4)
  {
    assert LastPunct(p, 0, 5) == -1;
    assert LastIndexOf(p[..5], ' ') == -1;
  }

  /** The window from 2 reaches the end, so the walk stops after it. */
  lemma StopsAtEndLast(p: string)
    requires p == "abcdef"
    ensures SplitFrom(p, 4, 2, 2) == Ok(["cdef"])
  {
    assert WindowEnd(p, 4, 2) == Ok(6);
    assert p[2..6] == "cdef";
    TrimKeeps("cdef");
    assert NextStart(2, 6, 2) == 4;
    assert ["cdef"] + [] == ["cdef"];
  }

  /** What `splitLongParagraph` promises for a paragraph longer than the chunk size: its
      pieces are exactly the shown windows of the one window chain from 0, and with a
      positive chunk size and an overlap that is not negative every code unit that
      trimming keeps lies in some piece. */
  lemma SplitLongParagraphSpec(p: string, chunkSize: int, overlapSize: int)
    requires |p| > chunkSize
    ensures SplitLongParagraph(p, chunkSize, overlapSize).Ok? ==>
              exists ws :: WindowChain(p, chunkSize, overlapSize, 0, ws)
                           && SplitLongParagraph(p, chunkSize, overlapSize).value == Shown(p, ws)
    ensures forall ws :: WindowChain(p, chunkSize, overlapSize, 0, ws) ==>
              SplitLongParagraph(p, chunkSize, overlapSize) == Ok(Shown(p, ws))
    ensures chunkSize >= 1 && overlapSize >= 0 ==>
              forall j :: 0 <= j < |p| && !IsTrimSpace(p[j]) ==>
                exists k :: 0 <= k < |SplitLongParagraph(p, chunkSize, overlapSize).value|
                            && Holds(p, SplitLongParagraph(p, chunkSize, overlapSize).value[k], j)
  {
    if SplitLongParagraph(p, chunkSize, overlapSize).Ok? {
      SplitFromChain(p, chunkSize, overlapSize, 0);
    }
    forall ws | WindowChain(p, chunkSize, overlapSize, 0, ws)
      ensures SplitLongParagraph(p, chunkSize, overlapSize) == Ok(Shown(p, ws))
    {
      ChainSplit(p, chunkSize, overlapSize, 0, ws);
    }
    if chunkSize >= 1 && overlapSize >= 0 {
      forall j | 0 <= j < |p| && !IsTrimSpace(p[j])
        ensures exists k :: 0 <= k < |SplitLongParagraph(p, chunkSize, overlapSize).value|
                            && Holds(p, SplitLongParagraph(p, chunkSize, overlapSize).value[k], j)
      {
        SplitFromCovers(p, chunkSize, overlapSize, 0, j);
      }
    }
  }

  // ---------------------------------------------------------------------------
  // Paragraphs: text.split("\\n\\s*\\n")

  /** The length of the run of regex spaces starting at `k`. */
  function SpaceRun(s: string, k: nat): (n: nat)
    requires k <= |s|
    ensures k + n <= |s|
    ensures forall j :: k <= j < k + n ==> IsRegexSpace(s[j])
    ensures k + n < |s| ==> !IsRegexSpace(s[k + n])
    decreases |s| - k
  {
    if k < |s| && IsRegexSpace(s[k]) then 1 + SpaceRun(s, k + 1) else 0
  }

  /** The last newline in `[a, b)`. */
  function LastNewline(s: string, a: nat, b: nat): (r: Option<nat>)
    requires a <= b <= |s|
    ensures r.Some? ==> a <= r.value < b && s[r.value] == '\n'
    ensures r.None? ==> forall j :: a <= j < b ==> s[j] != '\n'
    decreases b
  {
    if b == a then None
    else if s[b - 1] == '\n' then Some(b - 1)
    else LastNewline(s, a, b - 1)
  }

  /** The last index of a match of `\n\s*\n` starting at `i`: the greedy `\s*` takes the
      whole run of spaces after the first newline and gives back characters until a
      newline follows, so the match ends at the last newline of that run. */
  function SeparatorEnd(s: string, i: nat): (r: Option<nat>)
    requires i < |s|
    ensures r.Some? ==> s[i] == '\n' && i < r.value < |s| && s[r.value] == '\n'
    ensures r.Some? ==> forall j :: i < j < r.value ==> IsRegexSpace(s[j])
    ensures r.None? && s[i] == '\n' ==> forall j :: i < j < |s| && s[j] == '\n' ==> exists k :: i < k < j && !IsRegexSpace(s[k])
  {
    if s[i] != '\n' then None
    else
      var n := SpaceRun(s, i + 1);
      var r := LastNewline(s, i + 1, i + 1 + n);
      if r.None? then
        assert forall j :: i < j < |s| && s[j] == '\n' ==> !IsRegexSpace(s[i + 1 + n]) && i < i + 1 + n < j;
        r
      else r
  }

  /** Whether a match of the separator starts at `i`. */
  predicate SeparatorAt(s: string, i: int) {
    0 <= i < |s| && SeparatorEnd(s, i).Some?
  }

  /** The leftmost match starting at or after `i`. */
  function FirstSeparator(s: string, i: nat): (r: Option<nat>)
    requires i <= |s|
    ensures r.Some? ==> i <= r.value && SeparatorAt(s, r.value)
    ensures forall k :: i <= k < |s| && (r.None? || k < r.value) ==> !SeparatorAt(s, k)
    decreases |s| - i
  {
    if i == |s| then None
    else if SeparatorEnd(s, i).Some? then Some(i)
    else FirstSeparator(s, i + 1)
  }

  /** The pieces between successive leftmost matches, the last piece included. */
  function SplitBlankLines(s: string): (r: seq<string>)
    ensures |r| >= 1
    decreases |s|
  {
    match FirstSeparator(s, 0)
    case None => [s]
    case Some(i) =>
      var j := SeparatorEnd(s, i).value;
      [s[..i]] + SplitBlankLines(s[j + 1..])
  }

  /** `split`: the whole text when nothing matches, otherwise the pieces without the
      trailing empty ones. */
  function Paragraphs(s: string): (r: seq<string>)
    ensures FirstSeparator(s, 0).None? ==> r == [s]
    ensures forall k :: 0 <= k < |r| ==> !HasBlankLine(r[k])
  {
    SplitBlankLinesClean(s);
    if FirstSeparator(s, 0).None? then [s] else DropTrailingEmpty(SplitBlankLines(s))
  }

  /** Two newlines with only spaces between them. */
  ghost predicate HasBlankLine(s: string) {
    exists i :: SeparatorAt(s, i)
  }

  lemma {:induction false} SpaceRunPrefix(s: string, n: nat, k: nat)
    requires k <= n <= |s|
    ensures SpaceRun(s[..n], k) <= SpaceRun(s, k)
    decreases n - k
  {
    if k < n && IsRegexSpace(s[..n][k]) {
      SpaceRunPrefix(s, n, k + 1);
    }
  }

  /** A separator inside a prefix is a separator of the whole text. */
  lemma SeparatorPrefix(s: string, n: nat, i: nat)
    requires i < n <= |s|
    requires SeparatorAt(s[..n], i)
    ensures SeparatorAt(s, i)
  {
    var p := s[..n];
    var j := SeparatorEnd(p, i).value;
    SpaceRunPrefix(s, n, i + 1);
    assert p[j] == s[j];
    assert p[i] == s[i];
  }

  /** A separator inside a suffix is a separator of the whole text. */
  lemma SeparatorSuffix(s: string, m: nat, i: nat)
    requires m <= |s| && i < |s| - m
    requires SeparatorAt(s[m..], i)
    ensures SeparatorAt(s, m + i)
  {
    var p := s[m..];
    var j := SeparatorEnd(p, i).value;
    forall t | m + i < t < m + j
      ensures IsRegexSpace(s[t])
    {
      assert p[t - m] == s[t];
    }
    assert p[j] == s[m + j] && p[i] == s[m + i];
  }

  /** No piece of the split contains the separator. */
  lemma {:induction false} SplitBlankLinesClean(s: string)
    ensures forall k :: 0 <= k < |SplitBlankLines(s)| ==> !HasBlankLine(SplitBlankLines(s)[k])
    decreases |s|
  {
    var r := SplitBlankLines(s);
    match FirstSeparator(s, 0)
    case None =>
      assert r == [s];
    case Some(i) =>
      var j := SeparatorEnd(s, i).value;
      var rest := s[j + 1..];
      SplitBlankLinesClean(rest);
      assert r == [s[..i]] + SplitBlankLines(rest);
      forall k | 0 <= k < |r|
        ensures !HasBlankLine(r[k])
      {
        if k == 0 {
          if HasBlankLine(s[..i]) {
            var t :| SeparatorAt(s[..i], t);
            SeparatorPrefix(s, i, t);
          }
        } else {
          assert r[k] == SplitBlankLines(rest)[k - 1];
        }
      }
  }

  // ---------------------------------------------------------------------------
  // chunkBySemantic

  /** `StringUtils.hasText`: not null and some character is not whitespace. */
  predicate HasText(text: Option<string>) {
    text.Some? && exists i :: 0 <= i < |text.value| && !IsJavaWhitespace(text.value[i])
  }

  /** The chunks emitted so far, the chunk being built and its size, which counts the
      paragraph characters but not the "\n\n" joins. */
  datatype Acc = Acc(chunks: seq<string>, current: string, size: int)

  /** The overlap carried into a new chunk: the last `overlapSize` characters of `last`. */
  function OverlapSeed(last: string, overlapSize: int): (seed: string)
    requires overlapSize > 0
    ensures |seed| == Min(overlapSize, |last|) && EndsWith(last, seed)
  {
    last[Max(0, |last| - overlapSize)..]
  }

  /** `current` followed by `t`, joined by a blank line when the chunk already holds text. */
  function Append(current: string, size: int, t: string): (r: string)
    ensures EndsWith(r, t) && StartsWith(r, current)
  {
    if size > 0 then current + "\n\n" + t else current + t
  }

  /** One pass of the paragraph loop. A blank paragraph is skipped; one longer than the
      chunk size flushes the chunk being built and adds its windows; one that fits is
      appended; otherwise the chunk is flushed and a new one starts with the overlap taken
      from the chunk before the flushed one, then the paragraph. */
  function AddParagraph(acc: Acc, para: string, chunkSize: int, overlapSize: int): (r: Result<Acc>)
    ensures r.Ok? ==> acc.chunks <= r.value.chunks
    ensures Trim(para) == [] ==> r == Ok(acc)
    ensures var t := Trim(para);
            t != [] && |t| <= chunkSize && acc.size + |t| <= chunkSize ==>
              r.Ok? && r.value.chunks == acc.chunks && EndsWith(r.value.current, t)
              && StartsWith(r.value.current, acc.current) && r.value.size == acc.size + |t|
    ensures var t := Trim(para);
            t != [] && |t| > chunkSize && r.Ok? ==>
              && SplitLongParagraph(t, chunkSize, overlapSize).Ok?
              && r.value.size == 0 && r.value.current == []
              && r.value.chunks == acc.chunks + (if acc.size > 0 then [Trim(acc.current)] else [])
                                   + SplitLongParagraph(t, chunkSize, overlapSize).value
    ensures var t := Trim(para);
            t != [] && |t| <= chunkSize < acc.size + |t| && acc.size > 0 ==>
              && r.Ok? && r.value.chunks == acc.chunks + [Trim(acc.current)]
              && EndsWith(r.value.current, t) && r.value.size > 0
              && (overlapSize > 0 && |acc.chunks| >= 1 ==>
                    StartsWith(r.value.current, OverlapSeed(acc.chunks[|acc.chunks| - 1], overlapSize)))
    ensures chunkSize >= 1 ==> r.Ok?
  {
    var t := Trim(para);
    if t == [] then Ok(acc)
    else if |t| > chunkSize then
      var pieces :- SplitLongParagraph(t, chunkSize, overlapSize);
      var flushed := acc.chunks + (if acc.size > 0 then [Trim(acc.current)] else []);
      Ok(Acc(flushed + pieces, [], 0))
    else if acc.size + |t| <= chunkSize then
      Ok(Acc(acc.chunks, Append(acc.current, acc.size, t), acc.size + |t|))
    else if acc.size > 0 then
      var chunks := acc.chunks + [Trim(acc.current)];
      var seed := if overlapSize > 0 && |chunks| > 1 then OverlapSeed(chunks[|chunks| - 2], overlapSize) else [];
      Ok(Acc(chunks, Append(seed, |seed|, t), |seed| + |t|))
    else Ok(acc)
  }

  /** The paragraph loop over `ps`, in order. */
  function AddParagraphs(acc: Acc, ps: seq<string>, chunkSize: int, overlapSize: int): (r: Result<Acc>)
    ensures r.Ok? ==> acc.chunks <= r.value.chunks
    ensures chunkSize >= 1 ==> r.Ok?
    decreases |ps|
  {
    if ps == [] then Ok(acc)
    else
      var next :- AddParagraph(acc, ps[0], chunkSize, overlapSize);
      AddParagraphs(next, ps[1..], chunkSize, overlapSize)
  }

  /** The chunks, with the last chunk being built flushed. */
  function Finish(acc: Acc): (r: seq<string>)
    ensures acc.chunks <= r
  {
    acc.chunks + (if acc.size > 0 then [Trim(acc.current)] else [])
  }

  /** `chunkBySemantic`: no chunks for a text without a visible character; missing sizes
      take the defaults. */
  function ChunkBySemantic(text: Option<string>, chunkSize: Option<int>, overlapSize: Option<int>): (r: Result<seq<string>>)
    ensures !HasText(text) ==> r == Ok([])
    ensures chunkSize.GetOr(DefaultChunkSize) >= 1 ==> r.Ok?
  {
    if !HasText(text) then Ok([])
    else
      var cs := chunkSize.GetOr(DefaultChunkSize);
      var ov := overlapSize.GetOr(DefaultOverlapSize);
      var acc :- AddParagraphs(Acc([], [], 0), Paragraphs(text.value), cs, ov);
      Ok(Finish(acc))
  }

  // ---------------------------------------------------------------------------
  // What the chunks hold

  /** Some character survives trimming. */
  predicate Visible(s: string) {
    exists i :: 0 <= i < |s| && !IsTrimSpace(s[i])
  }

  /** The loop's invariant: the chunks emitted so far are tidy, the size is not negative,
      and a chunk with a positive size holds a visible character. */
  predicate Good(acc: Acc) {
    && (forall k :: 0 <= k < |acc.chunks| ==> Tidy(acc.chunks[k]))
    && acc.size >= 0
    && (acc.size > 0 ==> Visible(acc.current))
  }

  lemma TidyTrim(s: string)
    requires Visible(s)
    ensures Tidy(Trim(s))
  {
    TrimEmpty(s);
    TrimTwice(s);
  }

  lemma VisibleEnd(s: string, t: string)
    requires EndsWith(s, t) && Tidy(t)
    ensures Visible(s)
  {
    assert s[|s| - |t|] == t[0];
  }

  /** Trimming keeps every occurrence of a tidy text. */
  lemma ContainsTrim(s: string, t: string)
    requires Contains(s, t) && Tidy(t)
    ensures Contains(Trim(s), t)
  {
    var i :| 0 <= i <= |s| - |t| && OccursAt(s, t, i);
    TrimSpec(s);
    assert !IsTrimSpace(t[0]) && !IsTrimSpace(t[|t| - 1]) by {
      assert Trim(t) == t;
    }
    OccursInside(s, Trim(s), LeadingTrimSpaces(s), t, i);
  }

  /** An occurrence in `s` that starts and ends on non-spaces lies inside the part
      `u == s[l..l + |u|]` that has only spaces on either side. */
  lemma OccursInside(s: string, u: string, l: nat, t: string, i: nat)
    requires l + |u| <= |s| && u == s[l..l + |u|]
    requires forall j :: 0 <= j < l ==> IsTrimSpace(s[j])
    requires forall j :: l + |u| <= j < |s| ==> IsTrimSpace(s[j])
    requires t != [] && !IsTrimSpace(t[0]) && !IsTrimSpace(t[|t| - 1]) && OccursAt(s, t, i)
    ensures i >= l && OccursAt(u, t, i - l)
  {
    assert s[i] == t[0] && s[i + |t| - 1] == t[|t| - 1];
    forall j | 0 <= j < |t| ensures u[i - l + j] == t[j] {
      assert s[i..i + |t|][j] == s[i + j];
    }
    assert u[i - l..i - l + |t|] == t;
  }

  lemma LongGood(acc: Acc, pieces: seq<string>, t: string, chunkSize: int, overlapSize: int)
    requires Good(acc) && |t| > chunkSize && SplitLongParagraph(t, chunkSize, overlapSize) == Ok(pieces)
    ensures Good(Acc(acc.chunks + (if acc.size > 0 then [Trim(acc.current)] else []) + pieces, [], 0))
  {
    if acc.size > 0 {
      TidyTrim(acc.current);
    }
    var flushed := acc.chunks + (if acc.size > 0 then [Trim(acc.current)] else []);
    var chunks := flushed + pieces;
    forall k | 0 <= k < |chunks|
      ensures Tidy(chunks[k])
    {
      if k >= |flushed| {
        assert chunks[k] == pieces[k - |flushed|];
      }
    }
  }

  lemma GoodSnoc(chunks: seq<string>, c: string, r: Acc)
    requires forall k :: 0 <= k < |chunks| ==> Tidy(chunks[k])
    requires Tidy(c) && r.chunks == chunks + [c] && r.size > 0 && Visible(r.current)
    ensures Good(r)
  {
    forall k | 0 <= k < |r.chunks| ensures Tidy(r.chunks[k]) {
      if k < |chunks| {
        assert r.chunks[k] == chunks[k];
      }
    }
  }

  /** A paragraph that fits is appended and keeps the invariant. */
  lemma AppendGood(acc: Acc, para: string, chunkSize: int, overlapSize: int)
    requires Good(acc) && Trim(para) != [] && |Trim(para)| <= chunkSize
    requires acc.size + |Trim(para)| <= chunkSize
    ensures AddParagraph(acc, para, chunkSize, overlapSize).Ok?
    ensures Good(AddParagraph(acc, para, chunkSize, overlapSize).value)
  {
    var t := Trim(para);
    TrimTwice(para);
    var r := AddParagraph(acc, para, chunkSize, overlapSize).value;
    assert r.chunks == acc.chunks && EndsWith(r.current, t);
    VisibleEnd(r.current, t);
  }

  /** A paragraph that overflows a non-empty chunk flushes it and keeps the invariant. */
  lemma OverflowGood(acc: Acc, para: string, chunkSize: int, overlapSize: int)
    requires Good(acc) && Trim(para) != [] && |Trim(para)| <= chunkSize
    requires acc.size + |Trim(para)| > chunkSize && acc.size > 0
    ensures AddParagraph(acc, para, chunkSize, overlapSize).Ok?
    ensures Good(AddParagraph(acc, para, chunkSize, overlapSize).value)
  {
    var t := Trim(para);
    TrimTwice(para);
    var r := AddParagraph(acc, para, chunkSize, overlapSize).value;
    assert r.chunks == acc.chunks + [Trim(acc.current)] && EndsWith(r.current, t) && r.size > 0;
    TidyTrim(acc.current);
    VisibleEnd(r.current, t);
    GoodSnoc(acc.chunks, Trim(acc.current), r);
  }

  /** One pass keeps the invariant. */
  lemma AddParagraphGood(acc: Acc, para: string, chunkSize: int, overlapSize: int)
    requires Good(acc) && AddParagraph(acc, para, chunkSize, overlapSize).Ok?
    ensures Good(AddParagraph(acc, para, chunkSize, overlapSize).value)
  {
    var t := Trim(para);
    if t == [] {
    } else if |t| > chunkSize {
      TrimTwice(para);
      LongGood(acc, SplitLongParagraph(t, chunkSize, overlapSize).value, t, chunkSize, overlapSize);
    } else if acc.size + |t| <= chunkSize {
      AppendGood(acc, para, chunkSize, overlapSize);
    } else if acc.size > 0 {
      OverflowGood(acc, para, chunkSize, overlapSize);
    }
  }

  lemma {:induction false} AddParagraphsGood(acc: Acc, ps: seq<string>, chunkSize: int, overlapSize: int)
    requires Good(acc) && AddParagraphs(acc, ps, chunkSize, overlapSize).Ok?
    ensures Good(AddParagraphs(acc, ps, chunkSize, overlapSize).value)
    decreases |ps|
  {
    if ps != [] {
      AddParagraphGood(acc, ps[0], chunkSize, overlapSize);
      var next := AddParagraph(acc, ps[0], chunkSize, overlapSize).value;
      AddParagraphsGood(next, ps[1..], chunkSize, overlapSize);
    }
  }

  /** Every chunk `chunkBySemantic` returns is non-empty and trimmed. */
  lemma ChunksTidy(text: Option<string>, chunkSize: Option<int>, overlapSize: Option<int>)
    requires ChunkBySemantic(text, chunkSize, overlapSize).Ok?
    ensures forall k :: 0 <= k < |ChunkBySemantic(text, chunkSize, overlapSize).value| ==>
              Tidy(ChunkBySemantic(text, chunkSize, overlapSize).value[k])
  {
    if HasText(text) {
      var cs := chunkSize.GetOr(DefaultChunkSize);
      var ov := overlapSize.GetOr(DefaultOverlapSize);
      var acc := AddParagraphs(Acc([], [], 0), Paragraphs(text.value), cs, ov).value;
      AddParagraphsGood(Acc([], [], 0), Paragraphs(text.value), cs, ov);
      if acc.size > 0 {
        TidyTrim(acc.current);
      }
    }
  }

  /** Text `t` is already in an emitted chunk or in the chunk being built. */
  predicate Kept(acc: Acc, t: string) {
    || (exists k :: 0 <= k < |acc.chunks| && Contains(acc.chunks[k], t))
    || (acc.size > 0 && Contains(acc.current, t))
  }

  /** Text already kept stays kept. */
  lemma KeptStep(acc: Acc, para: string, chunkSize: int, overlapSize: int, t: string)
    requires Kept(acc, t) && Tidy(t) && AddParagraph(acc, para, chunkSize, overlapSize).Ok?
    ensures Kept(AddParagraph(acc, para, chunkSize, overlapSize).value, t)
  {
    var r := AddParagraph(acc, para, chunkSize, overlapSize).value;
    var q := Trim(para);
    if exists k :: 0 <= k < |acc.chunks| && Contains(acc.chunks[k], t) {
      var k :| 0 <= k < |acc.chunks| && Contains(acc.chunks[k], t);
      assert r.chunks[k] == acc.chunks[k];
    } else if q != [] {
      if |q| > chunkSize || (acc.size + |q| > chunkSize && acc.size > 0) {
        ContainsTrim(acc.current, t);
        assert r.chunks[|acc.chunks|] == Trim(acc.current);
      } else if acc.size + |q| <= chunkSize {
        ContainsStart(r.current, acc.current, t);
      }
    }
  }

  /** A non-blank paragraph within the chunk size is kept by its own pass. */
  lemma KeptNew(acc: Acc, para: string, chunkSize: int, overlapSize: int)
    requires Good(acc) && Trim(para) != [] && |Trim(para)| <= chunkSize
    ensures Kept(AddParagraph(acc, para, chunkSize, overlapSize).value, Trim(para))
  {
    var r := AddParagraph(acc, para, chunkSize, overlapSize).value;
    ContainsEnd(r.current, Trim(para));
  }

  lemma {:induction false} KeptAll(acc: Acc, ps: seq<string>, chunkSize: int, overlapSize: int, t: string)
    requires Kept(acc, t) && Tidy(t) && AddParagraphs(acc, ps, chunkSize, overlapSize).Ok?
    ensures Kept(AddParagraphs(acc, ps, chunkSize, overlapSize).value, t)
    decreases |ps|
  {
    if ps != [] {
      KeptStep(acc, ps[0], chunkSize, overlapSize, t);
      KeptAll(AddParagraph(acc, ps[0], chunkSize, overlapSize).value, ps[1..], chunkSize, overlapSize, t);
    }
  }

  /** After the loop every non-blank paragraph within the chunk size is kept. */
  lemma {:induction false} ShortKept(acc: Acc, ps: seq<string>, chunkSize: int, overlapSize: int)
    requires Good(acc) && chunkSize >= 1
    ensures forall k :: 0 <= k < |ps| && Trim(ps[k]) != [] && |Trim(ps[k])| <= chunkSize ==>
              Kept(AddParagraphs(acc, ps, chunkSize, overlapSize).value, Trim(ps[k]))
    decreases |ps|
  {
    if ps != [] {
      var next := AddParagraph(acc, ps[0], chunkSize, overlapSize).value;
      AddParagraphGood(acc, ps[0], chunkSize, overlapSize);
      ShortKept(next, ps[1..], chunkSize, overlapSize);
      if Trim(ps[0]) != [] && |Trim(ps[0])| <= chunkSize {
        KeptNew(acc, ps[0], chunkSize, overlapSize);
        TrimTwice(ps[0]);
        KeptAll(next, ps[1..], chunkSize, overlapSize, Trim(ps[0]));
      }
      forall k | 1 <= k < |ps|
        ensures ps[k] == ps[1..][k - 1]
      {
      }
    }
  }

  /** No paragraph within the chunk size is lost or cut: with a positive chunk size, the
      trimmed text of each non-blank paragraph of at most that length lies whole inside
      some chunk. A text whose only visible characters are Unicode spaces above U+0020
      (U+3000, say) has no text for `hasText` and gives no chunks, although `trim` keeps
      its paragraphs. */
  lemma ShortParagraphsKept(text: string, chunkSize: Option<int>, overlapSize: Option<int>)
    requires HasText(Some(text)) && chunkSize.GetOr(DefaultChunkSize) >= 1
    ensures var chunks := ChunkBySemantic(Some(text), chunkSize, overlapSize).value;
            var ps := Paragraphs(text);
            forall k :: 0 <= k < |ps| && Trim(ps[k]) != [] && |Trim(ps[k])| <= chunkSize.GetOr(DefaultChunkSize) ==>
              exists c :: 0 <= c < |chunks| && Contains(chunks[c], Trim(ps[k]))
  {
    var cs := chunkSize.GetOr(DefaultChunkSize);
    var ov := overlapSize.GetOr(DefaultOverlapSize);
    var ps := Paragraphs(text);
    var chunks := ChunkBySemantic(Some(text), chunkSize, overlapSize).value;
    forall k | 0 <= k < |ps| && Trim(ps[k]) != [] && |Trim(ps[k])| <= cs
      ensures exists c :: 0 <= c < |chunks| && Contains(chunks[c], Trim(ps[k]))
    {
      var t := Trim(ps[k]);
      ShortKept(Acc([], [], 0), ps, cs, ov);
      var acc := AddParagraphs(Acc([], [], 0), ps, cs, ov).value;
      assert chunks == Finish(acc);
      if !exists c :: 0 <= c < |acc.chunks| && Contains(acc.chunks[c], t) {
        TrimTwice(ps[k]);
        ContainsTrim(acc.current, t);
        assert chunks[|acc.chunks|] == Trim(acc.current);
      } else {
        var c :| 0 <= c < |acc.chunks| && Contains(acc.chunks[c], t);
        assert chunks[c] == acc.chunks[c];
      }
    }
  }
}
