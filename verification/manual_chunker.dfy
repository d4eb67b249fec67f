/** The chunker for operation manuals (ManualDocumentChunker): with a chunk size the text
    is cut into windows that end at a paragraph, sentence or word break; without one it
    is cut into sections, which are packed into chunks by size; either way the chunks are
    then cleaned, short ones are merged into a neighbour and the rest are labelled with
    their position. */
module ManualChunker {
  import opened Std
  import opened JavaText
  import opened Patterns
  import opened ManualSections

  // ---------------------------------------------------------------------------
  // findGoodBreakPoint

  /** `isSentenceEnd`: 。 . ! ? ； ; ： : */
  predicate IsSentenceEnd(c: char) {
    c == '。' || c == '.' || c == '!' || c == '?' || c == '；' || c == ';' || c == '：' || c == ':'
  }

  /** The three kinds of break the break-point search looks for, in order of preference. */
  datatype BreakKind = ParagraphBreak | SentenceBreak | WordBreak

  /** A break of the given kind at index `i`: two line feeds with at least one more code
      unit after them, a sentence end, or a `Character.isWhitespace` code unit. */
  predicate BreakAt(text: string, kind: BreakKind, i: int) {
    match kind
    case ParagraphBreak => 0 <= i < |text| - 2 && text[i] == '\n' && text[i + 1] == '\n'
    case SentenceBreak => 0 <= i < |text| && IsSentenceEnd(text[i])
    case WordBreak => 0 <= i < |text| && IsJavaWhitespace(text[i])
  }

  /** How far back from the target each kind of break is looked for. */
  function Reach(kind: BreakKind): nat {
    match kind
    case ParagraphBreak => 100
    case SentenceBreak => 50
    case WordBreak => 30
  }

  /** The downward scan `for (i = hi; i > lo && i >= 0; i--)`: the last break of the
      given kind in `(lo, hi]` at a non-negative index. */
  function LastBreak(text: string, kind: BreakKind, hi: int, lo: int): (r: Option<int>)
    ensures r.Some? ==> lo < r.value <= hi && BreakAt(text, kind, r.value)
    ensures forall i :: lo < i <= hi && (r.None? || r.value < i) ==> !BreakAt(text, kind, i)
    decreases hi - lo
  {
    if hi <= lo || hi < 0 then None
    else if BreakAt(text, kind, hi) then Some(hi)
    else LastBreak(text, kind, hi - 1, lo)
  }

  /** `findGoodBreakPoint(text, position)`: the length when the position is past the end;
      else the last paragraph break less than 100 back, else just after the last sentence
      end less than 50 back, else the last whitespace less than 30 back, else the
      position itself. */
  function FindGoodBreakPoint(text: string, p: int): (r: int)
    ensures p >= |text| ==> r == |text|
    ensures p < 0 ==> r == p
    ensures 0 <= p < |text| ==> Max(0, p - 99) <= r <= p + 1
    ensures p < |text| ==>
              || r == p
              || (p - Reach(ParagraphBreak) < r && BreakAt(text, ParagraphBreak, r))
              || (p - Reach(SentenceBreak) < r - 1 && BreakAt(text, SentenceBreak, r - 1))
              || (p - Reach(WordBreak) < r && BreakAt(text, WordBreak, r))
    ensures p < |text| && (exists i :: p - Reach(ParagraphBreak) < i <= p && BreakAt(text, ParagraphBreak, i)) ==>
              && p - Reach(ParagraphBreak) < r <= p && BreakAt(text, ParagraphBreak, r)
              && forall i :: r < i <= p ==> !BreakAt(text, ParagraphBreak, i)
  {
    if p >= |text| then |text|
    else match LastBreak(text, ParagraphBreak, p, p - Reach(ParagraphBreak))
      case Some(i) => i
      case None =>
        match LastBreak(text, SentenceBreak, p, p - Reach(SentenceBreak))
        case Some(i) => i + 1
        case None =>
          match LastBreak(text, WordBreak, p, p - Reach(WordBreak))
          case Some(i) => i
          case None => p
  }

  // ---------------------------------------------------------------------------
  // chunkByLengthWithSemantic

  /** The `chunkByLengthWithSemantic` loop as written, from `start`: a window reaching the
      end is kept whole; otherwise it ends at the good break point after
      `start + chunkSize`, and `substring` throws when that lies before the window's
      start. */
  function LengthFromAsWritten(text: string, chunkSize: int, overlap: int, start: nat): (r: Result<seq<string>>)
    requires chunkSize > 0 && start < |text|
    decreases |text| - start, 1
  {
    var end := start + chunkSize;
    if end >= |text| then Ok([text[start..]])
    else
      var e := FindGoodBreakPoint(text, end);
      if e < start then Err(IndexOutOfBounds)
      else LengthAtAsWritten(text, chunkSize, overlap, start, e)
  }

  /** The window `[start, e)` of the as-written loop and the loop after it: its trimmed
      text is kept when not empty and the next window starts `overlap` before `e`, at
      least one further on. */
  function LengthAtAsWritten(text: string, chunkSize: int, overlap: int, start: nat, e: int): (r: Result<seq<string>>)
    requires chunkSize > 0 && start <= e <= |text|
    decreases |text| - start, 0
  {
    var chunk := Trim(text[start..e]);
    var next := Max(start + 1, e - overlap);
    var rest :- if next < |text| then LengthFromAsWritten(text, chunkSize, overlap, next) else Ok([]);
    Ok(if |chunk| > 0 then [chunk] + rest else rest)
  }

  /** `chunkByLengthWithSemantic` as written: a text within the chunk size is one chunk. */
  function ChunkByLengthAsWritten(text: string, chunkSize: int, overlap: int): (r: Result<seq<string>>)
    requires chunkSize > 0
    ensures |text| <= chunkSize ==> r == Ok([text])
  {
    if |text| <= chunkSize then Ok([text]) else LengthFromAsWritten(text, chunkSize, overlap, 0)
  }

  /** A text that opens with a blank line makes the as-written loop throw: from 0 the
      window "\n\naaa" ends at the break at 0, so nothing is kept and the next window
      starts at 1; its break point is again 0, before the start. */
  lemma ChunkByLengthThrows()
    ensures ChunkByLengthAsWritten("\n\naaaaaaaaaa", 5, 0) == Err(IndexOutOfBounds)
  {
    var text := "\n\naaaaaaaaaa";
    assert BreakAt(text, ParagraphBreak, 0);
    assert FindGoodBreakPoint(text, 5) == 0;
    assert FindGoodBreakPoint(text, 6) == 0;
    assert Trim(text[0..0]) == [];
  }

  /** Where the corrected loop ends the window that starts at `start`: the good break
      point, as in the source, unless it lies before the start, where `substring` would
      throw, or at the start on a code unit that trimming keeps, which the source's step
      by one would lose; in those two cases the window's own end. */
  function WindowStop(text: string, chunkSize: int, start: nat): (e: nat)
    requires chunkSize > 0 && start + chunkSize < |text|
    ensures start <= e <= start + chunkSize + 1 && e <= |text|
    ensures e == start ==> IsTrimSpace(text[start])
    ensures var b := FindGoodBreakPoint(text, start + chunkSize);
            b > start || (b == start && IsTrimSpace(text[start])) ==> e == b
  {
    var e := FindGoodBreakPoint(text, start + chunkSize);
    if e > start || (e == start && IsTrimSpace(text[start])) then e else start + chunkSize
  }

  /** The corrected loop from `start`. */
  function WindowsFrom(text: string, chunkSize: int, overlap: int, start: nat): seq<string>
    requires chunkSize > 0 && start < |text|
    decreases |text| - start, 1
  {
    if start + chunkSize >= |text| then [text[start..]]
    else WindowsAt(text, chunkSize, overlap, start, WindowStop(text, chunkSize, start))
  }

  /** The window `[start, e)` of the corrected loop and the loop after it. */
  function WindowsAt(text: string, chunkSize: int, overlap: int, start: nat, e: nat): seq<string>
    requires chunkSize > 0 && start <= e <= |text|
    decreases |text| - start, 0
  {
    var chunk := Trim(text[start..e]);
    var next := Max(start + 1, e - overlap);
    var rest := if next < |text| then WindowsFrom(text, chunkSize, overlap, next) else [];
    if |chunk| > 0 then [chunk] + rest else rest
  }

  /** Every window holds at most one code unit more than the chunk size, and every one but
      a last one that runs to the end of the text is trimmed and non-empty. */
  ghost predicate WindowsOK(text: string, chunkSize: int, r: seq<string>) {
    forall k :: 0 <= k < |r| ==>
      |r[k]| <= chunkSize + 1 && (Tidy(r[k]) || (k == |r| - 1 && EndsWith(text, r[k])))
  }

  lemma WindowsOKCons(text: string, chunkSize: int, chunk: string, rest: seq<string>)
    requires |chunk| <= chunkSize + 1 && Tidy(chunk) && WindowsOK(text, chunkSize, rest)
    ensures WindowsOK(text, chunkSize, [chunk] + rest)
  {
    var r := [chunk] + rest;
    forall k | 1 <= k < |r|
      ensures |r[k]| <= chunkSize + 1 && (Tidy(r[k]) || (k == |r| - 1 && EndsWith(text, r[k])))
    {
      assert r[k] == rest[k - 1];
    }
  }

  lemma {:induction false} WindowsShape(text: string, chunkSize: int, overlap: int, start: nat)
    requires chunkSize > 0 && start < |text|
    ensures WindowsOK(text, chunkSize, WindowsFrom(text, chunkSize, overlap, start))
    decreases |text| - start, 1
  {
    if start + chunkSize < |text| {
      WindowsShapeAt(text, chunkSize, overlap, start, WindowStop(text, chunkSize, start));
    }
  }

  lemma {:induction false} WindowsShapeAt(text: string, chunkSize: int, overlap: int, start: nat, e: nat)
    requires chunkSize > 0 && start <= e <= |text| && e <= start + chunkSize + 1
    ensures WindowsOK(text, chunkSize, WindowsAt(text, chunkSize, overlap, start, e))
    decreases |text| - start, 0
  {
    var chunk := Trim(text[start..e]);
    var next := Max(start + 1, e - overlap);
    var rest := if next < |text| then WindowsFrom(text, chunkSize, overlap, next) else [];
    if next < |text| {
      WindowsShape(text, chunkSize, overlap, next);
    }
    if |chunk| > 0 {
      TrimTwice(text[start..e]);
      WindowsOKCons(text, chunkSize, chunk, rest);
    }
  }

  // The corrected loop as a walk over windows `(a, e)`.

  /** A window of the corrected walk: it starts inside the text and ends at the end of
      the text once the rest fits in the chunk size, otherwise at the window stop. */
  predicate LengthLink(text: string, chunkSize: int, w: (nat, nat)) {
    chunkSize > 0 && w.0 < |text|
    && (if w.0 + chunkSize >= |text| then w.1 == |text| else w.1 == WindowStop(text, chunkSize, w.0))
  }

  /** Where the window after `w` starts: `overlap` before its end, at least one past its
      start. */
  function LengthNext(overlap: int, w: (nat, nat)): int {
    Max(w.0 + 1, w.1 - overlap)
  }

  /** `w` is the last window: the rest of the text fits, or the next start lies past the
      end. */
  predicate LengthLast(text: string, chunkSize: int, overlap: int, w: (nat, nat)) {
    w.0 + chunkSize >= |text| || LengthNext(overlap, w) >= |text|
  }

  /** `ws` is the whole walk from `start`: linked windows, each after the first starting
      where its predecessor says, and only the final one last. */
  ghost predicate LengthChain(text: string, chunkSize: int, overlap: int, start: nat, ws: seq<(nat, nat)>) {
    |ws| > 0 && ws[0].0 == start
    && (forall k :: 0 <= k < |ws| ==> LengthLink(text, chunkSize, ws[k]))
    && (forall k :: 0 <= k < |ws| - 1 ==>
          !LengthLast(text, chunkSize, overlap, ws[k]) && ws[k + 1].0 == LengthNext(overlap, ws[k]))
    && LengthLast(text, chunkSize, overlap, ws[|ws| - 1])
  }

  /** What a window contributes: the rest of the text, untrimmed, once it fits; otherwise
      the trimmed window when it is not empty. */
  function LengthPiece(text: string, chunkSize: int, w: (nat, nat)): seq<string> {
    if w.0 <= w.1 <= |text| then
      if w.0 + chunkSize >= |text| then [text[w.0..w.1]]
      else if Trim(text[w.0..w.1]) != [] then [Trim(text[w.0..w.1])] else []
    else []
  }

  function LengthShown(text: string, chunkSize: int, ws: seq<(nat, nat)>): seq<string> {
    if ws == [] then [] else LengthPiece(text, chunkSize, ws[0]) + LengthShown(text, chunkSize, ws[1..])
  }

  /** One step of the corrected loop: the window from `start` and the loop after it. */
  lemma LengthStep(text: string, chunkSize: int, overlap: int, start: nat)
    requires chunkSize > 0 && start < |text| && start + chunkSize < |text|
    ensures var w := (start, WindowStop(text, chunkSize, start));
            var next := LengthNext(overlap, w);
            WindowsFrom(text, chunkSize, overlap, start)
              == LengthPiece(text, chunkSize, w) + (if next < |text| then WindowsFrom(text, chunkSize, overlap, next) else [])
  {
    var e := WindowStop(text, chunkSize, start);
    LengthStepAt(text, chunkSize, overlap, start, e);
  }

  lemma LengthStepAt(text: string, chunkSize: int, overlap: int, start: nat, e: nat)
    requires chunkSize > 0 && start + chunkSize < |text| && start <= e <= |text|
    ensures var next := LengthNext(overlap, (start, e));
            WindowsAt(text, chunkSize, overlap, start, e)
              == LengthPiece(text, chunkSize, (start, e)) + (if next < |text| then WindowsFrom(text, chunkSize, overlap, next) else [])
  {
    var chunk := Trim(text[start..e]);
    var next := Max(start + 1, e - overlap);
    assert LengthNext(overlap, (start, e)) == next;
    var rest := if next < |text| then WindowsFrom(text, chunkSize, overlap, next) else [];
    assert WindowsAt(text, chunkSize, overlap, start, e) == if |chunk| > 0 then [chunk] + rest else rest;
    assert LengthPiece(text, chunkSize, (start, e)) == if |chunk| > 0 then [chunk] else [];
  }

  lemma LengthChainCons(text: string, chunkSize: int, overlap: int, w: (nat, nat), ws: seq<(nat, nat)>)
    requires LengthLink(text, chunkSize, w) && !LengthLast(text, chunkSize, overlap, w)
    requires LengthNext(overlap, w) >= 0 && LengthChain(text, chunkSize, overlap, LengthNext(overlap, w), ws)
    ensures LengthChain(text, chunkSize, overlap, w.0, [w] + ws)
    ensures LengthShown(text, chunkSize, [w] + ws) == LengthPiece(text, chunkSize, w) + LengthShown(text, chunkSize, ws)
  {
    var r := [w] + ws;
    assert r[1..] == ws;
    forall k | 0 <= k < |r| ensures LengthLink(text, chunkSize, r[k]) {
      if k > 0 {
        assert r[k] == ws[k - 1];
      }
    }
    forall k | 0 <= k < |r| - 1
      ensures !LengthLast(text, chunkSize, overlap, r[k]) && r[k + 1].0 == LengthNext(overlap, r[k])
    {
      if k > 0 {
        assert r[k] == ws[k - 1] && r[k + 1] == ws[k];
      }
    }
    assert r[|r| - 1] == ws[|ws| - 1];
  }

  lemma LengthChainTail(text: string, chunkSize: int, overlap: int, start: nat, ws: seq<(nat, nat)>)
    requires LengthChain(text, chunkSize, overlap, start, ws) && |ws| > 1
    ensures !LengthLast(text, chunkSize, overlap, ws[0]) && LengthNext(overlap, ws[0]) >= 0
    ensures LengthChain(text, chunkSize, overlap, LengthNext(overlap, ws[0]), ws[1..])
    ensures LengthShown(text, chunkSize, ws) == LengthPiece(text, chunkSize, ws[0]) + LengthShown(text, chunkSize, ws[1..])
  {
    var t := ws[1..];
    forall k | 0 <= k < |t| ensures LengthLink(text, chunkSize, t[k]) {
      assert t[k] == ws[k + 1];
    }
    forall k | 0 <= k < |t| - 1
      ensures !LengthLast(text, chunkSize, overlap, t[k]) && t[k + 1].0 == LengthNext(overlap, t[k])
    {
      assert t[k] == ws[k + 1] && t[k + 1] == ws[k + 2];
    }
  }

  /** The corrected loop from `start` is the pieces of a walk from `start`. */
  lemma {:induction false} WindowsFromChain(text: string, chunkSize: int, overlap: int, start: nat)
    requires chunkSize > 0 && start < |text|
    ensures exists ws :: LengthChain(text, chunkSize, overlap, start, ws)
                         && WindowsFrom(text, chunkSize, overlap, start) == LengthShown(text, chunkSize, ws)
    decreases |text| - start
  {
    if start + chunkSize >= |text| {
      var ws := [(start, |text|)];
      assert LengthShown(text, chunkSize, ws) == LengthPiece(text, chunkSize, ws[0]) + LengthShown(text, chunkSize, []);
      assert text[start..|text|] == text[start..];
      assert LengthChain(text, chunkSize, overlap, start, ws);
      assert WindowsFrom(text, chunkSize, overlap, start) == LengthShown(text, chunkSize, ws);
    } else {
      var w := (start, WindowStop(text, chunkSize, start));
      var next := LengthNext(overlap, w);
      LengthStep(text, chunkSize, overlap, start);
      if next >= |text| {
        var ws := [w];
        assert LengthShown(text, chunkSize, ws) == LengthPiece(text, chunkSize, w) + LengthShown(text, chunkSize, []);
        assert LengthChain(text, chunkSize, overlap, start, ws);
      } else {
        WindowsFromChain(text, chunkSize, overlap, next);
        var ws :| LengthChain(text, chunkSize, overlap, next, ws)
                  && WindowsFrom(text, chunkSize, overlap, next) == LengthShown(text, chunkSize, ws);
        LengthChainCons(text, chunkSize, overlap, w, ws);
      }
    }
  }

  /** Any walk from `start` gives what the corrected loop from `start` returns. */
  lemma {:induction false} ChainWindows(text: string, chunkSize: int, overlap: int, start: nat, ws: seq<(nat, nat)>)
    requires LengthChain(text, chunkSize, overlap, start, ws)
    ensures start < |text| && chunkSize > 0
    ensures WindowsFrom(text, chunkSize, overlap, start) == LengthShown(text, chunkSize, ws)
    decreases |ws|
  {
    assert LengthLink(text, chunkSize, ws[0]);
    if |ws| == 1 {
      assert LengthShown(text, chunkSize, ws) == LengthPiece(text, chunkSize, ws[0]) + LengthShown(text, chunkSize, []);
      if start + chunkSize < |text| {
        LengthStep(text, chunkSize, overlap, start);
      } else {
        assert text[start..ws[0].1] == text[start..];
      }
    } else {
      LengthChainTail(text, chunkSize, overlap, start, ws);
      LengthStep(text, chunkSize, overlap, start);
      ChainWindows(text, chunkSize, overlap, LengthNext(overlap, ws[0]), ws[1..]);
    }
  }

  /** `chunkByLengthWithSemantic` with the corrected window end: a longer text gives the
      pieces of the window walk from 0, windows of at most one code unit more than the
      chunk size, trimmed and non-empty except a last one that is a suffix of the text,
      and with an overlap that is not negative every visible code unit lies in one of
      them. */
  function ChunkByLength(text: string, chunkSize: int, overlap: int): (r: seq<string>)
    requires chunkSize > 0
    ensures |text| <= chunkSize ==> r == [text]
    ensures |text| > chunkSize ==>
              exists ws :: LengthChain(text, chunkSize, overlap, 0, ws) && r == LengthShown(text, chunkSize, ws)
    ensures forall k :: 0 <= k < |r| ==> |r[k]| <= chunkSize + 1
    ensures |text| > chunkSize ==> WindowsOK(text, chunkSize, r)
    ensures overlap >= 0 ==> forall j :: 0 <= j < |text| && !IsTrimSpace(text[j]) ==>
              exists k :: 0 <= k < |r| && Holds(text, r[k], j)
  {
    if |text| <= chunkSize then
      var r := [text];
      assert forall j :: 0 <= j < |text| && !IsTrimSpace(text[j]) ==>
               exists k :: 0 <= k < |r| && Holds(text, r[k], j) by {
        forall j | 0 <= j < |text| && !IsTrimSpace(text[j])
          ensures exists k :: 0 <= k < |r| && Holds(text, r[k], j)
        {
          assert r[0] == text[0..|text|];
          assert Holds(text, r[0], j);
        }
      }
      r
    else
      WindowsShape(text, chunkSize, overlap, 0);
      WindowsFromChain(text, chunkSize, overlap, 0);
      var r := WindowsFrom(text, chunkSize, overlap, 0);
      assert overlap >= 0 ==> forall j :: 0 <= j < |text| && !IsTrimSpace(text[j]) ==>
               exists k :: 0 <= k < |r| && Holds(text, r[k], j) by {
        if overlap >= 0 {
          forall j | 0 <= j < |text| && !IsTrimSpace(text[j])
            ensures exists k :: 0 <= k < |r| && Holds(text, r[k], j)
          {
            WindowsCover(text, chunkSize, overlap, 0, j);
          }
        }
      }
      r
  }

  /** A text longer than the chunk size is cut exactly along the window walk from 0:
      some walk gives the chunks, and every walk gives them. */
  lemma ChunkByLengthSpec(text: string, chunkSize: int, overlap: int)
    requires chunkSize > 0 && |text| > chunkSize
    ensures exists ws :: LengthChain(text, chunkSize, overlap, 0, ws)
                         && ChunkByLength(text, chunkSize, overlap) == LengthShown(text, chunkSize, ws)
    ensures forall ws :: LengthChain(text, chunkSize, overlap, 0, ws)
                         ==> ChunkByLength(text, chunkSize, overlap) == LengthShown(text, chunkSize, ws)
  {
    var r := ChunkByLength(text, chunkSize, overlap);
    forall ws | LengthChain(text, chunkSize, overlap, 0, ws)
      ensures ChunkByLength(text, chunkSize, overlap) == LengthShown(text, chunkSize, ws)
    {
      ChainWindows(text, chunkSize, overlap, 0, ws);
    }
  }

  /** From a chunk size of 49 a break point at the window's start can only be a paragraph
      break, on a line feed, so the source's step by one loses nothing. */
  lemma BreakAtStartIsSpace(text: string, chunkSize: int, start: nat)
    requires chunkSize >= 49 && start + chunkSize < |text|
    requires FindGoodBreakPoint(text, start + chunkSize) == start
    ensures IsTrimSpace(text[start])
  {
  }

  /** From a chunk size of 49, wherever the as-written loop returns it returns the
      corrected windows; from 100 the good break point always lies inside the window, so
      it never throws. */
  lemma {:induction false} LengthAgrees(text: string, chunkSize: int, overlap: int, start: nat)
    requires chunkSize > 0 && start < |text|
    ensures chunkSize >= 49 && LengthFromAsWritten(text, chunkSize, overlap, start).Ok? ==>
              LengthFromAsWritten(text, chunkSize, overlap, start) == Ok(WindowsFrom(text, chunkSize, overlap, start))
    ensures chunkSize >= 100 ==> LengthFromAsWritten(text, chunkSize, overlap, start).Ok?
    decreases |text| - start, 1
  {
    if start + chunkSize < |text| {
      var e := FindGoodBreakPoint(text, start + chunkSize);
      if e >= start {
        if chunkSize >= 49 && e == start {
          BreakAtStartIsSpace(text, chunkSize, start);
        }
        LengthAgreesAt(text, chunkSize, overlap, start, e);
      }
    }
  }

  lemma {:induction false} LengthAgreesAt(text: string, chunkSize: int, overlap: int, start: nat, e: nat)
    requires chunkSize > 0 && start <= e <= |text|
    ensures chunkSize >= 49 && LengthAtAsWritten(text, chunkSize, overlap, start, e).Ok? ==>
              LengthAtAsWritten(text, chunkSize, overlap, start, e) == Ok(WindowsAt(text, chunkSize, overlap, start, e))
    ensures chunkSize >= 100 ==> LengthAtAsWritten(text, chunkSize, overlap, start, e).Ok?
    decreases |text| - start, 0
  {
    var next := Max(start + 1, e - overlap);
    if next < |text| {
      LengthAgrees(text, chunkSize, overlap, next);
    }
  }

  /** With an overlap that is not negative the windows leave no gap: every code unit that
      trimming would keep lies in one of the chunks. */
  lemma {:induction false} WindowsCover(text: string, chunkSize: int, overlap: int, start: nat, j: nat)
    requires chunkSize > 0 && overlap >= 0 && start <= j < |text| && !IsTrimSpace(text[j])
    ensures exists k :: 0 <= k < |WindowsFrom(text, chunkSize, overlap, start)|
                        && Holds(text, WindowsFrom(text, chunkSize, overlap, start)[k], j)
    decreases |text| - start, 1
  {
    var r := WindowsFrom(text, chunkSize, overlap, start);
    if start + chunkSize >= |text| {
      assert Holds(text, r[0], j) by {
        assert r[0] == text[start..|text|];
      }
    } else {
      var e := WindowStop(text, chunkSize, start);
      StepCovers(text, chunkSize, overlap, start, e, j);
    }
  }

  /** `WindowsCover` for the window `[start, e)`. */
  lemma {:induction false} StepCovers(text: string, chunkSize: int, overlap: int, start: nat, e: nat, j: nat)
    requires chunkSize > 0 && overlap >= 0 && start <= j < |text| && !IsTrimSpace(text[j])
    requires start <= e <= |text| && (e == start ==> IsTrimSpace(text[start]))
    ensures exists k :: 0 <= k < |WindowsAt(text, chunkSize, overlap, start, e)|
                        && Holds(text, WindowsAt(text, chunkSize, overlap, start, e)[k], j)
    decreases |text| - start, 0
  {
    var r := WindowsAt(text, chunkSize, overlap, start, e);
    var chunk := Trim(text[start..e]);
    var next := Max(start + 1, e - overlap);
    var rest := if next < |text| then WindowsFrom(text, chunkSize, overlap, next) else [];
    if j < e {
      HeadCovers(text, start, e, j, r, rest);
    } else {
      assert start < next <= j;
      WindowsCover(text, chunkSize, overlap, next, j);
      PrependCovers(text, r, chunk, rest, j);
    }
  }

  lemma HeadCovers(text: string, a: nat, b: nat, j: nat, r: seq<string>, rest: seq<string>)
    requires a <= j < b <= |text| && !IsTrimSpace(text[j])
    requires r == if |Trim(text[a..b])| > 0 then [Trim(text[a..b])] + rest else rest
    ensures exists k :: 0 <= k < |r| && Holds(text, r[k], j)
  {
    VisibleKept(text, a, b, j);
    assert Holds(text, r[0], j);
  }

  lemma PrependCovers(text: string, r: seq<string>, chunk: string, rest: seq<string>, j: nat)
    requires r == if |chunk| > 0 then [chunk] + rest else rest
    requires exists k :: 0 <= k < |rest| && Holds(text, rest[k], j)
    ensures exists k :: 0 <= k < |r| && Holds(text, r[k], j)
  {
    var k :| 0 <= k < |rest| && Holds(text, rest[k], j);
    if |chunk| > 0 {
      assert r[k + 1] == rest[k];
    } else {
      assert r[k] == rest[k];
    }
  }

  // ---------------------------------------------------------------------------
  // postProcessChunks

  /** The cleaned text of a chunk: trimmed, whitespace collapsed, trimmed again (the
      `\n{3,}` replacement in between finds nothing once no line feed is left). */
  function Clean(c: string): string {
    Trim(CollapseSpaces(Trim(c)))
  }

  /** A cleaned chunk is empty or tidy. */
  /** Cleaning empties exactly the blank chunks and leaves any other one tidy. */
  lemma CleanTidy(c: string)
    ensures Clean(c) == [] <==> IsBlank(c)
    ensures Clean(c) != [] ==> Tidy(Clean(c))
  {
    var t := Trim(c);
    var u := CollapseSpaces(t);
    TrimTwice(u);
    if t != [] {
      assert !IsRegexSpace(t[0]);
      assert u[0] == t[0];
      TrimEmpty(u);
    }
  }

  /** The part label `【第k部分/n】` and a line feed. */
  function Label(k: nat, n: nat): (r: string)
    ensures StartsWith(r, "【第") && EndsWith(r, "】\n")
  {
    "【第" + NatToString(k) + "部分/" + NatToString(n) + "】\n"
  }

  /** The shortest chunk kept on its own. */
  const MinChunk: nat := 20

  /** What one pass of the `postProcessChunks` loop does with chunk `i`: a blank chunk is
      skipped; a cleaned chunk shorter than 20 is pushed into the next input chunk, or,
      being the last, handled at the end; a longer one is kept, labelled with its
      position when there are several input chunks. */
  datatype Move = Skip | PushForward(c: string) | ShortLast(c: string) | Keep(c: string)

  function PostMove(chunks: seq<string>, i: nat): (m: Move)
    requires i < |chunks|
    ensures m.Skip? <==> IsBlank(chunks[i])
    ensures m.PushForward? ==> i < |chunks| - 1
    ensures m.ShortLast? ==> i == |chunks| - 1
    ensures !m.Skip? ==> Tidy(m.c)
    ensures m.PushForward? || m.ShortLast? ==> |m.c| < MinChunk
    ensures m.Keep? ==> |m.c| >= MinChunk && (|chunks| > 1 ==> StartsWith(m.c, "【第"))
  {
    CleanTidy(chunks[i]);
    if IsBlank(chunks[i]) then Skip
    else
      var c := Clean(chunks[i]);
      if |c| < MinChunk then
        if i < |chunks| - 1 then PushForward(c) else ShortLast(c)
      else if |chunks| > 1 then
        var l := Label(i + 1, |chunks|) + c;
        assert l[0] == '【' && l[|l| - 1] == c[|c| - 1];
        TrimKeeps(l);
        assert l[..|"【第"|] == Label(i + 1, |chunks|)[..|"【第"|];
        Keep(l)
      else Keep(c)
  }

  /** The text a move carries: a pushed or short last chunk is the cleaned chunk, and a
      kept one ends with it, after the label when there is one. */
  lemma MoveText(chunks: seq<string>, i: nat)
    requires i < |chunks|
    ensures var m := PostMove(chunks, i);
            && (m.PushForward? || m.ShortLast? ==> m.c == Clean(chunks[i]))
            && (m.Keep? ==> EndsWith(m.c, Clean(chunks[i])))
  {
    var c := Clean(chunks[i]);
    if !IsBlank(chunks[i]) && |c| >= MinChunk && |chunks| > 1 {
      var l := Label(i + 1, |chunks|) + c;
      assert l[|l| - |c|..] == c;
    }
  }

  /** The `postProcessChunks` loop as written, from index `i`, with the chunks kept so far.
      A short chunk is prepended to the next input chunk; a short last chunk is appended
      to the last kept chunk, or kept when it is the only input, and
      `processed.set(size - 1, …)` throws when nothing has been kept yet. */
  function PostFromAsWritten(chunks: seq<string>, i: nat, processed: seq<string>): (r: Result<seq<string>>)
    requires i <= |chunks|
    decreases |chunks| - i
  {
    if i == |chunks| then Ok(processed)
    else match PostMove(chunks, i)
      case Skip => PostFromAsWritten(chunks, i + 1, processed)
      case PushForward(c) => PostFromAsWritten(chunks[i + 1 := c + "\n\n" + chunks[i + 1]], i + 1, processed)
      case ShortLast(c) =>
        if i > 0 then
          if processed == [] then Err(IndexOutOfBounds)
          else Ok(processed[..|processed| - 1] + [processed[|processed| - 1] + "\n\n" + c])
        else Ok(processed + [c])
      case Keep(c) => PostFromAsWritten(chunks, i + 1, processed + [c])
  }

  function PostProcessAsWritten(chunks: seq<string>): (r: Result<seq<string>>) {
    PostFromAsWritten(chunks, 0, [])
  }

  /** Two short chunks make the as-written post-processing throw: "abcde" is prepended
      to "fgh", and the merged "abcde fgh", still short and last, has no kept chunk to
      join. */
  lemma PostProcessThrows()
    ensures PostProcessAsWritten(["abcde", "fgh"]) == Err(IndexOutOfBounds)
  {
    var cs1 := ShortPairMoves();
    assert PostFromAsWritten(cs1, 1, []) == Err(IndexOutOfBounds);
    assert PostFromAsWritten(["abcde", "fgh"], 0, []) == PostFromAsWritten(cs1, 1, []);
  }

  /** The moves on the two short chunks: "abcde" is pushed into the next chunk, and the
      merged chunk, cleaned to "abcde fgh", is a short last chunk. */
  lemma ShortPairMoves() returns (cs1: seq<string>)
    ensures cs1 == ["abcde", "abcde" + "\n\n" + "fgh"]
    ensures PostMove(["abcde", "fgh"], 0) == PushForward("abcde")
    ensures PostMove(cs1, 1) == ShortLast("abcde fgh")
  {
    cs1 := ["abcde", "abcde" + "\n\n" + "fgh"];
    FirstShortMove();
    MergedShortMove(cs1);
    SpacedPair();
  }

  lemma FirstShortMove()
    ensures PostMove(["abcde", "fgh"], 0) == PushForward("abcde")
  {
    CleanPlain("abcde");
    ShortMove(["abcde", "fgh"], 0, "abcde");
  }

  lemma MergedShortMove(cs1: seq<string>)
    requires cs1 == ["abcde", "abcde" + "\n\n" + "fgh"]
    ensures PostMove(cs1, 1) == ShortLast("abcde" + " " + "fgh")
  {
    CleanJoin("abcde", "fgh");
    ShortMove(cs1, 1, "abcde" + " " + "fgh");
  }

  lemma SpacedPair()
    ensures "abcde" + " " + "fgh" == "abcde fgh"
  {
    var s := "abcde" + " " + "fgh";
    assert |s| == 9;
    assert s[0] == 'a' && s[1] == 'b' && s[2] == 'c' && s[3] == 'd' && s[4] == 'e';
    assert s[5] == ' ' && s[6] == 'f' && s[7] == 'g' && s[8] == 'h';
  }

  /** A non-blank chunk that cleans to fewer than 20 code units is pushed forward, or,
      being the last, handled at the end. */
  lemma ShortMove(chunks: seq<string>, i: nat, c: string)
    requires i < |chunks| && !IsBlank(chunks[i]) && Clean(chunks[i]) == c && |c| < MinChunk
    ensures PostMove(chunks, i) == if i < |chunks| - 1 then PushForward(c) else ShortLast(c)
  {
  }

  /** No code unit up to U+0020, so none of `\s` either. */
  predicate Plain(s: string) {
    forall i :: 0 <= i < |s| ==> !IsTrimSpace(s[i])
  }

  lemma {:induction false} CollapsePlain(s: string)
    requires Plain(s)
    ensures CollapseSpaces(s) == s
    decreases |s|
  {
    if s != [] {
      CollapsePlain(s[1..]);
    }
  }

  lemma {:induction false} CollapsePrefix(a: string, b: string)
    requires Plain(a)
    ensures CollapseSpaces(a + b) == a + CollapseSpaces(b)
    decreases |a|
  {
    if a == [] {
      assert a + b == b;
    } else {
      assert (a + b)[1..] == a[1..] + b;
      assert !IsRegexSpace((a + b)[0]);
      CollapsePrefix(a[1..], b);
      assert CollapseSpaces(a + b) == [a[0]] + CollapseSpaces(a[1..] + b);
      assert [a[0]] + (a[1..] + CollapseSpaces(b)) == a + CollapseSpaces(b);
    }
  }

  /** A plain non-empty text is its own cleaned text. */
  lemma CleanPlain(s: string)
    requires s != [] && Plain(s)
    ensures !IsBlank(s) && Clean(s) == s
  {
    TrimKeeps(s);
    CollapsePlain(s);
  }

  /** Whitespace between two plain texts collapses to one space. */
  lemma CollapseJoin(a: string, b: string)
    requires b != [] && Plain(a) && Plain(b)
    ensures CollapseSpaces(a + "\n\n" + b) == a + " " + b
  {
    CollapsePrefix(a, "\n\n" + b);
    var s := "\n\n" + b;
    assert s[1..] == "\n" + b;
    assert DropSpaces(s[1..]) == b by {
      assert ("\n" + b)[1..] == b;
    }
    CollapsePlain(b);
    assert CollapseSpaces(s) == " " + b;
    assert a + "\n\n" + b == a + s;
  }

  /** Two plain texts joined by a blank line clean to the two joined by a space. */
  lemma CleanJoin(a: string, b: string)
    requires a != [] && b != [] && Plain(a) && Plain(b)
    ensures !IsBlank(a + "\n\n" + b) && Clean(a + "\n\n" + b) == a + " " + b
  {
    var s := a + "\n\n" + b;
    assert s[0] == a[0] && s[|s| - 1] == b[|b| - 1];
    TrimKeeps(s);
    CollapseJoin(a, b);
    var t := a + " " + b;
    assert t[0] == a[0] && t[|t| - 1] == b[|b| - 1];
    TrimKeeps(t);
  }

  /** The corrected loop: a short last chunk with nothing kept before it is kept alone. */
  function PostFrom(chunks: seq<string>, i: nat, processed: seq<string>): (r: seq<string>)
    requires i <= |chunks|
    decreases |chunks| - i
  {
    if i == |chunks| then processed
    else match PostMove(chunks, i)
      case Skip => PostFrom(chunks, i + 1, processed)
      case PushForward(c) => PostFrom(chunks[i + 1 := c + "\n\n" + chunks[i + 1]], i + 1, processed)
      case ShortLast(c) =>
        if processed != [] then processed[..|processed| - 1] + [processed[|processed| - 1] + "\n\n" + c]
        else processed + [c]
      case Keep(c) => PostFrom(chunks, i + 1, processed + [c])
  }

  /** `postProcessChunks`, corrected. */
  function PostProcess(chunks: seq<string>): (r: seq<string>) {
    PostFrom(chunks, 0, [])
  }

  /** From index `i` on, where the as-written loop returns, it returns what the
      corrected one does. */
  predicate AgreeFrom(chunks: seq<string>, i: nat, processed: seq<string>)
    requires i <= |chunks|
  {
    PostFromAsWritten(chunks, i, processed).Ok? ==>
      PostFromAsWritten(chunks, i, processed).value == PostFrom(chunks, i, processed)
  }

  /** Where the as-written loop returns, it returns what the corrected one does. */
  lemma {:induction false} PostAgrees(chunks: seq<string>, i: nat, processed: seq<string>)
    requires i <= |chunks| && (i == 0 ==> processed == [])
    ensures AgreeFrom(chunks, i, processed)
    decreases |chunks| - i, 1
  {
    if i < |chunks| {
      match PostMove(chunks, i)
      case Skip => SkipAgrees(chunks, i, processed);
      case PushForward(c) => PushAgrees(chunks, i, processed, c);
      case ShortLast(c) => ShortLastAgrees(chunks, i, processed, c);
      case Keep(c) => KeepAgrees(chunks, i, processed, c);
    }
  }

  lemma {:induction false} SkipAgrees(chunks: seq<string>, i: nat, processed: seq<string>)
    requires i < |chunks| && PostMove(chunks, i).Skip? && (i == 0 ==> processed == [])
    ensures AgreeFrom(chunks, i, processed)
    decreases |chunks| - i, 0
  {
    PostAgrees(chunks, i + 1, processed);
    assert PostFromAsWritten(chunks, i, processed) == PostFromAsWritten(chunks, i + 1, processed);
    assert PostFrom(chunks, i, processed) == PostFrom(chunks, i + 1, processed);
  }

  lemma {:induction false} PushAgrees(chunks: seq<string>, i: nat, processed: seq<string>, c: string)
    requires i < |chunks| && PostMove(chunks, i) == PushForward(c) && (i == 0 ==> processed == [])
    ensures AgreeFrom(chunks, i, processed)
    decreases |chunks| - i, 0
  {
    var next := chunks[i + 1 := c + "\n\n" + chunks[i + 1]];
    PostAgrees(next, i + 1, processed);
    assert PostFromAsWritten(chunks, i, processed) == PostFromAsWritten(next, i + 1, processed);
    assert PostFrom(chunks, i, processed) == PostFrom(next, i + 1, processed);
  }

  lemma {:induction false} KeepAgrees(chunks: seq<string>, i: nat, processed: seq<string>, c: string)
    requires i < |chunks| && PostMove(chunks, i) == Keep(c) && (i == 0 ==> processed == [])
    ensures AgreeFrom(chunks, i, processed)
    decreases |chunks| - i, 0
  {
    PostAgrees(chunks, i + 1, processed + [c]);
    assert PostFromAsWritten(chunks, i, processed) == PostFromAsWritten(chunks, i + 1, processed + [c]);
    assert PostFrom(chunks, i, processed) == PostFrom(chunks, i + 1, processed + [c]);
  }

  /** The short last chunk: both loops join it to the last kept chunk, or keep it alone
      when it is the only input; the as-written loop otherwise throws. */
  lemma ShortLastAgrees(chunks: seq<string>, i: nat, processed: seq<string>, c: string)
    requires i < |chunks| && PostMove(chunks, i) == ShortLast(c) && (i == 0 ==> processed == [])
    ensures AgreeFrom(chunks, i, processed)
  {
    if processed == [] {
      assert PostFrom(chunks, i, processed) == [c];
    } else {
      var m := processed[..|processed| - 1] + [processed[|processed| - 1] + "\n\n" + c];
      assert PostFrom(chunks, i, processed) == m;
      assert PostFromAsWritten(chunks, i, processed) == Ok(m);
    }
  }

  /** The corrected post-processing of the two short chunks joins them. */
  lemma PostProcessJoins()
    ensures PostProcess(["abcde", "fgh"]) == ["abcde fgh"]
  {
    var cs1 := ShortPairMoves();
    assert PostFrom(cs1, 1, []) == ["abcde fgh"];
    assert PostFrom(["abcde", "fgh"], 0, []) == PostFrom(cs1, 1, []);
  }

  /** A chunk that is long enough to stand alone, labelled when there are several. */
  predicate Labelled(x: string, inputs: nat) {
    |x| >= MinChunk && (inputs > 1 ==> StartsWith(x, "【第"))
  }

  /** `a + "\n\n" + b` is tidy when both parts are. */
  lemma JoinTidy(a: string, b: string)
    requires Tidy(a) && Tidy(b)
    ensures Tidy(a + "\n\n" + b)
  {
    assert Trim(a) == a && Trim(b) == b;
    var x := a + "\n\n" + b;
    assert x[0] == a[0] && x[|x| - 1] == b[|b| - 1];
    TrimKeeps(x);
  }

  /** Every chunk the loop keeps is tidy. */
  lemma {:induction false} PostTidy(chunks: seq<string>, i: nat, processed: seq<string>)
    requires i <= |chunks| && forall k :: 0 <= k < |processed| ==> Tidy(processed[k])
    ensures forall k :: 0 <= k < |PostFrom(chunks, i, processed)| ==> Tidy(PostFrom(chunks, i, processed)[k])
    decreases |chunks| - i
  {
    if i < |chunks| {
      match PostMove(chunks, i)
      case Skip =>
        PostTidy(chunks, i + 1, processed);
      case PushForward(c) =>
        PostTidy(chunks[i + 1 := c + "\n\n" + chunks[i + 1]], i + 1, processed);
      case ShortLast(c) =>
        if processed != [] {
          JoinTidy(processed[|processed| - 1], c);
        }
      case Keep(c) =>
        PostTidy(chunks, i + 1, processed + [c]);
    }
  }

  /** The loop never drops a kept chunk. */
  lemma {:induction false} PostKeeps(chunks: seq<string>, i: nat, processed: seq<string>)
    requires i <= |chunks| && processed != []
    ensures PostFrom(chunks, i, processed) != []
    decreases |chunks| - i
  {
    if i < |chunks| {
      match PostMove(chunks, i)
      case Skip =>
        PostKeeps(chunks, i + 1, processed);
      case PushForward(c) =>
        PostKeeps(chunks[i + 1 := c + "\n\n" + chunks[i + 1]], i + 1, processed);
      case ShortLast(c) =>
      case Keep(c) =>
        PostKeeps(chunks, i + 1, processed + [c]);
    }
  }

  /** Blank chunks add nothing. */
  lemma {:induction false} PostBlank(chunks: seq<string>, i: nat, processed: seq<string>)
    requires i <= |chunks| && forall j :: i <= j < |chunks| ==> IsBlank(chunks[j])
    ensures PostFrom(chunks, i, processed) == processed
    decreases |chunks| - i
  {
    if i < |chunks| {
      assert PostMove(chunks, i).Skip?;
      PostBlank(chunks, i + 1, processed);
    }
  }

  /** A chunk `j` that is not blank leaves something kept. */
  lemma {:induction false} PostFindsText(chunks: seq<string>, i: nat, processed: seq<string>, j: nat)
    requires i <= j < |chunks| && !IsBlank(chunks[j])
    ensures PostFrom(chunks, i, processed) != []
    decreases |chunks| - i
  {
    match PostMove(chunks, i)
    case Skip =>
      PostFindsText(chunks, i + 1, processed, j);
    case PushForward(c) =>
      var next := chunks[i + 1 := c + "\n\n" + chunks[i + 1]];
      assert !IsBlank(next[i + 1]) by {
        var x := next[i + 1];
        assert x[0] == c[0] && Trim(c) == c;
        TrimEmpty(x);
      }
      PostFindsText(next, i + 1, processed, i + 1);
    case ShortLast(c) =>
    case Keep(c) =>
      PostKeeps(chunks, i + 1, processed + [c]);
  }

  /** Once two chunks are kept, every one stands alone and, for several inputs, carries
      its label: only a short last chunk with nothing before it is kept unlabelled, and
      then alone. */
  lemma {:induction false} PostLabelled(chunks: seq<string>, i: nat, processed: seq<string>)
    requires i <= |chunks| && forall k :: 0 <= k < |processed| ==> Labelled(processed[k], |chunks|)
    ensures var r := PostFrom(chunks, i, processed);
            |r| >= 2 ==> forall k :: 0 <= k < |r| ==> Labelled(r[k], |chunks|)
    decreases |chunks| - i
  {
    if i < |chunks| {
      match PostMove(chunks, i)
      case Skip =>
        PostLabelled(chunks, i + 1, processed);
      case PushForward(c) =>
        PostLabelled(chunks[i + 1 := c + "\n\n" + chunks[i + 1]], i + 1, processed);
      case ShortLast(c) =>
        if processed != [] {
          MergeLastLabelled(processed, c, |chunks|);
        }
      case Keep(c) =>
        PostLabelled(chunks, i + 1, processed + [c]);
    }
  }

  /** Appending a short chunk to the last labelled chunk keeps every chunk labelled. */
  lemma MergeLastLabelled(processed: seq<string>, c: string, inputs: nat)
    requires processed != [] && forall k :: 0 <= k < |processed| ==> Labelled(processed[k], inputs)
    ensures var r := processed[..|processed| - 1] + [processed[|processed| - 1] + "\n\n" + c];
            forall k :: 0 <= k < |r| ==> Labelled(r[k], inputs)
  {
    var p := processed[|processed| - 1];
    var m := p + "\n\n" + c;
    assert Labelled(p, inputs);
    assert m[..|p|] == p;
    if inputs > 1 {
      assert m[..|"【第"|] == p[..|"【第"|];
    }
    var r := processed[..|processed| - 1] + [m];
    forall k | 0 <= k < |r| ensures Labelled(r[k], inputs) {
      if k < |r| - 1 {
        assert r[k] == processed[k];
      }
    }
  }

  /** A cleaned chunk is in the shape collapsing leaves. */
  lemma CleanCollapsed(z: string)
    ensures Collapsed(Clean(z))
  {
    var u := CollapseSpaces(Trim(z));
    CollapseIsCollapsed(Trim(z));
    TrimSpec(u);
    CollapsedSlice(u, LeadingTrimSpaces(u), LeadingTrimSpaces(u) + |Trim(u)|);
  }

  /** Pushing a cleaned chunk `c` into the next chunk `x` loses neither: the merged chunk
      is not blank, and cleaning it gives `c`, then the cleaned `x`. */
  lemma CleanPushed(c: string, x: string)
    requires Tidy(c) && Collapsed(c)
    ensures !IsBlank(c + "\n\n" + x)
    ensures StartsWith(Clean(c + "\n\n" + x), c) && EndsWith(Clean(c + "\n\n" + x), Clean(x))
  {
    var s := c + "\n\n" + x;
    CleanTidy(x);
    CleanTidy(s);
    if IsBlank(x) {
      PushedOntoBlank(c, x);
      assert Clean(s)[..|c|] == c;
    } else {
      var m := PushedOntoText(c, x);
      var u := Clean(s);
      assert u[..|c|] == c;
      assert u[|u| - |Clean(x)|..] == Clean(x);
    }
  }

  /** A blank chunk adds nothing to the chunk pushed into it. */
  lemma PushedOntoBlank(c: string, x: string)
    requires Tidy(c) && Collapsed(c) && IsBlank(x)
    ensures Clean(c + "\n\n" + x) == c
  {
    TrimEmpty(x);
    var q := "\n\n" + x;
    forall i | 0 <= i < |q| ensures IsTrimSpace(q[i]) {
      if i >= 2 {
        assert q[i] == x[i - 2];
      }
    }
    assert c + "\n\n" + x == c + q;
    TrimTail(c, q);
    CollapseAfterCollapsed(c, []);
    assert c + [] == c;
  }

  /** Trimming the pushed chunk only removes the spaces after `x`'s text. */
  lemma TrimPushed(c: string, x: string) returns (mid: string)
    requires Tidy(c) && !IsBlank(x)
    ensures Trim(c + "\n\n" + x) == c + (mid + Trim(x))
    ensures mid != [] && IsRegexSpace(mid[0])
  {
    var head, tail := TrimSplit(x);
    var t := Trim(x);
    mid := "\n\n" + head;
    var core := c + (mid + t);
    assert c + "\n\n" + x == core + tail;
    assert core[0] == c[0] && core[|core| - 1] == t[|t| - 1];
    TrimTail(core, tail);
  }

  /** A string is its leading spaces, its trimmed text and its trailing spaces. */
  lemma TrimSplit(x: string) returns (head: string, tail: string)
    ensures x == head + Trim(x) + tail
    ensures forall i :: 0 <= i < |tail| ==> IsTrimSpace(tail[i])
  {
    TrimSpec(x);
    var a := LeadingTrimSpaces(x);
    var b := a + |Trim(x)|;
    head, tail := x[..a], x[b..];
    assert x == head + x[a..b] + tail;
    forall i | 0 <= i < |tail| ensures IsTrimSpace(tail[i]) {
      assert tail[i] == x[b + i];
    }
  }

  /** Cleaning a chunk pushed into one with text gives `c`, collapsed spaces, then the
      cleaned `x`. */
  lemma PushedOntoText(c: string, x: string) returns (m: string)
    requires Tidy(c) && Collapsed(c) && !IsBlank(x)
    ensures Clean(c + "\n\n" + x) == c + m + Clean(x)
  {
    var mid := TrimPushed(c, x);
    var t := Trim(x);
    CollapsePushed(c, mid, t);
    CollapseEnds(t);
    var y := CollapseSpaces(t);
    m := CollapseSpaces(mid);
    var u := c + m + y;
    assert u[0] == c[0] && u[|u| - 1] == y[|y| - 1];
    TrimKeeps(u);
    TrimKeeps(y);
  }

  /** Collapsing leaves the cleaned chunk and the text after the spaces apart. */
  lemma CollapsePushed(c: string, mid: string, t: string)
    requires Tidy(c) && Collapsed(c) && t != [] && !IsTrimSpace(t[0])
    ensures CollapseSpaces(c + (mid + t)) == c + CollapseSpaces(mid) + CollapseSpaces(t)
  {
    CollapseAfterCollapsed(c, mid + t);
    CollapseBeforeText(mid, t);
  }

  /** `s` occurs inside some chunk of `r`. */
  predicate InSome(r: seq<string>, s: string) {
    exists k :: 0 <= k < |r| && Contains(r[k], s)
  }

  /** Text inside a kept chunk stays inside some output chunk: later moves only add
      chunks or append to the last one. */
  lemma {:induction false} PostKeepsKept(chunks: seq<string>, i: nat, processed: seq<string>, k: nat, s: string)
    requires i <= |chunks| && k < |processed| && Contains(processed[k], s)
    ensures InSome(PostFrom(chunks, i, processed), s)
    decreases |chunks| - i
  {
    if i == |chunks| {
      assert PostFrom(chunks, i, processed) == processed;
    } else {
      match PostMove(chunks, i)
      case Skip =>
        PostKeepsKept(chunks, i + 1, processed, k, s);
      case PushForward(c) =>
        PostKeepsKept(chunks[i + 1 := c + "\n\n" + chunks[i + 1]], i + 1, processed, k, s);
      case ShortLast(c) =>
        PostSteps(chunks, i, processed);
        MergedKeeps(processed, c, k, s);
      case Keep(c) =>
        assert (processed + [c])[k] == processed[k];
        PostKeepsKept(chunks, i + 1, processed + [c], k, s);
    }
  }

  /** Appending a short last chunk keeps every kept chunk's text. */
  lemma MergedKeeps(processed: seq<string>, c: string, k: nat, s: string)
    requires k < |processed| && Contains(processed[k], s)
    ensures InSome(processed[..|processed| - 1] + [processed[|processed| - 1] + "\n\n" + c], s)
  {
    var n := |processed|;
    var r := processed[..n - 1] + [processed[n - 1] + "\n\n" + c];
    if k < n - 1 {
      assert r[k] == processed[k];
    } else {
      ContainsExtends(processed[k], "\n\n" + c, s);
      assert r[k] == processed[k] + ("\n\n" + c);
    }
    assert Contains(r[k], s);
  }

  /** Text inside the cleaned form of a chunk `j` not yet reached ends up inside some
      output chunk: a kept chunk holds its cleaned text after the label, a pushed one
      opens the cleaned next chunk, and a short last one is appended or kept. */
  lemma {:induction false} PostKeepsPending(chunks: seq<string>, i: nat, processed: seq<string>, j: nat, s: string)
    requires i <= j < |chunks| && !IsBlank(chunks[j]) && Contains(Clean(chunks[j]), s)
    ensures InSome(PostFrom(chunks, i, processed), s)
    decreases |chunks| - i, 1
  {
    match PostMove(chunks, i)
    case Skip =>
      assert j != i by {
        assert IsBlank(chunks[i]);
      }
      PendingLater(chunks, i, processed, j, s);
      PostSteps(chunks, i, processed);
    case PushForward(c) =>
      PushPending(chunks, i, processed, c, j, s);
      PostSteps(chunks, i, processed);
    case ShortLast(c) =>
      MoveText(chunks, i);
      LastKeeps(processed, c, s);
      PostSteps(chunks, i, processed);
    case Keep(c) =>
      if j == i {
        MoveText(chunks, i);
        KeepKeeps(chunks, i, processed, c, s);
      } else {
        PendingLater(chunks, i, processed + [c], j, s);
      }
      PostSteps(chunks, i, processed);
  }

  /** A chunk after `i` is still pending when the loop moves on. */
  lemma {:induction false} PendingLater(chunks: seq<string>, i: nat, processed: seq<string>, j: nat, s: string)
    requires i < j < |chunks| && !IsBlank(chunks[j]) && Contains(Clean(chunks[j]), s)
    ensures InSome(PostFrom(chunks, i + 1, processed), s)
    decreases |chunks| - i, 0
  {
    PostKeepsPending(chunks, i + 1, processed, j, s);
  }

  lemma {:induction false} PushPending(chunks: seq<string>, i: nat, processed: seq<string>, c: string, j: nat, s: string)
    requires i <= j < |chunks| && !IsBlank(chunks[j]) && Contains(Clean(chunks[j]), s)
    requires PostMove(chunks, i) == PushForward(c)
    ensures InSome(PostFrom(chunks[i + 1 := c + "\n\n" + chunks[i + 1]], i + 1, processed), s)
    decreases |chunks| - i, 0
  {
    var next := chunks[i + 1 := c + "\n\n" + chunks[i + 1]];
    MoveText(chunks, i);
    var j' := PushKeepsPending(chunks, next, i, c, j, s);
    PostKeepsPending(next, i + 1, processed, j', s);
  }

  /** One pass of the loop, move by move. */
  lemma PostSteps(chunks: seq<string>, i: nat, processed: seq<string>)
    requires i < |chunks|
    ensures PostMove(chunks, i).Skip? ==> PostFrom(chunks, i, processed) == PostFrom(chunks, i + 1, processed)
    ensures PostMove(chunks, i).PushForward? ==>
              var c := PostMove(chunks, i).c;
              PostFrom(chunks, i, processed) == PostFrom(chunks[i + 1 := c + "\n\n" + chunks[i + 1]], i + 1, processed)
    ensures PostMove(chunks, i).ShortLast? ==>
              var c := PostMove(chunks, i).c;
              PostFrom(chunks, i, processed)
                == if processed != [] then processed[..|processed| - 1] + [processed[|processed| - 1] + "\n\n" + c]
                   else processed + [c]
    ensures PostMove(chunks, i).Keep? ==>
              PostFrom(chunks, i, processed) == PostFrom(chunks, i + 1, processed + [PostMove(chunks, i).c])
  {
  }

  /** A kept chunk holds its cleaned text after the label. */
  lemma KeepKeeps(chunks: seq<string>, i: nat, processed: seq<string>, c: string, s: string)
    requires i < |chunks| && EndsWith(c, Clean(chunks[i])) && Contains(Clean(chunks[i]), s)
    ensures InSome(PostFrom(chunks, i + 1, processed + [c]), s)
  {
    ContainsInEnd(c, Clean(chunks[i]), s);
    assert (processed + [c])[|processed|] == c;
    PostKeepsKept(chunks, i + 1, processed + [c], |processed|, s);
  }

  /** A short last chunk is appended to the last kept chunk, or kept alone. */
  lemma LastKeeps(processed: seq<string>, c: string, s: string)
    requires Contains(c, s)
    ensures InSome(if processed != [] then processed[..|processed| - 1] + [processed[|processed| - 1] + "\n\n" + c]
                   else processed + [c], s)
  {
    var r := if processed != [] then processed[..|processed| - 1] + [processed[|processed| - 1] + "\n\n" + c]
             else processed + [c];
    if processed != [] {
      var p := processed[|processed| - 1];
      assert r[|r| - 1] == (p + "\n\n") + c;
      ContainsExtends(c, p + "\n\n", s);
    } else {
      assert r[0] == c;
    }
    assert Contains(r[|r| - 1], s);
  }

  /** Text inside a pushed chunk, or inside the cleaned chunk it is pushed into, is
      inside the cleaned merged chunk. */
  lemma PushedKeeps(c: string, x: string, s: string)
    requires Tidy(c) && Collapsed(c) && (Contains(c, s) || Contains(Clean(x), s))
    ensures !IsBlank(c + "\n\n" + x) && Contains(Clean(c + "\n\n" + x), s)
  {
    CleanPushed(c, x);
    var merged := Clean(c + "\n\n" + x);
    if Contains(c, s) {
      ContainsStart(merged, c, s);
    } else {
      ContainsInEnd(merged, Clean(x), s);
    }
  }

  /** The merged chunk holds text pending in the pushed chunk or in the one after it. */
  lemma PushOpens(here: string, after: string, c: string, s: string, fromHere: bool)
    requires c == Clean(here) && Tidy(c)
    requires if fromHere then Contains(Clean(here), s) else Contains(Clean(after), s)
    ensures !IsBlank(c + "\n\n" + after) && Contains(Clean(c + "\n\n" + after), s)
  {
    CleanCollapsed(here);
    PushedKeeps(c, after, s);
  }

  /** After chunk `i` is pushed forward, text pending in chunk `j` is pending in a chunk
      from `i + 1` on. */
  lemma PushKeepsPending(chunks: seq<string>, next: seq<string>, i: nat, c: string, j: nat, s: string) returns (j': nat)
    requires i <= j < |chunks| && !IsBlank(chunks[j]) && Contains(Clean(chunks[j]), s)
    requires i + 1 < |chunks| && c == Clean(chunks[i]) && Tidy(c)
    requires next == chunks[i + 1 := c + "\n\n" + chunks[i + 1]]
    ensures i + 1 <= j' < |next| && !IsBlank(next[j']) && Contains(Clean(next[j']), s)
  {
    if j <= i + 1 {
      PushOpens(chunks[i], chunks[i + 1], c, s, j == i);
      assert next[i + 1] == c + "\n\n" + chunks[i + 1];
      j' := i + 1;
    } else {
      assert next[j] == chunks[j];
      j' := j;
    }
  }

  /** Post-processing loses no text: the cleaned form of every chunk that is not blank
      occurs inside some output chunk, whether that chunk was kept, pushed forward or
      appended at the end. */
  lemma PostKeepsText(chunks: seq<string>)
    ensures forall j :: 0 <= j < |chunks| && !IsBlank(chunks[j]) ==> InSome(PostProcess(chunks), Clean(chunks[j]))
  {
    forall j | 0 <= j < |chunks| && !IsBlank(chunks[j]) ensures InSome(PostProcess(chunks), Clean(chunks[j])) {
      assert OccursAt(Clean(chunks[j]), Clean(chunks[j]), 0);
      PostKeepsPending(chunks, 0, [], j, Clean(chunks[j]));
    }
  }

  /** What `postProcessChunks` promises: the chunks are tidy; there are none exactly when
      every input chunk is blank; once there are two, each is at least 20 long and, for
      several inputs, starts with its part label; and the cleaned text of every input
      chunk that is not blank occurs inside some output chunk. */
  lemma PostProcessSpec(chunks: seq<string>)
    ensures forall k :: 0 <= k < |PostProcess(chunks)| ==> Tidy(PostProcess(chunks)[k])
    ensures PostProcess(chunks) == [] <==> forall j :: 0 <= j < |chunks| ==> IsBlank(chunks[j])
    ensures |PostProcess(chunks)| >= 2 ==>
              forall k :: 0 <= k < |PostProcess(chunks)| ==> Labelled(PostProcess(chunks)[k], |chunks|)
    ensures forall j :: 0 <= j < |chunks| && !IsBlank(chunks[j]) ==> InSome(PostProcess(chunks), Clean(chunks[j]))
  {
    PostKeepsText(chunks);
    PostTidy(chunks, 0, []);
    if forall j :: 0 <= j < |chunks| ==> IsBlank(chunks[j]) {
      PostBlank(chunks, 0, []);
    } else {
      var j :| 0 <= j < |chunks| && !IsBlank(chunks[j]);
      PostFindsText(chunks, 0, [], j);
    }
    PostLabelled(chunks, 0, []);
  }

  // ---------------------------------------------------------------------------
  // intelligentChunking

  /** Sections with less content are merged; sections with more are split. */
  const SmallSection: nat := 50
  const LargeSection: nat := 2000
  /** The size past which a part of a split section is closed. */
  const PartLimit: nat := 1500
  /** A chunk shorter than this takes in the next small section. */
  const MergeLimit: nat := 300

  /** `buildChunk`: the title, a blank line and the content, or the content alone when
      the title is empty. */
  function BuildChunk(s: Section): (r: string)
    ensures StartsWith(r, s.title) && EndsWith(r, s.content)
  {
    if s.title == [] then s.content else s.title + "\n\n" + s.content
  }

  /** Ends with one of 。 . ! ? */
  predicate EndsSentence(s: string) {
    EndsWith(s, "。") || EndsWith(s, ".") || EndsWith(s, "!") || EndsWith(s, "?")
  }

  /** `mergeChunks`: the two chunks joined by a blank line, with a 。 added first unless
      the first already ends a sentence once trimmed. */
  function MergeChunks(a: string, b: string): (r: string)
    ensures StartsWith(r, a) && EndsWith(r, b)
    ensures |r| == |a| + |b| + (if EndsSentence(Trim(a)) then 2 else 3)
  {
    if EndsSentence(Trim(a)) then a + "\n\n" + b else a + "。\n\n" + b
  }

  /** `handleSmallSection`: the section's chunk is merged into the last chunk when that is
      shorter than 300, else added. */
  function HandleSmallSection(chunks: seq<string>, s: Section): (r: seq<string>)
    ensures |r| == |chunks| + (if chunks != [] && |chunks[|chunks| - 1]| < MergeLimit then 0 else 1)
    ensures forall k :: 0 <= k < |chunks| ==> StartsWith(r[k], chunks[k])
    ensures EndsWith(r[|r| - 1], BuildChunk(s))
  {
    var chunk := BuildChunk(s);
    if chunks != [] && |chunks[|chunks| - 1]| < MergeLimit then
      chunks[..|chunks| - 1] + [MergeChunks(chunks[|chunks| - 1], chunk)]
    else chunks + [chunk]
  }

  /** The part loop of `splitLargeSection` and `splitBySentences` over non-empty items: an
      item is added to the open part, after `sep` when the part is not empty; the open
      part is closed first when it is not empty and the item would take it past 1500
      code units (separators not counted), or when it already holds `maxCount` items. */
  function Pack(items: seq<string>, sep: string, maxCount: Option<nat>, cur: string, count: nat, parts: seq<string>): (r: seq<string>)
    decreases |items|
  {
    if items == [] then (if cur != [] then parts + [cur] else parts)
    else
      var t := items[0];
      var close := cur != [] && (|cur| + |t| > PartLimit || (maxCount.Some? && count >= maxCount.value));
      var parts' := if close then parts + [cur] else parts;
      var cur' := if close then [] else cur;
      var count' := if close then 0 else count;
      Pack(items[1..], sep, maxCount, if cur' != [] then cur' + sep + t else t, count' + 1, parts')
  }

  /** The non-blank strings of `xs`, in order. */
  function NonBlank(xs: seq<string>): (r: seq<string>)
    ensures forall k :: 0 <= k < |r| ==> !IsBlank(r[k]) && r[k] != []
  {
    if xs == [] then []
    else (if IsBlank(xs[0]) then [] else [xs[0]]) + NonBlank(xs[1..])
  }

  /** The trimmed strings of `xs` that are not empty, in order. */
  function TrimmedNonEmpty(xs: seq<string>): (r: seq<string>)
    ensures forall k :: 0 <= k < |r| ==> r[k] != []
  {
    if xs == [] then []
    else (if Trim(xs[0]) == [] then [] else [Trim(xs[0])]) + TrimmedNonEmpty(xs[1..])
  }

  /** The heading of part `k` of a split section: the title, then the title and " (续)". */
  function PartTitle(title: string, k: nat): string {
    if k == 0 then title else title + " (续)"
  }

  /** The chunks of a split section: each part under its heading and a blank line. */
  function Headed(title: string, parts: seq<string>): (r: seq<string>)
    ensures |r| == |parts|
    ensures forall k :: 0 <= k < |r| ==> StartsWith(r[k], title) && EndsWith(r[k], parts[k])
  {
    seq(|parts|, k requires 0 <= k < |parts| => PartTitle(title, k) + "\n\n" + parts[k])
  }

  /** The sentences of a section, split at 。！？.!? and trimmed, empty ones dropped. */
  function Sentences(content: string): seq<string> {
    TrimmedNonEmpty(SplitEach(content, SentencePunct))
  }

  /** The parts of `splitBySentences`: at most ten sentences each, joined by 。 */
  function SentenceParts(content: string): seq<string> {
    Pack(Sentences(content), "。", Some(10), [], 0, [])
  }

  /** `splitBySentences`: parts of at most ten sentences joined by 。 */
  function SplitBySentences(chunks: seq<string>, s: Section): (r: seq<string>)
    ensures |r| >= |chunks| && r[..|chunks|] == chunks
  {
    chunks + Headed(s.title, SentenceParts(s.content))
  }

  /** The blank-line paragraphs of a section's content. */
  function SectionParagraphs(content: string): seq<string> {
    SplitOn(content, "\n\n")
  }

  /** The parts of `splitLargeSection`: non-blank paragraphs joined by blank lines. */
  function ParagraphParts(content: string): seq<string> {
    Pack(NonBlank(SectionParagraphs(content)), "\n\n", None, [], 0, [])
  }

  /** `splitLargeSection`: the non-blank paragraphs packed into parts joined by blank
      lines; a content without a blank line is split by sentences instead. */
  function SplitLargeSection(chunks: seq<string>, s: Section): (r: seq<string>)
    ensures |r| >= |chunks| && r[..|chunks|] == chunks
  {
    var paragraphs := SectionParagraphs(s.content);
    if |paragraphs| <= 1 then SplitBySentences(chunks, s)
    else chunks + Headed(s.title, ParagraphParts(s.content))
  }

  /** One pass of the `intelligentChunking` loop. A section with less than 50 code units
      of content is appended to the last chunk, after a blank line, its title and a line
      feed, or handled as a small section when there is no chunk yet; one with more than
      2000 is split; any other becomes a chunk of its own. */
  function AddSection(chunks: seq<string>, s: Section): (r: seq<string>)
    ensures |r| >= |chunks| && forall k :: 0 <= k < |chunks| ==> StartsWith(r[k], chunks[k])
  {
    if |s.content| < SmallSection then
      if chunks != [] then
        var last := chunks[|chunks| - 1] + "\n\n" + s.title + "\n" + s.content;
        assert StartsWith(last, chunks[|chunks| - 1]);
        chunks[..|chunks| - 1] + [last]
      else HandleSmallSection(chunks, s)
    else if |s.content| > LargeSection then SplitLargeSection(chunks, s)
    else chunks + [BuildChunk(s)]
  }

  function AddSections(chunks: seq<string>, sections: seq<Section>): (r: seq<string>)
    ensures |r| >= |chunks| && forall k :: 0 <= k < |chunks| ==> StartsWith(r[k], chunks[k])
    decreases |sections|
  {
    if sections == [] then chunks else AddSections(AddSection(chunks, sections[0]), sections[1..])
  }

  /** `intelligentChunking`: the text's sections packed into chunks. */
  function IntelligentChunking(text: string): seq<string> {
    AddSections([], SplitIntoSections(text))
  }

  // ---------------------------------------------------------------------------
  // What the packing keeps

  /** Joining splits at the first piece. */
  lemma {:induction false} JoinConcat(xs: seq<string>, ys: seq<string>, sep: string)
    requires xs != [] && ys != []
    ensures Join(xs + ys, sep) == Join(xs, sep) + sep + Join(ys, sep)
    decreases |xs|
  {
    if |xs| == 1 {
      assert (xs + ys)[1..] == ys;
    } else {
      assert (xs + ys)[1..] == xs[1..] + ys;
      JoinConcat(xs[1..], ys, sep);
    }
  }

  /** Two adjacent pieces may be joined before the rest. */
  lemma JoinMerge(xs: seq<string>, a: string, b: string, ys: seq<string>, sep: string)
    ensures Join(xs + [a + sep + b] + ys, sep) == Join(xs + [a, b] + ys, sep)
  {
    JoinHeadMerge(a, b, ys, sep);
    JoinSamePrefix(xs, [a + sep + b] + ys, [a, b] + ys, sep);
    assert xs + [a + sep + b] + ys == xs + ([a + sep + b] + ys);
    assert xs + [a, b] + ys == xs + ([a, b] + ys);
  }

  /** Lists with the same joined text still have it after the same prefix. */
  lemma JoinSamePrefix(xs: seq<string>, m: seq<string>, n: seq<string>, sep: string)
    requires m != [] && n != [] && Join(m, sep) == Join(n, sep)
    ensures Join(xs + m, sep) == Join(xs + n, sep)
  {
    if xs != [] {
      JoinConcat(xs, m, sep);
      JoinConcat(xs, n, sep);
    } else {
      assert xs + m == m && xs + n == n;
    }
  }

  /** Two leading pieces may be joined before the rest. */
  lemma JoinHeadMerge(a: string, b: string, ys: seq<string>, sep: string)
    ensures Join([a + sep + b] + ys, sep) == Join([a, b] + ys, sep)
  {
    assert [a, b][1..] == [b];
    assert Join([a, b], sep) == a + sep + b;
    if ys == [] {
      assert [a + sep + b] + ys == [a + sep + b];
      assert [a, b] + ys == [a, b];
    } else {
      JoinConcat([a + sep + b], ys, sep);
      JoinConcat([a, b], ys, sep);
    }
  }

  /** The open part as a list of at most one part. */
  function Open(cur: string): seq<string> {
    if cur != [] then [cur] else []
  }

  /** One step of the part loop keeps the joined text: closing the open part or adding
      the item to it only regroups the pieces. */
  lemma StepJoin(parts: seq<string>, cur: string, t: string, rest: seq<string>, sep: string, close: bool)
    requires t != [] && (close ==> cur != [])
    ensures var parts' := if close then parts + [cur] else parts;
            var cur' := if close then [] else cur;
            var next := if cur' != [] then cur' + sep + t else t;
            Join(parts' + Open(next) + rest, sep) == Join(parts + Open(cur) + ([t] + rest), sep)
  {
    if close {
      assert parts + [cur] + Open(t) + rest == parts + Open(cur) + ([t] + rest);
    } else if cur != [] {
      JoinMerge(parts, cur, t, rest, sep);
      assert parts + Open(cur + sep + t) + rest == parts + [cur + sep + t] + rest;
      assert parts + [cur, t] + rest == parts + Open(cur) + ([t] + rest);
    } else {
      assert parts + Open(t) + rest == parts + Open(cur) + ([t] + rest);
    }
  }

  /** Packing only regroups: the parts joined by the separator are the items joined by it. */
  lemma {:induction false} PackJoin(items: seq<string>, sep: string, maxCount: Option<nat>, cur: string, count: nat, parts: seq<string>)
    requires forall k :: 0 <= k < |items| ==> items[k] != []
    ensures Join(Pack(items, sep, maxCount, cur, count, parts), sep) == Join(parts + Open(cur) + items, sep)
    decreases |items|
  {
    if items == [] {
      assert parts + Open(cur) + items == parts + Open(cur);
      assert Pack(items, sep, maxCount, cur, count, parts) == parts + Open(cur) by {
        if cur == [] {
          assert parts + Open(cur) == parts;
        }
      }
    } else {
      var t := items[0];
      var close := cur != [] && (|cur| + |t| > PartLimit || (maxCount.Some? && count >= maxCount.value));
      var parts' := if close then parts + [cur] else parts;
      var cur' := if close then [] else cur;
      var count' := if close then 0 else count;
      var next := if cur' != [] then cur' + sep + t else t;
      var rest, c1 := items[1..], count' + 1;
      assert Pack(items, sep, maxCount, cur, count, parts) == Pack(rest, sep, maxCount, next, c1, parts');
      PackJoin(rest, sep, maxCount, next, c1, parts');
      StepJoin(parts, cur, t, rest, sep, close);
      assert [t] + rest == items;
    }
  }

  /** A part within the limit plus one separator, or a single item. */
  predicate PartFits(part: string, sep: string, all: seq<string>) {
    |part| <= PartLimit + |sep| || part in all
  }

  /** Every part is non-empty and fits: an item only goes into an open part when both
      together stay within the limit. */
  lemma {:induction false} PackFits(items: seq<string>, all: seq<string>, sep: string, maxCount: Option<nat>, cur: string, count: nat, parts: seq<string>)
    requires forall k :: 0 <= k < |items| ==> items[k] != [] && items[k] in all
    requires forall k :: 0 <= k < |parts| ==> parts[k] != [] && PartFits(parts[k], sep, all)
    requires cur == [] || PartFits(cur, sep, all)
    ensures var r := Pack(items, sep, maxCount, cur, count, parts);
            forall k :: 0 <= k < |r| ==> r[k] != [] && PartFits(r[k], sep, all)
    decreases |items|
  {
    if items != [] {
      var t := items[0];
      var close := cur != [] && (|cur| + |t| > PartLimit || (maxCount.Some? && count >= maxCount.value));
      var parts' := if close then parts + [cur] else parts;
      var cur' := if close then [] else cur;
      var count' := if close then 0 else count;
      var next := if cur' != [] then cur' + sep + t else t;
      assert t in all;
      assert PartFits(next, sep, all) by {
        if cur' != [] {
          assert |next| == |cur| + |sep| + |t| <= PartLimit + |sep|;
        }
      }
      if close {
        FitsSnoc(parts, cur, sep, all);
      }
      assert forall k :: 0 <= k < |items[1..]| ==> items[1..][k] != [] && items[1..][k] in all by {
        forall k | 0 <= k < |items[1..]| ensures items[1..][k] != [] && items[1..][k] in all {
          assert items[1..][k] == items[k + 1];
        }
      }
      var rest, c1 := items[1..], count' + 1;
      PackFits(rest, all, sep, maxCount, next, c1, parts');
      assert forall k :: 0 <= k < |Pack(rest, sep, maxCount, next, c1, parts')| ==>
               Pack(rest, sep, maxCount, next, c1, parts')[k] != [] &&
               PartFits(Pack(rest, sep, maxCount, next, c1, parts')[k], sep, all);
      assert Pack(items, sep, maxCount, cur, count, parts) == Pack(rest, sep, maxCount, next, c1, parts');
    } else if cur == [] {
      assert Pack(items, sep, maxCount, cur, count, parts) == parts;
    } else {
      assert Pack(items, sep, maxCount, cur, count, parts) == parts + [cur];
      FitsSnoc(parts, cur, sep, all);
    }
  }

  /** A non-empty fitting part added to fitting parts. */
  lemma FitsSnoc(parts: seq<string>, cur: string, sep: string, all: seq<string>)
    requires forall k :: 0 <= k < |parts| ==> parts[k] != [] && PartFits(parts[k], sep, all)
    requires cur != [] && PartFits(cur, sep, all)
    ensures forall k :: 0 <= k < |parts + [cur]| ==> (parts + [cur])[k] != [] && PartFits((parts + [cur])[k], sep, all)
  {
    forall k | 0 <= k < |parts + [cur]| ensures (parts + [cur])[k] != [] && PartFits((parts + [cur])[k], sep, all) {
      if k < |parts| { assert (parts + [cur])[k] == parts[k]; }
    }
  }

  /** A large section split at blank lines: its parts, joined by blank lines again, are
      its non-blank paragraphs joined by blank lines; each part is at most 1502 long
      unless it is a single paragraph. */
  lemma ParagraphPartsSpec(content: string)
    ensures var ps := NonBlank(SectionParagraphs(content));
            && Join(ParagraphParts(content), "\n\n") == Join(ps, "\n\n")
            && forall k :: 0 <= k < |ParagraphParts(content)| ==>
                 ParagraphParts(content)[k] != [] && PartFits(ParagraphParts(content)[k], "\n\n", ps)
  {
    var ps := NonBlank(SectionParagraphs(content));
    PackJoin(ps, "\n\n", None, [], 0, []);
    assert [] + Open([]) + ps == ps;
    PackFits(ps, ps, "\n\n", None, [], 0, []);
  }

  /** A large section split at sentence ends: its parts, joined by 。 again, are its
      trimmed sentences joined by 。; each part is at most 1501 long unless it is a
      single sentence. */
  lemma SentencePartsSpec(content: string)
    ensures var ss := Sentences(content);
            && Join(SentenceParts(content), "。") == Join(ss, "。")
            && forall k :: 0 <= k < |SentenceParts(content)| ==>
                 SentenceParts(content)[k] != [] && PartFits(SentenceParts(content)[k], "。", ss)
  {
    var ss := Sentences(content);
    PackJoin(ss, "。", Some(10), [], 0, []);
    assert [] + Open([]) + ss == ss;
    PackFits(ss, ss, "。", Some(10), [], 0, []);
  }

  /** Some chunk holds both the section's title and its content. */
  ghost predicate SectionKept(chunks: seq<string>, s: Section) {
    exists k :: 0 <= k < |chunks| && Contains(chunks[k], s.title) && Contains(chunks[k], s.content)
  }

  lemma KeptGrows(chunks: seq<string>, r: seq<string>, s: Section)
    requires SectionKept(chunks, s)
    requires |r| >= |chunks| && forall k :: 0 <= k < |chunks| ==> StartsWith(r[k], chunks[k])
    ensures SectionKept(r, s)
  {
    var k :| 0 <= k < |chunks| && Contains(chunks[k], s.title) && Contains(chunks[k], s.content);
    ContainsStart(r[k], chunks[k], s.title);
    ContainsStart(r[k], chunks[k], s.content);
  }

  lemma BuildChunkKeeps(x: string, s: Section)
    requires StartsWith(x, s.title) && EndsWith(x, s.content)
    ensures Contains(x, s.title) && Contains(x, s.content)
  {
    assert OccursAt(x, s.title, 0);
    ContainsEnd(x, s.content);
  }

  /** A section that is not split lands whole in one chunk, title and content. */
  lemma AddSectionKeeps(chunks: seq<string>, s: Section)
    requires |s.content| <= LargeSection
    ensures SectionKept(AddSection(chunks, s), s)
  {
    var r := AddSection(chunks, s);
    if |s.content| < SmallSection && chunks != [] {
      var prev := chunks[|chunks| - 1];
      var last := prev + "\n\n" + s.title + "\n" + s.content;
      assert r[|r| - 1] == last;
      assert last[|prev| + 2..|prev| + 2 + |s.title|] == s.title;
      assert OccursAt(last, s.title, |prev| + 2);
      ContainsEnd(last, s.content);
    } else if |s.content| < SmallSection {
      assert r == [BuildChunk(s)];
      BuildChunkKeeps(r[0], s);
    } else {
      assert r[|r| - 1] == BuildChunk(s);
      BuildChunkKeeps(r[|r| - 1], s);
    }
  }

  /** Every section that is not split lands whole in some chunk. */
  lemma {:induction false} AddSectionsKeep(chunks: seq<string>, sections: seq<Section>)
    ensures forall j :: 0 <= j < |sections| && |sections[j].content| <= LargeSection ==>
              SectionKept(AddSections(chunks, sections), sections[j])
    decreases |sections|
  {
    if sections != [] {
      var next := AddSection(chunks, sections[0]);
      var r := AddSections(chunks, sections);
      assert r == AddSections(next, sections[1..]);
      AddSectionsKeep(next, sections[1..]);
      forall j | 0 <= j < |sections| && |sections[j].content| <= LargeSection
        ensures SectionKept(r, sections[j])
      {
        if j == 0 {
          AddSectionKeeps(chunks, sections[0]);
          KeptGrows(next, r, sections[0]);
        } else {
          assert sections[j] == sections[1..][j - 1];
        }
      }
    }
  }

  /** What `intelligentChunking` promises: every section of at most 2000 code units of
      content appears, title and content, in one chunk. */
  lemma IntelligentKeeps(text: string)
    ensures var sections := SplitIntoSections(text);
            forall j :: 0 <= j < |sections| && |sections[j].content| <= LargeSection ==>
              SectionKept(IntelligentChunking(text), sections[j])
  {
    AddSectionsKeep([], SplitIntoSections(text));
  }

  // ---------------------------------------------------------------------------
  // chunkBySemantic

  /** The overlap when none is given: a quarter of the chunk size. */
  function OverlapOr(overlapSize: Option<int>, chunkSize: int): int {
    overlapSize.GetOr(chunkSize / 4)
  }

  /** `chunkBySemantic` as written: nothing for a missing or blank text; a positive chunk
      size cuts the text into windows, otherwise it is cut into sections; the chunks are
      then post-processed. */
  function ChunkBySemanticAsWritten(text: Option<string>, chunkSize: Option<int>, overlapSize: Option<int>): (r: Result<seq<string>>)
    ensures text.None? || IsBlank(text.value) ==> r == Ok([])
  {
    if text.None? || IsBlank(text.value) then Ok([])
    else
      var chunks :- if chunkSize.Some? && chunkSize.value > 0
                    then ChunkByLengthAsWritten(text.value, chunkSize.value, OverlapOr(overlapSize, chunkSize.value))
                    else Ok(IntelligentChunking(text.value));
      PostProcessAsWritten(chunks)
  }

  /** The chunks `chunkBySemantic` post-processes: windows of the text for a positive
      chunk size, sections otherwise. */
  function SemanticInput(text: string, chunkSize: Option<int>, overlapSize: Option<int>): seq<string> {
    if chunkSize.Some? && chunkSize.value > 0
    then ChunkByLength(text, chunkSize.value, OverlapOr(overlapSize, chunkSize.value))
    else IntelligentChunking(text)
  }

  /** `chunkBySemantic` with the corrected window end and post-processing. The cleaned
      text of every window or section that is not blank survives in some chunk. */
  function ChunkBySemantic(text: Option<string>, chunkSize: Option<int>, overlapSize: Option<int>): (r: seq<string>)
    ensures text.None? || IsBlank(text.value) ==> r == []
    ensures forall k :: 0 <= k < |r| ==> Tidy(r[k])
    ensures text.Some? && !IsBlank(text.value) ==>
              var chunks := SemanticInput(text.value, chunkSize, overlapSize);
              forall j :: 0 <= j < |chunks| && !IsBlank(chunks[j]) ==> InSome(r, Clean(chunks[j]))
  {
    if text.None? || IsBlank(text.value) then []
    else
      var chunks := SemanticInput(text.value, chunkSize, overlapSize);
      PostProcessSpec(chunks);
      PostProcess(chunks)
  }

  /** Without a chunk size, or with one of at least 49, wherever the as-written chunker
      returns it returns the corrected chunks. */
  lemma ChunkBySemanticAgrees(text: Option<string>, chunkSize: Option<int>, overlapSize: Option<int>)
    requires chunkSize.None? || chunkSize.value <= 0 || chunkSize.value >= 49
    ensures ChunkBySemanticAsWritten(text, chunkSize, overlapSize).Ok? ==>
              ChunkBySemanticAsWritten(text, chunkSize, overlapSize).value == ChunkBySemantic(text, chunkSize, overlapSize)
  {
    if text.Some? && !IsBlank(text.value) {
      var t := text.value;
      var chunks;
      if chunkSize.Some? && chunkSize.value > 0 {
        var cs, ov := chunkSize.value, OverlapOr(overlapSize, chunkSize.value);
        ByLengthAgrees(t, cs, ov);
        if ChunkByLengthAsWritten(t, cs, ov).Ok? {
          chunks := ChunkByLength(t, cs, ov);
          assert ChunkBySemanticAsWritten(text, chunkSize, overlapSize) == PostProcessAsWritten(chunks);
          assert ChunkBySemantic(text, chunkSize, overlapSize) == PostProcess(chunks);
          PostAgrees(chunks, 0, []);
        }
      } else {
        chunks := IntelligentChunking(t);
        assert ChunkBySemanticAsWritten(text, chunkSize, overlapSize) == PostProcessAsWritten(chunks);
        assert ChunkBySemantic(text, chunkSize, overlapSize) == PostProcess(chunks);
        PostAgrees(chunks, 0, []);
      }
    }
  }

  /** From a chunk size of 49, wherever the as-written length chunker returns it returns
      the corrected chunks, and from 100 it always returns. */
  lemma ByLengthAgrees(text: string, chunkSize: int, overlap: int)
    requires chunkSize > 0
    ensures chunkSize >= 49 && ChunkByLengthAsWritten(text, chunkSize, overlap).Ok? ==>
              ChunkByLengthAsWritten(text, chunkSize, overlap) == Ok(ChunkByLength(text, chunkSize, overlap))
    ensures chunkSize >= 100 ==> ChunkByLengthAsWritten(text, chunkSize, overlap).Ok?
  {
    if |text| > chunkSize {
      LengthAgrees(text, chunkSize, overlap, 0);
    }
  }

  /** A chunk holding a visible code unit of the text is not blank. */
  lemma HoldsVisible(text: string, piece: string, j: nat)
    requires Holds(text, piece, j) && j < |text| && !IsTrimSpace(text[j])
    ensures !IsBlank(piece)
  {
    var a, b :| 0 <= a <= j < b <= |text| && (piece == text[a..b] || piece == Trim(text[a..b]));
    VisibleKept(text, a, b, j);
    if piece != text[a..b] {
      TrimTwice(text[a..b]);
    }
  }

  /** With a chunk size and an overlap that is not negative, a text that is not blank
      gives at least one chunk. */
  lemma LengthChunksExist(text: string, chunkSize: int, overlapSize: Option<int>)
    requires chunkSize > 0 && OverlapOr(overlapSize, chunkSize) >= 0 && !IsBlank(text)
    ensures ChunkBySemantic(Some(text), Some(chunkSize), overlapSize) != []
  {
    var ov := OverlapOr(overlapSize, chunkSize);
    var chunks := ChunkByLength(text, chunkSize, ov);
    assert SemanticInput(text, Some(chunkSize), overlapSize) == chunks;
    TrimEmpty(text);
    var j :| 0 <= j < |text| && !IsTrimSpace(text[j]);
    var k: nat;
    if |text| <= chunkSize {
      k := 0;
      assert !IsBlank(chunks[0]);
    } else {
      k :| k < |chunks| && Holds(text, chunks[k], j);
      HoldsVisible(text, chunks[k], j);
    }
    assert InSome(ChunkBySemantic(Some(text), Some(chunkSize), overlapSize), Clean(chunks[k]));
  }

  /** A text of lower-case ASCII letters holds no break of any kind. */
  lemma LettersHaveNoBreak(text: string)
    requires forall i :: 0 <= i < |text| ==> 'a' <= text[i] <= 'z'
    ensures forall kind: BreakKind, i: int :: !BreakAt(text, kind, i)
  {
  }

  /** "abcdefgh" holds no break, so with a chunk size of 5 and no overlap it is cut into
      "abcde" and "fgh". */
  lemma LengthCutsPlainText()
    ensures ChunkByLengthAsWritten("abcdefgh", 5, 0) == Ok(["abcde", "fgh"])
  {
    var text := "abcdefgh";
    LettersHaveNoBreak(text);
    assert FindGoodBreakPoint(text, 5) == 5;
    assert text[0..5] == "abcde" && text[5..] == "fgh";
    TrimKeeps("abcde");
    assert LengthFromAsWritten(text, 5, 0, 5) == Ok(["fgh"]);
    assert LengthFromAsWritten(text, 5, 0, 0) == Ok(["abcde"] + ["fgh"]);
    assert ["abcde"] + ["fgh"] == ["abcde", "fgh"];
    assert ChunkByLengthAsWritten(text, 5, 0) == LengthFromAsWritten(text, 5, 0, 0);
  }

  /** A break point at the window's start on a line feed gives an empty window that is
      dropped, and the loop moves on by one: "ab\n\ncdef\n\nhij" with a chunk size of 5
      and no overlap gives "ab", "cdef" and the tail "\n\nhij", on both loops. */
  lemma EmptyWindowSkipped()
    ensures ChunkByLengthAsWritten("ab\n\ncdef\n\nhij", 5, 0) == Ok(["ab", "cdef", "\n\nhij"])
    ensures ChunkByLength("ab\n\ncdef\n\nhij", 5, 0) == ["ab", "cdef", "\n\nhij"]
  {
    var text := "ab\n\ncdef\n\nhij";
    assert BreakAt(text, ParagraphBreak, 2) && BreakAt(text, ParagraphBreak, 8);
    assert FindGoodBreakPoint(text, 5) == 2;
    assert FindGoodBreakPoint(text, 7) == 2;
    assert FindGoodBreakPoint(text, 8) == 8;
    assert text[0..2] == "ab" && text[2..2] == [] && text[3..8] == "\ncdef" && text[8..] == "\n\nhij";
    TrimKeeps("ab");
    TrimKeeps("cdef");
    assert Trim("\ncdef") == "cdef";
    assert LengthFromAsWritten(text, 5, 0, 8) == Ok(["\n\nhij"]);
    assert LengthAtAsWritten(text, 5, 0, 3, 8) == Ok(["cdef"] + ["\n\nhij"]);
    assert ["cdef"] + ["\n\nhij"] == ["cdef", "\n\nhij"];
    assert LengthFromAsWritten(text, 5, 0, 3) == Ok(["cdef", "\n\nhij"]);
    assert LengthFromAsWritten(text, 5, 0, 2) == Ok(["cdef", "\n\nhij"]);
    assert LengthAtAsWritten(text, 5, 0, 0, 2) == Ok(["ab"] + ["cdef", "\n\nhij"]);
    assert ["ab"] + ["cdef", "\n\nhij"] == ["ab", "cdef", "\n\nhij"];
    assert LengthFromAsWritten(text, 5, 0, 0) == Ok(["ab", "cdef", "\n\nhij"]);
    assert WindowsFrom(text, 5, 0, 8) == ["\n\nhij"];
    assert WindowsFrom(text, 5, 0, 3) == ["cdef", "\n\nhij"];
    assert WindowsFrom(text, 5, 0, 2) == ["cdef", "\n\nhij"];
    assert WindowsFrom(text, 5, 0, 0) == ["ab", "cdef", "\n\nhij"];
  }

  /** The break points of "ab.cdef.hij" for the windows from 0, 3 and 4 at a chunk size of
      3: the sentence ends at 2, 2 and 7. */
  lemma DropTextBreaks()
    ensures FindGoodBreakPoint("ab.cdef.hij", 3) == 3
    ensures FindGoodBreakPoint("ab.cdef.hij", 6) == 3
    ensures FindGoodBreakPoint("ab.cdef.hij", 7) == 8
  {
    var text := "ab.cdef.hij";
    assert LastBreak(text, ParagraphBreak, 3, 3 - 100) == None;
    assert LastBreak(text, SentenceBreak, 3, 3 - 50) == Some(2);
    assert LastBreak(text, ParagraphBreak, 6, 6 - 100) == None;
    assert LastBreak(text, SentenceBreak, 6, 6 - 50) == Some(2);
    assert LastBreak(text, ParagraphBreak, 7, 7 - 100) == None;
    assert LastBreak(text, SentenceBreak, 7, 7 - 50) == Some(7);
  }

  /** The as-written loop can lose text without throwing: in "ab.cdef.hij" with a chunk
      size of 3 and no overlap, the window from 3 ends at the sentence end before it, so
      it is empty and the next window starts at 4; the "c" at 3 is in no chunk. */
  lemma ChunkByLengthDropsText()
    ensures ChunkByLengthAsWritten("ab.cdef.hij", 3, 0) == Ok(["ab.", "def.", "hij"])
  {
    var text := "ab.cdef.hij";
    DropTextBreaks();
    DropTextTail();
    DropTextHead(text);
    assert ChunkByLengthAsWritten(text, 3, 0) == LengthFromAsWritten(text, 3, 0, 0);
  }

  /** The as-written loop from 0 on "ab.cdef.hij": "ab." and then the loop from 3. */
  lemma DropTextHead(text: string)
    requires text == "ab.cdef.hij" && FindGoodBreakPoint(text, 3) == 3
    requires LengthFromAsWritten(text, 3, 0, 3) == Ok(["def.", "hij"])
    ensures LengthFromAsWritten(text, 3, 0, 0) == Ok(["ab.", "def.", "hij"])
  {
    assert text[0..3] == "ab.";
    TrimKeeps("ab.");
    assert ["ab."] + ["def.", "hij"] == ["ab.", "def.", "hij"];
  }

  /** The as-written loop from 3 on "ab.cdef.hij": an empty window, then "def." and "hij". */
  lemma DropTextTail()
    requires FindGoodBreakPoint("ab.cdef.hij", 6) == 3 && FindGoodBreakPoint("ab.cdef.hij", 7) == 8
    ensures LengthFromAsWritten("ab.cdef.hij", 3, 0, 3) == Ok(["def.", "hij"])
  {
    var text := "ab.cdef.hij";
    assert text[3..3] == [] && text[4..8] == "def." && text[8..] == "hij";
    TrimKeeps("def.");
    assert LengthFromAsWritten(text, 3, 0, 8) == Ok(["hij"]);
    assert LengthAtAsWritten(text, 3, 0, 4, 8) == Ok(["def."] + ["hij"]);
    assert ["def."] + ["hij"] == ["def.", "hij"];
    assert LengthFromAsWritten(text, 3, 0, 4) == Ok(["def.", "hij"]);
    assert LengthAtAsWritten(text, 3, 0, 3, 3) == LengthFromAsWritten(text, 3, 0, 4);
  }

  /** End to end: "abcdefgh" with a chunk size of 5 and no overlap is cut into "abcde" and
      "fgh", and the as-written post-processing throws on them. */
  lemma ChunkBySemanticThrows()
    ensures ChunkBySemanticAsWritten(Some("abcdefgh"), Some(5), Some(0)) == Err(IndexOutOfBounds)
  {
    TrimKeeps("abcdefgh");
    LengthCutsPlainText();
    PostProcessThrows();
  }
}
