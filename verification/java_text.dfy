/** The java.lang.String and java.util.regex behaviour the modelled code relies on.
    One Dafny `char` stands for one Java `char`. A Dafny `char` is a Unicode scalar
    value, so the model covers text within the Basic Multilingual Plane, where the two
    coincide; a character outside it is one `char` here and a surrogate pair in Java. */
module JavaText {
  import opened Std

  /** Code units removed by `String.trim()`: everything up to U+0020. */
  predicate IsTrimSpace(c: char) {
    c <= ' '
  }

  /** The regex class `\s` without UNICODE_CHARACTER_CLASS: `[ \t\n\x0B\f\r]`. */
  predicate IsRegexSpace(c: char) {
    c == ' ' || c == '\t' || c == '\n' || c == '\U{B}' || c == '\U{C}' || c == '\r'
  }

  /** Line terminators, which the regex `.` does not match. */
  predicate IsLineTerminator(c: char) {
    c == '\n' || c == '\r' || c == '\U{85}' || c == '\U{2028}' || c == '\U{2029}'
  }

  /** `Character.isWhitespace`: the Unicode space, line and paragraph separators other
      than the no-break spaces, plus tab, line feed, VT, FF, CR and U+001C..U+001F. */
  predicate IsJavaWhitespace(c: char) {
    ('\t' <= c <= '\r') || ('\U{1C}' <= c <= ' ')
    || c == '\U{1680}' || ('\U{2000}' <= c <= '\U{2006}') || ('\U{2008}' <= c <= '\U{200A}')
    || c == '\U{2028}' || c == '\U{2029}' || c == '\U{205F}' || c == '\U{3000}'
  }

  /** ASCII decimal digit, the regex class `\d` and `[0-9]`. */
  predicate IsDigit(c: char) {
    '0' <= c <= '9'
  }

  predicate AllDigits(s: string) {
    forall i :: 0 <= i < |s| ==> IsDigit(s[i])
  }

  /** `String.trim()`: `s` without its leading and trailing code units up to U+0020. */
  function Trim(s: string): (r: string)
    ensures |r| <= |s|
    ensures r == [] || (!IsTrimSpace(r[0]) && !IsTrimSpace(r[|r| - 1]))
    decreases |s|
  {
    if s != [] && IsTrimSpace(s[0]) then Trim(s[1..])
    else if s != [] && IsTrimSpace(s[|s| - 1]) then Trim(s[..|s| - 1])
    else s
  }

  /** Number of leading code units `String.trim()` removes. */
  function LeadingTrimSpaces(s: string): (n: nat)
    ensures n <= |s|
    ensures forall i :: 0 <= i < n ==> IsTrimSpace(s[i])
    ensures n < |s| ==> !IsTrimSpace(s[n])
  {
    if s != [] && IsTrimSpace(s[0]) then 1 + LeadingTrimSpaces(s[1..]) else 0
  }

  /** What `String.trim()` returns: the substring left after removing the maximal
      leading and trailing runs of code units up to U+0020; empty exactly when every
      code unit is such a space. */
  lemma {:induction false} TrimSpec(s: string)
    ensures LeadingTrimSpaces(s) + |Trim(s)| <= |s|
    ensures Trim(s) == s[LeadingTrimSpaces(s)..LeadingTrimSpaces(s) + |Trim(s)|]
    ensures forall i :: LeadingTrimSpaces(s) + |Trim(s)| <= i < |s| ==> IsTrimSpace(s[i])
    decreases |s|
  {
    if s != [] && IsTrimSpace(s[0]) {
      TrimSpec(s[1..]);
      assert LeadingTrimSpaces(s) == LeadingTrimSpaces(s[1..]) + 1 && Trim(s) == Trim(s[1..]);
      SliceDropFirst(s, s[1..], LeadingTrimSpaces(s[1..]), Trim(s[1..]));
    } else if s != [] && IsTrimSpace(s[|s| - 1]) {
      TrimSpec(s[..|s| - 1]);
      assert s[..|s| - 1][0] == s[0];
      assert LeadingTrimSpaces(s) == 0 && LeadingTrimSpaces(s[..|s| - 1]) == 0 && Trim(s) == Trim(s[..|s| - 1]);
      SliceDropLast(s, s[..|s| - 1], Trim(s[..|s| - 1]));
    }
  }

  /** A piece of `t == s[1..]` followed only by spaces is the same piece of `s`, one
      further on. */
  lemma SliceDropFirst(s: string, t: string, a: nat, r: string)
    requires s != [] && t == s[1..] && a + |r| <= |t| && r == t[a..a + |r|]
    requires forall i :: a + |r| <= i < |t| ==> IsTrimSpace(t[i])
    ensures r == s[a + 1..a + 1 + |r|]
    ensures forall i :: a + 1 + |r| <= i < |s| ==> IsTrimSpace(s[i])
  {
    forall i | a + 1 + |r| <= i < |s| ensures IsTrimSpace(s[i]) {
      assert s[i] == t[i - 1];
    }
  }

  /** A leading piece of `t == s[..|s| - 1]` followed only by spaces is a leading piece of
      `s` followed only by spaces, when the last code unit of `s` is one. */
  lemma SliceDropLast(s: string, t: string, r: string)
    requires s != [] && IsTrimSpace(s[|s| - 1]) && t == s[..|s| - 1] && |r| <= |t| && r == t[0..|r|]
    requires forall i :: |r| <= i < |t| ==> IsTrimSpace(t[i])
    ensures r == s[0..|r|]
    ensures forall i :: |r| <= i < |s| ==> IsTrimSpace(s[i])
  {
    forall i | |r| <= i < |t| ensures IsTrimSpace(s[i]) {
      assert s[i] == t[i];
    }
  }

  /** `trim()` is empty exactly when every code unit is a space up to U+0020. */
  lemma {:induction false} TrimEmpty(s: string)
    ensures Trim(s) == [] <==> forall i :: 0 <= i < |s| ==> IsTrimSpace(s[i])
    decreases |s|
  {
    if s != [] && IsTrimSpace(s[0]) {
      TrimEmpty(s[1..]);
      assert forall i :: 1 <= i < |s| ==> s[i] == s[1..][i - 1];
    } else if s != [] && IsTrimSpace(s[|s| - 1]) {
      TrimEmpty(s[..|s| - 1]);
      assert forall i :: 0 <= i < |s| - 1 ==> s[i] == s[..|s| - 1][i];
    }
  }

  /** Trimming a string that neither starts nor ends with a space changes nothing. */
  lemma TrimKeeps(s: string)
    requires s == [] || (!IsTrimSpace(s[0]) && !IsTrimSpace(s[|s| - 1]))
    ensures Trim(s) == s
  {
  }

  lemma TrimTwice(s: string)
    ensures Trim(Trim(s)) == Trim(s)
  {
    TrimKeeps(Trim(s));
  }

  /** `Math.min` and `Math.max`. */
  function Min(a: int, b: int): int {
    if a <= b then a else b
  }

  function Max(a: int, b: int): int {
    if a >= b then a else b
  }

  /** A finished chunk: non-empty and already trimmed. */
  predicate Tidy(c: string) {
    c != [] && Trim(c) == c
  }

  /** `s.trim().isEmpty()`. */
  predicate IsBlank(s: string) {
    Trim(s) == []
  }

  predicate StartsWith(s: string, prefix: string) {
    |prefix| <= |s| && s[..|prefix|] == prefix
  }

  predicate EndsWith(s: string, suffix: string) {
    |suffix| <= |s| && s[|s| - |suffix|..] == suffix
  }

  /** `sub` occurs in `s` starting at offset `i`. */
  predicate OccursAt(s: string, sub: string, i: int) {
    0 <= i && i + |sub| <= |s| && s[i..i + |sub|] == sub
  }

  /** `String.contains`. */
  predicate Contains(s: string, sub: string) {
    exists i :: 0 <= i <= |s| - |sub| && OccursAt(s, sub, i)
  }

  /** An occurrence survives text added on either side. */
  lemma ContainsExtends(s: string, t: string, sub: string)
    requires Contains(s, sub)
    ensures Contains(s + t, sub) && Contains(t + s, sub)
  {
    var i :| 0 <= i <= |s| - |sub| && OccursAt(s, sub, i);
    assert (s + t)[i..i + |sub|] == s[i..i + |sub|];
    assert OccursAt(s + t, sub, i);
    assert (t + s)[|t| + i..|t| + i + |sub|] == s[i..i + |sub|];
    assert OccursAt(t + s, sub, |t| + i);
  }

  lemma ContainsEnd(s: string, t: string)
    requires EndsWith(s, t)
    ensures Contains(s, t)
  {
    assert OccursAt(s, t, |s| - |t|);
  }

  lemma ContainsStart(s: string, pre: string, t: string)
    requires StartsWith(s, pre) && Contains(pre, t)
    ensures Contains(s, t)
  {
    var i :| 0 <= i <= |pre| - |t| && OccursAt(pre, t, i);
    assert s[i..i + |t|] == pre[i..i + |t|];
    assert OccursAt(s, t, i);
  }

  lemma ContainsInEnd(s: string, suffix: string, t: string)
    requires EndsWith(s, suffix) && Contains(suffix, t)
    ensures Contains(s, t)
  {
    var pre := s[..|s| - |suffix|];
    ContainsExtends(suffix, pre, t);
    assert s == pre + suffix;
  }

  /** `piece` is the window `text[a..b]`, raw or trimmed, for some window holding index
      `j`. */
  ghost predicate Holds(text: string, piece: string, j: int) {
    exists a, b :: 0 <= a <= j < b <= |text| && (piece == text[a..b] || piece == Trim(text[a..b]))
  }

  /** A visible code unit inside `text[a..b]` keeps the trimmed window non-empty. */
  lemma VisibleKept(text: string, a: nat, b: nat, j: nat)
    requires a <= j < b <= |text| && !IsTrimSpace(text[j])
    ensures Trim(text[a..b]) != []
  {
    TrimEmpty(text[a..b]);
    assert text[a..b][j - a] == text[j];
  }

  predicate ContainsChar(s: string, c: char) {
    exists i :: 0 <= i < |s| && s[i] == c
  }

  /** `Character.toLowerCase` restricted to ASCII letters. */
  function LowerChar(c: char): (r: char)
    ensures 'A' <= c <= 'Z' ==> r as int == c as int + 32
    ensures !('A' <= c <= 'Z') ==> r == c
  {
    if 'A' <= c <= 'Z' then (c as int + 32) as char else c
  }

  /** `String.toLowerCase()` on ASCII letters; other code units are kept. */
  function ToLower(s: string): (r: string)
    ensures |r| == |s|
    ensures forall i :: 0 <= i < |s| ==> r[i] == LowerChar(s[i])
  {
    seq(|s|, i requires 0 <= i < |s| => LowerChar(s[i]))
  }

  lemma ToLowerAppend(a: string, b: string)
    ensures ToLower(a + b) == ToLower(a) + ToLower(b)
  {
    assert forall i :: 0 <= i < |a + b| ==> ToLower(a + b)[i] == (ToLower(a) + ToLower(b))[i];
  }

  /** `String.lastIndexOf(c)`: the last index holding `c`, or -1. */
  function LastIndexOf(s: string, c: char): (r: int)
    ensures -1 <= r < |s|
    ensures r >= 0 ==> s[r] == c
    ensures forall j :: r < j < |s| ==> s[j] != c
    decreases |s|
  {
    if s == [] then -1
    else if s[|s| - 1] == c then |s| - 1
    else LastIndexOf(s[..|s| - 1], c)
  }

  /** `String.replace(t, "")`: every occurrence of `t`, scanning left to right without
      overlap, removed. */
  function RemoveAll(s: string, t: string): (r: string)
    requires t != []
    ensures |r| <= |s|
    decreases |s|
  {
    if s == [] then []
    else if StartsWith(s, t) then RemoveAll(s[|t|..], t)
    else [s[0]] + RemoveAll(s[1..], t)
  }

  /** A string without the first character of `t` has no occurrence to remove. */
  lemma {:induction false} RemoveAllAbsent(s: string, t: string)
    requires t != [] && forall j :: 0 <= j < |s| ==> s[j] != t[0]
    ensures RemoveAll(s, t) == s
    decreases |s|
  {
    if s != [] {
      assert !StartsWith(s, t) by { assert s[0] != t[0]; }
      RemoveAllAbsent(s[1..], t);
    }
  }

  /** `String.equalsIgnoreCase` on ASCII letters. */
  predicate EqualsIgnoreCase(a: string, b: string) {
    ToLower(a) == ToLower(b)
  }

  function DigitChar(d: nat): (c: char)
    requires d < 10
    ensures IsDigit(c) && c as int - '0' as int == d
  {
    ('0' as int + d) as char
  }

  /** Value of a string of ASCII digits, most significant first. */
  function DigitsValue(s: string): nat
    requires AllDigits(s)
  {
    if s == [] then 0 else DigitsValue(s[..|s| - 1]) * 10 + (s[|s| - 1] as int - '0' as int)
  }

  /** `Integer.toString` / string concatenation of a non-negative int. */
  function NatToString(n: nat): (r: string)
    ensures r != [] && AllDigits(r)
    ensures |r| > 1 ==> r[0] != '0'
  {
    if n < 10 then [DigitChar(n)] else NatToString(n / 10) + [DigitChar(n % 10)]
  }

  /** Reading back what `NatToString` writes gives the number again. */
  lemma {:induction false} NatToStringRoundTrip(n: nat)
    ensures DigitsValue(NatToString(n)) == n
  {
    if n >= 10 {
      var s := NatToString(n);
      assert s[..|s| - 1] == NatToString(n / 10);
      NatToStringRoundTrip(n / 10);
    }
  }

  const IntMin: int := -0x8000_0000
  const IntMax: int := 0x7FFF_FFFF

  predicate IsInt32(x: int) {
    IntMin <= x <= IntMax
  }

  /** Two's-complement wrap-around of Java `int` arithmetic. */
  function Wrap32(x: int): (r: int)
    ensures IsInt32(r)
    ensures (r - x) % 0x1_0000_0000 == 0
    ensures IsInt32(x) ==> r == x
  {
    (x - IntMin) % 0x1_0000_0000 + IntMin
  }

  /** `Integer.parseInt(s)` with radix 10 over ASCII digits: an optional sign, at least
      one digit, and a value within the `int` range; anything else is a NumberFormatException. */
  function ParseInt(s: string): (r: Result<int>)
    ensures r.Ok? ==> IsInt32(r.value)
    ensures r.Ok? ==> s != [] && AllDigits(if s[0] == '+' || s[0] == '-' then s[1..] else s)
    ensures AllDigits(s) && s != [] && DigitsValue(s) <= IntMax ==> r == Ok(DigitsValue(s))
  {
    if s == [] then Err(NumberFormat)
    else
      var neg := s[0] == '-';
      var digits := if s[0] == '+' || s[0] == '-' then s[1..] else s;
      if digits == [] || !AllDigits(digits) then Err(NumberFormat)
      else
        var v: int := if neg then -(DigitsValue(digits) as int) else DigitsValue(digits);
        if IsInt32(v) then Ok(v) else Err(NumberFormat)
  }

  /** Length of the leading run of code units outside `sep`. */
  function RunLength(s: string, sep: char -> bool): (k: nat)
    ensures k <= |s|
    ensures forall i :: 0 <= i < k ==> !sep(s[i])
    ensures k < |s| ==> sep(s[k])
  {
    if s == [] || sep(s[0]) then 0 else 1 + RunLength(s[1..], sep)
  }

  /** The maximal runs of code units outside `sep`, in order: what `split` on the regex
      `sep+` yields once empty strings are dropped. */
  function Tokens(s: string, sep: char -> bool): (r: seq<string>)
    ensures forall t :: t in r ==> t != [] && forall i :: 0 <= i < |t| ==> !sep(t[i])
    ensures (forall i :: 0 <= i < |s| ==> sep(s[i])) <==> r == []
    decreases |s|
  {
    if s == [] then []
    else if sep(s[0]) then Tokens(s[1..], sep)
    else
      var k := RunLength(s, sep);
      [s[..k]] + Tokens(s[k..], sep)
  }

  /** `s` without its leading run of separators. */
  function DropSeparators(s: string, sep: char -> bool): (r: string)
    ensures |r| <= |s| && r == s[|s| - |r|..]
    ensures r == [] || !sep(r[0])
    ensures forall i :: 0 <= i < |s| - |r| ==> sep(s[i])
  {
    if s != [] && sep(s[0]) then DropSeparators(s[1..], sep) else s
  }

  /** The pieces between maximal runs of `sep`, empty ones included: a leading run
      gives a leading "" and a trailing run a trailing "". */
  function Pieces(s: string, sep: char -> bool): (r: seq<string>)
    ensures |r| >= 1
    decreases |s|
  {
    var k := RunLength(s, sep);
    if k == |s| then [s] else [s[..k]] + Pieces(DropSeparators(s[k..], sep), sep)
  }

  function DropTrailingEmpty(xs: seq<string>): (r: seq<string>)
    ensures |r| <= |xs| && r == xs[..|r|]
    ensures r == [] || r[|r| - 1] != []
    ensures forall i :: |r| <= i < |xs| ==> xs[i] == []
  {
    if xs != [] && xs[|xs| - 1] == [] then DropTrailingEmpty(xs[..|xs| - 1]) else xs
  }

  /** `String.split` on the regex "X+" for a character class X: a string with no match
      is returned whole, otherwise trailing empty strings are removed. */
  function SplitRuns(s: string, sep: char -> bool): (r: seq<string>)
  {
    if forall i :: 0 <= i < |s| ==> !sep(s[i]) then [s]
    else DropTrailingEmpty(Pieces(s, sep))
  }

  /** Leading separators do not change the tokens. */
  lemma {:induction false} TokensDropSeparators(s: string, sep: char -> bool)
    ensures Tokens(s, sep) == Tokens(DropSeparators(s, sep), sep)
    decreases |s|
  {
    if s != [] && sep(s[0]) {
      TokensDropSeparators(s[1..], sep);
    }
  }

  /** Once `s` neither starts nor ends with a separator, the pieces are exactly the
      maximal runs of non-separators. */
  lemma {:induction false} PiecesAreTokens(s: string, sep: char -> bool)
    requires s != [] && !sep(s[0]) && !sep(s[|s| - 1])
    ensures Pieces(s, sep) == Tokens(s, sep)
    decreases |s|
  {
    var k := RunLength(s, sep);
    if k < |s| {
      var rest := DropSeparators(s[k..], sep);
      assert Pieces(s, sep) == [s[..k]] + Pieces(rest, sep);
      assert Tokens(s, sep) == [s[..k]] + Tokens(s[k..], sep);
      TokensDropSeparators(s[k..], sep);
      if rest == [] {
        assert false;
      }
      assert rest[|rest| - 1] == s[|s| - 1];
      PiecesAreTokens(rest, sep);
    } else {
      assert s[..k] == s && s[k..] == [];
    }
  }

  /** Once `s` neither starts nor ends with a separator, `split` yields exactly the
      maximal runs of non-separators. */
  lemma {:induction false} SplitTrimmedIsTokens(s: string, sep: char -> bool)
    requires s != [] && !sep(s[0]) && !sep(s[|s| - 1])
    ensures SplitRuns(s, sep) == Tokens(s, sep)
  {
    PiecesAreTokens(s, sep);
    if !(forall i :: 0 <= i < |s| ==> !sep(s[i])) {
      var r := Tokens(s, sep);
      assert r != [] ==> r[|r| - 1] != [];
      assert DropTrailingEmpty(r) == r;
    } else {
      assert RunLength(s, sep) == |s|;
    }
  }

  /** The pieces between single code units of `sep`, empty ones included. */
  function PiecesAt(s: string, sep: char -> bool): (r: seq<string>)
    ensures |r| >= 1
    ensures forall k :: 0 <= k < |r| ==> forall i :: 0 <= i < |r[k]| ==> !sep(r[k][i])
    decreases |s|
  {
    var k := RunLength(s, sep);
    if k == |s| then [s] else [s[..k]] + PiecesAt(s[k + 1..], sep)
  }

  /** `String.split` on a regex that matches one code unit of `sep`: a string with no
      match is returned whole, otherwise trailing empty strings are removed. */
  function SplitEach(s: string, sep: char -> bool): (r: seq<string>)
    ensures forall k :: 0 <= k < |r| ==> forall i :: 0 <= i < |r[k]| ==> !sep(r[k][i])
  {
    if RunLength(s, sep) == |s| then [s] else DropTrailingEmpty(PiecesAt(s, sep))
  }

  /** The first offset at or after `i` where `t` occurs. */
  function IndexOfFrom(s: string, t: string, i: nat): (r: Option<nat>)
    ensures r.Some? ==> i <= r.value && OccursAt(s, t, r.value)
    ensures forall k :: i <= k && (r.None? || k < r.value) ==> !OccursAt(s, t, k)
    decreases |s| - i
  {
    if i + |t| > |s| then None
    else if OccursAt(s, t, i) then Some(i)
    else IndexOfFrom(s, t, i + 1)
  }

  /** The strings of `xs` with `sep` between each two. */
  function Join(xs: seq<string>, sep: string): string {
    if xs == [] then [] else if |xs| == 1 then xs[0] else xs[0] + sep + Join(xs[1..], sep)
  }

  /** The pieces between the leftmost non-overlapping occurrences of `t`, empty ones
      included; none of them contains `t`. */
  function PiecesOn(s: string, t: string): (r: seq<string>)
    requires t != []
    ensures |r| >= 1
    ensures forall k :: 0 <= k < |r| ==> !Contains(r[k], t)
    decreases |s|
  {
    match IndexOfFrom(s, t, 0)
    case None =>
      assert !Contains(s, t);
      [s]
    case Some(i) =>
      assert !Contains(s[..i], t) by {
        forall k | 0 <= k <= i - |t|
          ensures !OccursAt(s[..i], t, k)
        {
          assert !OccursAt(s, t, k);
          assert s[..i][k..k + |t|] == s[k..k + |t|];
        }
      }
      [s[..i]] + PiecesOn(s[i + |t|..], t)
  }

  /** Joining the pieces with `t` gives back the string. */
  lemma {:induction false} PiecesOnJoin(s: string, t: string)
    requires t != []
    ensures Join(PiecesOn(s, t), t) == s
    decreases |s|, 1
  {
    match IndexOfFrom(s, t, 0)
    case None =>
    case Some(i) => PiecesJoinAt(s, t, i);
  }

  /** The inductive step of `PiecesOnJoin`, at the first occurrence `i` of `t`. */
  lemma {:induction false} PiecesJoinAt(s: string, t: string, i: nat)
    requires t != [] && IndexOfFrom(s, t, 0) == Some(i)
    ensures Join(PiecesOn(s, t), t) == s
    decreases |s|, 0
  {
    var rest := s[i + |t|..];
    PiecesOnJoin(rest, t);
    PiecesOnAt(s, t, i);
    JoinCons(s[..i], PiecesOn(rest, t), t);
    SplitAround(s, t, i);
  }

  /** At the first occurrence `i` of `t`, the pieces are what precedes it, then the pieces
      of what follows it. */
  lemma PiecesOnAt(s: string, t: string, i: nat)
    requires t != [] && IndexOfFrom(s, t, 0) == Some(i)
    ensures PiecesOn(s, t) == [s[..i]] + PiecesOn(s[i + |t|..], t)
  {
  }

  /** Joining a list with a piece in front puts the piece and one separator first. */
  lemma JoinCons(a: string, xs: seq<string>, sep: string)
    requires xs != []
    ensures Join([a] + xs, sep) == a + sep + Join(xs, sep)
  {
    assert ([a] + xs)[1..] == xs;
  }

  /** An occurrence of `t` at `i` splits `s` into what comes before, `t`, and the rest. */
  lemma SplitAround(s: string, t: string, i: nat)
    requires OccursAt(s, t, i)
    ensures s == s[..i] + t + s[i + |t|..]
  {
    assert s == s[..i] + s[i..i + |t|] + s[i + |t|..];
  }

  /** `String.split` on a regex that matches exactly the literal `t`. */
  function SplitOn(s: string, t: string): (r: seq<string>)
    requires t != []
    ensures forall k :: 0 <= k < |r| ==> !Contains(r[k], t)
    ensures IndexOfFrom(s, t, 0).None? ==> r == [s]
  {
    if IndexOfFrom(s, t, 0).None? then [s] else DropTrailingEmpty(PiecesOn(s, t))
  }

  /** `s` without its leading run of `\s`. */
  function DropSpaces(s: string): (r: string)
    ensures |r| <= |s|
    ensures r == [] || !IsRegexSpace(r[0])
  {
    if s != [] && IsRegexSpace(s[0]) then DropSpaces(s[1..]) else s
  }

  /** `replaceAll("\\s+", " ")`: every run of `\s` becomes one space. */
  function CollapseSpaces(s: string): string
    decreases |s|
  {
    if s == [] then []
    else if IsRegexSpace(s[0]) then
      [' '] + CollapseSpaces(DropSpaces(s[1..]))
    else [s[0]] + CollapseSpaces(s[1..])
  }

  /** After collapsing, the only `\s` left is the space, never two in a row, and the
      result starts with a space exactly when the text starts with `\s`. */
  lemma {:induction false} CollapseShape(s: string)
    ensures var r := CollapseSpaces(s);
            && (forall i :: 0 <= i < |r| && IsRegexSpace(r[i]) ==> r[i] == ' ')
            && (forall i :: 0 <= i < |r| - 1 ==> !(r[i] == ' ' && r[i + 1] == ' '))
            && (r != [] && r[0] == ' ' <==> s != [] && IsRegexSpace(s[0]))
            && (s == [] <==> r == [])
    decreases |s|
  {
    if s != [] {
      var r := CollapseSpaces(s);
      if IsRegexSpace(s[0]) {
        var rest := DropSpaces(s[1..]);
        CollapseShape(rest);
        assert r == [' '] + CollapseSpaces(rest);
      } else {
        CollapseShape(s[1..]);
        assert r == [s[0]] + CollapseSpaces(s[1..]);
      }
    }
  }

  /** The code units of `s` that are not `\s`. */
  function NonSpace(s: string): string {
    if s == [] then [] else (if IsRegexSpace(s[0]) then [] else [s[0]]) + NonSpace(s[1..])
  }

  lemma {:induction false} NonSpaceDrop(s: string)
    ensures NonSpace(DropSpaces(s)) == NonSpace(s)
    decreases |s|
  {
    if s != [] && IsRegexSpace(s[0]) {
      NonSpaceDrop(s[1..]);
    }
  }

  /** Collapsing whitespace keeps every other code unit, in order. */
  lemma {:induction false} CollapseKeepsText(s: string)
    ensures NonSpace(CollapseSpaces(s)) == NonSpace(s)
    decreases |s|
  {
    if s != [] {
      if IsRegexSpace(s[0]) {
        var rest := DropSpaces(s[1..]);
        CollapseKeepsText(rest);
        NonSpaceDrop(s[1..]);
        assert CollapseSpaces(s) == [' '] + CollapseSpaces(rest);
      } else {
        CollapseKeepsText(s[1..]);
        assert CollapseSpaces(s) == [s[0]] + CollapseSpaces(s[1..]);
      }
    }
  }

  /** The shape collapsing leaves: the only `\s` is the space, never two in a row. */
  predicate Collapsed(s: string) {
    forall i :: 0 <= i < |s| && IsRegexSpace(s[i]) ==> s[i] == ' ' && (i + 1 < |s| ==> !IsRegexSpace(s[i + 1]))
  }

  lemma CollapseIsCollapsed(s: string)
    ensures Collapsed(CollapseSpaces(s))
  {
    CollapseShape(s);
    var r := CollapseSpaces(s);
    forall i | 0 <= i < |r| && IsRegexSpace(r[i]) ensures r[i] == ' ' && (i + 1 < |r| ==> !IsRegexSpace(r[i + 1])) {
    }
  }

  lemma CollapsedSlice(s: string, a: nat, b: nat)
    requires Collapsed(s) && a <= b <= |s|
    ensures Collapsed(s[a..b])
  {
    var t := s[a..b];
    forall i | 0 <= i < |t| && IsRegexSpace(t[i]) ensures t[i] == ' ' && (i + 1 < |t| ==> !IsRegexSpace(t[i + 1])) {
      assert t[i] == s[a + i];
      if i + 1 < |t| {
        assert t[i + 1] == s[a + i + 1];
      }
    }
  }

  /** Dropping the leading `\s` run stops before text that does not start with `\s`. */
  lemma {:induction false} DropBeforeText(a: string, y: string)
    requires y == [] || !IsRegexSpace(y[0])
    ensures DropSpaces(a + y) == DropSpaces(a) + y
    decreases |a|
  {
    if a == [] {
      assert a + y == y;
    } else if IsRegexSpace(a[0]) {
      assert (a + y)[1..] == a[1..] + y;
      DropBeforeText(a[1..], y);
    }
  }

  /** Collapsing splits at a boundary where the right part does not start with `\s`. */
  lemma {:induction false} CollapseBeforeText(x: string, y: string)
    requires y == [] || !IsRegexSpace(y[0])
    ensures CollapseSpaces(x + y) == CollapseSpaces(x) + CollapseSpaces(y)
    decreases |x|
  {
    if x == [] {
      assert x + y == y;
    } else if IsRegexSpace(x[0]) {
      assert (x + y)[1..] == x[1..] + y;
      DropBeforeText(x[1..], y);
      CollapseBeforeText(DropSpaces(x[1..]), y);
    } else {
      assert (x + y)[1..] == x[1..] + y;
      CollapseBeforeText(x[1..], y);
    }
  }

  /** Collapsed text that does not end in `\s` passes through collapsing unchanged, and
      whatever follows it is collapsed on its own. */
  lemma {:induction false} CollapseAfterCollapsed(c: string, w: string)
    requires Collapsed(c) && (c == [] || !IsRegexSpace(c[|c| - 1]))
    ensures CollapseSpaces(c + w) == c + CollapseSpaces(w)
    decreases |c|
  {
    if c == [] {
      assert c + w == w;
    } else {
      assert (c + w)[1..] == c[1..] + w;
      CollapsedSlice(c, 1, |c|);
      if IsRegexSpace(c[0]) {
        assert |c| >= 2 && !IsRegexSpace(c[1]);
        assert DropSpaces(c[1..] + w) == c[1..] + w;
      }
      CollapseAfterCollapsed(c[1..], w);
      assert c == [c[0]] + c[1..];
    }
  }

  /** Text that starts and ends outside `\s` keeps its first and last code unit. */
  lemma CollapseEnds(t: string)
    requires t != [] && !IsRegexSpace(t[0]) && !IsRegexSpace(t[|t| - 1])
    ensures var r := CollapseSpaces(t); r != [] && r[0] == t[0] && r[|r| - 1] == t[|t| - 1]
  {
    var n := |t| - 1;
    CollapseBeforeText(t[..n], [t[n]]);
    assert t[..n] + [t[n]] == t;
    assert CollapseSpaces([t[n]]) == [t[n]] + CollapseSpaces([]);
  }

  /** Spaces after text that starts and ends with a visible code unit are all trimmed. */
  lemma {:induction false} TrimTail(u: string, q: string)
    requires u != [] && !IsTrimSpace(u[0]) && !IsTrimSpace(u[|u| - 1])
    requires forall i :: 0 <= i < |q| ==> IsTrimSpace(q[i])
    ensures Trim(u + q) == u
    decreases |q|
  {
    if q == [] {
      assert u + q == u;
      TrimKeeps(u);
    } else {
      var s := u + q;
      assert s[0] == u[0] && s[|s| - 1] == q[|q| - 1];
      assert s[..|s| - 1] == u + q[..|q| - 1];
      TrimTail(u, q[..|q| - 1]);
    }
  }
}
