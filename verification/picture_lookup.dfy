/** Helpers of the component copy of the structure parser that turn relationship ids and
    picture file names into pictures: the id taken from a file name, the number inside an
    id, the two map lookups, the numeric fallback for an unmatched embed id, and the image
    record made for a found picture. */
module PictureLookup {
  import opened Std
  import opened JavaText
  import opened DocModel
  import opened StructureParser

  // ---------------------------------------------------------------------------
  // Digit runs and the id pattern

  /** The number of ASCII digits starting at index `i`. */
  function DigitRun(s: string, i: nat): (k: nat)
    requires i <= |s|
    ensures i + k <= |s|
    ensures forall j :: i <= j < i + k ==> IsDigit(s[j])
    ensures i + k < |s| ==> !IsDigit(s[i + k])
    decreases |s| - i
  {
    if i < |s| && IsDigit(s[i]) then 1 + DigitRun(s, i + 1) else 0
  }

  lemma {:induction false} DigitRunOf(a: string, d: string, rest: string)
    requires AllDigits(d) && (rest == [] || !IsDigit(rest[0]))
    ensures DigitRun(a + d + rest, |a|) == |d|
    decreases |d|
  {
    var s := a + d + rest;
    if d == [] {
      assert |a| < |s| ==> s[|a|] == rest[0];
    } else {
      assert s == (a + [d[0]]) + d[1..] + rest;
      DigitRunOf(a + [d[0]], d[1..], rest);
    }
  }

  /** The length of the match of `(rId\d+|image\d+)` starting at index `i`, letters compared
      case-insensitively, or 0 when there is none; `\d+` takes every digit that follows. */
  function IdMatchAt(s: string, i: nat): nat
    requires i <= |s|
  {
    if i + 3 <= |s| && ToLower(s[i..i + 3]) == "rid" && DigitRun(s, i + 3) > 0 then 3 + DigitRun(s, i + 3)
    else if i + 5 <= |s| && ToLower(s[i..i + 5]) == "image" && DigitRun(s, i + 5) > 0 then 5 + DigitRun(s, i + 5)
    else 0
  }

  predicate NoIdMatchIn(s: string, i: nat, p: nat)
    requires i <= p <= |s|
  {
    forall j :: i <= j < p ==> IdMatchAt(s, j) == 0
  }

  /** `Matcher.find`: the leftmost index from `i` on where the id pattern matches. */
  function FindIdMatch(s: string, i: nat): (r: Option<nat>)
    requires i <= |s|
    ensures r.Some? ==> i <= r.value <= |s| && IdMatchAt(s, r.value) > 0 && NoIdMatchIn(s, i, r.value)
    ensures r.None? ==> NoIdMatchIn(s, i, |s|)
    decreases |s| - i
  {
    if i == |s| then None
    else if IdMatchAt(s, i) > 0 then Some(i)
    else FindIdMatch(s, i + 1)
  }

  // ---------------------------------------------------------------------------
  // extractRelationshipIdFromFileName

  /** The name after the last '/' without its extension, as the `/media/` branch cuts it. */
  function MediaBaseName(s: string): string {
    var name := s[LastIndexOf(s, '/') + 1..];
    var dot := LastIndexOf(name, '.');
    if dot > 0 then name[..dot] else name
  }

  /** What an extracted relationship id looks like: it starts with "rId" or "image",
      letters in any case. */
  predicate RelationshipLike(r: string) {
    |r| >= 3 && (ToLower(r[..3]) == "rid" || (|r| >= 5 && ToLower(r[..5]) == "image"))
  }

  lemma RelationshipLikeRId(t: string)
    ensures RelationshipLike("rId" + t)
  {
    assert ("rId" + t)[..3] == "rId";
  }

  /** The id for a pattern match: "image<d>" in lower case becomes "rId<d>", anything else
      the pattern matches is kept. */
  function IdOfMatch(s: string, p: nat): (r: string)
    requires p <= |s| && IdMatchAt(s, p) > 0
    ensures RelationshipLike(r)
  {
    var id := s[p..p + IdMatchAt(s, p)];
    if StartsWith(id, "image") then
      RelationshipLikeRId(RemoveAll(id, "image"));
      "rId" + RemoveAll(id, "image")
    else
      assert id[..3] == s[p..p + 3];
      assert |id| >= 5 ==> id[..5] == s[p..p + 5];
      id
  }

  /** The `/media/` branch: "rId" and the base name without "image", for a base name that
      starts with "image". */
  function IdOfMediaName(s: string): (r: Option<string>)
    ensures r.Some? <==> Contains(s, "/media/") && StartsWith(MediaBaseName(s), "image")
    ensures r.Some? ==> RelationshipLike(r.value)
  {
    if Contains(s, "/media/") && StartsWith(MediaBaseName(s), "image") then
      RelationshipLikeRId(RemoveAll(MediaBaseName(s), "image"));
      Some("rId" + RemoveAll(MediaBaseName(s), "image"))
    else None
  }

  /** `extractRelationshipIdFromFileName`: the first `rId<digits>` or `image<digits>` in the
      name, with "image" replaced by "rId" when it is spelt in lower case; failing that,
      for a name under `/media/` whose base name starts with "image", "rId" followed by that
      base name with every "image" removed; otherwise null. A null name throws inside the
      `try` and also gives null. */
  function ExtractRelationshipId(fileName: Option<string>): (r: Option<string>)
    ensures r.None? <==>
            || fileName.None?
            || (NoIdMatchIn(fileName.value, 0, |fileName.value|)
                && !(Contains(fileName.value, "/media/") && StartsWith(MediaBaseName(fileName.value), "image")))
    ensures r.Some? ==> RelationshipLike(r.value)
  {
    if fileName.None? then None
    else
      match FindIdMatch(fileName.value, 0)
      case Some(p) => Some(IdOfMatch(fileName.value, p))
      case None => IdOfMediaName(fileName.value)
  }

  /** "image<d>…" gives "rId<d>": the picture named after relationship `d`. */
  lemma ImageFileNameGivesRelationshipId(d: string, rest: string)
    requires d != [] && AllDigits(d) && (rest == [] || !IsDigit(rest[0]))
    ensures ExtractRelationshipId(Some("image" + d + rest)) == Some("rId" + d)
  {
    var s := "image" + d + rest;
    DigitRunOf("image", d, rest);
    assert s[0..3] == "ima";
    assert s[0..5] == "image";
    assert IdMatchAt(s, 0) == 5 + |d|;
    var id := s[0..5 + |d|];
    assert id == "image" + d;
    assert StartsWith(id, "image");
    assert id[5..] == d;
    assert RemoveAll(id, "image") == RemoveAll(d, "image");
    RemoveAllAbsent(d, "image");
  }

  /** "rId<d>…" gives "rId<d>" back. */
  lemma RelationshipFileNameKeepsId(d: string, rest: string)
    requires d != [] && AllDigits(d) && (rest == [] || !IsDigit(rest[0]))
    ensures ExtractRelationshipId(Some("rId" + d + rest)) == Some("rId" + d)
  {
    var s := "rId" + d + rest;
    DigitRunOf("rId", d, rest);
    assert s[0..3] == "rId";
    assert IdMatchAt(s, 0) == 3 + |d|;
    assert s[0..3 + |d|] == "rId" + d;
    assert !StartsWith("rId" + d, "image") by { assert ("rId" + d)[0] == 'r'; }
  }

  // ---------------------------------------------------------------------------
  // extractNumberFromId

  /** The first index at or after `i` holding a digit. */
  function FirstDigit(s: string, i: nat): (r: Option<nat>)
    requires i <= |s|
    ensures r.Some? ==> i <= r.value < |s| && IsDigit(s[r.value])
    ensures forall j :: i <= j < |s| && (r.None? || j < r.value) ==> !IsDigit(s[j])
    decreases |s| - i
  {
    if i == |s| then None
    else if IsDigit(s[i]) then Some(i)
    else FirstDigit(s, i + 1)
  }

  /** `extractNumberFromId`: the first run of digits read as an `int`; 0 when there is no
      digit or the run does not fit an `int` (the NumberFormatException is caught). */
  function ExtractNumberFromId(id: string): (n: int)
    ensures n >= 0
    ensures (forall j :: 0 <= j < |id| ==> !IsDigit(id[j])) ==> n == 0
  {
    match FirstDigit(id, 0)
    case None => 0
    case Some(p) =>
      var run := id[p..p + DigitRun(id, p)];
      assert AllDigits(run);
      match ParseInt(run)
      case Ok(v) => v
      case Err(_) => 0
  }

  /** Writing a number after a digit-free prefix and reading it back gives the number. */
  lemma ExtractNumberFromIdOfWritten(a: string, n: nat, rest: string)
    requires forall j :: 0 <= j < |a| ==> !IsDigit(a[j])
    requires rest == [] || !IsDigit(rest[0])
    requires n <= IntMax
    ensures ExtractNumberFromId(a + NatToString(n) + rest) == n
  {
    var d := NatToString(n);
    var s := a + d + rest;
    DigitRunOf(a, d, rest);
    assert FirstDigit(s, 0) == Some(|a|) by {
      assert IsDigit(s[|a|]);
      assert forall j :: 0 <= j < |a| ==> s[j] == a[j];
    }
    assert s[|a|..|a| + |d|] == d;
    NatToStringRoundTrip(n);
  }

  // ---------------------------------------------------------------------------
  // findPictureInMap and findPictureById

  /** A `HashMap`'s keys in its iteration order, which the source does not fix: every key
      exactly once. */
  ghost predicate IterationOrder<P>(m: map<string, P>, order: seq<string>) {
    && (forall k :: k in order <==> k in m)
    && (forall i, j :: 0 <= i < j < |order| ==> order[i] != order[j])
  }

  /** The first key in iteration order that satisfies `matches`. */
  function FirstKey(order: seq<string>, matches: string -> bool): (r: Option<string>)
    ensures r.Some? ==> r.value in order && matches(r.value)
    ensures r.None? ==> forall k :: k in order ==> !matches(k)
  {
    if order == [] then None
    else if matches(order[0]) then Some(order[0])
    else FirstKey(order[1..], matches)
  }

  /** `findPictureInMap`: the exact key, else for an "rId<s>" id the first entry whose key
      contains `s`, else null. */
  function FindPictureInMap<P>(id: string, m: map<string, P>, order: seq<string>): (r: Option<P>)
    requires IterationOrder(m, order)
    ensures id in m ==> r == Some(m[id])
    ensures r.Some? <==> id in m || (StartsWith(id, "rId") && exists k :: k in m && Contains(k, id[3..]))
    ensures r.Some? && id !in m ==> exists k :: k in m && Contains(k, id[3..]) && r.value == m[k]
  {
    if id in m then Some(m[id])
    else if StartsWith(id, "rId") then
      var number := id[3..];
      match FirstKey(order, k => Contains(k, number))
      case Some(k) => Some(m[k])
      case None => None
    else None
  }

  /** `findPictureById`: the exact key, else the first entry whose key contains the id or is
      contained in it, else null. */
  function FindPictureById<P>(id: string, m: map<string, P>, order: seq<string>): (r: Option<P>)
    requires IterationOrder(m, order)
    ensures id in m ==> r == Some(m[id])
    ensures r.Some? <==> exists k :: k in m && (Contains(k, id) || Contains(id, k))
    ensures r.Some? && id !in m ==> exists k :: k in m && (Contains(k, id) || Contains(id, k)) && r.value == m[k]
  {
    if id in m then
      assert Contains(id, id) by { assert OccursAt(id, id, 0); }
      Some(m[id])
    else
      match FirstKey(order, k => Contains(k, id) || Contains(id, k))
      case Some(k) => Some(m[k])
      case None => None
  }

  // ---------------------------------------------------------------------------
  // The numeric fallback for an unmatched embed id

  /** One `r:embed` id of the XML pass: the lookup by id, and when it finds nothing in a
      non-empty map, picture `n - 1` of the map's values for `n = extractNumberFromId(id)`
      when `1 <= n <=` the number of pictures. */
  function ResolveEmbedId<P>(id: string, m: map<string, P>, order: seq<string>): (r: Option<P>)
    requires IterationOrder(m, order)
    ensures FindPictureById(id, m, order).Some? ==> r == FindPictureById(id, m, order)
    ensures FindPictureById(id, m, order).None? ==>
              (r.Some? <==> 1 <= ExtractNumberFromId(id) <= |order|)
              && (r.Some? ==> r == Some(m[order[ExtractNumberFromId(id) - 1]]))
  {
    var byId := FindPictureById(id, m, order);
    if byId.Some? then byId
    else if order == [] then None
    else
      var n := ExtractNumberFromId(id);
      if 0 < n <= |order| then Some(m[order[n - 1]]) else None
  }

  /** So an unmatched "rId<n>" falls back to the n-th picture for every `n` from 1 to the
      number of pictures. */
  lemma ResolveRelationshipNumber<P>(n: nat, m: map<string, P>, order: seq<string>)
    requires IterationOrder(m, order)
    requires 1 <= n <= |order| && n <= IntMax
    requires FindPictureById("rId" + NatToString(n), m, order).None?
    ensures ResolveEmbedId("rId" + NatToString(n), m, order) == Some(m[order[n - 1]])
  {
    assert "rId" + NatToString(n) == "rId" + NatToString(n) + [];
    ExtractNumberFromIdOfWritten("rId", n, []);
  }

  // ---------------------------------------------------------------------------
  // createImageInfoV5 (createImageInfoPOI523 has the same body)

  /** The name given to a picture without one. */
  function DefaultImageName(paraIndex: nat, imageIndex: nat, format: string): string {
    "img_" + NatToString(paraIndex) + "_" + NatToString(imageIndex) + "." + format
  }

  /** The record for a picture found in paragraph `paraIndex`: the suggested extension or
      "png", the picture's own name unless it is null or blank, and a position holding only
      the paragraph index and the character offset. */
  function CreateImageInfo(pic: PictureData, paraIndex: nat, charPosition: int, imageIndex: nat): (r: ImageInfo)
    ensures r.index == imageIndex && r.data == pic.data && r.filePath.None?
    ensures r.format != [] && (pic.ext != [] ==> r.format == pic.ext)
    ensures !IsBlank(r.fileName)
    ensures pic.fileName.Some? && !IsBlank(pic.fileName.value) ==> r.fileName == pic.fileName.value
    ensures r.position == Some(EmptyPosition.(paragraphIndex := Some(paraIndex), charPosition := Some(charPosition)))
  {
    var format := if pic.ext == [] then "png" else pic.ext;
    var name := if pic.fileName.None? || IsBlank(pic.fileName.value) then DefaultImageName(paraIndex, imageIndex, format)
                else pic.fileName.value;
    assert !IsBlank(DefaultImageName(paraIndex, imageIndex, format)) by {
      TrimEmpty(DefaultImageName(paraIndex, imageIndex, format));
      assert DefaultImageName(paraIndex, imageIndex, format)[0] == 'i';
    }
    ImageInfo(imageIndex, name, None, format, pic.data, Some(EmptyPosition.(paragraphIndex := Some(paraIndex), charPosition := Some(charPosition))))
  }

  /** Cutting `a + [c] + x` at its first `c` when `a` holds only digits and `c` is none. */
  lemma SplitAtNonDigit(a: string, b: string, c: char, x: string, y: string)
    requires AllDigits(a) && AllDigits(b) && !IsDigit(c)
    requires a + [c] + x == b + [c] + y
    ensures a == b && x == y
  {
    var s := a + [c] + x;
    DigitRunOf([], a, [c] + x);
    DigitRunOf([], b, [c] + y);
    assert [] + a + ([c] + x) == s && [] + b + ([c] + y) == s;
    assert a == s[..|a|];
    assert x == s[|a| + 1..];
  }

  lemma NatToStringInjective(m: nat, n: nat)
    requires NatToString(m) == NatToString(n)
    ensures m == n
  {
    NatToStringRoundTrip(m);
    NatToStringRoundTrip(n);
  }

  /** Pictures without a name get different default names whenever their paragraph or
      their index differ. */
  lemma DefaultImageNamesDistinct(p1: nat, i1: nat, f1: string, p2: nat, i2: nat, f2: string)
    requires DefaultImageName(p1, i1, f1) == DefaultImageName(p2, i2, f2)
    ensures p1 == p2 && i1 == i2 && f1 == f2
  {
    var a1, b1 := NatToString(p1), NatToString(i1);
    var a2, b2 := NatToString(p2), NatToString(i2);
    var s1 := DefaultImageName(p1, i1, f1);
    assert s1 == "img_" + (a1 + ['_'] + (b1 + "." + f1));
    assert DefaultImageName(p2, i2, f2) == "img_" + (a2 + ['_'] + (b2 + "." + f2));
    assert a1 + ['_'] + (b1 + "." + f1) == s1[4..];
    assert a2 + ['_'] + (b2 + "." + f2) == s1[4..];
    SplitAtNonDigit(a1, a2, '_', b1 + "." + f1, b2 + "." + f2);
    SplitAtNonDigit(b1, b2, '.', f1, f2);
    NatToStringInjective(p1, p2);
    NatToStringInjective(i1, i2);
  }
}
