/** Small pure helpers of the first service: the document-type guess, the page-based
    image lookup and the merge of text and image search results. */
module ServiceHelpers {
  import opened Std
  import opened JavaText

  // ---------------------------------------------------------------------------
  // detectDocumentType

  datatype DocumentType = Manual | Report | Paper | General

  const ManualKeywords: seq<string> := ["操作手册", "用户手册", "使用说明", "安装指南", "配置说明", "快速入门"]
  const ReportKeywords: seq<string> := ["报告", "analysis", "总结", "结论", "abstract", "introduction"]
  const PaperKeywords: seq<string> := ["参考文献", "reference", "摘要", "abstract", "引言", "结论"]

  predicate ContainsAny(s: string, kws: seq<string>) {
    exists i :: 0 <= i < |kws| && Contains(s, kws[i])
  }

  /** `detectDocumentType`: the lower-cased text is checked for manual, report and paper
      keywords, in that order. */
  function DetectDocumentType(text: string): (t: DocumentType)
    ensures t == Manual <==> ContainsAny(ToLower(text), ManualKeywords)
  {
    var lower := ToLower(text);
    if ContainsAny(lower, ManualKeywords) then Manual
    else if ContainsAny(lower, ReportKeywords) then Report
    else if ContainsAny(lower, PaperKeywords) then Paper
    else General
  }

  /** The priority of a type: a smaller rank wins. */
  function Rank(t: DocumentType): nat {
    match t
    case Manual => 0
    case Report => 1
    case Paper => 2
    case General => 3
  }

  lemma ContainsAnyExtends(s: string, t: string, kws: seq<string>)
    requires ContainsAny(s, kws)
    ensures ContainsAny(s + t, kws) && ContainsAny(t + s, kws)
  {
    var i :| 0 <= i < |kws| && Contains(s, kws[i]);
    ContainsExtends(s, t, kws[i]);
  }

  /** More text never lowers the priority of the guess: whatever is added before or after,
      a manual stays a manual, a report becomes at most a manual, and so on. */
  lemma DetectDocumentTypeMonotone(a: string, b: string)
    ensures Rank(DetectDocumentType(a + b)) <= Rank(DetectDocumentType(a))
    ensures Rank(DetectDocumentType(b + a)) <= Rank(DetectDocumentType(a))
  {
    ToLowerAppend(a, b);
    ToLowerAppend(b, a);
    var la, lb := ToLower(a), ToLower(b);
    if ContainsAny(la, ManualKeywords) {
      ContainsAnyExtends(la, lb, ManualKeywords);
    } else if ContainsAny(la, ReportKeywords) {
      ContainsAnyExtends(la, lb, ReportKeywords);
    } else if ContainsAny(la, PaperKeywords) {
      ContainsAnyExtends(la, lb, PaperKeywords);
    }
  }

  /** "abstract" and "结论" are report keywords too, so a paper is recognised only by
      参考文献, "reference", 摘要 or 引言. */
  lemma PaperOnlyByOwnKeywords(text: string)
    requires DetectDocumentType(text) == Paper
    ensures var lower := ToLower(text);
            Contains(lower, "参考文献") || Contains(lower, "reference") || Contains(lower, "摘要") || Contains(lower, "引言")
  {
    var lower := ToLower(text);
    var i :| 0 <= i < |PaperKeywords| && Contains(lower, PaperKeywords[i]);
    assert PaperKeywords[3] == ReportKeywords[4] && PaperKeywords[5] == ReportKeywords[3];
  }

  // ---------------------------------------------------------------------------
  // findImagesByPage

  /** The fields of a stored image the lookup reads. */
  datatype StoredImage = StoredImage(storedName: Option<string>, pageNumber: Option<int>)

  /** Whether an image belongs to chunk `chunkIndex`: not yet used and on page
      `chunkIndex + 1` (an `int` sum). */
  predicate OnPage(img: StoredImage, chunkIndex: int, used: set<Option<string>>) {
    img.storedName !in used && img.pageNumber.Some? && img.pageNumber.value == Wrap32(chunkIndex + 1)
  }

  /** The images of a list, in order, that are not null and belong to the chunk. */
  function ImagesOnPage(imgs: seq<Option<StoredImage>>, chunkIndex: int, used: set<Option<string>>)
    : (r: seq<StoredImage>)
    ensures forall x :: x in r <==> Some(x) in imgs && OnPage(x, chunkIndex, used)
    ensures |r| <= |imgs|
    decreases |imgs|
  {
    if imgs == [] then []
    else
      var last := imgs[|imgs| - 1];
      assert imgs == imgs[..|imgs| - 1] + [last];
      ImagesOnPage(imgs[..|imgs| - 1], chunkIndex, used)
      + (if last.Some? && OnPage(last.value, chunkIndex, used) then [last.value] else [])
  }

  /** `findImagesByPage`: the images, in order, that are not null, not used and on the
      chunk's page; a null list gives none. */
  function FindImagesByPage(all: Option<seq<Option<StoredImage>>>, chunkIndex: int, used: set<Option<string>>)
    : (r: seq<StoredImage>)
    ensures forall x :: x in r <==> all.Some? && Some(x) in all.value && OnPage(x, chunkIndex, used)
    ensures all.Some? ==> |r| <= |all.value|
  {
    if all.None? then [] else ImagesOnPage(all.value, chunkIndex, used)
  }

  lemma ImagesOnPageSnoc(a: seq<Option<StoredImage>>, x: Option<StoredImage>, chunkIndex: int, used: set<Option<string>>)
    ensures ImagesOnPage(a + [x], chunkIndex, used)
            == ImagesOnPage(a, chunkIndex, used) + (if x.Some? && OnPage(x.value, chunkIndex, used) then [x.value] else [])
  {
    assert (a + [x])[..|a|] == a;
  }

  /** The lookup keeps the list's order: what it returns for two lists joined is what it
      returns for the first followed by what it returns for the second. */
  lemma {:induction false} FindImagesByPageAppend(a: seq<Option<StoredImage>>, b: seq<Option<StoredImage>>,
                                                  chunkIndex: int, used: set<Option<string>>)
    ensures FindImagesByPage(Some(a + b), chunkIndex, used)
            == FindImagesByPage(Some(a), chunkIndex, used) + FindImagesByPage(Some(b), chunkIndex, used)
    decreases |b|
  {
    if b == [] {
      assert a + b == a;
    } else {
      var b' := b[..|b| - 1];
      var x := b[|b| - 1];
      assert b == b' + [x];
      assert a + b == (a + b') + [x];
      FindImagesByPageAppend(a, b', chunkIndex, used);
      ImagesOnPageSnoc(a + b', x, chunkIndex, used);
      ImagesOnPageSnoc(b', x, chunkIndex, used);
    }
  }

  // ---------------------------------------------------------------------------
  // mergeSearchResults

  /** The fields of a search result the merge reads or that tell results apart. */
  datatype SearchResult = SearchResult(resultId: Option<string>, chunkId: Option<string>, text: Option<string>, score: real)

  /** The chunk ids of a list of results. */
  function Keys(rs: seq<SearchResult>): seq<Option<string>> {
    seq(|rs|, i requires 0 <= i < |rs| => rs[i].chunkId)
  }

  /** The entry holding key `k` in a `LinkedHashMap` kept as its entries in insertion order. */
  function KeyIndex(es: seq<SearchResult>, k: Option<string>): (r: Option<nat>)
    ensures r.Some? ==> r.value < |es| && es[r.value].chunkId == k
    ensures r.None? <==> k !in Keys(es)
  {
    if es == [] then None
    else
      assert Keys(es) == [es[0].chunkId] + Keys(es[1..]);
      if es[0].chunkId == k then Some(0)
      else
        match KeyIndex(es[1..], k)
        case Some(i) => Some(i + 1)
        case None => None
  }

  /** `put`: an existing key keeps its place and takes the new value; a new key goes last. */
  function Put(es: seq<SearchResult>, r: SearchResult): seq<SearchResult> {
    match KeyIndex(es, r.chunkId)
    case Some(i) => es[i := r]
    case None => es + [r]
  }

  /** The first loop: every text result that reaches the threshold is put. */
  function PutTexts(rs: seq<SearchResult>, threshold: real): seq<SearchResult>
    decreases |rs|
  {
    if rs == [] then []
    else
      var es := PutTexts(rs[..|rs| - 1], threshold);
      var r := rs[|rs| - 1];
      if r.score >= threshold then Put(es, r) else es
  }

  /** The second loop: an image result that reaches the threshold is added only for a
      chunk id not yet present. */
  function AddImages(es: seq<SearchResult>, rs: seq<SearchResult>, threshold: real): seq<SearchResult>
    decreases |rs|
  {
    if rs == [] then es
    else
      var prev := AddImages(es, rs[..|rs| - 1], threshold);
      var r := rs[|rs| - 1];
      if r.score >= threshold && KeyIndex(prev, r.chunkId).None? then prev + [r] else prev
  }

  /** `mergeSearchResults`: the values of the map in insertion order. */
  function MergeSearchResults(texts: seq<SearchResult>, images: seq<SearchResult>, threshold: real): seq<SearchResult> {
    AddImages(PutTexts(texts, threshold), images, threshold)
  }

  // Reference definitions

  /** The chunk ids of the results that reach the threshold, in order. */
  function PassingKeys(rs: seq<SearchResult>, threshold: real): seq<Option<string>>
    decreases |rs|
  {
    if rs == [] then []
    else
      var last := rs[|rs| - 1];
      PassingKeys(rs[..|rs| - 1], threshold) + (if last.score >= threshold then [last.chunkId] else [])
  }

  /** The keys in order of first appearance. */
  function Dedup(ks: seq<Option<string>>): (d: seq<Option<string>>)
    ensures forall k :: k in d <==> k in ks
    ensures forall i, j :: 0 <= i < j < |d| ==> d[i] != d[j]
    decreases |ks|
  {
    if ks == [] then []
    else
      var last := ks[|ks| - 1];
      assert ks == ks[..|ks| - 1] + [last];
      var d := Dedup(ks[..|ks| - 1]);
      if last in ks[..|ks| - 1] then d else d + [last]
  }

  lemma PassingKeysAppend(rs: seq<SearchResult>, r: SearchResult, threshold: real)
    ensures PassingKeys(rs + [r], threshold)
            == PassingKeys(rs, threshold) + (if r.score >= threshold then [r.chunkId] else [])
  {
    assert (rs + [r])[..|rs|] == rs;
  }

  /** A passing result's chunk id is among the passing keys. */
  lemma {:induction false} PassingKeysHas(rs: seq<SearchResult>, threshold: real, t: SearchResult)
    requires t in rs && t.score >= threshold
    ensures t.chunkId in PassingKeys(rs, threshold)
    decreases |rs|
  {
    var init := rs[..|rs| - 1];
    assert rs == init + [rs[|rs| - 1]];
    if t != rs[|rs| - 1] {
      PassingKeysHas(init, threshold, t);
    }
  }

  lemma DedupAppend(ks: seq<Option<string>>, k: Option<string>)
    ensures Dedup(ks + [k]) == if k in ks then Dedup(ks) else Dedup(ks) + [k]
  {
    assert (ks + [k])[..|ks|] == ks;
  }

  /** The last result that reaches the threshold with chunk id `k`. */
  function LastWith(rs: seq<SearchResult>, threshold: real, k: Option<string>): (r: Option<SearchResult>)
    ensures r.Some? <==> k in PassingKeys(rs, threshold)
    ensures r.Some? ==> r.value in rs && r.value.score >= threshold && r.value.chunkId == k
    decreases |rs|
  {
    if rs == [] then None
    else
      var last := rs[|rs| - 1];
      var init := rs[..|rs| - 1];
      assert rs == init + [last];
      PassingKeysAppend(init, last, threshold);
      if last.score >= threshold && last.chunkId == k then Some(last) else LastWith(init, threshold, k)
  }

  /** The first result that reaches the threshold with chunk id `k`. */
  function FirstWith(rs: seq<SearchResult>, threshold: real, k: Option<string>): (r: Option<SearchResult>)
    ensures r.Some? <==> k in PassingKeys(rs, threshold)
    ensures r.Some? ==> r.value in rs && r.value.score >= threshold && r.value.chunkId == k
    decreases |rs|
  {
    if rs == [] then None
    else
      var last := rs[|rs| - 1];
      var init := rs[..|rs| - 1];
      assert rs == init + [last];
      PassingKeysAppend(init, last, threshold);
      var f := FirstWith(init, threshold, k);
      if f.Some? then f else if last.score >= threshold && last.chunkId == k then Some(last) else None
  }

  /** Which result a chunk id ends with: the last passing text result, else the first
      passing image result. */
  function Winner(texts: seq<SearchResult>, images: seq<SearchResult>, threshold: real, k: Option<string>)
    : Option<SearchResult>
  {
    var t := LastWith(texts, threshold, k);
    if t.Some? then t else FirstWith(images, threshold, k)
  }

  lemma LastWithSnoc(rs: seq<SearchResult>, r: SearchResult, threshold: real, k: Option<string>)
    ensures LastWith(rs + [r], threshold, k)
            == if r.score >= threshold && r.chunkId == k then Some(r) else LastWith(rs, threshold, k)
  {
    assert (rs + [r])[..|rs|] == rs;
  }

  lemma FirstWithSnoc(rs: seq<SearchResult>, r: SearchResult, threshold: real, k: Option<string>)
    ensures FirstWith(rs + [r], threshold, k)
            == if FirstWith(rs, threshold, k).Some? then FirstWith(rs, threshold, k)
               else if r.score >= threshold && r.chunkId == k then Some(r) else None
  {
    assert (rs + [r])[..|rs|] == rs;
  }

  lemma KeysSnoc(es: seq<SearchResult>, r: SearchResult)
    ensures Keys(es + [r]) == Keys(es) + [r.chunkId]
  {
  }

  lemma KeysUpdate(es: seq<SearchResult>, i: nat, r: SearchResult)
    requires i < |es| && es[i].chunkId == r.chunkId
    ensures Keys(es[i := r]) == Keys(es)
  {
  }

  /** The chunk ids of the map after the text results `rs`: each passing one once, in
      order of first appearance. */
  predicate TextKeys(es: seq<SearchResult>, rs: seq<SearchResult>, threshold: real) {
    Keys(es) == Dedup(PassingKeys(rs, threshold))
  }

  /** The values of the map after the text results `rs`: the last passing text result
      for each chunk id. */
  predicate TextValues(es: seq<SearchResult>, rs: seq<SearchResult>, threshold: real) {
    forall i :: 0 <= i < |es| ==> LastWith(rs, threshold, es[i].chunkId) == Some(es[i])
  }

  /** One `put` of a passing text result keeps `TextKeys`. */
  lemma PutStepKeys(es: seq<SearchResult>, rs: seq<SearchResult>, r: SearchResult, threshold: real)
    requires TextKeys(es, rs, threshold) && r.score >= threshold
    ensures TextKeys(Put(es, r), rs + [r], threshold)
  {
    var K := PassingKeys(rs, threshold);
    PassingKeysAppend(rs, r, threshold);
    DedupAppend(K, r.chunkId);
    match KeyIndex(es, r.chunkId)
    case Some(i) =>
      KeysUpdate(es, i, r);
    case None =>
      KeysSnoc(es, r);
  }

  /** One `put` of a passing text result keeps `TextValues`. */
  lemma PutStepValues(es: seq<SearchResult>, rs: seq<SearchResult>, r: SearchResult, threshold: real)
    requires TextKeys(es, rs, threshold) && TextValues(es, rs, threshold) && r.score >= threshold
    ensures TextValues(Put(es, r), rs + [r], threshold)
  {
    var out := Put(es, r);
    forall j | 0 <= j < |out|
      ensures LastWith(rs + [r], threshold, out[j].chunkId) == Some(out[j])
    {
      LastWithSnoc(rs, r, threshold, out[j].chunkId);
      match KeyIndex(es, r.chunkId)
      case Some(i) =>
        if j != i {
          assert Keys(es)[j] != Keys(es)[i];
        }
      case None =>
        if j < |es| {
          assert Keys(es)[j] in Keys(es);
        }
    }
  }

  /** After the first loop the map holds each passing chunk id once, in order of first
      appearance, with the last passing text result for it. */
  lemma {:induction false} PutTextsSpec(rs: seq<SearchResult>, threshold: real)
    ensures TextKeys(PutTexts(rs, threshold), rs, threshold)
    ensures TextValues(PutTexts(rs, threshold), rs, threshold)
    decreases |rs|
  {
    if rs != [] {
      var init := rs[..|rs| - 1];
      var r := rs[|rs| - 1];
      assert rs == init + [r];
      PutTextsSpec(init, threshold);
      var es := PutTexts(init, threshold);
      if r.score >= threshold {
        assert PutTexts(rs, threshold) == Put(es, r);
        PutStepKeys(es, init, r, threshold);
        PutStepValues(es, init, r, threshold);
      } else {
        assert PutTexts(rs, threshold) == es;
        PassingKeysAppend(init, r, threshold);
        assert PassingKeys(init, threshold) + [] == PassingKeys(init, threshold);
        forall i | 0 <= i < |es|
          ensures LastWith(rs, threshold, es[i].chunkId) == Some(es[i])
        {
          LastWithSnoc(init, r, threshold, es[i].chunkId);
        }
      }
    }
  }

  /** The chunk ids after the image results `rs`, started from a map holding the keys `K`
      once each: those of `K + ` the passing image keys, once each, in order. */
  predicate ImageKeys(out: seq<SearchResult>, K: seq<Option<string>>, rs: seq<SearchResult>, threshold: real) {
    Keys(out) == Dedup(K + PassingKeys(rs, threshold))
  }

  /** The values after the image results `rs`, started from `es`: `es` untouched, then
      for each new chunk id the first passing image result for it. */
  predicate ImageValues(out: seq<SearchResult>, es: seq<SearchResult>, K: seq<Option<string>>,
                        rs: seq<SearchResult>, threshold: real) {
    && |es| <= |out| && out[..|es|] == es
    && forall i :: |es| <= i < |out| ==>
         out[i].chunkId !in K && FirstWith(rs, threshold, out[i].chunkId) == Some(out[i])
  }

  /** One image result keeps `ImageKeys`. */
  lemma AddStepKeys(prev: seq<SearchResult>, K: seq<Option<string>>, rs: seq<SearchResult>, r: SearchResult, threshold: real)
    requires ImageKeys(prev, K, rs, threshold)
    ensures ImageKeys(if r.score >= threshold && KeyIndex(prev, r.chunkId).None? then prev + [r] else prev,
                      K, rs + [r], threshold)
  {
    var KP := PassingKeys(rs, threshold);
    PassingKeysAppend(rs, r, threshold);
    if r.score >= threshold {
      assert K + PassingKeys(rs + [r], threshold) == (K + KP) + [r.chunkId];
      DedupAppend(K + KP, r.chunkId);
      KeysSnoc(prev, r);
    } else {
      assert K + PassingKeys(rs + [r], threshold) == K + KP;
    }
  }

  /** One image result keeps `ImageValues`. */
  lemma AddStepValues(prev: seq<SearchResult>, es: seq<SearchResult>, K: seq<Option<string>>,
                      rs: seq<SearchResult>, r: SearchResult, threshold: real)
    requires ImageKeys(prev, K, rs, threshold) && ImageValues(prev, es, K, rs, threshold)
    ensures ImageValues(if r.score >= threshold && KeyIndex(prev, r.chunkId).None? then prev + [r] else prev,
                        es, K, rs + [r], threshold)
  {
    var out := if r.score >= threshold && KeyIndex(prev, r.chunkId).None? then prev + [r] else prev;
    assert out[..|es|] == prev[..|es|];
    forall i | |es| <= i < |out|
      ensures out[i].chunkId !in K && FirstWith(rs + [r], threshold, out[i].chunkId) == Some(out[i])
    {
      FirstWithSnoc(rs, r, threshold, out[i].chunkId);
      if i == |prev| {
        assert r.chunkId !in Keys(prev);
        assert r.chunkId !in K + PassingKeys(rs, threshold);
      }
    }
  }

  /** The second loop adds each new passing chunk id once, in order of first appearance,
      with the first passing image result for it, and leaves earlier entries alone. */
  lemma {:induction false} AddImagesSpec(es: seq<SearchResult>, K: seq<Option<string>>, rs: seq<SearchResult>, threshold: real)
    requires Keys(es) == Dedup(K)
    ensures ImageKeys(AddImages(es, rs, threshold), K, rs, threshold)
    ensures ImageValues(AddImages(es, rs, threshold), es, K, rs, threshold)
    decreases |rs|
  {
    if rs == [] {
      assert K + PassingKeys(rs, threshold) == K;
      assert es[..|es|] == es;
    } else {
      var init := rs[..|rs| - 1];
      var r := rs[|rs| - 1];
      assert rs == init + [r];
      AddImagesSpec(es, K, init, threshold);
      var prev := AddImages(es, init, threshold);
      AddStepKeys(prev, K, init, r, threshold);
      AddStepValues(prev, es, K, init, r, threshold);
    }
  }

  /** The merge: one result per chunk id that some passing result has, in order of first
      appearance among the text results and then the image results, each being the last
      passing text result for it or, when there is none, the first passing image result. */
  lemma MergeSearchResultsSpec(texts: seq<SearchResult>, images: seq<SearchResult>, threshold: real)
    ensures var out := MergeSearchResults(texts, images, threshold);
            && Keys(out) == Dedup(PassingKeys(texts, threshold) + PassingKeys(images, threshold))
            && forall i :: 0 <= i < |out| ==> Winner(texts, images, threshold, out[i].chunkId) == Some(out[i])
  {
    var es := PutTexts(texts, threshold);
    var K := PassingKeys(texts, threshold);
    PutTextsSpec(texts, threshold);
    AddImagesSpec(es, K, images, threshold);
    var out := MergeSearchResults(texts, images, threshold);
    forall i | 0 <= i < |out|
      ensures Winner(texts, images, threshold, out[i].chunkId) == Some(out[i])
    {
      if i < |es| {
        assert out[i] == out[..|es|][i];
      }
    }
  }

  /** So every merged result reaches the threshold and comes from one of the two lists,
      chunk ids are distinct, and a text result beats an image result with the same
      chunk id. */
  lemma MergeSearchResultsProperties(texts: seq<SearchResult>, images: seq<SearchResult>, threshold: real)
    ensures var out := MergeSearchResults(texts, images, threshold);
            && (forall i :: 0 <= i < |out| ==> out[i].score >= threshold && (out[i] in texts || out[i] in images))
            && (forall i, j :: 0 <= i < j < |out| ==> out[i].chunkId != out[j].chunkId)
            && (forall i, t :: 0 <= i < |out| && t in texts && t.score >= threshold && t.chunkId == out[i].chunkId
                  ==> out[i] in texts)
  {
    MergeSearchResultsSpec(texts, images, threshold);
    var out := MergeSearchResults(texts, images, threshold);
    forall i, j | 0 <= i < j < |out|
      ensures out[i].chunkId != out[j].chunkId
    {
      assert Keys(out)[i] != Keys(out)[j];
    }
    forall i, t | 0 <= i < |out| && t in texts && t.score >= threshold && t.chunkId == out[i].chunkId
      ensures out[i] in texts
    {
      PassingKeysHas(texts, threshold, t);
    }
  }
}
