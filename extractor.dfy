/**
 `extractImageUrls`: the candidate image URLs of one category page. The jsoup
 selections are inputs: the `src` of every gallery image, and the `href` of
 every "File:" link. Fetching a file's description page and reading its full
 image link is the function `fullImageLinkOf`, which gives "" when the fetch
 or the parse fails (the source catches every such error).
 */
module Extractor {
  import opened Urls

  predicate NoDuplicates<T(==)>(s: seq<T>) {
    forall i, j :: 0 <= i < j < |s| ==> s[i] != s[j]
  }

  /** The index of the first occurrence of `x` in `s`. */
  function IndexOf<T(==)>(s: seq<T>, x: T): (k: nat)
    requires x in s
    ensures k < |s| && s[k] == x && x !in s[..k]
  {
    if s[0] == x then 0 else 1 + IndexOf(s[1..], x)
  }

  /**
   Kotlin's `distinct()`: each element once, at the place it is first seen. The
   result has no duplicates, the same elements as the input, and keeps the
   order of first occurrences (see DistinctKeepsFirstSeenOrder).
   */
  function Distinct<T(==)>(s: seq<T>): (r: seq<T>)
    ensures NoDuplicates(r)
    ensures forall i :: 0 <= i < |r| ==> r[i] in s
    ensures forall i :: 0 <= i < |s| ==> s[i] in r
    ensures |r| <= |s|
    decreases |s|
  {
    if s == [] then []
    else
      var d := Distinct(s[..|s| - 1]);
      var x := s[|s| - 1];
      if x in d then d else d + [x]
  }

  /** First occurrences in `s + [x]` of elements of `s` are those in `s`. */
  lemma IndexOfExtend<T>(s: seq<T>, x: T, y: T)
    requires y in s
    ensures IndexOf(s + [x], y) == IndexOf(s, y)
  {
    var k := IndexOf(s, y);
    var k' := IndexOf(s + [x], y);
    assert (s + [x])[k] == y;
    assert (s + [x])[..k] == s[..k];
  }

  /** `distinct()` keeps first-seen order: earlier in the result means seen earlier in the input. */
  lemma {:induction false} DistinctKeepsFirstSeenOrder<T>(s: seq<T>, i: nat, j: nat)
    requires i < j < |Distinct(s)|
    ensures IndexOf(s, Distinct(s)[i]) < IndexOf(s, Distinct(s)[j])
    decreases |s|
  {
    var init := s[..|s| - 1];
    var x := s[|s| - 1];
    var d := Distinct(init);
    assert s == init + [x];
    if j < |d| {
      DistinctKeepsFirstSeenOrder(init, i, j);
      IndexOfExtend(init, x, d[i]);
      IndexOfExtend(init, x, d[j]);
    } else {
      assert x !in init;
      IndexOfExtend(init, x, d[i]);
      var k := IndexOf(s, x);
      assert s[..|s| - 1] == init;
      assert k == |s| - 1;
    }
  }

  /** Removing duplicates from a list that has none changes nothing. */
  lemma {:induction false} DistinctOfNoDuplicates<T>(s: seq<T>)
    requires NoDuplicates(s)
    ensures Distinct(s) == s
    decreases |s|
  {
    if s != [] {
      var init := s[..|s| - 1];
      DistinctOfNoDuplicates(init);
      assert s[|s| - 1] !in init;
      assert init + [s[|s| - 1]] == s;
    }
  }

  /** `distinct()` is idempotent. */
  lemma DistinctIdempotent<T>(s: seq<T>)
    ensures Distinct(Distinct(s)) == Distinct(s)
  {
    DistinctOfNoDuplicates(Distinct(s));
  }

  /**
   What is seen first stays first: the deduplicated `a` is the start of the
   deduplicated `a + b`.
   */
  lemma {:induction false} DistinctPrefix<T>(a: seq<T>, b: seq<T>)
    ensures Distinct(a) <= Distinct(a + b)
    decreases |b|
  {
    if b == [] {
      assert a + b == a;
    } else {
      var b' := b[..|b| - 1];
      DistinctPrefix(a, b');
      assert (a + b)[..|a + b| - 1] == a + b';
    }
  }

  /**
   The gallery loop's additions: for each non-empty `src`, its full-size
   rewrite `fullSize(src)` when that passes the size filter, in input order.
   `ExtractImageUrls` passes `FullSizeImageUrl`; keeping it a parameter here
   keeps the rewrite's definition out of the list reasoning.
   */
  function GalleryCandidates(srcs: seq<string>, fullSize: string -> string): (r: seq<string>)
    ensures forall u :: u in r ==> u != "" && IsTargetSize(u)
    ensures forall i :: 0 <= i < |srcs| && srcs[i] != "" && IsTargetSize(fullSize(srcs[i])) ==>
      fullSize(srcs[i]) in r
    decreases |srcs|
  {
    if srcs == [] then []
    else
      var init := GalleryCandidates(srcs[..|srcs| - 1], fullSize);
      var src := srcs[|srcs| - 1];
      var url := fullSize(src);
      assert forall i :: 0 <= i < |srcs| - 1 ==> srcs[..|srcs| - 1][i] == srcs[i];
      if src != "" && IsTargetSize(url) then
        TargetSizeNonEmpty(url);
        init + [url]
      else init
  }

  /** Every gallery candidate is the rewrite of some non-empty gallery `src`. */
  lemma {:induction false} GalleryCandidateOrigin(srcs: seq<string>, fullSize: string -> string, u: string)
    requires u in GalleryCandidates(srcs, fullSize)
    ensures exists i :: 0 <= i < |srcs| && srcs[i] != "" && u == fullSize(srcs[i])
    decreases |srcs|
  {
    var n := |srcs| - 1;
    if u in GalleryCandidates(srcs[..n], fullSize) {
      GalleryCandidateOrigin(srcs[..n], fullSize, u);
      var i :| 0 <= i < n && srcs[..n][i] != "" && u == fullSize(srcs[..n][i]);
      assert srcs[..n][i] == srcs[i];
    } else {
      assert srcs[n] != "" && u == fullSize(srcs[n]);
    }
  }

  /**
   The file-link loop's additions: for each non-empty `href`, the full image
   link found on its (resolved) description page, when non-empty and passing
   the size filter, in input order.
   */
  function FileCandidates(hrefs: seq<string>, fullImageLinkOf: string -> string): (r: seq<string>)
    ensures forall u :: u in r ==> u != "" && IsTargetSize(u)
    ensures forall i :: 0 <= i < |hrefs| && hrefs[i] != "" ==>
      var url := fullImageLinkOf(ResolveHref(hrefs[i]));
      url != "" && IsTargetSize(url) ==> url in r
    decreases |hrefs|
  {
    if hrefs == [] then []
    else
      var init := FileCandidates(hrefs[..|hrefs| - 1], fullImageLinkOf);
      var href := hrefs[|hrefs| - 1];
      assert forall i :: 0 <= i < |hrefs| - 1 ==> hrefs[..|hrefs| - 1][i] == hrefs[i];
      if href != "" then
        var url := fullImageLinkOf(ResolveHref(href));
        if url != "" && IsTargetSize(url) then init + [url] else init
      else init
  }

  /** Every file-link candidate is the full image link of some non-empty file `href`. */
  lemma {:induction false} FileCandidateOrigin(hrefs: seq<string>, fullImageLinkOf: string -> string, u: string)
    requires u in FileCandidates(hrefs, fullImageLinkOf)
    ensures exists i :: 0 <= i < |hrefs| && hrefs[i] != "" && u == fullImageLinkOf(ResolveHref(hrefs[i]))
    decreases |hrefs|
  {
    var n := |hrefs| - 1;
    if u in FileCandidates(hrefs[..n], fullImageLinkOf) {
      FileCandidateOrigin(hrefs[..n], fullImageLinkOf, u);
      var i :| 0 <= i < n && hrefs[..n][i] != "" && u == fullImageLinkOf(ResolveHref(hrefs[..n][i]));
      assert hrefs[..n][i] == hrefs[i];
    } else {
      assert hrefs[n] != "" && u == fullImageLinkOf(ResolveHref(hrefs[n]));
    }
  }

  /** One more gallery `src` adds its rewrite when that is a candidate, and nothing else. */
  lemma GalleryCandidatesStep(srcs: seq<string>, i: nat, fullSize: string -> string)
    requires i < |srcs|
    ensures GalleryCandidates(srcs[..i + 1], fullSize) ==
      GalleryCandidates(srcs[..i], fullSize) +
      (if srcs[i] != "" && IsTargetSize(fullSize(srcs[i])) then [fullSize(srcs[i])] else [])
  {
    assert srcs[..i + 1][..i] == srcs[..i];
  }

  /** One more file `href` adds its full image link when that is a candidate, and nothing else. */
  lemma FileCandidatesStep(hrefs: seq<string>, i: nat, fullImageLinkOf: string -> string)
    requires i < |hrefs|
    ensures FileCandidates(hrefs[..i + 1], fullImageLinkOf) ==
      FileCandidates(hrefs[..i], fullImageLinkOf) +
      (if hrefs[i] != "" && fullImageLinkOf(ResolveHref(hrefs[i])) != "" && IsTargetSize(fullImageLinkOf(ResolveHref(hrefs[i])))
       then [fullImageLinkOf(ResolveHref(hrefs[i]))] else [])
  {
    assert hrefs[..i + 1][..i] == hrefs[..i];
  }

  /**
   The deduplicated candidate list, gallery candidates `g` first and file-link
   candidates `f` after: no duplicates, every element non-empty and passing the
   size filter, and the deduplicated gallery candidates at its start.
   */
  lemma DistinctCandidates(g: seq<string>, f: seq<string>)
    requires forall u :: u in g ==> u != "" && IsTargetSize(u)
    requires forall u :: u in f ==> u != "" && IsTargetSize(u)
    ensures NoDuplicates(Distinct(g + f))
    ensures forall u :: u in Distinct(g + f) ==> u != "" && IsTargetSize(u)
    ensures Distinct(g) <= Distinct(g + f)
  {
    DistinctPrefix(g, f);
    forall u | u in Distinct(g + f) ensures u != "" && IsTargetSize(u) {
      var i :| 0 <= i < |Distinct(g + f)| && Distinct(g + f)[i] == u;
      assert u in g + f;
    }
  }

  /**
   `extractImageUrls`: both loops append to one list, gallery images first,
   which is then deduplicated. The result has no duplicates, every element is
   non-empty and passes the size filter, the deduplicated gallery candidates
   come first, and nothing else is in it.
   */
  method ExtractImageUrls(gallerySrcs: seq<string>, fileHrefs: seq<string>, fullImageLinkOf: string -> string)
    returns (imageUrls: seq<string>)
    ensures imageUrls == Distinct(GalleryCandidates(gallerySrcs, FullSizeImageUrl) + FileCandidates(fileHrefs, fullImageLinkOf))
    ensures NoDuplicates(imageUrls)
    ensures forall u :: u in imageUrls ==> u != "" && IsTargetSize(u)
    ensures Distinct(GalleryCandidates(gallerySrcs, FullSizeImageUrl)) <= imageUrls
  {
    var fullSize := FullSizeImageUrl;
    var found: seq<string> := [];
    for i := 0 to |gallerySrcs|
      invariant found == GalleryCandidates(gallerySrcs[..i], fullSize)
    {
      var src := gallerySrcs[i];
      GalleryCandidatesStep(gallerySrcs, i, fullSize);
      if src != "" {
        var fullSizeUrl := fullSize(src);
        if IsTargetSize(fullSizeUrl) {
          found := found + [fullSizeUrl];
        }
      }
    }
    assert gallerySrcs[..|gallerySrcs|] == gallerySrcs;
    var gallery := found;
    for i := 0 to |fileHrefs|
      invariant found == gallery + FileCandidates(fileHrefs[..i], fullImageLinkOf)
    {
      var href := fileHrefs[i];
      FileCandidatesStep(fileHrefs, i, fullImageLinkOf);
      if href != "" {
        var filePageUrl := ResolveHref(href);
        var imageUrl := fullImageLinkOf(filePageUrl);
        if imageUrl != "" && IsTargetSize(imageUrl) {
          found := found + [imageUrl];
        }
      }
    }
    assert fileHrefs[..|fileHrefs|] == fileHrefs;
    imageUrls := Distinct(found);
    DistinctCandidates(gallery, FileCandidates(fileHrefs, fullImageLinkOf));
  }
}
