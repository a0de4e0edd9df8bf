/**
 `getNextPageUrl`: the URL of the next category page, or "" when there is
 none. The two jsoup selections are inputs: the anchors matched by the
 "next"-text and `.mw-nextlink` selector, and the anchors inside the category
 pagination block, each in document order.
 */
module Pagination {
  import opened Text
  import opened Urls

  /** An anchor as the resolver reads it: its `href` attribute, its text and its class names. */
  datatype Link = Link(href: string, text: string, classes: seq<string>)

  /** The class that marks a "previous page" link. */
  const PrevLinkClass: string := "mw-prevlink"

  /** The words a pagination anchor's text is searched for. */
  const NextWord: string := "next"
  const NextWordJa: string := "\U{6B21}"

  /** jsoup's `hasClass`, which compares class names ignoring case. */
  predicate HasClass(link: Link, name: string) {
    exists i :: 0 <= i < |link.classes| && EqualsIgnoreCase(link.classes[i], name)
  }

  /** The first search's test: a non-empty href on an anchor not marked as the previous-page link. */
  predicate IsForwardLink(link: Link) {
    link.href != "" && !HasClass(link, PrevLinkClass)
  }

  /** The second search's test: the trimmed text contains "next" (ignoring case) or the Japanese "next". */
  predicate IsPaginationNext(link: Link) {
    var text := Trim(link.text);
    ContainsIgnoreCase(text, NextWord) || ContainsIgnoreCase(text, NextWordJa)
  }

  /** `links[i]` is the first anchor that passes IsForwardLink. */
  predicate IsFirstForwardLink(links: seq<Link>, i: int) {
    0 <= i < |links| && IsForwardLink(links[i]) && forall k :: 0 <= k < i ==> !IsForwardLink(links[k])
  }

  /** `links[j]` is the first anchor that passes IsPaginationNext. */
  predicate IsFirstPaginationNext(links: seq<Link>, j: int) {
    0 <= j < |links| && IsPaginationNext(links[j]) && forall k :: 0 <= k < j ==> !IsPaginationNext(links[k])
  }

  /** No anchor of `links` passes IsForwardLink. */
  predicate NoForwardLink(links: seq<Link>) {
    forall k :: 0 <= k < |links| ==> !IsForwardLink(links[k])
  }

  /** No anchor of `links` passes IsPaginationNext. */
  predicate NoPaginationNext(links: seq<Link>) {
    forall k :: 0 <= k < |links| ==> !IsPaginationNext(links[k])
  }

  /** Only one anchor can be the first to pass IsForwardLink. */
  lemma FirstForwardLinkUnique(links: seq<Link>, i: int)
    requires IsFirstForwardLink(links, i)
    ensures forall i' :: IsFirstForwardLink(links, i') ==> i' == i
  {
  }

  /** Only one anchor can be the first to pass IsPaginationNext. */
  lemma FirstPaginationNextUnique(links: seq<Link>, j: int)
    requires IsFirstPaginationNext(links, j)
    ensures forall j' :: IsFirstPaginationNext(links, j') ==> j' == j
  {
  }

  /**
   Trimming the anchor text before the search makes no difference: neither
   word can match a whitespace character.
   */
  lemma PaginationNextIgnoresTrim(link: Link)
    ensures IsPaginationNext(link) <==>
      ContainsIgnoreCase(link.text, NextWord) || ContainsIgnoreCase(link.text, NextWordJa)
  {
    TrimKeepsContainsIgnoreCase(link.text, NextWord);
    TrimKeepsContainsIgnoreCase(link.text, NextWordJa);
  }

  /**
   `getNextPageUrl`. When some anchor of the first selection passes
   IsForwardLink, the result is the resolved href of the first such anchor and
   the pagination block is not consulted. Otherwise it is the resolved href of
   the first pagination anchor that passes IsPaginationNext; that href is not
   checked, so an empty one gives the base URL. The result is "" exactly when
   neither search finds an anchor, and is an absolute URL otherwise.
   */
  method GetNextPageUrl(nextLinks: seq<Link>, paginationLinks: seq<Link>) returns (url: string)
    ensures url == "" <==> NoForwardLink(nextLinks) && NoPaginationNext(paginationLinks)
    ensures url != "" ==> IsAbsolute(url)
    ensures forall i :: IsFirstForwardLink(nextLinks, i) ==> url == ResolveHref(nextLinks[i].href)
    ensures NoForwardLink(nextLinks) ==>
      forall j :: IsFirstPaginationNext(paginationLinks, j) ==> url == ResolveHref(paginationLinks[j].href)
  {
    for i := 0 to |nextLinks|
      invariant forall k :: 0 <= k < i ==> !IsForwardLink(nextLinks[k])
    {
      var link := nextLinks[i];
      var href := link.href;
      if href != "" && !HasClass(link, PrevLinkClass) {
        assert IsFirstForwardLink(nextLinks, i);
        FirstForwardLinkUnique(nextLinks, i);
        return ResolveHref(href);
      }
    }
    assert NoForwardLink(nextLinks);
    assert forall i :: !IsFirstForwardLink(nextLinks, i);

    for j := 0 to |paginationLinks|
      invariant forall k :: 0 <= k < j ==> !IsPaginationNext(paginationLinks[k])
    {
      var link := paginationLinks[j];
      var text := Trim(link.text);
      if ContainsIgnoreCase(text, NextWord) || ContainsIgnoreCase(text, NextWordJa) {
        var href := link.href;
        assert IsFirstPaginationNext(paginationLinks, j);
        FirstPaginationNextUnique(paginationLinks, j);
        return ResolveHref(href);
      }
    }
    assert NoPaginationNext(paginationLinks);
    assert forall j :: !IsFirstPaginationNext(paginationLinks, j);
    return "";
  }
}
