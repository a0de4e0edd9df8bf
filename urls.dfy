/**
 The URL logic of `ArknightsImageDownloader`: resolving a site-relative href
 against the wiki's base URL, the resolution filter that selects candidate
 images, and the rewrite from a thumbnail URL to the full-size image URL.
 */
module Urls {
  import opened Text

  /** The wiki every relative href is resolved against. */
  const BaseUrl: string := "https://arknights.wiki.gg"

  /** The resolution the downloader is after, as it appears in file names. */
  const TargetSize: string := "1024x576"

  /** The path segment that marks a thumbnail URL. */
  const Thumb: string := "/thumb/"

  /** `href.startsWith("http")`: the test the downloader uses for an absolute URL. */
  predicate IsAbsolute(href: string)
    ensures IsAbsolute(href) ==> |href| >= 4 && href[0] == 'h'
  {
    "http" <= href
  }

  /**
   `if (href.startsWith("http")) href else baseUrl + href`. The result is
   always absolute, keeps `href` as its tail, and an absolute `href` is its
   own resolution.
   */
  function ResolveHref(href: string): (r: string)
    ensures IsAbsolute(r)
    ensures r == href || r == BaseUrl + href
    ensures IsAbsolute(href) ==> r == href
  {
    if IsAbsolute(href) then href else BaseUrl + href
  }

  /** Resolving an already-resolved URL changes nothing. */
  lemma ResolveHrefIdempotent(href: string)
    ensures ResolveHref(ResolveHref(href)) == ResolveHref(href)
  {
  }

  /** The empty href resolves to the base URL itself. */
  lemma ResolveEmptyHref()
    ensures ResolveHref("") == BaseUrl
  {
    assert !IsAbsolute("");
    assert BaseUrl + "" == BaseUrl;
  }

  /** `isTargetSize`: the URL mentions the target resolution. */
  predicate IsTargetSize(url: string) {
    Contains(url, TargetSize) || (Contains(url, "1024") && Contains(url, "576"))
  }

  /** A URL that passes the filter has at least the four characters of "1024". */
  lemma TargetSizeNonEmpty(url: string)
    requires IsTargetSize(url)
    ensures |url| >= 4
  {
    IsTargetSizeIff(url);
  }

  /**
   Since `&&` binds tighter than `||`, the filter holds exactly when the URL
   contains both "1024" and "576": the "1024x576" alternative adds nothing.
   */
  lemma IsTargetSizeIff(url: string)
    ensures IsTargetSize(url) <==> Contains(url, "1024") && Contains(url, "576")
  {
    if Contains(url, TargetSize) {
      assert OccursAt(TargetSize, "1024", 0);
      assert OccursAt(TargetSize, "576", 5);
      ContainsTransitive(url, TargetSize, "1024");
      ContainsTransitive(url, TargetSize, "576");
    }
  }

  /** The number of ASCII digits at the start of `t`: the length of the longest match of `\d*`. */
  function LeadingDigits(t: string): (k: nat)
    ensures k <= |t|
    ensures AllDigits(t[..k])
    ensures k < |t| ==> !IsDigit(t[k])
    decreases |t|
  {
    if t != [] && IsDigit(t[0]) then
      var k := 1 + LeadingDigits(t[1..]);
      assert t[..k] == [t[0]] + t[1..][..k - 1];
      k
    else 0
  }

  /**
   The last path segment (after its slash) matches `\d+px-[^/]*`: one or more
   digits, then "px-", then anything. The digit run must be the maximal one,
   since 'p' is not a digit.
   */
  predicate IsSizeSegment(t: string)
    ensures IsSizeSegment(t) ==> |t| >= 4 && IsDigit(t[0])
  {
    var k := LeadingDigits(t);
    k > 0 && "px-" <= t[k..]
  }

  /** Every string of the form `digits + "px-" + n` is a size segment. */
  lemma {:induction false} SizeSegmentOf(d: string, n: string)
    requires |d| > 0 && AllDigits(d)
    ensures IsSizeSegment(d + "px-" + n)
  {
    var t := d + "px-" + n;
    var k := LeadingDigits(t);
    assert forall i :: 0 <= i < |d| ==> t[i] == d[i];
    assert t[|d|] == 'p';
    assert k == |d|;
    assert t[k..] == "px-" + n;
  }

  /** Every size segment has the form `digits + "px-" + n`, with a non-empty run of digits. */
  lemma SizeSegmentShape(t: string)
    requires IsSizeSegment(t)
    ensures var k := LeadingDigits(t);
      k > 0 && AllDigits(t[..k]) && t == t[..k] + "px-" + t[k + 3..]
  {
    var k := LeadingDigits(t);
    assert t[k..] == "px-" + t[k + 3..];
    assert t == t[..k] + t[k..];
  }

  /**
   The second step of `getFullSizeImageUrl`: `replace(Regex("/\\d+px-[^/]*$"), "")`.
   Because `[^/]*` cannot cross a slash and must reach the end, a match can only
   start at the last slash. The result is a prefix of the input; what is cut off
   is exactly a final "/" + size segment; and when nothing is cut, no final
   segment is a size segment.
   */
  function StripSizeSuffix(s: string): (r: string)
    ensures r <= s
    ensures r != s ==> IsLastSlash(s, |r|) && IsSizeSegment(s[|r| + 1..])
    ensures r == s ==> forall j :: IsLastSlash(s, j) ==> !IsSizeSegment(s[j + 1..])
  {
    var j := LastIndexOf(s, '/');
    LastSlashUnique(s, j);
    if j >= 0 && IsSizeSegment(s[j + 1..]) then s[..j] else s
  }

  /** `s[j]` is a slash and no slash follows it. */
  predicate IsLastSlash(s: string, j: int) {
    0 <= j < |s| && s[j] == '/' && '/' !in s[j + 1..]
  }

  /** A slash with no slash after it is the one `lastIndexOf` finds. */
  lemma LastSlashUnique(s: string, last: int)
    requires last == LastIndexOf(s, '/')
    ensures forall j :: IsLastSlash(s, j) ==> j == last
  {
    forall j | IsLastSlash(s, j) ensures j == last {
    }
  }

  /**
   `getFullSizeImageUrl`: replace each leftmost, non-overlapping "/thumb/" by
   "/", scanning left to right (a new occurrence can form across a
   replacement), then strip a trailing "/<digits>px-<name>" segment. The result
   is a prefix of the first step's output and never longer than the input.
   */
  function FullSizeImageUrl(thumbnailUrl: string): (r: string)
    ensures r <= ReplaceAll(thumbnailUrl, Thumb, "/")
    ensures |r| <= |thumbnailUrl|
  {
    ReplaceAllShrinks(thumbnailUrl, Thumb, "/");
    StripSizeSuffix(ReplaceAll(thumbnailUrl, Thumb, "/"))
  }

  /** After its first character, `q + "/" + d + "px-" + n` has slashes only inside `q + "/"`. */
  lemma NoThumbInTail(q: string, d: string, n: string)
    requires |d| > 0 && AllDigits(d) && '/' !in n
    requires !Contains(q + "/", Thumb)
    ensures !Contains(q + "/" + d + "px-" + n, Thumb)
  {
    var t := q + "/" + d + "px-" + n;
    forall k | |q| < k < |t| ensures t[k] != '/' {
      if k <= |q| + |d| {
        assert t[k] == d[k - |q| - 1];
      } else if k > |q| + |d| + 3 {
        assert t[k] == n[k - |q| - |d| - 4];
      }
    }
    forall i | 0 <= i <= |t| - |Thumb| ensures !OccursAt(t, Thumb, i) {
      if i + |Thumb| <= |q| + 1 {
        assert t[i..i + |Thumb|] == (q + "/")[i..i + |Thumb|];
        assert !OccursAt(q + "/", Thumb, i);
      } else {
        assert t[i..i + |Thumb|][6] == t[i + 6];
      }
    }
  }

  /**
   The first step applied to `p + "/thumb/" + t` removes just the marked
   "/thumb/" when no other occurrence exists.
   */
  lemma {:induction false} DropMarkedThumb(p: string, t: string)
    requires !Contains(p + "/thumb", Thumb)
    requires !Contains(t, Thumb)
    ensures ReplaceAll(p + Thumb + t, Thumb, "/") == p + "/" + t
  {
    assert p + Thumb + t == p + (Thumb + t);
    forall i | 0 <= i < |p| ensures !OccursAt(p + (Thumb + t), Thumb, i) {
      assert (p + (Thumb + t))[i..i + |Thumb|] == (p + "/thumb")[i..i + |Thumb|];
      assert !OccursAt(p + "/thumb", Thumb, i);
    }
    ReplaceAllSkipsPrefix(p, Thumb + t, Thumb, "/");
    assert (Thumb + t)[|Thumb|..] == t;
    ReplaceAllNoMatch(t, Thumb, "/");
  }

  /** The second step cuts a final "/" + size segment off `h`. */
  lemma {:induction false} StripFinalSizeSegment(h: string, d: string, n: string)
    requires |d| > 0 && AllDigits(d) && '/' !in n
    ensures StripSizeSuffix(h + "/" + d + "px-" + n) == h
  {
    var seg := d + "px-" + n;
    var s := h + "/" + d + "px-" + n;
    var j := |h|;
    assert s == h + "/" + seg;
    assert s[j + 1..] == seg;
    forall k | 0 <= k < |seg| ensures seg[k] != '/' {
      if k < |d| {
        assert seg[k] == d[k];
      } else if k >= |d| + 3 {
        assert seg[k] == n[k - |d| - 3];
      }
    }
    SizeSegmentOf(d, n);
    assert '/' !in s[j + 1..];
    LastSlashUnique(s, LastIndexOf(s, '/'));
    assert s[j] == '/';
    assert LastIndexOf(s, '/') == j;
    assert IsSizeSegment(s[j + 1..]);
    assert StripSizeSuffix(s) == s[..j];
    assert s[..j] == h;
  }

  /**
   The rewrite reverses the thumbnail naming convention: for
   `p + "/thumb/" + q + "/" + digits + "px-" + n` it returns `p + "/" + q`,
   provided the marked "/thumb/" is the only occurrence (none ends inside it
   from `p`, none runs from `q` across the following slash) and `n` has no slash.
   */
  lemma FullSizeOfThumbnail(p: string, q: string, d: string, n: string)
    requires |d| > 0 && AllDigits(d) && '/' !in n
    requires !Contains(p + "/thumb", Thumb)
    requires !Contains(q + "/", Thumb)
    ensures FullSizeImageUrl(p + Thumb + q + "/" + d + "px-" + n) == p + "/" + q
  {
    var t := q + "/" + d + "px-" + n;
    NoThumbInTail(q, d, n);
    assert p + Thumb + q + "/" + d + "px-" + n == p + Thumb + t;
    DropMarkedThumb(p, t);
    assert p + "/" + t == (p + "/" + q) + "/" + d + "px-" + n;
    StripFinalSizeSegment(p + "/" + q, d, n);
  }

  /**
   The second step leaves `s` unchanged exactly when `s` has no slash or its
   last segment is not a size segment.
   */
  lemma StripIdentityIff(s: string)
    ensures StripSizeSuffix(s) == s <==> ('/' in s ==> !IsSizeSegment(SubstringAfterLast(s, '/')))
  {
    var j := LastIndexOf(s, '/');
    if '/' in s {
      var w :| 0 <= w < |s| && s[w] == '/';
      assert j >= 0;
      assert SubstringAfterLast(s, '/') == s[j + 1..];
      assert '/' !in s[j + 1..];
    }
  }

  /**
   The rewrite leaves a URL unchanged exactly when it has no "/thumb/" and its
   last segment (if it has a slash at all) is not a size segment.
   */
  lemma FullSizeIdentityIff(url: string)
    ensures FullSizeImageUrl(url) == url <==>
      !Contains(url, Thumb) && ('/' in url ==> !IsSizeSegment(SubstringAfterLast(url, '/')))
  {
    ReplaceAllIdentityIff(url, Thumb, "/");
    ReplaceAllShrinks(url, Thumb, "/");
    if !Contains(url, Thumb) {
      StripIdentityIff(url);
    }
  }
}
