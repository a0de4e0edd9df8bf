# Arknights wiki image downloader: the URL and file-name core

`ArknightsImageDownloader` walks the background-image category of
arknights.wiki.gg page by page. On each page it collects candidate image URLs,
downloads each one to `img/` under a sanitised file name, and follows the
"next page" link. This project models, in Dafny, the part of it that decides
*which* URLs are fetched and *what* they are called on disk:

- `text.dfy` (module `Text`): the Kotlin standard-library string operations the
  code relies on. These are `contains`, `lastIndexOf`, `substringAfterLast`,
  literal `replace` (leftmost, non-overlapping), `trim`, and case-insensitive
  `contains`/`equals`.
- `urls.dfy` (module `Urls`):
  - the base URL, and resolution of relative hrefs against it;
  - the `isTargetSize` filter;
  - `getFullSizeImageUrl`, which replaces each leftmost, non-overlapping
    `/thumb/` by `/`, scanning left to right (a new occurrence can form across
    a replacement, so the result may still contain `/thumb/`), and then strips
    a trailing `/<digits>px-<name>` segment. The regex is modelled without regular
    expressions. `[^/]*$` can neither cross a slash nor stop before the end,
    so a match can only start at the last slash.
- `filenames.dfy` (module `FileNames`): `extractFileName`. It takes the URL's
  path and sanitises the segment after the last slash.
- `extractor.dfy` (module `Extractor`): `extractImageUrls`, as a method with
  the source's two loops appending to one list. The list is then deduplicated
  like Kotlin's `distinct()`.
- `pagination.dfy` (module `Pagination`): `getNextPageUrl`, as a method with
  two first-match loops and early returns.

The jsoup selections are inputs:
- the gallery `src` values;
- the "File:" link hrefs;
- the anchors of the "next" selector;
- the pagination anchors.

An anchor is a `Link(href, text, classes)`. Fetching a file description page
and reading its full-image link is a function parameter `fullImageLinkOf`.
It yields `""` on any failure, as `extractImageFromFilePage` does.

Strings are sequences of Unicode scalar values. The sanitising regex also
works per code point. So "the file name has the same length as the segment"
holds in code points, not in Kotlin's UTF-16 `length`.

Behaviour of the code that the model keeps:
- The size filter is always applied, to gallery rewrites and to file-page
  links alike (Main.kt:93, 107).
- The first pagination search tests only "non-empty href, no `mw-prevlink`
  class" (Main.kt:148). Text matching happens in the jsoup selector, which is
  an input here.
- A path that ends with `/` gives an empty file name.
- The image list keeps first-seen order, and candidates from the gallery come
  before candidates from file links.

`FullSizeOfThumbnail` requires that no `/thumb/` fits in `p + "/thumb"` or in
`q + "/"`, not merely that none occurs in `p` or `q`. With `p = "a/thumb"`, an
earlier `/thumb/` starts inside `p`, and the leftmost replacement consumes
that one instead of the marked one. An occurrence running from `q` across the
following slash would be replaced as well.

## Model

| member | source | states |
|---|---|---|
| `Text.Contains` | src/main/kotlin/Main.kt:138-139 | `contains`: some index at which the pattern occurs; a match needs a text at least as long as the pattern, and the empty pattern occurs in every string |
| `Text.LastIndexOf` | src/main/kotlin/Main.kt:222 | the index of the last occurrence of the character (every later character differs), or -1 when there is none |
| `Text.SubstringAfterLast` | src/main/kotlin/Main.kt:222 | the result is a suffix of the input without the delimiter; it is preceded by the delimiter when shorter than the input, and is the whole input when the delimiter does not occur |
| `Text.ReplaceAll` | src/main/kotlin/Main.kt:122 | literal `replace`: scanning left to right, each occurrence found is replaced and scanning resumes after it; never longer than the input when the replacement is no longer than the pattern |
| `Text.ReplaceAllSkipsPrefix` | src/main/kotlin/Main.kt:122 | `replace` copies unchanged a prefix in which no occurrence of the pattern starts |
| `Text.ReplaceAllNoMatch` | src/main/kotlin/Main.kt:122 | `replace` returns a string without any occurrence of the pattern unchanged |
| `Text.ReplaceAllShrinks` | src/main/kotlin/Main.kt:122 | with a shorter replacement, `replace` never lengthens, and strictly shortens every string containing the pattern |
| `Text.ReplaceAllIdentityIff` | src/main/kotlin/Main.kt:122 | with a shorter replacement, `replace` is the identity exactly on the strings that do not contain the pattern |
| `Text.LeadingWhitespace` | src/main/kotlin/Main.kt:156 | counts exactly the whitespace run at the start of the text |
| `Text.TrailingWhitespace` | src/main/kotlin/Main.kt:156 | counts exactly the whitespace run at the end of the text |
| `Text.Trim` | src/main/kotlin/Main.kt:156 | `trim()` neither starts nor ends with whitespace, is no longer than the text, and is empty only for all-whitespace text |
| `Text.TrimIsSlice` | src/main/kotlin/Main.kt:156 | `trim()` is a contiguous piece of the text with only whitespace before and after it |
| `Text.FoldCase` | src/main/kotlin/Main.kt:157-158 | each ASCII capital folds to its own lower-case letter; U+0130 and U+0131 fold to `i`, U+017F to `s`, U+212A to `k`; every other character is left as it is |
| `Text.ContainsIgnoreCase` | src/main/kotlin/Main.kt:157-158 | `contains(..., ignoreCase = true)`: some index at which every character of the pattern matches ignoring case; a match needs a text at least as long as the pattern |
| `Text.ContainsIgnoreCaseOfContains` | src/main/kotlin/Main.kt:157-158 | an exact occurrence is also an occurrence ignoring case |
| `Text.CharEqualsIgnoreCaseLetter` | src/main/kotlin/Main.kt:157 | a character matches a lower-case ASCII pattern letter ignoring case exactly when it is that letter, its capital, or the one special code point that folds to it |
| `Text.CharEqualsIgnoreCaseCaseless` | src/main/kotlin/Main.kt:158 | a character matches a pattern character that is neither an ASCII letter nor one of the special code points only when it is that character |
| `Text.TrimKeepsContainsIgnoreCase` | src/main/kotlin/Main.kt:156-158 | trimming does not change whether a word that no whitespace can match occurs, ignoring case |
| `Urls.IsAbsolute` | src/main/kotlin/Main.kt:105 | `startsWith("http")`: an absolute href has at least four characters and starts with `h` |
| `Urls.ResolveHref` | src/main/kotlin/Main.kt:105 | the resolved URL is absolute and is either the href itself or the base URL followed by it; an absolute href resolves to itself |
| `Urls.ResolveHrefIdempotent` | src/main/kotlin/Main.kt:179 | resolving an already-resolved URL changes nothing, so an absolute candidate reaches the download unchanged |
| `Urls.ResolveEmptyHref` | src/main/kotlin/Main.kt:160 | an empty href resolves to the base URL |
| `Urls.IsTargetSize` | src/main/kotlin/Main.kt:136-140 | `isTargetSize`: contains "1024x576", or contains both "1024" and "576" (see IsTargetSizeIff) |
| `Urls.TargetSizeNonEmpty` | src/main/kotlin/Main.kt:136-140 | a URL that passes the size filter has at least four characters, so is non-empty |
| `Urls.IsTargetSizeIff` | src/main/kotlin/Main.kt:136-140 | the filter holds exactly when the URL contains both "1024" and "576"; the "1024x576" alternative is redundant |
| `Urls.LeadingDigits` | src/main/kotlin/Main.kt:123 | the length of the maximal run of ASCII digits at the start (what `\d+` consumes) |
| `Urls.IsSizeSegment` | src/main/kotlin/Main.kt:123 | the segment matches `\d+px-[^/]*` when slash-free: a non-empty maximal digit run followed by "px-"; every such segment starts with a digit |
| `Urls.SizeSegmentOf` | src/main/kotlin/Main.kt:123 | every `digits + "px-" + name` with at least one digit matches the segment pattern |
| `Urls.SizeSegmentShape` | src/main/kotlin/Main.kt:123 | every segment that matches is a non-empty digit run, then "px-", then the rest |
| `Urls.StripSizeSuffix` | src/main/kotlin/Main.kt:123 | the regex step returns a prefix of its input; what it removes is a final slash followed by a matching segment; when it removes nothing, the segment after the last slash does not match |
| `Urls.FullSizeImageUrl` | src/main/kotlin/Main.kt:119-124 | the full-size URL is a prefix of the output of the `/thumb/` replacement step and never longer than the thumbnail URL |
| `Urls.DropMarkedThumb` | src/main/kotlin/Main.kt:122 | the first step turns `p + "/thumb/" + t` into `p + "/" + t` when no other occurrence exists |
| `Urls.StripFinalSizeSegment` | src/main/kotlin/Main.kt:123 | the second step cuts a final `"/" + digits + "px-" + name` (name without slash) off exactly |
| `Urls.FullSizeOfThumbnail` | src/main/kotlin/Main.kt:119-124 | `p + "/thumb/" + q + "/" + digits + "px-" + n` is rewritten to `p + "/" + q` |
| `Urls.StripIdentityIff` | src/main/kotlin/Main.kt:123 | the regex step is the identity exactly when there is no slash or the last segment does not match |
| `Urls.FullSizeIdentityIff` | src/main/kotlin/Main.kt:119-124 | the rewrite leaves a URL unchanged exactly when it has no `/thumb/` and its last segment (if any) does not match |
| `FileNames.Sanitize` | src/main/kotlin/Main.kt:225 | same length, only `[a-zA-Z0-9._-]` characters, allowed characters kept in place, every other character replaced by `_` |
| `FileNames.SanitizeIdempotent` | src/main/kotlin/Main.kt:225 | sanitising a sanitised name changes nothing |
| `FileNames.SanitizeFixedPointIff` | src/main/kotlin/Main.kt:225 | a name is unchanged by sanitising exactly when it already consists of allowed characters |
| `FileNames.SanitizeCollides` | src/main/kotlin/Main.kt:225 | two different names can sanitise to the same file name |
| `FileNames.ExtractFileName` | src/main/kotlin/Main.kt:219-226 | the file name is safe and has no slash, is no longer than the path, and is empty exactly when the path is empty or ends with a slash |
| `FileNames.ExtractFileNameOfSegment` | src/main/kotlin/Main.kt:222-225 | the file name of `dir + "/" + name` is the sanitised `name`, whatever the directory part |
| `Extractor.Distinct` | src/main/kotlin/Main.kt:116 | `distinct()` has no duplicates, the same elements as its input, and is no longer |
| `Extractor.DistinctKeepsFirstSeenOrder` | src/main/kotlin/Main.kt:116 | elements appear in the order of their first occurrence in the input |
| `Extractor.DistinctOfNoDuplicates` | src/main/kotlin/Main.kt:116 | a list without duplicates is unchanged |
| `Extractor.DistinctIdempotent` | src/main/kotlin/Main.kt:116 | deduplicating twice is deduplicating once |
| `Extractor.DistinctPrefix` | src/main/kotlin/Main.kt:83-116 | the deduplicated earlier part is the start of the deduplicated whole list |
| `Extractor.DistinctCandidates` | src/main/kotlin/Main.kt:83-116 | deduplicating gallery-then-file candidates gives a list without duplicates whose every element is non-empty and passes the filter, starting with the deduplicated gallery candidates |
| `Extractor.GalleryCandidates` | src/main/kotlin/Main.kt:88-97 | every gallery candidate is non-empty and passes the size filter, and the rewrite of every non-empty `src` that passes is among them |
| `Extractor.GalleryCandidateOrigin` | src/main/kotlin/Main.kt:88-97 | every gallery candidate is the rewrite of some non-empty `src` |
| `Extractor.FileCandidates` | src/main/kotlin/Main.kt:100-114 | every file-link candidate is non-empty and passes the filter, and the full image link of every non-empty href that does so is among them |
| `Extractor.FileCandidateOrigin` | src/main/kotlin/Main.kt:100-114 | every file-link candidate is the full image link of the resolved page of some non-empty href |
| `Extractor.ExtractImageUrls` | src/main/kotlin/Main.kt:82-117 | the result is the deduplicated gallery-then-file candidate list; it has no duplicates; every element is non-empty and passes the filter; the gallery candidates come first |
| `Pagination.HasClass` | src/main/kotlin/Main.kt:148 | `hasClass`: some class name equals the given one ignoring case |
| `Pagination.IsForwardLink` | src/main/kotlin/Main.kt:148 | the first search's test: non-empty href and no `mw-prevlink` class |
| `Pagination.IsPaginationNext` | src/main/kotlin/Main.kt:156-158 | the second search's test: the trimmed text contains "next" ignoring case, or the Japanese "next" |
| `Pagination.PaginationNextIgnoresTrim` | src/main/kotlin/Main.kt:156-158 | trimming the anchor text does not change whether "next" (any case) or the Japanese "next" is found |
| `Pagination.GetNextPageUrl` | src/main/kotlin/Main.kt:142-165 | if some anchor has a non-empty href and no `mw-prevlink` class, the result is the first such href, resolved. Otherwise it is the resolved href of the first pagination anchor whose trimmed text contains "next" (ignoring case) or the Japanese "next". It is "" exactly when neither search matches, and absolute otherwise |

## Left out

- `FileCandidates`: the description-page fetch `fullImageLinkOf` is deterministic per URL. The source fetches once per href, so a repeated href can fail once and succeed once; the model gives both the same answer.
- HTTP through OkHttp (`fetchDocument`, the byte download in `downloadImage`, timeouts, the user agent, `close`): network I/O and a foreign library.
- jsoup parsing and its CSS selectors, including `:contains`. Their results are the input sequences of `ExtractImageUrls` and `GetNextPageUrl`.
- The description-page fetch of `extractImageFromFilePage` is the parameter `fullImageLinkOf`. A failure is `""`, so the `try`/`catch` around each file link has nothing left to catch.
- `java.net.URL` parsing in `extractFileName`: a foreign call. `ExtractFileName` takes the path.
- The concurrent fan-out of downloads (`async`/`awaitAll`) and the one-second delay between pages: concurrency and timing.
- File-system effects: creating `img/`, the skip-if-exists check, writing the file, and `verifyImageSize` (which only changes a log line).
- The crawl loop `downloadAllImages`. Every step depends on network results, and the loop has no termination measure.
- `main` and `runDownloader`: entry-point plumbing.
- `GalleryCandidates` and `GalleryCandidateOrigin`: they take the thumbnail rewrite as a parameter. `ExtractImageUrls` passes `FullSizeImageUrl`, so the extractor's contract is about the real rewrite.
- `FoldCase`: covers ASCII letters plus U+0130, U+0131, U+017F and U+212A. These are the code points whose Java case mapping reaches an ASCII letter. Case-insensitive equality between two non-ASCII letters is not modelled. Every pattern compared here is ASCII or caseless ("next", "mw-prevlink" and the Japanese "next").
- `HasClass`: assumes jsoup's `hasClass` compares class names ignoring case, as jsoup documents.
- The sequential rename utility: its source is not part of this model.
