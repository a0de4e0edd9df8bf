/**
 `extractFileName`: the local file name an image is saved under. It is the last
 segment of the URL's path with every character outside `[a-zA-Z0-9._-]`
 replaced by `_`. The path itself comes from `java.net.URL`, which is not part
 of this model: the functions here take the path string.
 */
module FileNames {
  import opened Text

  /** A character the sanitiser keeps: the class `[a-zA-Z0-9._-]`. */
  predicate IsSafeChar(c: char) {
    ('a' <= c <= 'z') || ('A' <= c <= 'Z') || ('0' <= c <= '9') || c == '.' || c == '_' || c == '-'
  }

  predicate IsSafeName(s: string) {
    forall i :: 0 <= i < |s| ==> IsSafeChar(s[i])
  }

  /**
   `replace(Regex("[^a-zA-Z0-9._-]"), "_")`: the regex matches one code point
   at a time, so the result has as many characters as the input, keeps every
   safe character where it is and puts `_` in place of every other one.
   */
  function Sanitize(s: string): (r: string)
    ensures |r| == |s|
    ensures IsSafeName(r)
    ensures forall i :: 0 <= i < |s| && IsSafeChar(s[i]) ==> r[i] == s[i]
    ensures forall i :: 0 <= i < |s| && !IsSafeChar(s[i]) ==> r[i] == '_'
    decreases |s|
  {
    if s == [] then []
    else [if IsSafeChar(s[0]) then s[0] else '_'] + Sanitize(s[1..])
  }

  /** Sanitising is idempotent. */
  lemma SanitizeIdempotent(s: string)
    ensures Sanitize(Sanitize(s)) == Sanitize(s)
  {
  }

  /** A name is left unchanged by the sanitiser exactly when it is already safe. */
  lemma SanitizeFixedPointIff(s: string)
    ensures Sanitize(s) == s <==> IsSafeName(s)
  {
  }

  /**
   The sanitiser is lossy: two different names can give the same file name,
   which the downloader then treats as already present.
   */
  lemma SanitizeCollides()
    ensures "a b.png" != "a_b.png" && Sanitize("a b.png") == Sanitize("a_b.png")
  {
    assert "a b.png"[1] != "a_b.png"[1];
    assert Sanitize("a b.png") == "a_b.png";
  }

  /**
   `extractFileName` on the URL's path: the sanitised text after the last
   slash. The name is safe (so has no slash), and it is empty exactly when the
   path is empty or ends with a slash.
   */
  function ExtractFileName(path: string): (r: string)
    ensures IsSafeName(r) && '/' !in r
    ensures |r| <= |path|
    ensures r == [] <==> path == [] || path[|path| - 1] == '/'
  {
    var r := Sanitize(SubstringAfterLast(path, '/'));
    assert !IsSafeChar('/');
    r
  }

  /** The file name of `dir + "/" + name` is the sanitised `name`, whatever the directory part. */
  lemma {:induction false} ExtractFileNameOfSegment(dir: string, name: string)
    requires '/' !in name
    ensures ExtractFileName(dir + "/" + name) == Sanitize(name)
  {
    var path := dir + "/" + name;
    var j := |dir|;
    assert path[j] == '/';
    assert forall k :: j < k < |path| ==> path[k] == name[k - j - 1];
    var last := LastIndexOf(path, '/');
    assert last == j;
    assert path[j + 1..] == name;
  }
}
