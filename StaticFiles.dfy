/**
 * The two pure steps of the static file handler: composing the file path from
 * the document root and the request URI, and choosing the content type from
 * the file's extension.
 */
module StaticFiles {

  /** Longest path prefix the virtual file system allows (ESP_VFS_PATH_MAX in ESP-IDF). */
  const VfsPathMax: nat := 15

  /** Size of the file path buffer, terminator included. */
  const FilePathMax: nat := VfsPathMax + 128

  const IndexDocument: string := "/index.html"
  const DefaultContentType: string := "text/plain"

  /** The extensions checked, in order, and the content type each selects. */
  const Extensions: seq<string> := [".html", ".js", ".css", ".png", ".ico", ".svg"]
  const ContentTypes: seq<string> :=
    ["text/html", "application/javascript", "text/css", "image/png", "image/x-icon", "text/xml"]

  function Take(s: string, n: nat): (r: string)
    ensures |r| == if |s| <= n then |s| else n
    ensures r == s[..|r|]
  {
    if |s| <= n then s else s[..n]
  }

  /** strlcpy into a buffer of size bytes: at most size - 1 characters are kept. */
  function StrlCpy(src: string, size: nat): (r: string)
    requires size > 0
    ensures |r| < size && |r| <= |src| && r == src[..|r|]
    ensures |r| == if |src| < size then |src| else size - 1
    ensures |src| < size ==> r == src
  {
    Take(src, size - 1)
  }

  /** strlcat into a buffer of size bytes that already holds dst: appends what still fits. */
  function StrlCat(dst: string, src: string, size: nat): (r: string)
    requires |dst| < size
    ensures |dst| <= |r| < size && r[..|dst|] == dst
    ensures |r| - |dst| <= |src| && r[|dst|..] == src[..|r| - |dst|]
    ensures |r| == if |dst| + |src| < size then |dst| + |src| else size - 1
    ensures |dst| + |src| < size ==> r == dst + src
  {
    dst + Take(src, size - 1 - |dst|)
  }

  /**
   * The path of the file served for uri: the document root followed by
   * /index.html when the URI ends in '/', and by the URI otherwise.
   */
  function FilePath(basePath: string, uri: string): (r: string)
    requires |uri| > 0
    ensures |r| < FilePathMax
    ensures |basePath| < FilePathMax ==> |basePath| <= |r| && r[..|basePath|] == basePath
  {
    var path := StrlCpy(basePath, FilePathMax);
    if uri[|uri| - 1] == '/' then StrlCat(path, IndexDocument, FilePathMax)
    else StrlCat(path, uri, FilePathMax)
  }

  /** The file served for uri before any truncation. */
  function Target(basePath: string, uri: string): string
    requires |uri| > 0
  {
    basePath + (if uri[|uri| - 1] == '/' then IndexDocument else uri)
  }

  /**
   * The composed path is the untruncated target cut to FILE_PATH_MAX - 1
   * characters: exactly the target whenever that fits.
   */
  lemma FilePathIsTruncatedTarget(basePath: string, uri: string)
    requires |uri| > 0
    ensures FilePath(basePath, uri) == Take(Target(basePath, uri), FilePathMax - 1)
    ensures |FilePath(basePath, uri)| < FilePathMax
    ensures |Target(basePath, uri)| < FilePathMax ==> FilePath(basePath, uri) == Target(basePath, uri)
  {
    var suffix := if uri[|uri| - 1] == '/' then IndexDocument else uri;
    var t := basePath + suffix;
    if |basePath| >= FilePathMax - 1 {
      assert t[..FilePathMax - 1] == basePath[..FilePathMax - 1];
    } else {
      var n := FilePathMax - 1 - |basePath|;
      if |suffix| > n {
        assert t[..FilePathMax - 1] == basePath + suffix[..n];
      }
    }
  }

  function LowerChar(c: char): char {
    if 'A' <= c <= 'Z' then (c as int + 32) as char else c
  }

  /** ASCII lower case, as strcasecmp compares. */
  function Lower(s: string): (r: string)
    ensures |r| == |s| && forall i :: 0 <= i < |s| ==> r[i] == LowerChar(s[i])
  {
    seq(|s|, i requires 0 <= i < |s| => LowerChar(s[i]))
  }

  /**
   * CHECK_FILE_EXTENSION: the last |ext| characters of path equal ext without
   * regard to case.
   */
  predicate HasExtension(path: string, ext: string): (r: bool)
    ensures r <==> (|ext| <= |path| &&
                    forall i :: 0 <= i < |ext| ==> LowerChar(path[|path| - |ext| + i]) == LowerChar(ext[i]))
  {
    |ext| <= |path| && Lower(path[|path| - |ext|..]) == Lower(ext)
  }

  /** set_content_type_from_file's choice of type. */
  function ContentTypeFor(path: string): (r: string)
    ensures r in ContentTypes || r == DefaultContentType
    ensures r == DefaultContentType ==> forall j :: 0 <= j < |Extensions| ==> !HasExtension(path, Extensions[j])
  {
    if HasExtension(path, ".html") then "text/html"
    else if HasExtension(path, ".js") then "application/javascript"
    else if HasExtension(path, ".css") then "text/css"
    else if HasExtension(path, ".png") then "image/png"
    else if HasExtension(path, ".ico") then "image/x-icon"
    else if HasExtension(path, ".svg") then "text/xml"
    else DefaultContentType
  }

  /**
   * The type chosen is that of the first extension in the table that matches,
   * and text/plain when none does.
   */
  lemma {:induction false} ContentTypeIsFirstMatch(path: string, i: nat)
    requires i < |Extensions|
    requires HasExtension(path, Extensions[i])
    requires forall j :: 0 <= j < i ==> !HasExtension(path, Extensions[j])
    ensures ContentTypeFor(path) == ContentTypes[i]
  {
    if i > 0 { assert !HasExtension(path, Extensions[0]); }
    if i > 1 { assert !HasExtension(path, Extensions[1]); }
    if i > 2 { assert !HasExtension(path, Extensions[2]); }
    if i > 3 { assert !HasExtension(path, Extensions[3]); }
    if i > 4 { assert !HasExtension(path, Extensions[4]); }
  }

  lemma ContentTypeDefault(path: string)
    requires forall j :: 0 <= j < |Extensions| ==> !HasExtension(path, Extensions[j])
    ensures ContentTypeFor(path) == DefaultContentType
  {
    assert !HasExtension(path, Extensions[0]) && !HasExtension(path, Extensions[1]);
    assert !HasExtension(path, Extensions[2]) && !HasExtension(path, Extensions[3]);
    assert !HasExtension(path, Extensions[4]) && !HasExtension(path, Extensions[5]);
  }

  lemma LowerIdempotent(s: string)
    ensures Lower(Lower(s)) == Lower(s)
  {
  }

  lemma HasExtensionIgnoresCase(path: string, ext: string)
    ensures HasExtension(Lower(path), ext) == HasExtension(path, ext)
  {
    if |ext| <= |path| {
      var k := |path| - |ext|;
      assert Lower(path)[k..] == Lower(path[k..]);
      LowerIdempotent(path[k..]);
    }
  }

  /** Changing the case of the path never changes its content type. */
  lemma ContentTypeIgnoresCase(path: string)
    ensures ContentTypeFor(Lower(path)) == ContentTypeFor(path)
  {
    HasExtensionIgnoresCase(path, ".html");
    HasExtensionIgnoresCase(path, ".js");
    HasExtensionIgnoresCase(path, ".css");
    HasExtensionIgnoresCase(path, ".png");
    HasExtensionIgnoresCase(path, ".ico");
    HasExtensionIgnoresCase(path, ".svg");
  }
}
