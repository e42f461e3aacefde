/** The image processor (`scripts/utils/image-processor.ts`, with a
    JavaScript twin that differs only in `extractImageUrlFromBlock`): which
    URLs count as images, where a downloaded image is stored, and how the
    image links of a Markdown text are rewritten to the stored copies.

    The network, the file system and MD5 are oracles: the HTTP outcome of the
    download, whether a file already exists, whether the write succeeds, the
    hex digest of a URL, and the pathname the WHATWG URL parser gives (`None`
    when `new URL` throws). */
module ImageProcessor {
  import opened Wrappers
  import opened Text
  import opened Scan
  import opened NotionModel

  /** The file extensions recognised at the end of a URL path. */
  const SupportedFormats: seq<string> := [".jpg", ".jpeg", ".png", ".gif", ".webp", ".svg"]

  /** The public URL prefix under which stored images are served. */
  const ImageUrlPrefix: string := "/images/notion/"

  /** Some supported extension ends the (lower-cased) pathname. */
  predicate HasImageExtension(pathname: string) {
    exists k :: 0 <= k < |SupportedFormats| && EndsWith(pathname, SupportedFormats[k])
  }

  /** `isImageUrl`: an unparseable URL is not an image; otherwise the
      lower-cased pathname must end with a supported extension, or the URL
      must mention `notion.so` together with either `/image/` anywhere in it
      or a dot in the pathname. */
  function IsImageUrl(url: string, parsePath: string -> Option<string>): (r: bool)
    ensures parsePath(url).None? ==> !r
    ensures r <==> parsePath(url).Some? &&
                   (|| HasImageExtension(ToLower(parsePath(url).value))
                    || (Contains(url, "notion.so") && Contains(url, "/image/"))
                    || (Contains(url, "notion.so") && '.' in parsePath(url).value))
  {
    match parsePath(url)
    case None => false
    case Some(path) =>
      var pathname := ToLower(path);
      var isNotionImage := Contains(url, "notion.so") && (Contains(url, "/image/") || '.' in pathname);
      assert '.' in pathname <==> '.' in path by {
        if '.' in pathname {
          var k :| 0 <= k < |pathname| && pathname[k] == '.';
          assert path[k] == '.';
        }
        if '.' in path {
          var k :| 0 <= k < |path| && path[k] == '.';
          assert pathname[k] == '.';
        }
      }
      HasImageExtension(pathname) || isNotionImage
  }

  /** The extension check ignores case: `photo.PNG` is an image. */
  lemma ImageExtensionIgnoresCase(url: string, parsePath: string -> Option<string>)
    requires parsePath(url).Some?
    requires HasImageExtension(ToLower(ToLower(parsePath(url).value)))
    ensures IsImageUrl(url, parsePath)
  {
    ToLowerIdempotent(parsePath(url).value);
  }

  /** Any parseable Notion URL whose path holds a dot is taken for an image,
      whatever its extension. */
  lemma NotionDotPathIsImage(url: string, parsePath: string -> Option<string>)
    requires parsePath(url).Some? && Contains(url, "notion.so")
    requires '.' in parsePath(url).value
    ensures IsImageUrl(url, parsePath)
  {
    var p := parsePath(url).value;
    var k :| 0 <= k < |p| && p[k] == '.';
    assert ToLower(p)[k] == '.';
  }

  /** The lower-cased MIME types the extension map lists, with their
      extensions. */
  const TypeMap: map<string, string> := map[
    "image/jpeg" := ".jpg", "image/jpg" := ".jpg", "image/png" := ".png",
    "image/gif" := ".gif", "image/webp" := ".webp", "image/svg+xml" := ".svg"]

  /** What an object literal yields for a key it does not hold but
      `Object.prototype` does, as the file-name template then prints it. Only
      two inherited keys are all lower case: `constructor` (the `Object`
      function) and `__proto__` (the prototype object). Both are truthy, so
      the `.jpg` fallback does not apply to them. */
  function InheritedMember(key: string): Option<string> {
    if key == "constructor" then Some("function Object() { [native code] }")
    else if key == "__proto__" then Some("[object Object]")
    else None
  }

  /** `getExtensionFromContentType`: the map lookup after lower-casing, an
      inherited member of the map object, or `.jpg`. */
  function ExtensionFromContentType(contentType: string): (r: string)
    ensures ToLower(contentType) in {"image/jpeg", "image/jpg"} ==> r == ".jpg"
    ensures ToLower(contentType) == "image/png" ==> r == ".png"
    ensures ToLower(contentType) == "image/gif" ==> r == ".gif"
    ensures ToLower(contentType) == "image/webp" ==> r == ".webp"
    ensures ToLower(contentType) == "image/svg+xml" ==> r == ".svg"
    ensures ToLower(contentType) == "constructor" ==> r == "function Object() { [native code] }"
    ensures ToLower(contentType) == "__proto__" ==> r == "[object Object]"
    ensures ToLower(contentType) !in {"image/jpeg", "image/jpg", "image/png", "image/gif", "image/webp",
                                      "image/svg+xml", "constructor", "__proto__"} ==>
              r == ".jpg"
    ensures r in SupportedFormats && r != ".jpeg" <==> ToLower(contentType) !in {"constructor", "__proto__"}
  {
    var t := ToLower(contentType);
    if t in TypeMap then TypeMap[t]
    else if InheritedMember(t).Some? then InheritedMember(t).value
    else ".jpg"
  }

  /** The content-type lookup does not depend on letter case. */
  lemma ExtensionIgnoresCase(contentType: string)
    ensures ExtensionFromContentType(ToLower(contentType)) == ExtensionFromContentType(contentType)
  {
    ToLowerIdempotent(contentType);
  }

  /** The characters the first stage of `sanitizeFileName` deletes. */
  predicate IsForbiddenInFileName(c: char) {
    c in "<>:\"/\\|?*"
  }

  /** What that first stage keeps. */
  predicate NotForbidden(c: char) { !IsForbiddenInFileName(c) }

  predicate IsWordOrDash(c: char) {
    IsWord(c) || c == '-'
  }

  /** What a sanitized name is made of: `[a-z0-9_-]`. */
  predicate IsSafeNameChar(c: char) {
    IsWordOrDash(c) && !IsAsciiUpper(c)
  }

  const MaxSanitizedLength: nat := 30

  /** `sanitizeFileName`: delete `<>:"/\|?*`, turn white-space runs into
      dashes, drop everything but `\w` and `-`, lower-case, keep thirty
      characters. */
  function SanitizeFileName(name: string): (r: string)
    ensures |r| <= MaxSanitizedLength
    ensures forall k :: 0 <= k < |r| ==> IsSafeNameChar(r[k])
  {
    var s1 := Filter(name, NotForbidden);
    var s2 := DashSpaces(s1);
    var s3 := Filter(s2, IsWordOrDash);
    Take(ToLower(s3), MaxSanitizedLength)
  }

  /** A name already made of `[a-z0-9_-]` and at most thirty long passes
      through unchanged. */
  lemma SanitizeSafeName(name: string)
    requires |name| <= MaxSanitizedLength
    requires forall k :: 0 <= k < |name| ==> IsSafeNameChar(name[k])
    ensures SanitizeFileName(name) == name
  {
    var s1 := Filter(name, NotForbidden);
    FilterAll(name, NotForbidden);
    DashSpacesNoSpace(s1);
    FilterAll(name, IsWordOrDash);
    assert ToLower(name) == name;
  }

  /** Sanitizing twice is sanitizing once. */
  lemma SanitizeIdempotent(name: string)
    ensures SanitizeFileName(SanitizeFileName(name)) == SanitizeFileName(name)
  {
    SanitizeSafeName(SanitizeFileName(name));
  }

  /** The stored file name: sanitized title, `_`, the first eight digest
      characters, extension. */
  function StoredName(title: string, digest: string, ext: string): (r: string)
    ensures StartsWith(r, SanitizeFileName(title)) && EndsWith(r, ext)
  {
    SanitizeFileName(title) + "_" + Take(digest, 8) + ext
  }

  /** `getRelativeImagePath`. */
  function RelativeImagePath(fileName: string): (r: string)
    ensures StartsWith(r, ImageUrlPrefix) && r[|ImageUrlPrefix|..] == fileName
  {
    ImageUrlPrefix + fileName
  }

  /** An extension the downloader can produce: a dot and then no dot. */
  predicate IsExtension(ext: string) {
    |ext| > 0 && ext[0] == '.' && '.' !in ext[1..]
  }

  /** Two stored names coincide only when the sanitized titles, the digest
      prefixes and the extensions all do (the digests being dot-free hex). */
  lemma StoredNameInjective(t1: string, d1: string, e1: string, t2: string, d2: string, e2: string)
    requires |d1| >= 8 && |d2| >= 8 && '.' !in d1 && '.' !in d2
    requires IsExtension(e1) && IsExtension(e2)
    requires StoredName(t1, d1, e1) == StoredName(t2, d2, e2)
    ensures SanitizeFileName(t1) == SanitizeFileName(t2)
    ensures d1[..8] == d2[..8]
    ensures e1 == e2
  {
    var s1 := SanitizeFileName(t1);
    var s2 := SanitizeFileName(t2);
    var a1 := s1 + "_" + Take(d1, 8);
    var a2 := s2 + "_" + Take(d2, 8);
    assert a1 + e1 == a2 + e2;
    DotFree(s1, d1);
    DotFree(s2, d2);
    SplitAtExtension(a1, e1, a2, e2);
    assert |s1| == |s2|;
    assert s1 == a1[..|s1|] && s2 == a2[..|s2|];
    assert d1[..8] == a1[|s1| + 1..] && d2[..8] == a2[|s2| + 1..];
  }

  /** A sanitized title, `_` and eight digest characters hold no dot. */
  lemma DotFree(s: string, d: string)
    requires |d| >= 8 && '.' !in d
    requires forall k :: 0 <= k < |s| ==> IsSafeNameChar(s[k])
    ensures forall k :: 0 <= k < |s + "_" + Take(d, 8)| ==> (s + "_" + Take(d, 8))[k] != '.'
  {
    assert forall k :: 0 <= k < 8 ==> Take(d, 8)[k] == d[k];
  }

  /** A dot-free stem followed by an extension splits in one way only. */
  lemma SplitAtExtension(a1: string, e1: string, a2: string, e2: string)
    requires forall k :: 0 <= k < |a1| ==> a1[k] != '.'
    requires forall k :: 0 <= k < |a2| ==> a2[k] != '.'
    requires IsExtension(e1) && IsExtension(e2)
    requires a1 + e1 == a2 + e2
    ensures a1 == a2 && e1 == e2
  {
    var n := a1 + e1;
    assert forall k :: 0 <= k < |a1| ==> n[k] != '.';
    assert forall k :: 0 <= k < |a2| ==> n[k] == a2[k] != '.';
    assert n[|a1|] == e1[0] == '.';
    assert n[|a2|] == e2[0] == '.';
    assert |a1| == |a2|;
    assert a1 == n[..|a1|] == a2;
    assert e1 == n[|a1|..] == e2;
  }

  /** The HTTP response of the image request. */
  datatype HttpResponse = HttpResponse(ok: bool, contentType: Option<string>)

  /** What `downloadAndSaveImage` returns, and the file it wrote if any. */
  datatype Download = Download(link: string, written: Option<string>)

  /** `downloadAndSaveImage`. A rejected request or a non-`ok` status falls
      back to the original URL. Otherwise the file name is derived from the
      title, the digest of the URL and the content type; an existing file is
      reused without writing; a failed write falls back to the URL. */
  function DownloadAndSaveImage(url: string, title: string, response: Result<HttpResponse, string>,
                                md5: string -> string, exists_: string -> bool, writeOk: bool): (r: Download)
    ensures response.Err? || !response.value.ok ==> r == Download(url, None)
    ensures r.written.Some? ==> exists_(r.written.value) == false && writeOk
    ensures r.link == url || r.link == RelativeImagePath(
              StoredName(title, md5(url), ExtensionFromContentType(response.value.contentType.GetOr(""))))
    ensures r.link != url ==> r.link[|ImageUrlPrefix|..] == StoredName(title, md5(url),
              ExtensionFromContentType(response.value.contentType.GetOr("")))
  {
    match response
    case Err(_) => Download(url, None)
    case Ok(resp) =>
      if !resp.ok then Download(url, None)
      else
        var ext := ExtensionFromContentType(resp.contentType.GetOr(""));
        var name := StoredName(title, md5(url), ext);
        if exists_(name) then Download(RelativeImagePath(name), None)
        else if writeOk then Download(RelativeImagePath(name), Some(name))
        else Download(url, None)
  }

  /** A response that succeeded names the same file whether or not it was
      already stored: a second download of the same image reuses the first
      file and writes nothing. */
  lemma DownloadReusesStoredFile(url: string, title: string, resp: HttpResponse, md5: string -> string,
                                 exists_: string -> bool, writeOk: bool)
    requires resp.ok
    requires DownloadAndSaveImage(url, title, Ok(resp), md5, exists_, writeOk).written.Some?
    ensures var name := DownloadAndSaveImage(url, title, Ok(resp), md5, exists_, writeOk).written.value;
            DownloadAndSaveImage(url, title, Ok(resp), md5, f => f == name || exists_(f), writeOk)
            == Download(RelativeImagePath(name), None)
  {
  }

  /** One `![alt](url)` link as the regular expression
      `!\[([^\]]*)\]\(([^)]+)\)` captures it. */
  datatype ImageLink = ImageLink(full: string, alt: string, url: string)

  /** The match of the image-link pattern at `i`: `![`, the longest run
      without `]`, `](`, the longest non-empty run without `)`, `)`. No
      shorter run can be followed by the closing bracket, so the greedy runs
      are the only candidates. `LinkShapeAt` states how the three captures
      fit together. */
  function ImageLinkAt(s: string, i: nat): (r: Option<ImageLink>)
    ensures r.Some? ==> i + |r.value.full| <= |s| && 5 <= |r.value.full|
  {
    if i + 2 <= |s| && s[i] == '!' && s[i + 1] == '[' then LinkAfterAlt(s, i, Run(s, i + 2, NotCloseBracket))
    else None
  }

  /** The rest of the pattern after `![` and an alt text of length `a`. */
  function LinkAfterAlt(s: string, i: nat, a: nat): (r: Option<ImageLink>)
    requires i + 2 + a <= |s|
    ensures r.Some? ==> i + |r.value.full| <= |s| && 5 <= |r.value.full|
  {
    if i + 3 + a < |s| && s[i + 2 + a] == ']' && s[i + 3 + a] == '(' then
      LinkAfterUrl(s, i, a, Run(s, i + 4 + a, NotCloseParen))
    else None
  }

  /** The closing `)` after the URL of length `u`. */
  function LinkAfterUrl(s: string, i: nat, a: nat, u: nat): (r: Option<ImageLink>)
    requires i + 4 + a + u <= |s|
    ensures r.Some? ==> i + |r.value.full| <= |s| && 5 <= |r.value.full|
  {
    if 0 < u && i + 4 + a + u < |s| && s[i + 4 + a + u] == ')' then
      Some(ImageLink(s[i..i + 5 + a + u], s[i + 2..i + 2 + a], s[i + 4 + a..i + 4 + a + u]))
    else None
  }

  /** A match's text is the text at the match. */
  lemma ImageLinkAtSlice(s: string, i: nat)
    requires ImageLinkAt(s, i).Some?
    ensures s[i..i + |ImageLinkAt(s, i).value.full|] == ImageLinkAt(s, i).value.full
  {
  }

  /** The text of a link, as the pattern captures it. */
  predicate LinkShape(l: ImageLink) {
    && l.full == "![" + l.alt + "](" + l.url + ")"
    && ']' !in l.alt && ')' !in l.url && l.url != []
  }

  /** A match is `![`, the alt text, `](`, the URL and `)`; the alt text has
      no `]` and the URL, never empty, no `)`. */
  lemma LinkShapeAt(s: string, i: nat)
    ensures ImageLinkAt(s, i).Some? ==> LinkShape(ImageLinkAt(s, i).value)
  {
    if ImageLinkAt(s, i).Some? {
      var a, u := LinkCaptures(s, i);
      LinkShapeOf(s, i, a, u);
    }
  }

  /** The link laid out by the two runs at `i` has the captured shape. */
  lemma LinkShapeOf(s: string, i: nat, a: nat, u: nat)
    requires 0 < u && i + 4 + a + u < |s|
    requires a == Run(s, i + 2, NotCloseBracket) && u == Run(s, i + 4 + a, NotCloseParen)
    requires s[i] == '!' && s[i + 1] == '[' && s[i + 2 + a] == ']' && s[i + 3 + a] == '('
    requires s[i + 4 + a + u] == ')'
    ensures LinkShape(ImageLink(s[i..i + 5 + a + u], s[i + 2..i + 2 + a], s[i + 4 + a..i + 4 + a + u]))
  {
    var j, e := i + 2 + a, i + 4 + a + u;
    var full, alt, url := s[i..e + 1], s[i + 2..j], s[j + 2..e];
    assert full == "![" + alt + "](" + url + ")" by {
      LinkText(s, i, j, e);
    }
    assert ']' !in alt by {
      RunSlice(s, i + 2, NotCloseBracket);
    }
    assert ')' !in url by {
      RunSlice(s, j + 2, NotCloseParen);
    }
    assert LinkShape(ImageLink(full, alt, url));
  }

  /** The three captures of a match, as slices of the text. */
  lemma LinkCaptures(s: string, i: nat) returns (a: nat, u: nat)
    requires ImageLinkAt(s, i).Some?
    ensures i + 2 <= |s| && a == Run(s, i + 2, NotCloseBracket)
    ensures 0 < u && i + 4 + a + u < |s| && u == Run(s, i + 4 + a, NotCloseParen)
    ensures s[i] == '!' && s[i + 1] == '[' && s[i + 2 + a] == ']' && s[i + 3 + a] == '('
    ensures s[i + 4 + a + u] == ')'
    ensures ImageLinkAt(s, i).value == ImageLink(s[i..i + 5 + a + u], s[i + 2..i + 2 + a], s[i + 4 + a..i + 4 + a + u])
  {
    a := Run(s, i + 2, NotCloseBracket);
    AltFound(s, i, a);
    u := Run(s, i + 4 + a, NotCloseParen);
    UrlFound(s, i, a, u);
  }

  lemma AltFound(s: string, i: nat, a: nat)
    requires ImageLinkAt(s, i).Some? && i + 2 <= |s| && a == Run(s, i + 2, NotCloseBracket)
    ensures s[i] == '!' && s[i + 1] == '['
    ensures i + 3 + a < |s| && s[i + 2 + a] == ']' && s[i + 3 + a] == '('
    ensures ImageLinkAt(s, i) == LinkAfterAlt(s, i, a)
  {
  }

  lemma UrlFound(s: string, i: nat, a: nat, u: nat)
    requires i + 4 + a <= |s| && u == Run(s, i + 4 + a, NotCloseParen)
    requires i + 3 + a < |s| && s[i + 2 + a] == ']' && s[i + 3 + a] == '('
    requires LinkAfterAlt(s, i, a).Some?
    ensures 0 < u && i + 4 + a + u < |s| && s[i + 4 + a + u] == ')'
    ensures LinkAfterAlt(s, i, a).value
      == ImageLink(s[i..i + 5 + a + u], s[i + 2..i + 2 + a], s[i + 4 + a..i + 4 + a + u])
  {
  }

  /** The text between `i` and `e` laid out as a link. */
  lemma LinkText(s: string, i: nat, j: nat, e: nat)
    requires i + 2 <= j && j + 2 < e < |s|
    requires s[i] == '!' && s[i + 1] == '[' && s[j] == ']' && s[j + 1] == '(' && s[e] == ')'
    ensures s[i..e + 1] == "![" + s[i + 2..j] + "](" + s[j + 2..e] + ")"
  {
    assert s[i..i + 2] == "![" && s[j..j + 2] == "](" && s[e..e + 1] == ")";
    SliceSplit(s, i, i + 2, j);
    SliceSplit(s, i, j, j + 2);
    SliceSplit(s, i, j + 2, e);
    SliceSplit(s, i, e, e + 1);
  }

  lemma SliceSplit(s: string, a: nat, b: nat, c: nat)
    requires a <= b <= c <= |s|
    ensures s[a..c] == s[a..b] + s[b..c]
  {
  }

  /** The link pattern as a scan matcher; the replacement is irrelevant here
      since links are rewritten one by one afterwards. */
  function LinkMatcher(): Matcher {
    (s: string, i: nat) =>
      match ImageLinkAt(s, i)
      case None => None
      case Some(l) => Some(Hit(|l.full|, l.full))
  }

  /** The links an `exec` loop over the text finds, in order. */
  function LinksAt(s: string, starts: seq<nat>): (r: seq<ImageLink>)
    requires forall k :: 0 <= k < |starts| ==> ImageLinkAt(s, starts[k]).Some?
    ensures |r| == |starts|
    ensures forall k :: 0 <= k < |r| ==> r[k] == ImageLinkAt(s, starts[k]).value
  {
    seq(|starts|, k requires 0 <= k < |starts| => ImageLinkAt(s, starts[k]).value)
  }

  function FoundLinks(s: string): seq<ImageLink>
  {
    var starts := Starts(s, LinkMatcher(), 0);
    assert forall k :: 0 <= k < |starts| ==> MatchesAt(s, LinkMatcher(), starts[k]);
    LinksAt(s, starts)
  }

  /** The links whose URL passes `isImageUrl`. */
  function ImageCandidates(links: seq<ImageLink>, parsePath: string -> Option<string>): (r: seq<ImageLink>)
    ensures forall l :: l in r <==> l in links && IsImageUrl(l.url, parsePath)
  {
    if |links| == 0 then []
    else
      (if IsImageUrl(links[0].url, parsePath) then [links[0]] else [])
      + ImageCandidates(links[1..], parsePath)
  }

  /** The rewritten link: same alt text, the local path (or the URL the
      download fell back to). */
  function Rewritten(l: ImageLink, local: string -> string): string {
    "![" + l.alt + "](" + local(l.url) + ")"
  }

  /** Each candidate, in order, replaces the first occurrence of its full
      match in the text as rewritten so far. With `expand`, as
      `String.prototype.replace` with a string replacement does, the `$`
      patterns of the rewritten link are expanded; without it the rewritten
      link is inserted literally. */
  function ApplyRewrites(md: string, cands: seq<ImageLink>, local: string -> string, expand: bool): string
    decreases |cands|
  {
    if |cands| == 0 then md
    else
      var next := if expand then ReplaceFirst(md, cands[0].full, Rewritten(cands[0], local))
                  else ReplaceFirstLiteral(md, cands[0].full, Rewritten(cands[0], local));
      ApplyRewrites(next, cands[1..], local, expand)
  }

  /** `processImagesInMarkdown`. `local(url)` is what `downloadAndSaveImage`
      resolves to for that URL; it never rejects, so every candidate is
      applied, through `replace` with the rewritten link as a string. */
  function ProcessImagesInMarkdown(md: string, parsePath: string -> Option<string>, local: string -> string): (r: string)
    ensures (forall l :: l in FoundLinks(md) ==> !IsImageUrl(l.url, parsePath)) ==> r == md
  {
    ApplyRewrites(md, ImageCandidates(FoundLinks(md), parsePath), local, true)
  }

  /** `processImagesInMarkdown` with each rewritten link inserted literally,
      as `replace(original, () => replacement)` would: the corrected half of
      the `$`-expansion finding. */
  function ProcessImagesInMarkdownFixed(md: string, parsePath: string -> Option<string>, local: string -> string): (r: string)
    ensures (forall l :: l in FoundLinks(md) ==> !IsImageUrl(l.url, parsePath)) ==> r == md
  {
    ApplyRewrites(md, ImageCandidates(FoundLinks(md), parsePath), local, false)
  }

  /** Rewrites whose download fell back to the URL reproduce their match,
      provided, when `$` patterns are expanded, that the match holds no `$`. */
  lemma {:induction false} ApplyFallbacksUnchanged(md: string, cands: seq<ImageLink>, local: string -> string, expand: bool)
    requires forall k :: 0 <= k < |cands| ==> local(cands[k].url) == cands[k].url
    requires forall k :: 0 <= k < |cands| ==> cands[k].full == "![" + cands[k].alt + "](" + cands[k].url + ")"
    requires expand ==> forall k :: 0 <= k < |cands| ==> '$' !in cands[k].full
    ensures ApplyRewrites(md, cands, local, expand) == md
    decreases |cands|
  {
    if |cands| > 0 {
      assert Rewritten(cands[0], local) == cands[0].full;
      ReplaceFirstLiteralSelf(md, cands[0].full);
      ApplyFallbacksUnchanged(md, cands[1..], local, expand);
    }
  }

  /** Every candidate is one of the links found, so it has the shape its
      match gives it. */
  lemma CandidatesAreLinks(md: string, parsePath: string -> Option<string>)
    ensures forall k :: 0 <= k < |ImageCandidates(FoundLinks(md), parsePath)| ==>
              var c := ImageCandidates(FoundLinks(md), parsePath)[k];
              c in FoundLinks(md) && c.full == "![" + c.alt + "](" + c.url + ")"
  {
    var cands := ImageCandidates(FoundLinks(md), parsePath);
    forall k | 0 <= k < |cands|
      ensures cands[k] in FoundLinks(md) && cands[k].full == "![" + cands[k].alt + "](" + cands[k].url + ")"
    {
      assert cands[k] in FoundLinks(md);
      var starts := Starts(md, LinkMatcher(), 0);
      var j :| 0 <= j < |starts| && FoundLinks(md)[j] == cands[k];
      assert MatchesAt(md, LinkMatcher(), starts[j]);
      LinkShapeAt(md, starts[j]);
    }
  }

  /** When every download falls back to its URL and no link holds a `$`,
      the Markdown is returned unchanged. */
  lemma AllDownloadsFailed(md: string, parsePath: string -> Option<string>, local: string -> string)
    requires forall l :: l in FoundLinks(md) ==> local(l.url) == l.url
    requires forall l :: l in FoundLinks(md) ==> '$' !in l.full
    ensures ProcessImagesInMarkdown(md, parsePath, local) == md
  {
    CandidatesAreLinks(md, parsePath);
    ApplyFallbacksUnchanged(md, ImageCandidates(FoundLinks(md), parsePath), local, true);
  }

  /** With literal insertion, a run in which every download falls back to
      its URL returns the Markdown unchanged, whatever the links hold. */
  lemma AllDownloadsFailedFixed(md: string, parsePath: string -> Option<string>, local: string -> string)
    requires forall l :: l in FoundLinks(md) ==> local(l.url) == l.url
    ensures ProcessImagesInMarkdownFixed(md, parsePath, local) == md
  {
    CandidatesAreLinks(md, parsePath);
    ApplyFallbacksUnchanged(md, ImageCandidates(FoundLinks(md), parsePath), local, false);
  }

  /** A text holding exactly one link, which is a candidate: the link is
      replaced by its rewrite, expanded against the text around it, and
      nothing else changes. Inserted literally, the rewrite appears as it
      is. */
  lemma OneLinkRewritten(md: string, pre: string, l: ImageLink, post: string,
                         parsePath: string -> Option<string>, local: string -> string)
    requires md == pre + l.full + post
    requires ImageLinkAt(md, |pre|) == Some(l)
    requires forall j :: 0 <= j < |pre| ==> ImageLinkAt(md, j).None?
    requires forall j :: |pre| + |l.full| <= j < |md| ==> ImageLinkAt(md, j).None?
    requires forall j :: 0 <= j < |pre| ==> !OccursAt(md, l.full, j)
    requires IsImageUrl(l.url, parsePath)
    ensures ProcessImagesInMarkdown(md, parsePath, local)
            == pre + Substitute(Rewritten(l, local), l.full, pre, post) + post
    ensures ProcessImagesInMarkdownFixed(md, parsePath, local) == pre + Rewritten(l, local) + post
  {
    OneLinkSetup(md, pre, l, post, parsePath);
    ApplyOne(md, l, local, true);
    ApplyOne(md, l, local, false);
    ReplaceFirstAt(md, l.full, Rewritten(l, local), |pre|, pre, post);
  }

  /** In a text holding one candidate link, the link is the only candidate
      and sits between the text before and after it. */
  lemma OneLinkSetup(md: string, pre: string, l: ImageLink, post: string, parsePath: string -> Option<string>)
    requires md == pre + l.full + post
    requires ImageLinkAt(md, |pre|) == Some(l)
    requires forall j :: 0 <= j < |pre| ==> ImageLinkAt(md, j).None?
    requires forall j :: |pre| + |l.full| <= j < |md| ==> ImageLinkAt(md, j).None?
    requires forall j :: 0 <= j < |pre| ==> !OccursAt(md, l.full, j)
    requires IsImageUrl(l.url, parsePath)
    ensures ImageCandidates(FoundLinks(md), parsePath) == [l]
    ensures Find(md, l.full, 0) == Some(|pre|)
    ensures md[..|pre|] == pre && md[|pre| + |l.full|..] == post
  {
    OnlyLink(md, pre, l, post);
    OneCandidate(l, parsePath);
    Placed(md, pre, l.full, post);
    FindExact(md, l.full, 0, |pre|);
  }

  lemma OneCandidate(l: ImageLink, parsePath: string -> Option<string>)
    requires IsImageUrl(l.url, parsePath)
    ensures ImageCandidates([l], parsePath) == [l]
  {
    assert [l][1..] == [];
  }

  /** Where the three parts of `pre + mid + post` sit. */
  lemma Placed(md: string, pre: string, mid: string, post: string)
    requires md == pre + mid + post
    ensures md[..|pre|] == pre && md[|pre|..|pre| + |mid|] == mid && md[|pre| + |mid|..] == post
  {
  }

  /** Rewriting a single candidate is one `replace`. */
  lemma ApplyOne(md: string, l: ImageLink, local: string -> string, expand: bool)
    ensures ApplyRewrites(md, [l], local, expand)
            == if expand then ReplaceFirst(md, l.full, Rewritten(l, local))
               else ReplaceFirstLiteral(md, l.full, Rewritten(l, local))
  {
    assert [l][1..] == [];
  }

  /** The scan over a text holding one link finds that link only. */
  lemma OnlyLink(md: string, pre: string, l: ImageLink, post: string)
    requires md == pre + l.full + post
    requires ImageLinkAt(md, |pre|) == Some(l)
    requires forall j :: 0 <= j < |pre| ==> ImageLinkAt(md, j).None?
    requires forall j :: |pre| + |l.full| <= j < |md| ==> ImageLinkAt(md, j).None?
    ensures FoundLinks(md) == [l]
  {
    var e := |pre| + |l.full|;
    NoLinkBetween(md, 0, |pre|);
    NoLinkBetween(md, e, |md|);
    LinkMatcherAt(md, |pre|);
    StartsAtLink(md, |pre|, e);
    assert Starts(md, LinkMatcher(), 0) == [|pre|];
    assert LinksAt(md, [|pre|]) == [l];
  }

  /** Where the pattern matches nowhere, the scan finds nothing. */
  lemma NoLinkBetween(s: string, a: nat, b: nat)
    requires a <= b <= |s|
    requires forall j :: a <= j < b ==> ImageLinkAt(s, j).None?
    ensures Starts(s, LinkMatcher(), a) == Starts(s, LinkMatcher(), b)
  {
    forall j | a <= j < b ensures !MatchesAt(s, LinkMatcher(), j) {
      LinkMatcherAt(s, j);
    }
    ReplaceAllSkip(s, LinkMatcher(), a, b);
  }

  /** A match at `i` ending at `e` is the next start the scan takes. */
  lemma StartsAtLink(s: string, i: nat, e: nat)
    requires ImageLinkAt(s, i).Some? && e == i + |ImageLinkAt(s, i).value.full|
    ensures e <= |s| && Starts(s, LinkMatcher(), i) == [i] + Starts(s, LinkMatcher(), e)
  {
    LinkMatcherAt(s, i);
    StartsAtMatch(s, LinkMatcher(), i, e);
  }

  /** The scan matcher matches exactly where the pattern does, over the
      length of the link. */
  lemma LinkMatcherAt(s: string, i: nat)
    ensures MatchesAt(s, LinkMatcher(), i) <==> ImageLinkAt(s, i).Some?
    ensures ImageLinkAt(s, i).Some? ==> LinkMatcher()(s, i).value.len == |ImageLinkAt(s, i).value.full|
  {
  }

  /** Where the pieces of a link's text sit. */
  lemma LinkTextLayout(l: ImageLink)
    requires l.full == "![" + l.alt + "](" + l.url + ")"
    ensures |l.full| == |l.alt| + |l.url| + 5
    ensures l.full[0] == '!' && l.full[1] == '['
    ensures l.full[2..2 + |l.alt|] == l.alt
    ensures l.full[2 + |l.alt|] == ']' && l.full[3 + |l.alt|] == '('
    ensures l.full[4 + |l.alt|..4 + |l.alt| + |l.url|] == l.url
    ensures l.full[4 + |l.alt| + |l.url|] == ')'
  {
    var x := "![" + l.alt;
    var y := x + "](" + l.url;
    assert l.full == y + ")";
    assert y[..|x| + 2] == x + "](";
    assert x[2..] == l.alt;
  }

  /** A link's own text matches the pattern at its start. */
  lemma LinkIntro(l: ImageLink)
    requires LinkShape(l)
    ensures ImageLinkAt(l.full, 0) == Some(l)
  {
    LinkTextLayout(l);
    LaidOutLink(l.full, l.alt, l.url);
  }

  /** The layout facts of a well-shaped link, without the concatenation. */
  lemma LaidOutLink(s: string, alt: string, url: string)
    requires |s| == |alt| + |url| + 5
    requires s[0] == '!' && s[1] == '['
    requires s[2..2 + |alt|] == alt
    requires s[2 + |alt|] == ']' && s[3 + |alt|] == '('
    requires s[4 + |alt|..4 + |alt| + |url|] == url
    requires s[4 + |alt| + |url|] == ')'
    requires ']' !in alt && ')' !in url && url != []
    ensures ImageLinkAt(s, 0) == Some(ImageLink(s, alt, url))
  {
    var a := |alt|;
    var u := |url|;
    RunOver(s, 2, alt, NotCloseBracket);
    RunOver(s, 4 + a, url, NotCloseParen);
    WholeSlice(s, 5 + a + u);
    ImageLinkAtIntro(s, 0, a, u, s, alt, url);
  }

  lemma WholeSlice(s: string, n: nat)
    requires n == |s|
    ensures s[0..n] == s
  {
  }

  /** The pattern matches at `i` when its pieces sit where the greedy runs
      put them, and captures those pieces. */
  lemma ImageLinkAtIntro(s: string, i: nat, a: nat, u: nat, full: string, alt: string, url: string)
    requires i + 4 + a + u < |s|
    requires s[i] == '!' && s[i + 1] == '['
    requires Run(s, i + 2, NotCloseBracket) == a
    requires s[i + 2 + a] == ']' && s[i + 3 + a] == '('
    requires Run(s, i + 4 + a, NotCloseParen) == u && u > 0
    requires s[i + 4 + a + u] == ')'
    requires full == s[i..i + 5 + a + u] && alt == s[i + 2..i + 2 + a] && url == s[i + 4 + a..i + 4 + a + u]
    ensures ImageLinkAt(s, i) == Some(ImageLink(full, alt, url))
  {
    assert ImageLinkAt(s, i) == LinkAfterAlt(s, i, a);
    assert LinkAfterAlt(s, i, a) == LinkAfterUrl(s, i, a, u);
  }

  /** A run over a stretch whose characters all qualify and that is
      followed by one that does not. */
  lemma RunOver(s: string, i: nat, t: string, p: char -> bool)
    requires i + |t| < |s| && s[i..i + |t|] == t
    requires forall c :: c in t ==> p(c)
    requires !p(s[i + |t|])
    ensures Run(s, i, p) == |t|
  {
    forall k | i <= k < i + |t| ensures p(s[k]) {
      assert s[k] == t[k - i];
    }
    RunExact(s, i, p, |t|);
  }

  /** The `$`-expansion defect: a candidate link whose download fails and
      whose URL holds `$$` is not left as it was; the pair becomes a single
      `$`. `![a](b$$.png)` is one such text. Inserted literally, the link
      stays as it is. */
  lemma DollarFallbackChanges(alt: string, x: string, y: string,
                              parsePath: string -> Option<string>, local: string -> string)
    requires forall c :: c in alt ==> AltChar(c)
    requires forall c :: c in x ==> UrlChar(c)
    requires forall c :: c in y ==> UrlChar(c)
    requires IsImageUrl(x + "$$" + y, parsePath)
    requires local(x + "$$" + y) == x + "$$" + y
    ensures var md := "![" + alt + "](" + x + "$$" + y + ")";
            && ProcessImagesInMarkdown(md, parsePath, local) == "![" + alt + "](" + x + "$" + y + ")"
            && ProcessImagesInMarkdownFixed(md, parsePath, local) == md
  {
    var url := x + "$$" + y;
    var md := "![" + alt + "](" + url + ")";
    var l := ImageLink(md, alt, url);
    ExampleIsOneLink(alt, x, y);
    OneLinkAlone(l, parsePath, local);
    assert Rewritten(l, local) == md;
    DollarSubstitution(alt, x, y);
  }

  /** A text that is one candidate link and nothing else. */
  lemma OneLinkAlone(l: ImageLink, parsePath: string -> Option<string>, local: string -> string)
    requires ImageLinkAt(l.full, 0) == Some(l)
    requires forall j :: 1 <= j < |l.full| ==> ImageLinkAt(l.full, j).None?
    requires IsImageUrl(l.url, parsePath)
    ensures ProcessImagesInMarkdown(l.full, parsePath, local) == Substitute(Rewritten(l, local), l.full, [], [])
    ensures ProcessImagesInMarkdownFixed(l.full, parsePath, local) == Rewritten(l, local)
  {
    var e: string := [];
    var w := Rewritten(l, local);
    var v := Substitute(w, l.full, e, e);
    EmptyFrame(l.full);
    EmptyFrame(w);
    EmptyFrame(v);
    OneLinkRewritten(l.full, e, l, e, parsePath, local);
  }

  lemma EmptyFrame(w: string)
    ensures [] + w + [] == w
  {
  }

  /** The example text is one link, matched at its start and nowhere
      else. */
  lemma ExampleIsOneLink(alt: string, x: string, y: string)
    requires forall c :: c in alt ==> AltChar(c)
    requires forall c :: c in x ==> UrlChar(c)
    requires forall c :: c in y ==> UrlChar(c)
    ensures var url := x + "$$" + y;
            var md := "![" + alt + "](" + url + ")";
            && md == "![" + alt + "](" + x + "$$" + y + ")"
            && ImageLinkAt(md, 0) == Some(ImageLink(md, alt, url))
            && forall j :: 1 <= j < |md| ==> ImageLinkAt(md, j).None?
  {
    var url := x + "$$" + y;
    var md := "![" + alt + "](" + url + ")";
    assert md == "![" + alt + "](" + x + "$$" + y + ")";
    var l := ImageLink(md, alt, url);
    UrlOfParts(x, y);
    assert ']' !in alt && '!' !in alt by {
      assert forall c :: c in alt ==> AltChar(c);
    }
    assert LinkShape(l);
    LinkIntro(l);
    forall j | 1 <= j < |md| ensures ImageLinkAt(md, j).None? {
      NoBangAfterStart(l, j);
    }
  }

  /** Past its first character, a link without `!` in its captures holds
      no `!`. */
  lemma NoBangAfterStart(l: ImageLink, j: nat)
    requires LinkShape(l) && '!' !in l.alt && '!' !in l.url
    requires 1 <= j < |l.full|
    ensures l.full[j] != '!'
  {
    LinkTextLayout(l);
    var a := |l.alt|;
    if 2 <= j < 2 + a {
      assert l.full[j] == l.full[2..2 + a][j - 2] == l.alt[j - 2];
    } else if 4 + a <= j < 4 + a + |l.url| {
      assert l.full[j] == l.full[4 + a..4 + a + |l.url|][j - 4 - a] == l.url[j - 4 - a];
    }
  }

  /** `$$` in the replacement writes one `$`; the rest is copied. */
  lemma DollarSubstitution(alt: string, x: string, y: string)
    requires forall c :: c in alt ==> AltChar(c)
    requires forall c :: c in x ==> UrlChar(c)
    requires forall c :: c in y ==> UrlChar(c)
    ensures var m := "![" + alt + "](" + x + "$$" + y + ")";
            Substitute(m, m, [], []) == "![" + alt + "](" + x + "$" + y + ")"
  {
    var m := "![" + alt + "](" + x + "$$" + y + ")";
    var head := "![" + alt + "](" + x;
    var tail := y + ")";
    assert m == head + ("$$" + tail);
    NoDollar(head, alt, x);
    assert '$' !in tail by {
      assert forall k :: 0 <= k < |y| ==> tail[k] == y[k] && UrlChar(y[k]);
    }
    assert Substitute(tail, m, [], []) == tail;
    assert Substitute("$$" + tail, m, [], []) == "$" + tail;
    SubstitutePlain(head, "$$" + tail, m, [], []);
    assert head + ("$" + tail) == "![" + alt + "](" + x + "$" + y + ")";
  }

  /** What the alt text and the URL of the example are made of. */
  predicate AltChar(c: char) { c != ']' && c != '!' && c != '$' }

  predicate UrlChar(c: char) { c != ')' && c != '!' && c != '$' }

  /** A URL of the example holds no `)` and no `!`. */
  lemma UrlOfParts(x: string, y: string)
    requires forall c :: c in x ==> UrlChar(c)
    requires forall c :: c in y ==> UrlChar(c)
    ensures ')' !in x + "$$" + y && '!' !in x + "$$" + y
  {
    var url := x + "$$" + y;
    forall k | 0 <= k < |url| ensures url[k] != ')' && url[k] != '!' {
      if k < |x| {
        assert url[k] == x[k] && x[k] in x;
      } else if k >= |x| + 2 {
        assert url[k] == y[k - |x| - 2] && y[k - |x| - 2] in y;
      }
    }
  }

  /** The text before the `$$` of the example holds no `$`. */
  lemma NoDollar(head: string, alt: string, x: string)
    requires forall c :: c in alt ==> AltChar(c)
    requires forall c :: c in x ==> UrlChar(c)
    requires head == "![" + alt + "](" + x
    ensures forall k :: 0 <= k < |head| ==> head[k] != '$'
  {
    forall k | 0 <= k < |head| ensures head[k] != '$' {
      if 2 <= k < 2 + |alt| {
        assert head[k] == alt[k - 2];
        assert AltChar(alt[k - 2]);
      } else if 4 + |alt| <= k {
        assert head[k] == x[k - 4 - |alt|];
        assert UrlChar(x[k - 4 - |alt|]);
      }
    }
  }

  /** `extractImageUrlFromBlock` in TypeScript: optional chaining turns every
      missing object into `null`, and so does an empty URL. */
  function ExtractImageUrlTs(block: BlockContent, parsePath: string -> Option<string>): (r: Option<string>)
    ensures r.Some? ==> r.value != []
    ensures r.Some? ==> block.Image? || (block.Embed? && IsImageUrl(r.value, parsePath))
  {
    match block
    case Image(img) =>
      if img.Some? && img.value.kind == Some("external") then
        if img.value.external.Some? && Truthy(img.value.external.value.url) then img.value.external.value.url else None
      else if img.Some? && img.value.kind == Some("file") then
        if img.value.file.Some? && Truthy(img.value.file.value.url) then img.value.file.value.url else None
      else None
    case Embed(e) =>
      if e.Some? && Truthy(e.value.url) && IsImageUrl(e.value.url.value, parsePath) then e.value.url else None
    case _ => None
  }

  /** `extractImageUrlFromBlock` in JavaScript: no optional chaining, so a
      missing `image`, `external`, `file` or `embed` object throws a
      `TypeError`; a missing URL is returned as `undefined` for images and is
      not an image URL for embeds (`new URL(undefined)` throws and is
      caught). */
  function ExtractImageUrlJs(block: BlockContent, parsePath: string -> Option<string>): (r: Result<Option<string>, string>)
    ensures block.Image? && block.image.None? ==> r.Err?
    ensures block.Embed? && block.embed.None? ==> r.Err?
    ensures !block.Image? && !block.Embed? ==> r == Ok(None)
  {
    match block
    case Image(img) =>
      if img.None? then Err("TypeError")
      else if img.value.kind == Some("external") then
        if img.value.external.None? then Err("TypeError") else Ok(img.value.external.value.url)
      else if img.value.kind == Some("file") then
        if img.value.file.None? then Err("TypeError") else Ok(img.value.file.value.url)
      else Ok(None)
    case Embed(e) =>
      if e.None? then Err("TypeError")
      else if e.value.url.Some? && IsImageUrl(e.value.url.value, parsePath) then Ok(e.value.url)
      else Ok(None)
    case _ => Ok(None)
  }

  /** On blocks carrying every object they name and a non-empty URL, the two
      versions agree. */
  lemma ExtractImageUrlAgree(block: BlockContent, parsePath: string -> Option<string>)
    requires block.Image? ==> block.image.Some?
                              && (block.image.value.kind == Some("external") ==>
                                    block.image.value.external.Some? && Truthy(block.image.value.external.value.url))
                              && (block.image.value.kind == Some("file") ==>
                                    block.image.value.file.Some? && Truthy(block.image.value.file.value.url))
    requires block.Embed? ==> block.embed.Some? && Truthy(block.embed.value.url)
    ensures ExtractImageUrlJs(block, parsePath) == Ok(ExtractImageUrlTs(block, parsePath))
  {
  }
}
