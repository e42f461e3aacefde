/** The TypeScript Markdown converter (`scripts/utils/markdown-converter.ts`):
    its callout transformer, the code-fence re-indentation, the rewrite of
    links into Notion, the post-processing pipeline and `extractMetadata`. */
module MarkdownTs {
  import opened Wrappers
  import opened Text
  import opened Scan
  import opened NotionModel
  import opened MarkdownCommon
  import opened ImageProcessor

  /** The callout transformer: icon, space, the text in bold. */
  function CalloutTs(emoji: Option<string>, rich: seq<RichText>): (r: string)
    ensures StartsWith(r, CalloutIcon(emoji) + " **") && EndsWith(r, "**")
    ensures |r| == |CalloutIcon(emoji)| + |PlainText(rich)| + 5
    ensures r[|CalloutIcon(emoji)| + 3..|r| - 2] == PlainText(rich)
  {
    var head := CalloutIcon(emoji) + " **";
    var r := head + PlainText(rich) + "**";
    assert r[..|head|] == head;
    assert r[|head|..|r| - 2] == PlainText(rich);
    r
  }

  /** A callout without a usable emoji opens with the light bulb. */
  lemma CalloutDefaultIcon(emoji: Option<string>, rich: seq<RichText>)
    requires !Truthy(emoji)
    ensures StartsWith(CalloutTs(emoji, rich), DefaultIcon + " **")
  {
  }

  /** The custom transformers of the converter: code, quote, callout and
      divider blocks; `None` leaves the block to the library's default. */
  function TransformTs(b: BlockContent): (r: Option<string>)
    ensures r.Some? <==> (b.Code? || b.Quote? || b.Callout? || b.Divider?)
    ensures b.Code? ==> r == Some(CodeBlock(b.language, b.codeText))
    ensures b.Quote? ==> r == Some(QuoteBlock(b.quoteText))
    ensures b.Callout? ==> r == Some(CalloutTs(b.iconEmoji, b.calloutText))
    ensures b.Divider? ==> r == Some(DividerBlock)
  {
    match b
    case Code(language, rich) => Some(CodeBlock(language, rich))
    case Quote(rich) => Some(QuoteBlock(rich))
    case Callout(emoji, rich) => Some(CalloutTs(emoji, rich))
    case Divider => Some(DividerBlock)
    case _ => None
  }

  // ---- Code-fence re-indentation ----

  /** One line after removing the common indent `m`: blank lines stay as
      they are, others lose their first `m` characters, which are blanks. */
  function DedentLine(line: string, m: nat): (r: string)
    requires IsBlankLine(line) || m <= Indent(line, IsBlank)
    ensures IsBlankLine(line) ==> r == line
    ensures !IsBlankLine(line) ==> line == line[..m] + r
    ensures !IsBlankLine(line) ==> forall k :: 0 <= k < m ==> IsBlank(line[k])
  {
    if IsBlankLine(line) then line else line[m..]
  }

  function DedentLines(lines: seq<string>, m: nat): (r: seq<string>)
    requires forall k :: 0 <= k < |lines| ==> IsBlankLine(lines[k]) || m <= Indent(lines[k], IsBlank)
    ensures |r| == |lines|
    ensures forall k :: 0 <= k < |lines| ==> r[k] == DedentLine(lines[k], m)
  {
    seq(|lines|, k requires 0 <= k < |lines| => DedentLine(lines[k], m))
  }

  /** The body of a fenced block after re-indentation: unchanged when every
      line is blank, otherwise each line with the common indent removed. */
  function DedentTs(code: string): string
  {
    var lines := Split(code, '\n');
    match MinIndent(lines, IsBlank)
    case None => code
    case Some(m) => Join(DedentLines(lines, m), "\n")
  }

  /** Removing at most the indent of a non-blank line keeps it non-blank and
      shortens its indent by as much. */
  lemma DedentLineNonBlank(line: string, m: nat)
    requires !IsBlankLine(line) && m <= Indent(line, IsBlank)
    ensures !IsBlankLine(DedentLine(line, m))
    ensures Indent(DedentLine(line, m), IsBlank) == Indent(line, IsBlank) - m
  {
    var r := DedentLine(line, m);
    RunDrop(line, m, IsBlank);
    TrimEmptyIff(line);
    TrimEmptyIff(r);
    var p :| 0 <= p < |line| && !IsSpace(line[p]);
    assert m <= p;
    assert r[p - m] == line[p];
  }

  /** The lines of a re-indented block are the re-indented lines. */
  lemma DedentTsLines(code: string)
    requires MinIndent(Split(code, '\n'), IsBlank).Some?
    ensures var lines := Split(code, '\n');
            Split(DedentTs(code), '\n') == DedentLines(lines, MinIndent(lines, IsBlank).value)
  {
    var lines := Split(code, '\n');
    var out := DedentLines(lines, MinIndent(lines, IsBlank).value);
    forall k | 0 <= k < |out| ensures '\n' !in out[k] {
      assert '\n' !in lines[k];
      if !IsBlankLine(lines[k]) {
        assert lines[k] == lines[k][..MinIndent(lines, IsBlank).value] + out[k];
      }
    }
    SplitJoin(out, '\n');
  }

  /** After re-indentation some non-blank line starts at column zero. */
  lemma DedentedMinIndentZero(lines: seq<string>)
    requires MinIndent(lines, IsBlank).Some?
    ensures MinIndent(DedentLines(lines, MinIndent(lines, IsBlank).value), IsBlank) == Some(0)
  {
    var m := MinIndent(lines, IsBlank).value;
    var out := DedentLines(lines, m);
    MinIndentAttained(lines, IsBlank);
    var k :| 0 <= k < |lines| && !IsBlankLine(lines[k]) && Indent(lines[k], IsBlank) == m;
    DedentLineNonBlank(lines[k], m);
    assert !IsBlankLine(out[k]) && Indent(out[k], IsBlank) == 0;
    MinIndentZero(out, k, IsBlank);
  }

  /** Removing an indent of zero changes no line. */
  lemma DedentLinesZero(lines: seq<string>)
    ensures DedentLines(lines, 0) == lines
  {
    forall k | 0 <= k < |lines| ensures DedentLine(lines[k], 0) == lines[k] {
      if !IsBlankLine(lines[k]) {
        assert lines[k][0..] == lines[k];
      }
    }
  }

  /** Re-indenting twice is re-indenting once. */
  lemma DedentTsIdempotent(code: string)
    ensures DedentTs(DedentTs(code)) == DedentTs(code)
  {
    var lines := Split(code, '\n');
    match MinIndent(lines, IsBlank)
    case None =>
    case Some(m) =>
      var out := DedentLines(lines, m);
      DedentTsLines(code);
      DedentedMinIndentZero(lines);
      DedentLinesZero(out);
  }

  /** A block whose non-blank lines already include one at column zero, or
      that has none, is left as it is. */
  lemma DedentTsFlush(code: string)
    requires MinIndent(Split(code, '\n'), IsBlank) in {None, Some(0)}
    ensures DedentTs(code) == code
  {
    var lines := Split(code, '\n');
    if MinIndent(lines, IsBlank).Some? {
      DedentLinesZero(lines);
      JoinSplit(code, '\n');
    }
  }

  /** One match of `/```(\w*)\n([\s\S]*?)\n```/`: the language tag, the body
      and the length of the whole match. */
  datatype Fenced = Fenced(lang: string, code: string, len: nat)

  const CloseFence: string := "\n```"

  /** The fence pattern tried at `i`. `\w*` must be maximal, since a shorter
      run is followed by a word character and not by the newline; the lazy
      body ends at the first newline-fence after the opening line. */
  function FenceTsAt(s: string, i: nat): (r: Option<Fenced>)
    ensures r.Some? ==> i + r.value.len <= |s|
    ensures r.Some? ==> s[i..i + r.value.len] == Fence + r.value.lang + "\n" + r.value.code + CloseFence
    ensures r.Some? ==> forall k :: 0 <= k < |r.value.lang| ==> IsWord(r.value.lang[k])
    ensures r.Some? ==> OccursAt(s, Fence, i)
  {
    if i + 3 <= |s| && s[i..i + 3] == Fence then
      var w := Run(s, i + 3, IsWord);
      var j := i + 3 + w;
      if j < |s| && s[j] == '\n' then
        match Find(s, CloseFence, j + 1)
        case None => None
        case Some(k) =>
          FenceSplice(s, i, j, k, CloseFence);
          Some(Fenced(s[i + 3..j], s[j + 1..k], k + 4 - i))
      else None
    else None
  }

  /** The replacement the callback returns: the block rebuilt around the
      re-indented body. */
  function FenceTsMatcher(): Matcher {
    (s: string, i: nat) =>
      match FenceTsAt(s, i)
      case None => None
      case Some(f) => Some(Hit(f.len, Fence + f.lang + "\n" + DedentTs(f.code) + CloseFence))
  }

  /** `fixCodeBlockIndentation`. */
  function FixTs(s: string): (r: string)
    ensures !Contains(s, Fence) ==> r == s
  {
    FenceFreeKept(s);
    ReplaceAll(s, FenceTsMatcher(), 0)
  }

  lemma FenceFreeKept(s: string)
    ensures !Contains(s, Fence) ==> ReplaceAll(s, FenceTsMatcher(), 0) == s
  {
    ContainsIff(s, Fence);
    if !Contains(s, Fence) {
      ReplaceAllNoMatch(s, FenceTsMatcher(), 0);
    }
  }

  /** When every block the scan meets is already flush left, the
      re-indentation changes nothing. */
  lemma FixTsFlush(s: string)
    requires forall i :: 0 <= i < |s| && FenceTsAt(s, i).Some? ==>
               MinIndent(Split(FenceTsAt(s, i).value.code, '\n'), IsBlank) in {None, Some(0)}
    ensures FixTs(s) == s
  {
    forall j | 0 <= j < |s| ensures Reproduces(s, FenceTsMatcher(), j) {
      match FenceTsAt(s, j)
      case None =>
      case Some(f) =>
        DedentTsFlush(f.code);
        assert FenceTsMatcher()(s, j) == Some(Hit(f.len, Fence + f.lang + "\n" + f.code + CloseFence));
    }
    ReplaceAllIdentity(s, FenceTsMatcher(), 0);
  }

  // ---- Links into Notion ----

  const NotionLinkTail: string := "](https://www.notion.so/"

  /** One match of `/\[([^\]]+)\]\(https:\/\/www\.notion\.so\/[^)]+\)/`: the
      link text and the length of the whole match. */
  datatype NotionLink = NotionLink(text: string, len: nat)

  /** Where a match of the link pattern lies: `[` at `i`, the text without
      `]`, the Notion address head, then a non-empty run without `)` closed
      by `)` at the end of the match. */
  predicate NotionLinkFits(s: string, i: nat, l: NotionLink) {
    && i < |s| && s[i] == '['
    && l.text != [] && ']' !in l.text
    && i + 1 + |l.text| <= |s| && s[i + 1..i + 1 + |l.text|] == l.text
    && OccursAt(s, NotionLinkTail, i + 1 + |l.text|)
    && var e := i + l.len;
       && i + 1 + |l.text| + |NotionLinkTail| < e - 1 && e <= |s| && s[e - 1] == ')'
       && forall k :: i + 1 + |l.text| + |NotionLinkTail| <= k < e - 1 ==> s[k] != ')'
  }

  /** The link pattern tried at `i`. Both `[^…]+` runs must be maximal: a
      shorter run is followed by a character the next token cannot take. */
  function NotionLinkAt(s: string, i: nat): (r: Option<NotionLink>)
    ensures r.Some? ==> NotionLinkFits(s, i, r.value)
  {
    if i < |s| && s[i] == '[' then
      var t := Run(s, i + 1, NotCloseBracket);
      var p := i + 1 + t;
      if t > 0 && OccursAt(s, NotionLinkTail, p) then
        var q := p + |NotionLinkTail|;
        var u := Run(s, q, NotCloseParen);
        if u > 0 && q + u < |s| && s[q + u] == ')' then
          var l := NotionLink(s[i + 1..p], q + u + 1 - i);
          NotionLinkFitsIntro(s, i, t, q, u, l);
          Some(l)
        else None
      else None
    else None
  }

  /** The pieces the pattern reads, in place, make a link that fits. */
  lemma NotionLinkFitsIntro(s: string, i: nat, t: nat, q: nat, u: nat, l: NotionLink)
    requires i < |s| && s[i] == '[' && 0 < t && i + 1 + t <= |s|
    requires forall k :: i + 1 <= k < i + 1 + t ==> s[k] != ']'
    requires OccursAt(s, NotionLinkTail, i + 1 + t) && q == i + 1 + t + |NotionLinkTail|
    requires 0 < u && q + u < |s| && s[q + u] == ')'
    requires forall k :: q <= k < q + u ==> s[k] != ')'
    requires l == NotionLink(s[i + 1..i + 1 + t], q + u + 1 - i)
    ensures NotionLinkFits(s, i, l)
  {
    assert |l.text| == t;
    forall c | c in l.text ensures c != ']' {
      var k :| 0 <= k < t && l.text[k] == c;
      assert s[i + 1 + k] == c;
    }
  }

  /** A Notion link as the source writes it: the text kept, the target
      replaced by `#`. */
  function NotionLinkMatcher(): Matcher {
    (s: string, i: nat) =>
      match NotionLinkAt(s, i)
      case None => None
      case Some(l) => Some(Hit(l.len, "[" + l.text + "](#)"))
  }

  /** `normalizeLinks` as written. The pattern does not look at the character
      before `[`, so it also rewrites image links into Notion. */
  function NormalizeLinksTs(s: string): (r: string)
    ensures !Contains(s, NotionLinkTail) ==> r == s
  {
    NoNotionLinkKept(s);
    ReplaceAll(s, NotionLinkMatcher(), 0)
  }

  /** Text that never points into `www.notion.so` has no link to rewrite. */
  lemma NoNotionLinkKept(s: string)
    ensures !Contains(s, NotionLinkTail) ==> ReplaceAll(s, NotionLinkMatcher(), 0) == s
  {
    ContainsIff(s, NotionLinkTail);
    if !Contains(s, NotionLinkTail) {
      forall j | 0 <= j < |s| ensures !MatchesAt(s, NotionLinkMatcher(), j) {
        if NotionLinkAt(s, j).Some? {
          assert OccursAt(s, NotionLinkTail, j + 1 + |NotionLinkAt(s, j).value.text|);
        }
      }
      ReplaceAllNoMatch(s, NotionLinkMatcher(), 0);
    }
  }

  /** The link pattern at `i`, read off the characters: a bracketed text of
      `n` characters, the Notion address head, `m` more characters and `)`. */
  lemma NotionLinkAtExact(s: string, i: nat, n: nat, m: nat)
    requires n > 0 && m > 0 && i + 1 + n + |NotionLinkTail| + m < |s|
    requires s[i] == '['
    requires forall k :: i + 1 <= k < i + 1 + n ==> s[k] != ']'
    requires OccursAt(s, NotionLinkTail, i + 1 + n)
    requires forall k :: i + 1 + n + |NotionLinkTail| <= k < i + 1 + n + |NotionLinkTail| + m ==> s[k] != ')'
    requires s[i + 1 + n + |NotionLinkTail| + m] == ')'
    ensures NotionLinkAt(s, i) == Some(NotionLink(s[i + 1..i + 1 + n], 1 + n + |NotionLinkTail| + m + 1))
  {
    var p := i + 1 + n;
    var q := p + |NotionLinkTail|;
    assert s[p] == s[p..q][0];
    RunExact(s, i + 1, NotCloseBracket, n);
    RunExact(s, q, NotCloseParen, m);
  }

  /** An image whose address lies in `www.notion.so` loses that address:
      the link pattern starts at the `[` and does not look at the `!` before
      it. Here `s` is `![alt](https://www.notion.so/…)` with an alt text of
      `n` characters and `m` characters after the host. */
  lemma NormalizeLinksTsDropsImage(s: string, n: nat, m: nat)
    requires n > 0 && m > 0 && |s| == 2 + n + |NotionLinkTail| + m + 1
    requires s[0] == '!' && s[1] == '['
    requires forall k :: 2 <= k < 2 + n ==> s[k] != ']'
    requires OccursAt(s, NotionLinkTail, 2 + n)
    requires forall k :: 2 + n + |NotionLinkTail| <= k < |s| - 1 ==> s[k] != ')'
    requires s[|s| - 1] == ')'
    ensures NormalizeLinksTs(s) == "![" + s[2..2 + n] + "](#)"
  {
    var at := NotionLinkMatcher();
    NotionLinkAtExact(s, 1, n, m);
    assert !MatchesAt(s, at, 0);
    assert MatchesAt(s, at, 1) && at(s, 1).value == Hit(|s| - 1, "[" + s[2..2 + n] + "](#)");
    assert ReplaceAll(s, at, 1) == "[" + s[2..2 + n] + "](#)" + ReplaceAll(s, at, |s|);
  }

  /** The example link splits at the Notion address head. */
  lemma ExampleParts(s: string)
    requires s == "![a](https://www.notion.so/image/x)"
    ensures s == "![a" + NotionLinkTail + "image/x)"
  {
  }

  /** A link of that form, character by character. */
  lemma PartsShape(s: string, tail: string)
    requires s == "![a" + NotionLinkTail + tail + ")" && ')' !in tail
    ensures |s| == 2 + 1 + |NotionLinkTail| + |tail| + 1
    ensures s[0] == '!' && s[1] == '[' && s[2..3] == "a" && s[2] != ']'
    ensures OccursAt(s, NotionLinkTail, 3)
    ensures forall k :: 3 + |NotionLinkTail| <= k < |s| - 1 ==> s[k] != ')'
    ensures s[|s| - 1] == ')'
  {
    assert s[3..3 + |NotionLinkTail|] == NotionLinkTail;
    forall k | 3 + |NotionLinkTail| <= k < |s| - 1 ensures s[k] != ')' {
      assert s[k] == tail[k - 3 - |NotionLinkTail|];
    }
  }

  /** The example: `![a](https://www.notion.so/image/x)`, an address
      `isImageUrl` accepts, comes out as `![a](#)` before the image step
      runs. */
  lemma NormalizeLinksTsDropsNotionImage(parsePath: string -> Option<string>)
    requires parsePath("https://www.notion.so/image/x").Some?
    ensures IsImageUrl("https://www.notion.so/image/x", parsePath)
    ensures NormalizeLinksTs("![a](https://www.notion.so/image/x)") == "![a](#)"
  {
    NotionImageUrl("https://www.notion.so/image/x", parsePath);
    ExampleDrop("![a](https://www.notion.so/image/x)");
  }

  lemma ExampleDrop(s: string)
    requires s == "![a](https://www.notion.so/image/x)"
    ensures NormalizeLinksTs(s) == "![a](#)"
  {
    ExampleParts(s);
    PartsShape(s, "image/x");
    NormalizeLinksTsDropsImage(s, 1, 7);
    assert "![" + s[2..3] + "](#)" == "![a](#)";
  }

  lemma NotionImageUrl(url: string, parsePath: string -> Option<string>)
    requires url == "https://www.notion.so/image/x"
    requires parsePath(url).Some?
    ensures IsImageUrl(url, parsePath)
  {
    assert OccursAt(url, "notion.so", 12);
    ContainsIff(url, "notion.so");
    assert OccursAt(url, "/image/", 21);
    ContainsIff(url, "/image/");
  }

  /** The pattern with the look-behind `(?<!!)` it evidently lacks: a `[`
      right after `!` opens an image, not a link. */
  function NotionLinkFixedMatcher(): Matcher {
    (s: string, i: nat) =>
      if 0 < i <= |s| && s[i - 1] == '!' then None
      else
        match NotionLinkAt(s, i)
        case None => None
        case Some(l) => Some(Hit(l.len, "[" + l.text + "](#)"))
  }

  function NormalizeLinksTsFixed(s: string): string
  {
    ReplaceAll(s, NotionLinkFixedMatcher(), 0)
  }

  /** Like the original, the corrected rewrite keeps text that never points
      into `www.notion.so`. */
  lemma NormalizeLinksTsFixedNoNotion(s: string)
    requires !Contains(s, NotionLinkTail)
    ensures NormalizeLinksTsFixed(s) == s
  {
    ContainsIff(s, NotionLinkTail);
    forall j | 0 <= j < |s| ensures !MatchesAt(s, NotionLinkFixedMatcher(), j) {
      if NotionLinkAt(s, j).Some? {
        assert OccursAt(s, NotionLinkTail, j + 1 + |NotionLinkAt(s, j).value.text|);
      }
    }
    ReplaceAllNoMatch(s, NotionLinkFixedMatcher(), 0);
  }

  /** With the look-behind an image link passes through untouched, whatever
      its address. */
  lemma NormalizeLinksTsFixedKeepsImage(alt: string, url: string)
    requires '[' !in alt && ']' !in alt && '[' !in url
    ensures var s := "![" + alt + "](" + url + ")";
            NormalizeLinksTsFixed(s) == s
  {
    var s := "![" + alt + "](" + url + ")";
    forall j | 0 <= j < |s| ensures !MatchesAt(s, NotionLinkFixedMatcher(), j) {
      if j >= 2 && j < 2 + |alt| {
        assert s[j] == alt[j - 2];
      } else if j >= 4 + |alt| && j < 4 + |alt| + |url| {
        assert s[j] == url[j - 4 - |alt|];
      }
    }
    ReplaceAllNoMatch(s, NotionLinkFixedMatcher(), 0);
  }

  // ---- Post-processing ----

  /** `postProcessMarkdown` as written: empty input gives empty output;
      otherwise the clean-up, the re-indentation, the link rewrite and the
      image rewrite, in that order. `local(url)` is what the image download
      resolves to. */
  function PostProcessTs(md: string, parsePath: string -> Option<string>, local: string -> string): (r: string)
    ensures md == [] ==> r == []
  {
    if md == [] then []
    else ProcessImagesInMarkdown(NormalizeLinksTs(FixTs(CleanUp(md))), parsePath, local)
  }

  /** The same pipeline with the corrections of the Findings: the strip
      before the collapse, the link rewrite that leaves images alone, and
      rewritten image links inserted literally. */
  function PostProcessTsFixed(md: string, parsePath: string -> Option<string>, local: string -> string): (r: string)
    ensures md == [] ==> r == []
  {
    if md == [] then []
    else ProcessImagesInMarkdownFixed(NormalizeLinksTsFixed(FixTs(CleanUpCorrected(md))), parsePath, local)
  }

  /** Text whose clean-up has no fence, link or image only goes through the
      clean-up, and so keeps its promises: no white space at either end and
      no line ending in a blank. */
  lemma PostProcessTsPlain(md: string, parsePath: string -> Option<string>, local: string -> string)
    requires '`' !in CleanUp(md) && '[' !in CleanUp(md)
    ensures PostProcessTs(md, parsePath, local) == CleanUp(md)
    ensures NoTrailingBlank(PostProcessTs(md, parsePath, local))
  {
    var c := CleanUp(md);
    CleanUpNoTrailingBlank(md);
    if md != [] {
      NoBacktickNoFence(c);
      NoBracketNoNotionLink(c);
      NoBracketNoImage(c, parsePath, local);
    }
  }

  /** The pipeline as written passes the clean-up's blank run through: a
      line of one space between two blank lines leaves four newlines in a
      row. */
  lemma PostProcessTsKeepsBlankRun(md: string, parsePath: string -> Option<string>, local: string -> string)
    requires md == "a\n\n \n\nb"
    ensures PostProcessTs(md, parsePath, local) == "a\n\n\n\nb"
    ensures !NoTripleNewline(PostProcessTs(md, parsePath, local))
  {
    CleanUpKeepsBlankRun(md);
    var c := CleanUp(md);
    assert c == "a\n\n\n\nb";
    assert '`' !in c && '[' !in c;
    PostProcessTsPlain(md, parsePath, local);
  }

  /** On the same kind of text the corrected pipeline is the corrected
      clean-up, which leaves no run of three newlines. */
  lemma PostProcessTsFixedPlain(md: string, parsePath: string -> Option<string>, local: string -> string)
    requires '`' !in CleanUpCorrected(md) && '[' !in CleanUpCorrected(md)
    ensures PostProcessTsFixed(md, parsePath, local) == CleanUpCorrected(md)
    ensures NoTripleNewline(PostProcessTsFixed(md, parsePath, local))
  {
    var c := CleanUpCorrected(md);
    if md != [] {
      NoBacktickNoFence(c);
      NoBracketNoNotionLinkFixed(c);
      NoBracketNoImage(c, parsePath, local);
    }
  }

  lemma NoBacktickNoFence(c: string)
    requires '`' !in c
    ensures FixTs(c) == c
  {
    forall k | 0 <= k && k + |Fence| <= |c| ensures !OccursAt(c, Fence, k) {
      assert c[k..k + |Fence|][0] == c[k];
    }
    ContainsIff(c, Fence);
  }

  lemma NoBracketNoNotionLink(c: string)
    requires '[' !in c
    ensures NormalizeLinksTs(c) == c
  {
    forall j | 0 <= j < |c| ensures !MatchesAt(c, NotionLinkMatcher(), j) {
      if NotionLinkAt(c, j).Some? {
        assert c[j] == '[';
      }
    }
    ReplaceAllNoMatch(c, NotionLinkMatcher(), 0);
  }

  lemma NoBracketNoNotionLinkFixed(c: string)
    requires '[' !in c
    ensures NormalizeLinksTsFixed(c) == c
  {
    forall j | 0 <= j < |c| ensures !MatchesAt(c, NotionLinkFixedMatcher(), j) {
      if NotionLinkAt(c, j).Some? {
        assert c[j] == '[';
      }
    }
    ReplaceAllNoMatch(c, NotionLinkFixedMatcher(), 0);
  }

  lemma NoBracketNoImage(c: string, parsePath: string -> Option<string>, local: string -> string)
    requires '[' !in c
    ensures ProcessImagesInMarkdown(c, parsePath, local) == c
    ensures ProcessImagesInMarkdownFixed(c, parsePath, local) == c
  {
    forall j | 0 <= j < |c| ensures !MatchesAt(c, LinkMatcher(), j) {
      if ImageLinkAt(c, j).Some? {
        assert c[j + 1] == '[';
      }
    }
    NoStarts(c, LinkMatcher(), 0);
    assert FoundLinks(c) == [];
  }

  // ---- Metadata ----

  predicate IsParagraphChar(c: char) { c != '#' && c != '\n' }

  const MaxDescription: nat := 160

  /** `/^([^#\n]+)/` (anchored at the start of the text only), trimmed and
      cut to 160 UTF-16 code units; empty when the text starts with `#` or a
      newline. */
  function DescriptionTs(s: string): (r: string)
    ensures Utf16Length(r) <= MaxDescription
    ensures forall k :: 0 <= k < |r| ==> IsParagraphChar(r[k])
    ensures r == [] || !IsSpace(r[0])
    ensures (s == [] || !IsParagraphChar(s[0])) ==> r == []
  {
    var d := Run(s, 0, IsParagraphChar);
    if d == 0 then []
    else
      var t := Trim(s[..d]);
      TrimKeeps(s[..d], IsParagraphChar);
      TakeUnits(t, MaxDescription)
  }

  /** The description of a text opening with a paragraph `p` is the trimmed
      paragraph cut to 160 code units, and the whole trimmed paragraph when
      it fits. */
  lemma DescriptionTsFirstParagraph(p: string, rest: string)
    requires forall k :: 0 <= k < |p| ==> IsParagraphChar(p[k])
    requires rest == [] || !IsParagraphChar(rest[0])
    ensures DescriptionTs(p + rest) == TakeUnits(Trim(p), MaxDescription)
    ensures Utf16Length(Trim(p)) <= MaxDescription ==> DescriptionTs(p + rest) == Trim(p)
  {
    var s := p + rest;
    RunExact(s, 0, IsParagraphChar, |p|);
    assert s[..|p|] == p;
  }

  /** A character outside the Basic Multilingual Plane takes two of the 160
      units: after `💡 `, 157 more characters fit, not 158. */
  lemma DescriptionTsCountsUnits(p: string, rest: string)
    requires |p| == 200 && forall k :: 0 <= k < |p| ==> p[k] == 'a'
    requires rest == [] || !IsParagraphChar(rest[0])
    ensures DescriptionTs("\U{1F4A1} " + p + rest) == "\U{1F4A1} " + p[..157]
  {
    var q := "\U{1F4A1} " + p;
    assert q + rest == "\U{1F4A1} " + p + rest;
    AstralLead(q, p);
    DescriptionTsFirstParagraph(q, rest);
  }

  /** `💡 aaa…` is one trimmed paragraph. */
  lemma AstralLead(q: string, p: string)
    requires |p| == 200 && forall k :: 0 <= k < |p| ==> p[k] == 'a'
    requires q == "\U{1F4A1} " + p
    ensures forall k :: 0 <= k < |q| ==> IsParagraphChar(q[k])
    ensures Trim(q) == q
    ensures TakeUnits(q, MaxDescription) == "\U{1F4A1} " + p[..157]
  {
    forall k | 0 <= k < |q| ensures IsParagraphChar(q[k]) {
      if k >= 2 { assert q[k] == p[k - 2]; }
    }
    AstralTrimmed(q, p);
    AstralUnits(q, p);
  }

  lemma AstralTrimmed(q: string, p: string)
    requires |p| == 200 && forall k :: 0 <= k < |p| ==> p[k] == 'a'
    requires q == "\U{1F4A1} " + p
    ensures Trim(q) == q
  {
    assert !IsSpace(q[0]) by { assert q[0] == '\U{1F4A1}'; }
    assert !IsSpace(q[|q| - 1]) by { assert q[|q| - 1] == p[199]; }
    TrimOfTrimmed(q);
  }

  /** Of `💡 aaa…`, the first 159 characters take 160 units. */
  lemma AstralUnits(q: string, p: string)
    requires |p| == 200 && forall k :: 0 <= k < |p| ==> p[k] == 'a'
    requires q == "\U{1F4A1} " + p
    ensures TakeUnits(q, MaxDescription) == "\U{1F4A1} " + p[..157]
  {
    AsUnits(p[..157]);
    Utf16LengthAppend("\U{1F4A1} ", p[..157]);
    PrefixOfAppend("\U{1F4A1} ", p, 157);
    assert q[159] == p[157];
    TakeUnitsExact(q, MaxDescription, 159);
  }

  lemma AsUnits(a: string)
    requires forall k :: 0 <= k < |a| ==> a[k] == 'a'
    ensures Utf16Length(a) == |a|
  {
    Utf16LengthBmp(a);
  }

  /** `matchAll(/^#{1,6}\s+(.+)$/gm)`, first groups in order. */
  function HeadingsTs(s: string): (r: seq<string>)
    ensures |r| == |HeadingHits(s)|
    ensures forall k :: 0 <= k < |r| ==> r[k] != [] && forall c :: c in r[k] ==> !IsLineTerminator(c)
  {
    var hs := HeadingHits(s);
    seq(|hs|, k requires 0 <= k < |hs| => s[hs[k].start..hs[k].end])
  }

  /** Text without `#` has no headings. */
  lemma HeadingsTsNoHash(s: string)
    requires '#' !in s
    ensures HeadingsTs(s) == []
  {
    forall j | 0 <= j < |s| ensures !MatchesAt(s, HeadingMatcher(), j) {
      if HeadingAt(s, j).Some? {
        assert s[j] == '#';
      }
    }
    NoStarts(s, HeadingMatcher(), 0);
  }

  /** A heading line written as `#…# text` is read back as `text`. */
  lemma HeadingsTsOneLine(level: nat, t: string)
    requires 1 <= level <= 6
    requires t != [] && !IsSpace(t[0])
    requires forall k :: 0 <= k < |t| ==> !IsLineTerminator(t[k])
    ensures HeadingsTs(Repeat('#', level) + " " + t) == [t]
  {
    var s := Repeat('#', level) + " " + t;
    forall k | level + 1 <= k < |s| ensures s[k] == t[k - level - 1] {
    }
    assert s[level + 1..|s|] == t;
    HeadingLineRead(s, level);
  }

  /** The same, read off the characters: `level` hashes, one space, then a
      line that does not start with white space. */
  lemma HeadingLineRead(s: string, level: nat)
    requires 1 <= level <= 6 && level + 1 < |s|
    requires forall k :: 0 <= k < level ==> s[k] == '#'
    requires s[level] == ' ' && !IsSpace(s[level + 1])
    requires forall k :: level + 1 <= k < |s| ==> !IsLineTerminator(s[k])
    ensures HeadingsTs(s) == [s[level + 1..|s|]]
  {
    RunExact(s, 0, IsHash, level);
    RunExact(s, level, IsSpace, 1);
    assert KeptSpaces(s, level, 1) == Some(1);
    forall k | level + 1 <= k < |s| ensures NotLineTerminator(s[k]) {
    }
    RunExact(s, level + 1, NotLineTerminator, |s| - level - 1);
    assert HeadingAt(s, 0) == Some(HeadingHit(level, level + 1, |s|));
    assert Starts(s, HeadingMatcher(), 0) == [0];
    assert HeadingHits(s) == [HeadingHit(level, level + 1, |s|)];
  }

  datatype MetadataTs = MetadataTs(description: string, headings: seq<string>)

  /** `extractMetadata`. */
  function ExtractMetadataTs(s: string): (r: MetadataTs)
    ensures r.description == DescriptionTs(s) && r.headings == HeadingsTs(s)
  {
    MetadataTs(DescriptionTs(s), HeadingsTs(s))
  }
}
