/** What the two Markdown converters (`scripts/utils/markdown-converter.ts`
    and `.js`) share word for word: the code, quote and divider block
    transformers, and the first three clean-up steps of
    `postProcessMarkdown`: collapsing runs of blank lines, stripping
    trailing blanks and trimming. */
module MarkdownCommon {
  import opened Wrappers
  import opened Text
  import opened Scan
  import opened NotionModel

  const Fence: string := "```"

  /** A fence, a word, a newline, a body and a closing fence, cut out of
      `s`, are the concatenation of the five parts. */
  lemma FenceSplice(s: string, i: nat, j: nat, k: nat, close: string)
    requires i + 3 <= j < k && k + |close| <= |s|
    requires s[i..i + 3] == Fence && s[j] == '\n' && OccursAt(s, close, k)
    ensures s[i..k + |close|] == Fence + s[i + 3..j] + "\n" + s[j + 1..k] + close
  {
    assert s[i..k + |close|] == s[i..i + 3] + s[i + 3..j] + [s[j]] + s[j + 1..k] + s[k..k + |close|];
  }

  /** The code transformer: a fence carrying the language (`''` when unset
      or empty), the concatenated text, and a closing fence. */
  function CodeBlock(language: Option<string>, rich: seq<RichText>): (r: string)
    ensures StartsWith(r, Fence + OrElse(language, "") + "\n")
    ensures EndsWith(r, "\n" + Fence)
    ensures |r| == |Fence + OrElse(language, "") + "\n"| + |PlainText(rich)| + 4
    ensures r[|Fence + OrElse(language, "") + "\n"|..|r| - 4] == PlainText(rich)
  {
    var head := Fence + OrElse(language, "") + "\n";
    var r := head + PlainText(rich) + "\n" + Fence;
    assert r[..|head|] == head;
    assert r[|head|..|r| - 4] == PlainText(rich);
    r
  }

  /** The quote transformer. */
  function QuoteBlock(rich: seq<RichText>): (r: string)
    ensures StartsWith(r, "> ") && r[2..] == PlainText(rich)
  {
    "> " + PlainText(rich)
  }

  /** The divider transformer. */
  const DividerBlock: string := "---"

  /** The default callout icon. */
  const DefaultIcon: string := "\U{1F4A1}"

  /** `callout.icon?.emoji || '💡'`. */
  function CalloutIcon(emoji: Option<string>): (r: string)
    ensures r != []
    ensures Truthy(emoji) ==> r == emoji.value
  {
    OrElse(emoji, DefaultIcon)
  }

  predicate IsNewline(c: char) { c == '\n' }

  /** `/\n{3,}/g` replaced by two newlines: a run of three or more. */
  function NewlineRunAt(s: string, i: nat): Option<Hit>
  {
    if i <= |s| && Run(s, i, IsNewline) >= 3 then Some(Hit(Run(s, i, IsNewline), "\n\n")) else None
  }

  /** Step one of `postProcessMarkdown`: it leaves no run of three
      newlines. */
  function CollapseBlankLines(s: string): (r: string)
    ensures NoTripleNewline(r)
  {
    CollapseFrom(s, 0);
    ReplaceAll(s, NewlineRunAt, 0)
  }

  /** No three newlines in a row. */
  predicate NoTripleNewline(r: string) {
    forall k :: 0 <= k < |r| - 2 ==> !(r[k] == '\n' && r[k + 1] == '\n' && r[k + 2] == '\n')
  }

  /** `r` opens with exactly `lead` newlines. */
  predicate Leads(r: string, lead: nat) {
    && lead <= |r|
    && (forall k :: 0 <= k < lead ==> r[k] == '\n')
    && (lead == |r| || r[lead] != '\n')
  }

  lemma PrependPair(rest: string)
    requires NoTripleNewline(rest) && Leads(rest, 0)
    ensures NoTripleNewline("\n\n" + rest) && Leads("\n\n" + rest, 2)
  {
    var r := "\n\n" + rest;
    forall k | 0 <= k < |r| - 2
      ensures !(r[k] == '\n' && r[k + 1] == '\n' && r[k + 2] == '\n')
    {
      if k >= 2 {
        assert r[k] == rest[k - 2] && r[k + 1] == rest[k - 1] && r[k + 2] == rest[k];
      }
    }
  }

  lemma PrependChar(c: char, rest: string, lead: nat)
    requires NoTripleNewline(rest) && Leads(rest, lead)
    requires c == '\n' ==> lead <= 1
    ensures NoTripleNewline([c] + rest)
    ensures c == '\n' ==> Leads([c] + rest, lead + 1)
    ensures c != '\n' ==> Leads([c] + rest, 0)
  {
    var r := [c] + rest;
    forall k | 0 <= k < |r| - 2
      ensures !(r[k] == '\n' && r[k + 1] == '\n' && r[k + 2] == '\n')
    {
      if k >= 1 {
        assert r[k] == rest[k - 1] && r[k + 1] == rest[k] && r[k + 2] == rest[k + 1];
      }
    }
  }

  /** After the collapse from `i`, no three newlines are adjacent, and the
      result opens with exactly as many newlines as the text did, capped at
      two. */
  lemma {:induction false} CollapseFrom(s: string, i: nat)
    requires i <= |s|
    ensures NoTripleNewline(ReplaceAll(s, NewlineRunAt, i))
    ensures Leads(ReplaceAll(s, NewlineRunAt, i), if Run(s, i, IsNewline) >= 3 then 2 else Run(s, i, IsNewline))
    decreases |s| - i
  {
    var n := Run(s, i, IsNewline);
    if i < |s| {
      if n >= 3 {
        assert MatchesAt(s, NewlineRunAt, i);
        CollapseFrom(s, i + n);
        assert Run(s, i + n, IsNewline) == 0;
        PrependPair(ReplaceAll(s, NewlineRunAt, i + n));
      } else {
        assert !MatchesAt(s, NewlineRunAt, i);
        CollapseFrom(s, i + 1);
        var m := Run(s, i + 1, IsNewline);
        assert n > 0 ==> m == n - 1;
        PrependChar(s[i], ReplaceAll(s, NewlineRunAt, i + 1), if m >= 3 then 2 else m);
      }
    }
  }

  predicate IsBlank(c: char) { c == ' ' || c == '\t' }

  /** `/[ \t]+$/gm`: a run of blanks ending at a line terminator or at the
      end. A shorter run would be followed by a blank, so only the longest run
      from `i` can match. */
  function TrailingBlanksAt(s: string, i: nat): Option<Hit>
  {
    if i <= |s| then
      var n := Run(s, i, IsBlank);
      if n > 0 && (i + n == |s| || IsLineTerminator(s[i + n])) then Some(Hit(n, "")) else None
    else None
  }

  /** Step two: the trailing blanks of every line removed, so that no line
      ends in a space or a tab. */
  function StripTrailingBlanks(s: string): (r: string)
    ensures NoTrailingBlank(r)
  {
    StripFrom(s, 0);
    ReplaceAll(s, TrailingBlanksAt, 0)
  }

  /** Every blank is followed by a character that is not a line terminator:
      no line ends in a space or a tab. */
  predicate NoTrailingBlank(r: string) {
    forall k :: 0 <= k < |r| && IsBlank(r[k]) ==> k + 1 < |r| && !IsLineTerminator(r[k + 1])
  }

  /** Where no trailing run starts, the strip copies the character. */
  lemma StripHead(s: string, i: nat)
    requires i < |s| && !MatchesAt(s, TrailingBlanksAt, i)
    ensures ReplaceAll(s, TrailingBlanksAt, i) == [s[i]] + ReplaceAll(s, TrailingBlanksAt, i + 1)
  {
  }

  lemma NoTrailingBlankCons(c: char, rest: string)
    requires NoTrailingBlank(rest)
    requires IsBlank(c) ==> rest != [] && !IsLineTerminator(rest[0])
    ensures NoTrailingBlank([c] + rest)
  {
    var r := [c] + rest;
    forall k | 0 <= k < |r| && IsBlank(r[k])
      ensures k + 1 < |r| && !IsLineTerminator(r[k + 1])
    {
      if k > 0 {
        assert r[k] == rest[k - 1];
      }
    }
  }

  /** After the strip from `i`, no line ends in a blank. */
  lemma {:induction false} StripFrom(s: string, i: nat)
    requires i <= |s|
    ensures NoTrailingBlank(ReplaceAll(s, TrailingBlanksAt, i))
    decreases |s| - i
  {
    if i < |s| {
      var n := Run(s, i, IsBlank);
      if MatchesAt(s, TrailingBlanksAt, i) {
        StripFrom(s, i + n);
      } else {
        StripFrom(s, i + 1);
        StripKeep(s, i);
      }
    }
  }

  /** A character the strip copies keeps the rest free of trailing blanks. */
  lemma StripKeep(s: string, i: nat)
    requires i < |s| && !MatchesAt(s, TrailingBlanksAt, i)
    requires NoTrailingBlank(ReplaceAll(s, TrailingBlanksAt, i + 1))
    ensures NoTrailingBlank(ReplaceAll(s, TrailingBlanksAt, i))
  {
    var n := Run(s, i, IsBlank);
    StripHead(s, i);
    var rest := ReplaceAll(s, TrailingBlanksAt, i + 1);
    if IsBlank(s[i]) {
      assert i + 1 < |s| && !IsLineTerminator(s[i + 1]);
      assert Run(s, i + 1, IsBlank) == n - 1;
      assert !MatchesAt(s, TrailingBlanksAt, i + 1);
      StripHead(s, i + 1);
    }
    NoTrailingBlankCons(s[i], rest);
  }

  /** Steps one to three of `postProcessMarkdown`, in the source's order:
      collapse, strip, trim. */
  function CleanUp(s: string): (r: string)
    ensures r == [] || (!IsSpace(r[0]) && !IsSpace(r[|r| - 1]))
  {
    Trim(StripTrailingBlanks(CollapseBlankLines(s)))
  }

  /** The clean-up keeps its promise on trailing blanks: trimming only cuts
      whole runs of white space off the ends. */
  lemma CleanUpNoTrailingBlank(s: string)
    ensures NoTrailingBlank(CleanUp(s))
  {
    var t := StripTrailingBlanks(CollapseBlankLines(s));
    var r := CleanUp(s);
    var a := Run(t, 0, IsSpace);
    forall k | 0 <= k < |r| && IsBlank(r[k])
      ensures k + 1 < |r| && !IsLineTerminator(r[k + 1])
    {
      assert r[k] == t[a + k];
      assert k + 1 < |r|;
      assert r[k + 1] == t[a + k + 1];
    }
  }

  /** Because the strip runs after the collapse, a line holding only blanks
      between two blank lines leaves four newlines in a row. */
  lemma CleanUpKeepsBlankRun(s: string)
    requires s == "a\n\n \n\nb"
    ensures CleanUp(s) == "a\n\n\n\nb"
    ensures !NoTripleNewline(CleanUp(s))
  {
    var t := "a\n\n\n\nb";
    CollapseExample();
    StripExample();
    TrimExample();
    assert CleanUp(s) == t;
    assert t[1] == '\n' && t[2] == '\n' && t[3] == '\n';
  }

  lemma TrimExample()
    ensures Trim("a\n\n\n\nb") == "a\n\n\n\nb"
  {
    var t := "a\n\n\n\nb";
    assert t[0] == 'a' && t[|t| - 1] == 'b';
    assert !IsSpace('a') && !IsSpace('b');
    TrimOfTrimmed(t);
  }

  lemma CollapseExample()
    ensures CollapseBlankLines("a\n\n \n\nb") == "a\n\n \n\nb"
  {
    var s := "a\n\n \n\nb";
    forall j | 0 <= j < |s| ensures !MatchesAt(s, NewlineRunAt, j) {
      if j + 2 < |s| {
        assert !(s[j] == '\n' && s[j + 1] == '\n' && s[j + 2] == '\n');
      }
    }
    ReplaceAllNoMatch(s, NewlineRunAt, 0);
  }

  lemma StripExample()
    ensures StripTrailingBlanks("a\n\n \n\nb") == "a\n\n\n\nb"
  {
    var s := "a\n\n \n\nb";
    StripExampleNoOtherMatch();
    ReplaceAllSkip(s, TrailingBlanksAt, 0, 3);
    StripExampleMatch();
    ReplaceAllSkip(s, TrailingBlanksAt, 4, |s|);
    assert s[..3] + s[4..] == "a\n\n\n\nb";
  }

  lemma StripExampleNoOtherMatch()
    ensures forall j :: 0 <= j < 7 && j != 3 ==> !MatchesAt("a\n\n \n\nb", TrailingBlanksAt, j)
  {
    var s := "a\n\n \n\nb";
    forall j | 0 <= j < |s| && j != 3 ensures !MatchesAt(s, TrailingBlanksAt, j) {
      assert !IsBlank(s[j]);
    }
  }

  lemma StripExampleMatch()
    ensures MatchesAt("a\n\n \n\nb", TrailingBlanksAt, 3)
    ensures TrailingBlanksAt("a\n\n \n\nb", 3) == Some(Hit(1, ""))
  {
    var s := "a\n\n \n\nb";
    assert Run(s, 4, IsBlank) == 0;
    assert Run(s, 3, IsBlank) == 1;
  }

  /** The clean-up with the strip moved before the collapse, so that the
      collapse sees the blank-only lines as empty. */
  function CleanUpCorrected(s: string): (r: string)
    ensures NoTripleNewline(r)
  {
    var c := CollapseBlankLines(StripTrailingBlanks(s));
    TrimNoTriple(c);
    Trim(c)
  }

  /** Trimming cuts a contiguous piece, so it creates no run of newlines. */
  lemma TrimNoTriple(s: string)
    requires NoTripleNewline(s)
    ensures NoTripleNewline(Trim(s))
  {
    var r := Trim(s);
    var a := Run(s, 0, IsSpace);
    forall k | 0 <= k < |r| - 2
      ensures !(r[k] == '\n' && r[k + 1] == '\n' && r[k + 2] == '\n')
    {
      assert r[k] == s[a + k] && r[k + 1] == s[a + k + 1] && r[k + 2] == s[a + k + 2];
    }
  }

  predicate IsHash(c: char) { c == '#' }

  predicate NotLineTerminator(c: char) { !IsLineTerminator(c) }

  /** In multiline mode `^` holds at the start and after a line terminator. */
  predicate AtLineStart(s: string, i: nat) {
    i <= |s| && (i == 0 || IsLineTerminator(s[i - 1]))
  }

  /** `.+` cannot start at `p`: the text ends there or a line does. */
  predicate NoLineAt(s: string, p: nat) {
    p >= |s| || IsLineTerminator(s[p])
  }

  /** Where the line holding `s[i]` ends: what `.+$` runs up to. */
  function LineEnd(s: string, i: nat): (e: nat)
    requires i <= |s|
    ensures i <= e <= |s|
    ensures forall k :: i <= k < e ==> !IsLineTerminator(s[k])
    ensures e == |s| || IsLineTerminator(s[e])
  {
    i + Run(s, i, NotLineTerminator)
  }

  /** How many of the `m` white-space characters after `base` the `\s+` of a
      heading keeps once backtracking is done: the largest `m' >= 1` whose
      next character can start `.+`, i.e. is not a line terminator. */
  function KeptSpaces(s: string, base: nat, m: nat): (r: Option<nat>)
    requires base + m <= |s|
    ensures r.Some? ==> 1 <= r.value <= m && base + r.value < |s| && !IsLineTerminator(s[base + r.value])
    ensures r.Some? ==> forall p :: base + r.value < p <= base + m ==> NoLineAt(s, p)
    ensures r.None? ==> forall p :: base + 1 <= p <= base + m ==> NoLineAt(s, p)
  {
    if m == 0 then None
    else if !NoLineAt(s, base + m) then Some(m)
    else KeptSpaces(s, base, m - 1)
  }

  /** A heading match: the `#` count, and where the text after the white
      space starts and ends. The whole match is `s[i..end]`, the captured
      text `s[start..end]`. */
  datatype HeadingHit = HeadingHit(level: nat, start: nat, end: nat)

  /** `/^#{1,6}\s+(.+)$/gm` tried at `i`. A run of seven or more `#` fails,
      since after six the next character is a `#` and not white space. `\s+`
      may cross line breaks; when it reaches the end of the text it gives
      back characters until `.+` can start. `.+` then takes the rest of the
      line, which is what `$` needs. */
  function HeadingAt(s: string, i: nat): (r: Option<HeadingHit>)
    ensures r.Some? ==> AtLineStart(s, i)
    ensures r.Some? ==> var h := r.value;
              && 1 <= h.level <= 6 && i + h.level < h.start < h.end <= |s|
              && (forall k :: i <= k < i + h.level ==> s[k] == '#')
              && (forall k :: i + h.level <= k < h.start ==> IsSpace(s[k]))
              && (forall k :: h.start <= k < h.end ==> !IsLineTerminator(s[k]))
              && (h.end == |s| || IsLineTerminator(s[h.end]))
  {
    if AtLineStart(s, i) then
      var h := Run(s, i, IsHash);
      if 1 <= h <= 6 then
        var m := Run(s, i + h, IsSpace);
        match KeptSpaces(s, i + h, m)
        case None => None
        case Some(m') =>
          var start := i + h + m';
          HeadingHitShape(s, i, h, m, m');
          Some(HeadingHit(h, start, LineEnd(s, start)))
      else None
    else None
  }

  /** The hit built from the `#` run, the kept white space and the rest of
      the line has the shape `HeadingAt` promises. */
  lemma HeadingHitShape(s: string, i: nat, h: nat, m: nat, m': nat)
    requires i <= |s| && h == Run(s, i, IsHash) && 1 <= h <= 6
    requires m == Run(s, i + h, IsSpace) && KeptSpaces(s, i + h, m) == Some(m')
    ensures var start := i + h + m';
            var e := LineEnd(s, start);
            && i + h < start < e <= |s|
            && (forall k :: i <= k < i + h ==> s[k] == '#')
            && (forall k :: i + h <= k < start ==> IsSpace(s[k]))
            && (forall k :: start <= k < e ==> !IsLineTerminator(s[k]))
            && (e == |s| || IsLineTerminator(s[e]))
  {
    var start := i + h + m';
    assert !IsLineTerminator(s[start]);
  }

  function HeadingMatcher(): Matcher {
    (s: string, i: nat) =>
      match HeadingAt(s, i)
      case None => None
      case Some(h) => Some(Hit(h.end - i, s[h.start..h.end]))
  }

  /** The heading matches in document order. */
  function HeadingHits(s: string): (r: seq<HeadingHit>)
    ensures forall k :: 0 <= k < |r| ==> r[k].end <= |s| && r[k].start < r[k].end
  {
    var starts := Starts(s, HeadingMatcher(), 0);
    assert forall k :: 0 <= k < |starts| ==> MatchesAt(s, HeadingMatcher(), starts[k]);
    seq(|starts|, k requires 0 <= k < |starts| => HeadingAt(s, starts[k]).value)
  }

  // ---- Indentation of code blocks ----

  /** `line.trim().length === 0`, equivalently `line.trim() === ''`. */
  predicate IsBlankLine(line: string) {
    Trim(line) == []
  }

  /** The length of the leading run of indentation characters `p`: spaces
      and tabs in one converter, any white space in the other. */
  function Indent(line: string, p: char -> bool): (n: nat)
    ensures n <= |line|
  {
    Run(line, 0, p)
  }

  /** `Math.min` of the indents of the non-blank lines; `None` when all
      lines are blank. */
  function MinIndent(lines: seq<string>, p: char -> bool): (r: Option<nat>)
    ensures r.None? <==> forall k :: 0 <= k < |lines| ==> IsBlankLine(lines[k])
    ensures r.Some? ==> forall k :: 0 <= k < |lines| && !IsBlankLine(lines[k]) ==> r.value <= Indent(lines[k], p)
  {
    if |lines| == 0 then None
    else
      var rest := MinIndent(lines[1..], p);
      assert forall k :: 1 <= k < |lines| ==> lines[k] == lines[1..][k - 1];
      if IsBlankLine(lines[0]) then rest
      else
        match rest
        case None => Some(Indent(lines[0], p))
        case Some(m) => Some(if Indent(lines[0], p) <= m then Indent(lines[0], p) else m)
  }

  /** The minimum is the indent of some non-blank line. */
  lemma {:induction false} MinIndentAttained(lines: seq<string>, p: char -> bool)
    requires MinIndent(lines, p).Some?
    ensures exists k :: 0 <= k < |lines| && !IsBlankLine(lines[k]) && Indent(lines[k], p) == MinIndent(lines, p).value
  {
    var m := MinIndent(lines, p).value;
    var rest := MinIndent(lines[1..], p);
    if IsBlankLine(lines[0]) || (rest.Some? && rest.value < Indent(lines[0], p)) {
      MinIndentAttained(lines[1..], p);
      var k :| 0 <= k < |lines[1..]| && !IsBlankLine(lines[1..][k]) && Indent(lines[1..][k], p) == rest.value;
      assert lines[k + 1] == lines[1..][k];
    } else {
      assert Indent(lines[0], p) == m;
    }
  }

  /** A non-blank line at column zero makes the minimum zero. */
  lemma {:induction false} MinIndentZero(lines: seq<string>, k: nat, p: char -> bool)
    requires k < |lines| && !IsBlankLine(lines[k]) && Indent(lines[k], p) == 0
    ensures MinIndent(lines, p) == Some(0)
  {
    var r := MinIndent(lines, p);
    assert r.Some?;
    var m: nat := r.value;
    assert m <= Indent(lines[k], p);
    assert m == 0;
    assert r == Some(0);
  }
}
