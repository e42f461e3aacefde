/** The JavaScript Markdown converter (`scripts/utils/markdown-converter.js`):
    its callout and table transformers, its own code-fence re-indentation, its
    link pattern (which writes every match back unchanged), and its richer
    `extractMetadata`. */
module MarkdownJs {
  import opened Wrappers
  import opened Text
  import opened Scan
  import opened NotionModel
  import opened MarkdownCommon
  import opened ImageProcessor
  import MarkdownTs

  /** The callout transformer: the TypeScript callout inside a quote. */
  function CalloutJs(emoji: Option<string>, rich: seq<RichText>): (r: string)
    ensures StartsWith(r, "> ") && r[2..] == MarkdownTs.CalloutTs(emoji, rich)
  {
    "> " + CalloutIcon(emoji) + " **" + PlainText(rich) + "**"
  }

  /** The custom transformers; the table transformer returns `false`, which
      hands the block back to the library, like every block without one. */
  function TransformJs(b: BlockContent): (r: Option<string>)
    ensures b.Table? ==> r.None?
  {
    match b
    case Callout(emoji, rich) => Some(CalloutJs(emoji, rich))
    case Code(language, rich) => Some(CodeBlock(language, rich))
    case Quote(rich) => Some(QuoteBlock(rich))
    case Divider => Some(DividerBlock)
    case Table => None
    case _ => None
  }

  /** The two converters transform every block alike except callouts, which
      the JavaScript one also quotes. */
  lemma TransformAgree(b: BlockContent)
    ensures !b.Callout? ==> TransformJs(b) == MarkdownTs.TransformTs(b)
    ensures b.Callout? ==> TransformJs(b) == Some("> " + MarkdownTs.TransformTs(b).value)
  {
    if b.Callout? {
      var r := CalloutJs(b.iconEmoji, b.calloutText);
      assert r == r[..2] + r[2..];
    }
  }

  // ---- Code-fence re-indentation ----

  /** One line after removing the common indent `m`: blank lines become
      empty, others lose their first `m` characters. */
  function DedentLineJs(line: string, m: nat): (r: string)
    requires IsBlankLine(line) || m <= Indent(line, IsSpace)
    ensures IsBlankLine(line) ==> r == []
    ensures !IsBlankLine(line) ==> line == line[..m] + r
    ensures !IsBlankLine(line) ==> forall k :: 0 <= k < m ==> IsSpace(line[k])
  {
    if IsBlankLine(line) then [] else line[m..]
  }

  function DedentLinesJs(lines: seq<string>, m: nat): (r: seq<string>)
    requires forall k :: 0 <= k < |lines| ==> IsBlankLine(lines[k]) || m <= Indent(lines[k], IsSpace)
    ensures |r| == |lines|
    ensures forall k :: 0 <= k < |lines| ==> r[k] == DedentLineJs(lines[k], m)
  {
    seq(|lines|, k requires 0 <= k < |lines| => DedentLineJs(lines[k], m))
  }

  /** The new body of a block, or `None` when the callback returns the match
      unchanged: an empty body, or one whose lines are all blank. Otherwise
      the common white-space indent is removed, blank lines are emptied and
      the joined result is trimmed. */
  function DedentJs(code: string): (r: Option<string>)
    ensures r.Some? ==> r.value == Trim(r.value)
    ensures code == [] ==> r.None?
  {
    var lines := Split(code, '\n');
    if code == [] then None
    else
      match MinIndent(lines, IsSpace)
      case None => None
      case Some(m) =>
        var t := Trim(Join(DedentLinesJs(lines, m), "\n"));
        TrimIdempotent(Join(DedentLinesJs(lines, m), "\n"));
        Some(t)
  }

  /** The lines of a text in the form the re-indentation produces: no white
      space at either end, and every line empty or holding more than white
      space. */
  predicate NormalBody(t: string) {
    && t != [] && !IsSpace(t[0]) && !IsSpace(t[|t| - 1])
    && NormalLines(Split(t, '\n') + [[]])
  }

  predicate NormalLines(lines: seq<string>) {
    forall k :: 0 <= k < |lines| ==> NormalLine(lines[k])
  }

  predicate NormalLine(line: string) {
    line == [] || !IsBlankLine(line)
  }

  /** A body already in normal form, followed by the newline before the
      closing fence, is given back without that newline. */
  lemma DedentJsNormal(t: string)
    requires NormalBody(t)
    ensures DedentJs(t + "\n") == Some(t)
  {
    var lines := Split(t, '\n') + [[]];
    NormalLinesOf(t);
    DedentJsWith(t + "\n", lines);
    DedentLinesJsZero(lines);
    JoinNormal(t);
  }

  /** The lines of a normal body plus the fence's newline: the first one is
      flush left. */
  lemma NormalLinesOf(t: string)
    requires NormalBody(t)
    ensures Split(t + "\n", '\n') == Split(t, '\n') + [[]]
    ensures MinIndent(Split(t, '\n') + [[]], IsSpace) == Some(0)
  {
    var parts := Split(t, '\n');
    var lines := parts + [[]];
    SplitSnocNewline(t);
    FirstLineOfSplit(t);
    assert lines[0] == parts[0];
    TrimEmptyIff(lines[0]);
    MinIndentZero(lines, 0, IsSpace);
  }

  /** With a zero minimum the body is the trimmed join of the lines. */
  lemma DedentJsWith(code: string, lines: seq<string>)
    requires code != [] && Split(code, '\n') == lines && MinIndent(lines, IsSpace) == Some(0)
    ensures DedentJs(code) == Some(Trim(Join(DedentLinesJs(lines, 0), "\n")))
  {
  }

  lemma JoinNormal(t: string)
    requires NormalBody(t)
    ensures Trim(Join(Split(t, '\n') + [[]], "\n")) == t
  {
    var parts := Split(t, '\n');
    JoinSplit(t, '\n');
    JoinSnoc(parts, "\n", []);
    assert Join(parts + [[]], "\n") == t + "\n";
    TrimTrailingSpace(t, "\n");
  }

  /** A trailing newline adds one empty line. */
  lemma SplitSnocNewline(t: string)
    ensures Split(t + "\n", '\n') == Split(t, '\n') + [[]]
  {
    var parts := Split(t, '\n');
    var lines := parts + [[]];
    JoinSplit(t, '\n');
    JoinSnoc(parts, "\n", []);
    assert Join(lines, "\n") == t + "\n";
    SplitJoin(lines, '\n');
  }

  /** Lines that are empty or not blank survive a zero dedent. */
  lemma DedentLinesJsZero(lines: seq<string>)
    requires NormalLines(lines)
    ensures DedentLinesJs(lines, 0) == lines
  {
    forall k | 0 <= k < |lines| ensures DedentLineJs(lines[k], 0) == lines[k] {
      if !IsBlankLine(lines[k]) {
        assert lines[k][0..] == lines[k];
      }
    }
  }

  /** The first piece of a split of a text that does not start with the
      separator starts with the text's first character. */
  lemma FirstLineOfSplit(t: string)
    requires t != [] && t[0] != '\n'
    ensures Split(t, '\n')[0] != [] && Split(t, '\n')[0][0] == t[0]
    ensures Indent(Split(t, '\n')[0], IsSpace) == 0 <== !IsSpace(t[0])
  {
  }

  /** Whatever the re-indentation returns is in normal form: the lines it
      keeps are emptied when blank and keep a character that is not white
      space otherwise, and the trim cuts the first and last line at such a
      character. */
  lemma DedentJsOutputNormal(c: string)
    ensures DedentJs(c).Some? ==> NormalBody(DedentJs(c).value)
  {
    if DedentJs(c).Some? {
      var lines := Split(c, '\n');
      var m := MinIndent(lines, IsSpace).value;
      var d := DedentLinesJs(lines, m);
      assert DedentJs(c) == Some(Trim(Join(d, "\n")));
      var k0 := DedentedNormal(lines, m);
      SplitJoin(d, '\n');
      TrimNormal(Join(d, "\n"), k0);
    }
  }

  /** A text of normal lines, one of them not blank, trims to a normal
      body. */
  lemma TrimNormal(x: string, k0: nat)
    requires NormalLines(Split(x, '\n'))
    requires k0 < |Split(x, '\n')| && !IsBlankLine(Split(x, '\n')[k0])
    ensures NormalBody(Trim(x))
  {
    TrimNonEmpty(x, k0);
    TrimCutNormal(x);
    NormalCons([], []);
    NormalAppend(Split(Trim(x), '\n'), [[]]);
  }

  /** A piece of a split that is not blank survives the trim. */
  lemma TrimNonEmpty(x: string, k0: nat)
    requires k0 < |Split(x, '\n')| && !IsBlankLine(Split(x, '\n')[k0])
    ensures Trim(x) != []
  {
    var line := Split(x, '\n')[k0];
    TrimEmptyIff(line);
    var j :| 0 <= j < |line| && !IsSpace(line[j]);
    SplitChars(x, '\n', k0, line[j]);
    TrimEmptyIff(x);
  }

  /** The trim cuts at characters that are not white space, so it keeps
      the lines normal. */
  lemma TrimCutNormal(x: string)
    requires NormalLines(Split(x, '\n')) && Trim(x) != []
    ensures NormalLines(Split(Trim(x), '\n'))
  {
    var t := Trim(x);
    var a := Run(x, 0, IsSpace);
    assert t == x[a..a + |t|];
    assert x[a] == t[0] && x[a + |t| - 1] == t[|t| - 1];
    CutNormal(x, a, |t|);
  }

  /** Both cuts at once. */
  lemma CutNormal(x: string, a: nat, n: nat)
    requires NormalLines(Split(x, '\n'))
    requires 0 < n && a + n <= |x| && !IsSpace(x[a]) && !IsSpace(x[a + n - 1])
    ensures NormalLines(Split(x[a..a + n], '\n'))
  {
    NormalFrom(x, a);
    var y := x[a..];
    assert y[n - 1] == x[a + n - 1];
    NormalUpTo(y, n);
    SliceOfSlice(x, a, n);
  }

  lemma SliceOfSlice(x: string, a: nat, n: nat)
    requires a + n <= |x|
    ensures x[a..][..n] == x[a..a + n]
  {
  }

  lemma NormalAppend(a: seq<string>, b: seq<string>)
    requires NormalLines(a) && NormalLines(b)
    ensures NormalLines(a + b)
  {
    forall j | 0 <= j < |a + b| ensures NormalLine((a + b)[j]) {
      if j < |a| {
        assert (a + b)[j] == a[j];
      } else {
        assert (a + b)[j] == b[j - |a|];
      }
    }
  }

  /** The dedented lines are empty or not blank, hold no newline, and one of
      them is not blank; the index of that one is returned. */
  lemma DedentedNormal(lines: seq<string>, m: nat) returns (k0: nat)
    requires MinIndent(lines, IsSpace) == Some(m)
    requires forall k :: 0 <= k < |lines| ==> '\n' !in lines[k]
    ensures NormalLines(DedentLinesJs(lines, m))
    ensures forall k :: 0 <= k < |lines| ==> '\n' !in DedentLinesJs(lines, m)[k]
    ensures k0 < |lines| && !IsBlankLine(DedentLinesJs(lines, m)[k0])
  {
    var d := DedentLinesJs(lines, m);
    forall k | 0 <= k < |lines|
      ensures NormalLine(d[k]) && '\n' !in d[k]
      ensures !IsBlankLine(lines[k]) ==> !IsBlankLine(d[k])
    {
      DedentLineNormal(lines[k], m);
    }
    k0 :| 0 <= k0 < |lines| && !IsBlankLine(lines[k0]);
  }

  /** One dedented line: emptied when blank, otherwise still holding the
      character that made it not blank. */
  lemma DedentLineNormal(line: string, m: nat)
    requires IsBlankLine(line) || m <= Indent(line, IsSpace)
    requires '\n' !in line
    ensures NormalLine(DedentLineJs(line, m))
    ensures '\n' !in DedentLineJs(line, m)
    ensures !IsBlankLine(line) ==> !IsBlankLine(DedentLineJs(line, m))
  {
    var r := DedentLineJs(line, m);
    if !IsBlankLine(line) {
      TrimEmptyIff(line);
      var j :| 0 <= j < |line| && !IsSpace(line[j]);
      assert line == line[..m] + r;
      assert j >= m;
      assert r[j - m] == line[j];
      NotBlankAt(r, j - m);
      NotInSlice(line, '\n', m, |line|);
    }
  }

  /** A line holding a character that is not white space is not blank. */
  lemma NotBlankAt(l: string, j: nat)
    requires j < |l| && !IsSpace(l[j])
    ensures !IsBlankLine(l)
  {
    TrimEmptyIff(l);
  }

  lemma NormalCons(h: string, rest: seq<string>)
    ensures NormalLines([h] + rest) <==> NormalLine(h) && NormalLines(rest)
  {
    var l := [h] + rest;
    assert l[0] == h;
    assert forall j :: 0 <= j < |rest| ==> l[j + 1] == rest[j];
    if NormalLine(h) && NormalLines(rest) {
      forall j | 0 <= j < |l| ensures NormalLine(l[j]) {
        if j > 0 {
          assert l[j] == rest[j - 1];
        }
      }
    }
  }

  /** Cutting a text of normal lines just before a character that is not
      white space keeps its lines normal: the first line still holds that
      character. */
  lemma {:induction false} NormalFrom(x: string, k: nat)
    requires NormalLines(Split(x, '\n')) && k < |x| && !IsSpace(x[k])
    ensures NormalLines(Split(x[k..], '\n'))
    decreases |x|
  {
    match IndexOf(x, '\n')
    case None =>
      NormalFromLast(x, k);
    case Some(i) =>
      SplitCons(x, '\n', i);
      NormalCons(x[..i], Split(x[i + 1..], '\n'));
      if k < i {
        NormalFromFirst(x, k, i);
      } else {
        assert k != i;
        assert x[k..] == x[i + 1..][k - i - 1..];
        NormalFrom(x[i + 1..], k - i - 1);
      }
  }

  /** `NormalFrom` when the text has no newline. */
  lemma NormalFromLast(x: string, k: nat)
    requires '\n' !in x && k < |x| && !IsSpace(x[k])
    ensures NormalLines(Split(x[k..], '\n'))
  {
    var y := x[k..];
    NotInSlice(x, '\n', k, |x|);
    SplitNone(y, '\n');
    assert y[0] == x[k];
    NotBlankAt(y, 0);
    NormalCons(y, []);
  }

  /** `NormalFrom` when the cut falls in the first line. */
  lemma NormalFromFirst(x: string, k: nat, i: nat)
    requires IndexOf(x, '\n') == Some(i) && k < i && !IsSpace(x[k])
    requires NormalLines(Split(x[i + 1..], '\n'))
    ensures NormalLines(Split(x[k..], '\n'))
  {
    var y := x[k..];
    NotInSlice(x[..i], '\n', k, i);
    assert y[..i - k] == x[..i][k..i];
    assert y[i - k] == x[i];
    IndexOfExact(y, '\n', i - k);
    SplitCons(y, '\n', i - k);
    assert y[i - k + 1..] == x[i + 1..];
    assert y[..i - k][0] == x[k];
    NotBlankAt(y[..i - k], 0);
    NormalCons(y[..i - k], Split(x[i + 1..], '\n'));
  }

  /** Cutting a text of normal lines just after a character that is not
      white space keeps its lines normal: the last line still holds that
      character. */
  lemma {:induction false} NormalUpTo(x: string, e: nat)
    requires NormalLines(Split(x, '\n')) && 0 < e <= |x| && !IsSpace(x[e - 1])
    ensures NormalLines(Split(x[..e], '\n'))
    decreases |x|
  {
    match IndexOf(x, '\n')
    case None =>
      NotInSlice(x, '\n', 0, e);
      NormalUpToOneLine(x[..e], e);
    case Some(i) =>
      if e <= i {
        NotInSlice(x[..i], '\n', 0, e);
        assert x[..i][0..e] == x[..e];
        NormalUpToOneLine(x[..e], e);
      } else {
        SplitCons(x, '\n', i);
        NormalCons(x[..i], Split(x[i + 1..], '\n'));
        NormalUpTo(x[i + 1..], e - i - 1);
        NormalUpToLater(x, e, i);
      }
  }

  /** `NormalUpTo` when the cut text has no newline. */
  lemma NormalUpToOneLine(y: string, e: nat)
    requires '\n' !in y && 0 < e == |y| && !IsSpace(y[e - 1])
    ensures NormalLines(Split(y, '\n'))
  {
    SplitNone(y, '\n');
    NotBlankAt(y, e - 1);
    NormalCons(y, []);
  }

  /** `NormalUpTo` when the cut falls after the first newline, given the
      lines of the cut rest. */
  lemma NormalUpToLater(x: string, e: nat, i: nat)
    requires IndexOf(x, '\n') == Some(i) && i < e - 1 && e <= |x|
    requires NormalLine(x[..i])
    requires NormalLines(Split(x[i + 1..][..e - i - 1], '\n'))
    ensures NormalLines(Split(x[..e], '\n'))
  {
    var y, h, t := x[..e], x[..i], x[i + 1..][..e - i - 1];
    CutParts(x, e, i);
    IndexOfExact(y, '\n', i);
    SplitCons(y, '\n', i);
    NormalCons(h, Split(t, '\n'));
  }

  /** A prefix cut past position `i` keeps the text before `i`, the
      character at `i` and a prefix of the text after it. */
  lemma CutParts(x: string, e: nat, i: nat)
    requires i < e <= |x|
    ensures x[..e][..i] == x[..i] && x[..e][i] == x[i]
    ensures x[..e][i + 1..] == x[i + 1..][..e - i - 1]
  {
  }

  /** One match of `/```(\w+)?\n([\s\S]*?)```/`: as in the TypeScript pattern
      the word run must be maximal, but the body runs to the first fence
      itself, so it normally ends with the newline before the fence. */
  function FenceJsAt(s: string, i: nat): (r: Option<MarkdownTs.Fenced>)
    ensures r.Some? ==> i + r.value.len <= |s|
    ensures r.Some? ==> s[i..i + r.value.len] == Fence + r.value.lang + "\n" + r.value.code + Fence
    ensures r.Some? ==> OccursAt(s, Fence, i)
  {
    if i + 3 <= |s| && s[i..i + 3] == Fence then
      var w := Run(s, i + 3, IsWord);
      var j := i + 3 + w;
      if j < |s| && s[j] == '\n' then
        match Find(s, Fence, j + 1)
        case None => None
        case Some(k) =>
          FenceSplice(s, i, j, k, Fence);
          Some(MarkdownTs.Fenced(s[i + 3..j], s[j + 1..k], k + 3 - i))
      else None
    else None
  }

  /** The callback's result for the match at `i`. */
  function FenceJsHit(s: string, i: nat): Option<Hit>
  {
    match FenceJsAt(s, i)
    case None => None
    case Some(f) =>
      match DedentJs(f.code)
      case None => Some(Hit(f.len, s[i..i + f.len]))
      case Some(body) => Some(Hit(f.len, Fence + f.lang + "\n" + body + "\n" + Fence))
  }

  function FenceJsMatcher(): Matcher {
    FenceJsHit
  }

  /** `fixCodeBlockIndentation`. */
  function FixJs(s: string): (r: string)
    ensures !Contains(s, Fence) ==> r == s
  {
    FenceFreeKept(s);
    ReplaceAll(s, FenceJsMatcher(), 0)
  }

  lemma FenceFreeKept(s: string)
    ensures !Contains(s, Fence) ==> ReplaceAll(s, FenceJsMatcher(), 0) == s
  {
    ContainsIff(s, Fence);
    if !Contains(s, Fence) {
      ReplaceAllNoMatch(s, FenceJsMatcher(), 0);
    }
  }

  /** The body of a block the re-indentation keeps: empty, blank, or a
      normal body and the newline before the fence. */
  predicate KeptBody(c: string) {
    c == [] || MinIndent(Split(c, '\n'), IsSpace).None? ||
    (c[|c| - 1] == '\n' && NormalBody(c[..|c| - 1]))
  }

  /** Blocks already in normal form are kept as they are. */
  lemma FixJsNormal(s: string)
    requires forall i :: 0 <= i < |s| && FenceJsAt(s, i).Some? ==> KeptBody(FenceJsAt(s, i).value.code)
    ensures FixJs(s) == s
  {
    forall j | 0 <= j < |s| ensures Reproduces(s, FenceJsMatcher(), j) {
      if FenceJsAt(s, j).Some? {
        KeptBlock(s, j);
      }
    }
    ReplaceAllIdentity(s, FenceJsMatcher(), 0);
  }

  lemma KeptBlock(s: string, j: nat)
    requires FenceJsAt(s, j).Some? && KeptBody(FenceJsAt(s, j).value.code)
    ensures Reproduces(s, FenceJsMatcher(), j)
  {
    var f := FenceJsAt(s, j).value;
    var c := f.code;
    KeptDedent(c);
    if DedentJs(c).Some? {
      Regroup(Fence + f.lang + "\n", c[..|c| - 1], "\n", Fence);
    }
    assert FenceJsHit(s, j) == Some(Hit(f.len, s[j..j + f.len]));
    assert FenceJsMatcher()(s, j) == FenceJsHit(s, j);
  }

  /** A kept body is given back as it is, or without the fence's newline. */
  lemma KeptDedent(c: string)
    requires KeptBody(c)
    ensures DedentJs(c).Some? ==> c != [] && c[|c| - 1] == '\n' && DedentJs(c).value + "\n" == c
  {
    if c == [] || MinIndent(Split(c, '\n'), IsSpace).None? {
      NoDedent(c);
    } else {
      var t := c[..|c| - 1];
      DropLastNewline(c);
      DedentJsNormal(t);
    }
  }

  lemma DropLastNewline(c: string)
    requires c != [] && c[|c| - 1] == '\n'
    ensures c == c[..|c| - 1] + "\n"
  {
  }

  lemma NoDedent(c: string)
    requires c == [] || MinIndent(Split(c, '\n'), IsSpace).None?
    ensures DedentJs(c).None?
  {
  }

  lemma Regroup(a: string, b: string, c: string, d: string)
    ensures a + b + c + d == a + (b + c) + d
  {
  }

  // ---- Idempotence of the re-indentation ----

  /** No three backticks in a row. */
  predicate NoFenceIn(x: string) {
    forall k :: 0 <= k < |x| - 2 ==> !(x[k] == '`' && x[k + 1] == '`' && x[k + 2] == '`')
  }

  lemma TicksAt(s: string, p: nat)
    requires p + 3 <= |s|
    ensures OccursAt(s, Fence, p) <==> s[p] == '`' && s[p + 1] == '`' && s[p + 2] == '`'
  {
    if s[p] == '`' && s[p + 1] == '`' && s[p + 2] == '`' {
      assert s[p..p + 3] == Fence;
    }
  }

  lemma NoFenceSlice(x: string, a: nat, b: nat)
    requires NoFenceIn(x) && a <= b <= |x|
    ensures NoFenceIn(x[a..b])
  {
    var y := x[a..b];
    forall k | 0 <= k < |y| - 2 ensures !(y[k] == '`' && y[k + 1] == '`' && y[k + 2] == '`') {
      assert y[k] == x[a + k] && y[k + 1] == x[a + k + 1] && y[k + 2] == x[a + k + 2];
    }
  }

  lemma {:induction false} NoFenceSplit(x: string)
    requires NoFenceIn(x)
    ensures forall k :: 0 <= k < |Split(x, '\n')| ==> NoFenceIn(Split(x, '\n')[k])
    decreases |x|
  {
    match IndexOf(x, '\n')
    case None =>
    case Some(i) =>
      SplitCons(x, '\n', i);
      NoFenceSlice(x, 0, i);
      NoFenceSlice(x, i + 1, |x|);
      NoFenceSplit(x[i + 1..]);
      var parts := Split(x, '\n');
      forall k | 0 <= k < |parts| ensures NoFenceIn(parts[k]) {
        if k > 0 {
          assert parts[k] == Split(x[i + 1..], '\n')[k - 1];
        }
      }
  }

  /** A newline between two pieces makes no fence. */
  lemma NoFenceSep(a: string, b: string)
    requires NoFenceIn(a) && NoFenceIn(b)
    ensures NoFenceIn(a + "\n" + b)
  {
    var x := a + "\n" + b;
    forall k | 0 <= k < |x| - 2 ensures !(x[k] == '`' && x[k + 1] == '`' && x[k + 2] == '`') {
      if k + 2 < |a| {
        assert x[k] == a[k] && x[k + 1] == a[k + 1] && x[k + 2] == a[k + 2];
      } else if k > |a| {
        assert x[k] == b[k - |a| - 1] && x[k + 1] == b[k - |a|] && x[k + 2] == b[k - |a| + 1];
      } else {
        assert x[|a|] == '\n';
      }
    }
  }

  lemma {:induction false} NoFenceJoin(parts: seq<string>)
    requires forall k :: 0 <= k < |parts| ==> NoFenceIn(parts[k])
    ensures NoFenceIn(Join(parts, "\n"))
    decreases |parts|
  {
    if |parts| > 1 {
      NoFenceJoin(parts[1..]);
      NoFenceSep(parts[0], Join(parts[1..], "\n"));
    }
  }

  /** The re-indentation cuts lines and the text but joins nothing that was
      apart, so it creates no fence. */
  lemma DedentJsNoFence(code: string)
    requires NoFenceIn(code)
    ensures DedentJs(code).Some? ==> NoFenceIn(DedentJs(code).value)
  {
    if DedentJs(code).Some? {
      var lines := Split(code, '\n');
      var m := MinIndent(lines, IsSpace).value;
      var d := DedentLinesJs(lines, m);
      assert DedentJs(code) == Some(Trim(Join(d, "\n")));
      NoFenceSplit(code);
      DedentedNoFence(lines, m);
      NoFenceJoin(d);
      TrimNoFence(Join(d, "\n"));
    }
  }

  lemma DedentedNoFence(lines: seq<string>, m: nat)
    requires forall k :: 0 <= k < |lines| ==> IsBlankLine(lines[k]) || m <= Indent(lines[k], IsSpace)
    requires forall k :: 0 <= k < |lines| ==> NoFenceIn(lines[k])
    ensures forall k :: 0 <= k < |lines| ==> NoFenceIn(DedentLinesJs(lines, m)[k])
  {
    forall k | 0 <= k < |lines| ensures NoFenceIn(DedentLinesJs(lines, m)[k]) {
      if !IsBlankLine(lines[k]) {
        NoFenceSlice(lines[k], m, |lines[k]|);
      }
    }
  }

  lemma TrimNoFence(x: string)
    requires NoFenceIn(x)
    ensures NoFenceIn(Trim(x))
  {
    var t := Trim(x);
    var a := Run(x, 0, IsSpace);
    assert t == x[a..a + |t|];
    NoFenceSlice(x, a, a + |t|);
  }

  /** What the fence pattern reads at `i`: the end `j` of the language tag
      and the start `k` of the closing fence, the first one after `j`. */
  lemma FenceJsAtParts(s: string, i: nat) returns (j: nat, k: nat)
    requires FenceJsAt(s, i).Some?
    ensures var f := FenceJsAt(s, i).value;
            && i + 3 <= j < k && k + 3 <= |s| && f.len == k + 3 - i
            && f.lang == s[i + 3..j] && f.code == s[j + 1..k]
            && OccursAt(s, Fence, k)
            && (forall p :: j + 1 <= p < k ==> !OccursAt(s, Fence, p))
            && forall p :: 0 <= p < |f.lang| ==> IsWord(f.lang[p])
  {
    j := i + 3 + Run(s, i + 3, IsWord);
    k := Find(s, Fence, j + 1).value;
    var f := FenceJsAt(s, i).value;
    forall p | 0 <= p < |f.lang| ensures IsWord(f.lang[p]) {
      assert f.lang[p] == s[i + 3 + p];
    }
  }

  /** A block whose body holds no fence and does not end in a backtick is
      matched whole, with that body. */
  lemma FenceJsAtBlock(lang: string, body: string)
    requires forall k :: 0 <= k < |lang| ==> IsWord(lang[k])
    requires NoFenceIn(body)
    ensures var s := Fence + lang + "\n" + body + "\n" + Fence;
            FenceJsAt(s, 0) == Some(MarkdownTs.Fenced(lang, body + "\n", |s|))
  {
    var s := Fence + lang + "\n" + body + "\n" + Fence;
    var j := 3 + |lang|;
    var k := |s| - 3;
    assert s[..3] == Fence;
    assert s[3..j] == lang;
    forall p | 3 <= p < j ensures IsWord(s[p]) {
      assert s[p] == lang[p - 3];
    }
    assert s[j] == '\n';
    RunExact(s, 3, IsWord, |lang|);
    assert s[k..] == Fence;
    assert OccursAt(s, Fence, k);
    assert s[j + 1..k] == body + "\n";
    assert s == (Fence + lang + "\n") + body + "\n" + Fence;
    BodyHidesFence(Fence + lang + "\n", body);
    FindExact(s, Fence, j + 1, k);
  }

  /** No fence starts inside a fence-free body or on the newline after it. */
  lemma BodyHidesFence(pre: string, body: string)
    requires NoFenceIn(body)
    ensures var s := pre + body + "\n" + Fence;
            forall p :: |pre| <= p < |s| - 3 ==> !OccursAt(s, Fence, p)
  {
    var s := pre + body + "\n" + Fence;
    var j, k := |pre|, |s| - 3;
    forall p | j <= p < k ensures !OccursAt(s, Fence, p) {
      TicksAt(s, p);
      if p + 3 <= k - 1 {
        assert s[p] == body[p - j] && s[p + 1] == body[p - j + 1] && s[p + 2] == body[p - j + 2];
      } else {
        assert s[k - 1] == '\n';
      }
    }
  }

  /** A text that is one block is rewritten as that block's replacement. */
  lemma FixJsWhole(s: string)
    requires FenceJsAt(s, 0).Some? && FenceJsAt(s, 0).value.len == |s|
    ensures FixJs(s) == FenceJsHit(s, 0).value.repl
  {
    assert MatchesAt(s, FenceJsMatcher(), 0);
    assert ReplaceAll(s, FenceJsMatcher(), |s|) == [];
  }

  /** On a text that is one fenced block, the re-indentation is idempotent:
      the block it writes is matched whole again and its body, being in
      normal form, is given back unchanged. */
  lemma FixJsIdempotentBlock(s: string)
    requires FenceJsAt(s, 0).Some? && FenceJsAt(s, 0).value.len == |s|
    ensures FixJs(FixJs(s)) == FixJs(s)
  {
    var f := FenceJsAt(s, 0).value;
    var j, k := FenceJsAtParts(s, 0);
    FixJsWhole(s);
    match DedentJs(f.code)
    case None =>
      assert FixJs(s) == s[0..|s|];
      assert s[0..|s|] == s;
    case Some(body) =>
      CodeNoFence(s, j, k);
      DedentJsNoFence(f.code);
      DedentJsOutputNormal(f.code);
      RewrittenBlockStable(f.lang, body);
  }

  /** The body the pattern captures holds no fence: it ends at the first
      one. */
  lemma CodeNoFence(s: string, j: nat, k: nat)
    requires j < k <= |s|
    requires forall p :: j + 1 <= p < k ==> !OccursAt(s, Fence, p)
    ensures NoFenceIn(s[j + 1..k])
  {
    var c := s[j + 1..k];
    forall q | 0 <= q < |c| - 2
      ensures !(c[q] == '`' && c[q + 1] == '`' && c[q + 2] == '`')
    {
      TicksAt(s, j + 1 + q);
      assert c[q] == s[j + 1 + q] && c[q + 1] == s[j + 2 + q] && c[q + 2] == s[j + 3 + q];
    }
  }

  /** The block the re-indentation writes is left as it is. */
  lemma RewrittenBlockStable(lang: string, body: string)
    requires forall k :: 0 <= k < |lang| ==> IsWord(lang[k])
    requires NoFenceIn(body) && NormalBody(body)
    ensures var out := Fence + lang + "\n" + body + "\n" + Fence;
            FixJs(out) == out
  {
    var out := Fence + lang + "\n" + body + "\n" + Fence;
    FenceJsAtBlock(lang, body);
    DedentJsNormal(body);
    FixJsWhole(out);
  }

  // ---- Links into Notion ----

  predicate IsIdChar(c: char) { ('a' <= c <= 'f') || ('0' <= c <= '9') || c == '-' }

  /** `/\[([^\]]+)\]\(https:\/\/www\.notion\.so\/([a-f0-9-]+)\)/` tried at
      `i`, with the replacement `[$1](https://www.notion.so/$2)` built from
      the captures. */
  function NotionIdLinkAt(s: string, i: nat): (r: Option<Hit>)
    ensures r.Some? ==> i + r.value.len <= |s| && r.value.repl == s[i..i + r.value.len]
  {
    if i < |s| && s[i] == '[' then
      var t := Run(s, i + 1, NotCloseBracket);
      var p := i + 1 + t;
      if t > 0 && OccursAt(s, MarkdownTs.NotionLinkTail, p) then
        var q := p + |MarkdownTs.NotionLinkTail|;
        var u := Run(s, q, IsIdChar);
        if u > 0 && q + u < |s| && s[q + u] == ')' then
          var text := s[i + 1..p];
          var id := s[q..q + u];
          RebuildLink(s, i, p, q, q + u);
          Some(Hit(q + u + 1 - i, "[" + text + MarkdownTs.NotionLinkTail + id + ")"))
        else None
      else None
    else None
  }

  /** A link matched at `i` is the concatenation of its parts. */
  lemma RebuildLink(s: string, i: nat, p: nat, q: nat, e: nat)
    requires i < p && q == p + |MarkdownTs.NotionLinkTail| && q <= e < |s|
    requires s[i] == '[' && s[e] == ')' && OccursAt(s, MarkdownTs.NotionLinkTail, p)
    ensures s[i..e + 1] == "[" + s[i + 1..p] + MarkdownTs.NotionLinkTail + s[q..e] + ")"
  {
    assert s[p..q] == MarkdownTs.NotionLinkTail;
    assert s[i..e + 1] == [s[i]] + s[i + 1..p] + s[p..q] + s[q..e] + [s[e]];
  }

  /** `normalizeLinks` writes every match back as it was: it changes no
      text. */
  function NormalizeLinksJs(s: string): (r: string)
    ensures r == s
  {
    ReplaceAllIdentity(s, NotionIdLinkAt, 0);
    ReplaceAll(s, NotionIdLinkAt, 0)
  }

  // ---- Post-processing ----

  /** `postProcessMarkdown` as written: empty input gives empty output;
      otherwise the clean-up, the re-indentation, the (identity) link
      rewrite and the image rewrite. */
  function PostProcessJs(md: string, parsePath: string -> Option<string>, local: string -> string): (r: string)
    ensures md == [] ==> r == []
  {
    if md == [] then []
    else ProcessImagesInMarkdown(NormalizeLinksJs(FixJs(CleanUp(md))), parsePath, local)
  }

  /** The same pipeline with the corrected clean-up and rewritten image
      links inserted literally. */
  function PostProcessJsFixed(md: string, parsePath: string -> Option<string>, local: string -> string): (r: string)
    ensures md == [] ==> r == []
  {
    if md == [] then []
    else ProcessImagesInMarkdownFixed(NormalizeLinksJs(FixJs(CleanUpCorrected(md))), parsePath, local)
  }

  /** Text whose clean-up has no fence or image only goes through the
      clean-up; links into Notion, unlike in the TypeScript converter,
      survive. */
  lemma PostProcessJsPlain(md: string, parsePath: string -> Option<string>, local: string -> string)
    requires !Contains(CleanUp(md), Fence) && !Contains(CleanUp(md), "![")
    ensures PostProcessJs(md, parsePath, local) == CleanUp(md)
    ensures NoTrailingBlank(PostProcessJs(md, parsePath, local))
  {
    var c := CleanUp(md);
    CleanUpNoTrailingBlank(md);
    if md != [] {
      NoImageLinks(c);
    }
  }

  /** As in the TypeScript converter, `a\n\n \n\nb` keeps four newlines in
      a row. */
  lemma PostProcessJsKeepsBlankRun(md: string, parsePath: string -> Option<string>, local: string -> string)
    requires md == "a\n\n \n\nb"
    ensures PostProcessJs(md, parsePath, local) == "a\n\n\n\nb"
    ensures !NoTripleNewline(PostProcessJs(md, parsePath, local))
  {
    CleanUpKeepsBlankRun(md);
    var c := CleanUp(md);
    assert forall k :: 0 <= k < |c| ==> c[k] != '`' && c[k] != '!';
    ContainsIff(c, Fence);
    ContainsIff(c, "![");
    assert !Contains(c, Fence) by {
      forall k | 0 <= k && k + |Fence| <= |c| ensures !OccursAt(c, Fence, k) {
        assert c[k..k + |Fence|][0] == c[k];
      }
    }
    assert !Contains(c, "![") by {
      forall k | 0 <= k && k + 2 <= |c| ensures !OccursAt(c, "![", k) {
        assert c[k..k + 2][0] == c[k];
      }
    }
    PostProcessJsPlain(md, parsePath, local);
  }

  /** The corrected pipeline on the same kind of text is the corrected
      clean-up, which leaves no run of three newlines. */
  lemma PostProcessJsFixedPlain(md: string, parsePath: string -> Option<string>, local: string -> string)
    requires !Contains(CleanUpCorrected(md), Fence) && !Contains(CleanUpCorrected(md), "![")
    ensures PostProcessJsFixed(md, parsePath, local) == CleanUpCorrected(md)
    ensures NoTripleNewline(PostProcessJsFixed(md, parsePath, local))
  {
    var c := CleanUpCorrected(md);
    if md != [] {
      NoImageLinks(c);
    }
  }

  /** Without `![` there is no image link to find. */
  lemma NoImageLinks(c: string)
    requires !Contains(c, "![")
    ensures FoundLinks(c) == []
  {
    ContainsIff(c, "![");
    forall j | 0 <= j < |c| ensures !MatchesAt(c, LinkMatcher(), j) {
      if ImageLinkAt(c, j).Some? {
        assert c[j..j + 2] == "![";
        assert OccursAt(c, "![", j);
      }
    }
    NoStarts(c, LinkMatcher(), 0);
  }

  // ---- Metadata ----

  /** No line terminator in `s[a..b]`: what `.` may cross. */
  predicate OnOneLine(s: string, a: nat, b: nat)
    requires a <= b <= |s|
  {
    forall k :: a <= k < b ==> !IsLineTerminator(s[k])
  }

  /** `/```[\s\S]*?```/`: a fence and everything up to the next fence. */
  function CodeSpanAt(s: string, i: nat): (r: Option<Hit>)
    ensures r.Some? ==> r.value.len >= 6 && i + r.value.len <= |s| && r.value.repl == []
    ensures r.Some? ==> OccursAt(s, Fence, i)
  {
    if OccursAt(s, Fence, i) then
      match Find(s, Fence, i + 3)
      case None => None
      case Some(k) => Some(Hit(k + 3 - i, []))
    else None
  }

  /** `/<opener>.*?\]\(.*?\)/` with `opener` `![` or `[`: the first `](`
      after the opener, then the first `)`, both on the opener's line. A
      later `](` cannot help when the first one fails, since its `)` would
      have to lie on the same line too. */
  function BracketSpanAt(opener: string, s: string, i: nat): (r: Option<Hit>)
    ensures r.Some? ==> r.value.len >= |opener| + 3 && i + r.value.len <= |s| && r.value.repl == []
    ensures r.Some? ==> OccursAt(s, opener, i)
  {
    if OccursAt(s, opener, i) then
      match Find(s, "](", i + |opener|)
      case None => None
      case Some(p) =>
        if OnOneLine(s, i + |opener|, p) then
          match Find(s, ")", p + 2)
          case None => None
          case Some(e) =>
            if OnOneLine(s, p + 2, e) then Some(Hit(e + 1 - i, [])) else None
        else None
    else None
  }

  function ImageSpanAt(s: string, i: nat): Option<Hit> { BracketSpanAt("![", s, i) }

  function LinkSpanAt(s: string, i: nat): Option<Hit> { BracketSpanAt("[", s, i) }

  predicate IsMarkup(c: char) { c == '#' || c == '*' || c == '>' || c == '`' || c == '-' }

  predicate NotMarkup(c: char) { !IsMarkup(c) }

  /** Code blocks, then images, then links removed. */
  function RemoveSpans(s: string): (r: string)
    ensures |r| <= |s|
  {
    var a := ReplaceAll(s, CodeSpanAt, 0);
    ReplaceAllShrinks(s, CodeSpanAt, 0);
    var b := ReplaceAll(a, ImageSpanAt, 0);
    ReplaceAllShrinks(a, ImageSpanAt, 0);
    ReplaceAllShrinks(b, LinkSpanAt, 0);
    ReplaceAll(b, LinkSpanAt, 0)
  }

  /** The text counted: code blocks, images and links removed, then the
      markup characters, then trimmed. */
  function CleanText(s: string): (r: string)
    ensures |r| <= |s|
    ensures forall k :: 0 <= k < |r| ==> !IsMarkup(r[k])
  {
    var d := Filter(RemoveSpans(s), NotMarkup);
    TrimKeeps(d, NotMarkup);
    Trim(d)
  }

  /** `Math.ceil(n / 500)`. */
  function ReadingTime(n: nat): (r: nat)
    ensures n <= 500 * r && (r == 0 || 500 * (r - 1) < n)
  {
    (n + 499) / 500
  }

  datatype Heading = Heading(level: nat, text: string)

  /** One entry of `headings`: the matched line's `#` count, and the line
      without `^#+\s+`. */
  function HeadingJs(hd: string): (r: Heading)
  {
    var lvl := Run(hd, 0, IsHash);
    var sp := Run(hd, lvl, IsSpace);
    Heading(lvl, if sp > 0 then hd[lvl + sp..] else hd)
  }

  /** `markdown.match(/^#{1,6}\s+.+$/gm)`, each match turned into a
      heading. */
  function HeadingsJs(s: string): (r: seq<Heading>)
    ensures |r| == |HeadingHits(s)|
  {
    var st := Starts(s, HeadingMatcher(), 0);
    assert forall k :: 0 <= k < |st| ==> MatchesAt(s, HeadingMatcher(), st[k]);
    seq(|st|, k requires 0 <= k < |st| => HeadingJs(s[st[k]..HeadingAt(s, st[k]).value.end]))
  }

  /** The text without its leading white space. */
  function TrimStart(x: string): string {
    x[Run(x, 0, IsSpace)..]
  }

  /** The two converters find the same headings; the JavaScript one reports
      the level and drops the white space the TypeScript capture may start
      with. */
  lemma HeadingsAgree(s: string)
    ensures |HeadingsJs(s)| == |MarkdownTs.HeadingsTs(s)|
    ensures forall k :: 0 <= k < |HeadingsJs(s)| ==>
              HeadingsJs(s)[k].level == HeadingHits(s)[k].level &&
              HeadingsJs(s)[k].text == TrimStart(MarkdownTs.HeadingsTs(s)[k])
  {
    var st := Starts(s, HeadingMatcher(), 0);
    forall k | 0 <= k < |st|
      ensures HeadingsJs(s)[k].level == HeadingHits(s)[k].level
      ensures HeadingsJs(s)[k].text == TrimStart(MarkdownTs.HeadingsTs(s)[k])
    {
      assert MatchesAt(s, HeadingMatcher(), st[k]);
      HeadingAgreeAt(s, st[k]);
    }
  }

  lemma HeadingAgreeAt(s: string, i: nat)
    requires HeadingAt(s, i).Some?
    ensures var h := HeadingAt(s, i).value;
            HeadingJs(s[i..h.end]) == Heading(h.level, TrimStart(s[h.start..h.end]))
  {
    var h := HeadingAt(s, i).value;
    var hd := s[i..h.end];
    var cap := s[h.start..h.end];
    HeadingHashes(s, i);
    HeadingSpaces(s, i);
    var R := Run(cap, 0, IsSpace);
    var n := h.start - i - h.level + R;
    HeadingJsOf(hd, h.level, n);
    TailOfSlices(s, i, h.start, h.end, R, h.level + n);
  }

  /** `HeadingJs` of a line whose `#` run and following white-space run are
      known. */
  lemma HeadingJsOf(hd: string, lvl: nat, n: nat)
    requires lvl <= |hd| && Run(hd, 0, IsHash) == lvl && Run(hd, lvl, IsSpace) == n && n > 0
    ensures HeadingJs(hd) == Heading(lvl, hd[lvl + n..])
  {
  }

  /** Dropping the same characters from two slices that end together. */
  lemma TailOfSlices(s: string, i: nat, st: nat, e: nat, R: nat, m: nat)
    requires i <= st && st + R <= e <= |s| && m == st - i + R
    ensures s[i..e][m..] == s[st..e][R..]
  {
  }

  /** The `#` run of a matched heading line is its level. */
  lemma HeadingHashes(s: string, i: nat)
    requires HeadingAt(s, i).Some?
    ensures var h := HeadingAt(s, i).value;
            Run(s[i..h.end], 0, IsHash) == h.level
  {
    var h := HeadingAt(s, i).value;
    var hd := s[i..h.end];
    assert hd[h.level] == s[i + h.level];
    RunExact(hd, 0, IsHash, h.level);
  }

  /** After the `#` run, `\s+` takes the white space the match kept and the
      white space the capture starts with. */
  lemma HeadingSpaces(s: string, i: nat)
    requires HeadingAt(s, i).Some?
    ensures var h := HeadingAt(s, i).value;
            Run(s[i..h.end], h.level, IsSpace) == h.start - i - h.level + Run(s[h.start..h.end], 0, IsSpace)
  {
    var h := HeadingAt(s, i).value;
    var hd := s[i..h.end];
    var cap := s[h.start..h.end];
    var R := Run(cap, 0, IsSpace);
    var gap := h.start - i - h.level;
    forall k | h.level <= k < h.level + gap + R ensures IsSpace(hd[k]) {
      if k < h.level + gap {
        assert hd[k] == s[i + k];
      } else {
        assert hd[k] == cap[k - h.level - gap];
      }
    }
    if h.level + gap + R < |hd| {
      assert hd[h.level + gap + R] == cap[R];
    }
    RunExact(hd, h.level, IsSpace, gap + R);
  }

  datatype MetadataJs = MetadataJs(wordCount: nat, readingTime: nat, headings: seq<Heading>, codeBlocks: nat, images: nat)

  /** `extractMetadata`; `wordCount` is the cleaned text's `length`, in
      UTF-16 code units. */
  function ExtractMetadataJs(s: string): (r: MetadataJs)
    ensures |CleanText(s)| <= r.wordCount <= 2 * |s|
    ensures r.wordCount <= 500 * r.readingTime && (r.readingTime == 0 || 500 * (r.readingTime - 1) < r.wordCount)
    ensures |r.headings| == |MarkdownTs.HeadingsTs(s)|
  {
    var wc := Utf16Length(CleanText(s));
    MetadataJs(wc, ReadingTime(wc), HeadingsJs(s),
               |Starts(s, CodeSpanAt, 0)|, |Starts(s, ImageSpanAt, 0)|)
  }

  /** Without a fence there is no code block to count, without `![` no
      image. */
  lemma MetadataCountsZero(s: string)
    ensures !Contains(s, Fence) ==> ExtractMetadataJs(s).codeBlocks == 0
    ensures !Contains(s, "![") ==> ExtractMetadataJs(s).images == 0
  {
    ContainsIff(s, Fence);
    ContainsIff(s, "![");
    if !Contains(s, Fence) {
      NoStarts(s, CodeSpanAt, 0);
    }
    if !Contains(s, "![") {
      NoStarts(s, ImageSpanAt, 0);
    }
  }

  /** The spans removed leave the text unchanged when none is found. */
  lemma RemoveSpansPlain(s: string)
    requires '[' !in s && !Contains(s, Fence)
    ensures RemoveSpans(s) == s
  {
    ContainsIff(s, Fence);
    ReplaceAllNoMatch(s, CodeSpanAt, 0);
    forall j | 0 <= j < |s| ensures !MatchesAt(s, ImageSpanAt, j) && !MatchesAt(s, LinkSpanAt, j) {
      if j + 2 <= |s| {
        assert s[j..j + 2][1] == s[j + 1];
      }
      assert s[j..j + 1][0] == s[j];
      assert !OccursAt(s, "![", j) && !OccursAt(s, "[", j);
    }
    ReplaceAllNoMatch(s, ImageSpanAt, 0);
    ReplaceAllNoMatch(s, LinkSpanAt, 0);
  }

  /** Text without code, brackets or markup counts the code units of its
      trimmed self: its characters when all lie in the Basic Multilingual
      Plane. */
  lemma PlainWordCount(s: string)
    requires '[' !in s && !Contains(s, Fence)
    requires forall k :: 0 <= k < |s| ==> !IsMarkup(s[k])
    ensures ExtractMetadataJs(s).wordCount == Utf16Length(Trim(s))
    ensures (forall k :: 0 <= k < |s| ==> s[k] as int < 0x1_0000) ==> ExtractMetadataJs(s).wordCount == |Trim(s)|
  {
    RemoveSpansPlain(s);
    FilterAll(s, NotMarkup);
    if forall k :: 0 <= k < |s| ==> s[k] as int < 0x1_0000 {
      TrimBmp(s);
    }
  }

  lemma TrimBmp(s: string)
    requires forall k :: 0 <= k < |s| ==> s[k] as int < 0x1_0000
    ensures Utf16Length(Trim(s)) == |Trim(s)|
  {
    var t := Trim(s);
    forall k | 0 <= k < |t| ensures t[k] as int < 0x1_0000 {
      assert t[k] == s[Run(s, 0, IsSpace) + k];
    }
    Utf16LengthBmp(t);
  }

  /** The emoji counts two: `💡 **x**` cleans to `💡 x`, of length 4. */
  lemma WordCountUnits(s: string)
    requires s == "\U{1F4A1} **x**"
    ensures ExtractMetadataJs(s).wordCount == 4
  {
    EmojiPlain(s);
    RemoveSpansPlain(s);
    assert s == "\U{1F4A1} " + "**x**";
    EmojiFiltered("\U{1F4A1} ", "**x**");
    EmojiUnits("\U{1F4A1} x");
  }

  lemma EmojiPlain(s: string)
    requires s == "\U{1F4A1} **x**"
    ensures '[' !in s && !Contains(s, Fence)
  {
    forall k | 0 <= k ensures !OccursAt(s, Fence, k) {
      if k + 3 <= |s| {
        assert s[k] != '`';
      }
    }
    ContainsIff(s, Fence);
  }

  lemma EmojiFiltered(e: string, t: string)
    requires e == "\U{1F4A1} " && t == "**x**"
    ensures Filter(e + t, NotMarkup) == "\U{1F4A1} x"
  {
    FilterAppend(e, t, NotMarkup);
    EmojiKept(e);
    StarsFiltered(t);
  }

  lemma EmojiKept(e: string)
    requires e == "\U{1F4A1} "
    ensures Filter(e, NotMarkup) == e
  {
    assert NotMarkup(e[0]) && NotMarkup(e[1]);
  }

  lemma StarsFiltered(s: string)
    requires s == "**x**"
    ensures Filter(s, NotMarkup) == "x"
  {
    assert s == "**" + ("x" + "**");
    FilterAppend("**", "x" + "**", NotMarkup);
    FilterAppend("x", "**", NotMarkup);
  }

  lemma EmojiUnits(t: string)
    requires t == "\U{1F4A1} x"
    ensures Trim(t) == t && Utf16Length(t) == 4
  {
    assert !IsSpace(t[0]) && !IsSpace(t[2]);
    TrimOfTrimmed(t);
    assert t == [t[0]] + [t[1]] + [t[2]];
    Utf16LengthAppend([t[0]] + [t[1]], [t[2]]);
    Utf16LengthAppend([t[0]], [t[1]]);
  }
}
