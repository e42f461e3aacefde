/** Strings as `seq<char>` and the ECMAScript string operations the sync
    scripts rely on: character classes of regular expressions without the `u`
    flag, `trim`, `split`, `join`, `indexOf`, `replace` with a string pattern,
    `substring` and `toLowerCase`. */
module Text {
  import opened Wrappers

  /** `\w` in a regular expression without the `u` flag: `[A-Za-z0-9_]`. */
  predicate IsWord(c: char) {
    ('a' <= c <= 'z') || ('A' <= c <= 'Z') || ('0' <= c <= '9') || c == '_'
  }

  /** ECMAScript line terminators: where `^`/`$` match in multiline mode and
      what `.` refuses. */
  predicate IsLineTerminator(c: char) {
    c == '\n' || c == '\r' || c == '\U{2028}' || c == '\U{2029}'
  }

  /** ECMAScript WhiteSpace and LineTerminator: the set `\s` matches and
      `String.prototype.trim` removes. */
  predicate IsSpace(c: char) {
    || c == '\t' || c == '\U{B}' || c == '\U{C}' || c == ' '
    || c == '\U{A0}' || c == '\U{1680}' || ('\U{2000}' <= c <= '\U{200A}')
    || c == '\U{202F}' || c == '\U{205F}' || c == '\U{3000}' || c == '\U{FEFF}'
    || IsLineTerminator(c)
  }

  predicate IsAsciiUpper(c: char) { 'A' <= c <= 'Z' }

  predicate NotSpace(c: char) { !IsSpace(c) }

  predicate NotDash(c: char) { c != '-' }

  /** The regular-expression classes `[^\]]` and `[^)]`. */
  predicate NotCloseBracket(c: char) { c != ']' }

  predicate NotCloseParen(c: char) { c != ')' }

  function LowerChar(c: char): (r: char)
    ensures !IsAsciiUpper(r)
    ensures IsWord(c) <==> IsWord(r)
    ensures !IsAsciiUpper(c) ==> r == c
  {
    if IsAsciiUpper(c) then (c as int + 32) as char else c
  }

  /** `toLowerCase`, restricted to ASCII letters; every string it is applied
      to in this model is lower-cased exactly by this restriction. */
  function ToLower(s: string): (r: string)
    ensures |r| == |s|
    ensures forall i :: 0 <= i < |s| ==> r[i] == LowerChar(s[i])
  {
    seq(|s|, i requires 0 <= i < |s| => LowerChar(s[i]))
  }

  lemma ToLowerIdempotent(s: string)
    ensures ToLower(ToLower(s)) == ToLower(s)
  {
  }

  /** `s.substring(0, n)` for `n >= 0` on a string of characters of the
      Basic Multilingual Plane, where one character is one UTF-16 code unit;
      every string it is applied to in this model is one. */
  function Take(s: string, n: nat): (r: string)
    ensures |r| == if |s| <= n then |s| else n
    ensures r == s[..|r|]
  {
    if |s| <= n then s else s[..n]
  }

  /** The UTF-16 code units a character takes: two (a surrogate pair)
      outside the Basic Multilingual Plane, one inside it. */
  function Utf16Units(c: char): (n: nat)
    ensures 1 <= n <= 2
  {
    if c as int >= 0x1_0000 then 2 else 1
  }

  /** A string's `length`: its UTF-16 code units. */
  function Utf16Length(s: string): (n: nat)
    ensures |s| <= n <= 2 * |s|
  {
    if |s| == 0 then 0 else Utf16Units(s[0]) + Utf16Length(s[1..])
  }

  lemma {:induction false} Utf16LengthAppend(a: string, b: string)
    ensures Utf16Length(a + b) == Utf16Length(a) + Utf16Length(b)
  {
    if |a| > 0 {
      assert (a + b)[1..] == a[1..] + b;
      Utf16LengthAppend(a[1..], b);
    } else {
      assert a + b == b;
    }
  }

  /** On the Basic Multilingual Plane `length` counts characters. */
  lemma {:induction false} Utf16LengthBmp(s: string)
    requires forall k :: 0 <= k < |s| ==> s[k] as int < 0x1_0000
    ensures Utf16Length(s) == |s|
  {
    if |s| > 0 {
      Utf16LengthBmp(s[1..]);
    }
  }

  /** `s.substring(0, n)` counted in UTF-16 code units: the longest prefix
      whose units fit in `n`. When the `n`-th unit is the first half of a
      surrogate pair, `substring` keeps that lone half; a string of Unicode
      scalar values cannot hold it, so it is dropped here. */
  function TakeUnits(s: string, n: nat): (r: string)
    ensures |r| <= |s| && r == s[..|r|]
    ensures Utf16Length(r) <= n
    ensures |r| < |s| ==> Utf16Length(r) + Utf16Units(s[|r|]) > n
    ensures Utf16Length(s) <= n ==> r == s
  {
    if |s| == 0 || Utf16Units(s[0]) > n then []
    else
      var rest := TakeUnits(s[1..], n - Utf16Units(s[0]));
      assert ([s[0]] + rest)[1..] == rest;
      assert [s[0]] + rest == s[..|rest| + 1];
      [s[0]] + rest
  }

  lemma PrefixOfAppend(a: string, b: string, n: nat)
    requires n <= |b|
    ensures (a + b)[..|a| + n] == a + b[..n]
  {
  }

  /** The prefix that fits and cannot be extended is the one `TakeUnits`
      keeps. */
  lemma TakeUnitsExact(s: string, n: nat, k: nat)
    requires k <= |s| && Utf16Length(s[..k]) <= n
    requires k < |s| ==> Utf16Length(s[..k]) + Utf16Units(s[k]) > n
    ensures TakeUnits(s, n) == s[..k]
  {
    var m := |TakeUnits(s, n)|;
    if m < k {
      Utf16Grows(s, m, k);
    } else if k < m {
      Utf16Grows(s, k, m);
    }
  }

  /** A longer prefix takes at least the units of the shorter one and of
      the character after it. */
  lemma Utf16Grows(s: string, i: nat, j: nat)
    requires i < j <= |s|
    ensures Utf16Length(s[..j]) >= Utf16Length(s[..i]) + Utf16Units(s[i])
  {
    assert s[..j] == s[..i] + s[i..j];
    Utf16LengthAppend(s[..i], s[i..j]);
    assert s[i..j][0] == s[i];
  }

  /** Length of the maximal run of characters satisfying `p` starting at `i`:
      what a greedy `p*` consumes. */
  function Run(s: string, i: nat, p: char -> bool): (n: nat)
    requires i <= |s|
    ensures i + n <= |s|
    ensures forall k :: i <= k < i + n ==> p(s[k])
    ensures i + n == |s| || !p(s[i + n])
    decreases |s| - i
  {
    if i < |s| && p(s[i]) then 1 + Run(s, i + 1, p) else 0
  }

  /** Every character of a run satisfies its predicate. */
  lemma RunSlice(s: string, i: nat, p: char -> bool)
    requires i <= |s|
    ensures forall c :: c in s[i..i + Run(s, i, p)] ==> p(c)
  {
    var n := Run(s, i, p);
    forall c | c in s[i..i + n] ensures p(c) {
      var k :| 0 <= k < n && s[i..i + n][k] == c;
      assert s[i + k] == c;
    }
  }

  /** Length of the maximal run of characters satisfying `p` ending just
      before `j`. */
  function BackRun(s: string, j: nat, p: char -> bool): (n: nat)
    requires j <= |s|
    ensures n <= j
    ensures forall k :: j - n <= k < j ==> p(s[k])
    ensures n == j || !p(s[j - n - 1])
  {
    if 0 < j && p(s[j - 1]) then 1 + BackRun(s, j - 1, p) else 0
  }

  /** `String.prototype.trim`: drops the leading run of white space (of
      length `Run(s, 0, IsSpace)`) and the trailing run. */
  function Trim(s: string): (r: string)
    ensures |r| <= |s|
    ensures r == [] || (!IsSpace(r[0]) && !IsSpace(r[|r| - 1]))
    ensures var a := Run(s, 0, IsSpace);
            && a + |r| <= |s| && r == s[a..a + |r|]
            && (forall k :: a + |r| <= k < |s| ==> IsSpace(s[k]))
  {
    var a := Run(s, 0, IsSpace);
    if a == |s| then
      []
    else
      var b := |s| - BackRun(s, |s|, IsSpace);
      assert a < b by {
        assert !IsSpace(s[a]);
      }
      s[a..b]
  }

  /** A string without leading or trailing white space is its own trim. */
  lemma TrimOfTrimmed(s: string)
    requires s == [] || (!IsSpace(s[0]) && !IsSpace(s[|s| - 1]))
    ensures Trim(s) == s
  {
    if s != [] {
      assert Run(s, 0, IsSpace) == 0;
      assert BackRun(s, |s|, IsSpace) == 0;
    }
  }

  lemma TrimIdempotent(s: string)
    ensures Trim(Trim(s)) == Trim(s)
  {
    TrimOfTrimmed(Trim(s));
  }

  /** A string of white space only trims to the empty string. */
  lemma TrimAllSpace(s: string)
    requires forall k :: 0 <= k < |s| ==> IsSpace(s[k])
    ensures Trim(s) == []
  {
  }

  predicate StartsWith(s: string, p: string) {
    |p| <= |s| && s[..|p|] == p
  }

  predicate EndsWith(s: string, p: string) {
    |p| <= |s| && s[|s| - |p|..] == p
  }

  /** True when `pat` occurs in `s` at position `k`. */
  predicate OccursAt(s: string, pat: string, k: int) {
    0 <= k && k + |pat| <= |s| && s[k..k + |pat|] == pat
  }

  /** The first position at or after `from` where `pat` occurs: `indexOf`,
      and the lazy `[\s\S]*?` scan of a regular expression. */
  function Find(s: string, pat: string, from: nat): (r: Option<nat>)
    ensures r.Some? ==> from <= r.value && OccursAt(s, pat, r.value)
    ensures r.Some? ==> forall j :: from <= j < r.value ==> !OccursAt(s, pat, j)
    ensures r.None? ==> forall j :: from <= j ==> !OccursAt(s, pat, j)
    decreases |s| - from
  {
    if |s| < from + |pat| then None
    else if s[from..from + |pat|] == pat then Some(from)
    else Find(s, pat, from + 1)
  }

  /** `s.includes(sub)`. */
  predicate Contains(s: string, sub: string) {
    Find(s, sub, 0).Some?
  }

  lemma ContainsIff(s: string, sub: string)
    ensures Contains(s, sub) <==> exists k :: OccursAt(s, sub, k)
  {
    if Contains(s, sub) {
      assert OccursAt(s, sub, Find(s, sub, 0).value);
    }
  }

  /** `GetSubstitution` for a string pattern, which captures nothing: `$$`
      writes `$`, `$&` the matched text, `` $` `` the text before the match
      and `$'` the text after it; any other `$` is written as it stands. */
  function Substitute(repl: string, matched: string, before: string, after: string): (r: string)
    ensures '$' !in repl ==> r == repl
    decreases |repl|
  {
    if |repl| == 0 then []
    else if repl[0] == '$' && |repl| >= 2 && (repl[1] == '$' || repl[1] == '&' || repl[1] == '`' || repl[1] == '\'') then
      var piece := if repl[1] == '$' then "$" else if repl[1] == '&' then matched
                   else if repl[1] == '`' then before else after;
      piece + Substitute(repl[2..], matched, before, after)
    else
      assert '$' !in repl ==> '$' !in repl[1..];
      [repl[0]] + Substitute(repl[1..], matched, before, after)
  }

  /** A replacement that opens with text free of `$` keeps that text. */
  lemma {:induction false} SubstitutePlain(a: string, b: string, matched: string, before: string, after: string)
    requires forall k :: 0 <= k < |a| ==> a[k] != '$'
    ensures Substitute(a + b, matched, before, after) == a + Substitute(b, matched, before, after)
    decreases |a|
  {
    if |a| > 0 {
      assert a + b == [a[0]] + (a[1..] + b);
      SubstituteHead(a[0], a[1..] + b, matched, before, after);
      SubstitutePlain(a[1..], b, matched, before, after);
      HeadSplit(a, Substitute(b, matched, before, after));
    } else {
      assert a + b == b;
    }
  }

  lemma HeadSplit(a: string, t: string)
    requires |a| > 0
    ensures [a[0]] + (a[1..] + t) == a + t
  {
    assert [a[0]] + a[1..] == a;
  }

  /** A character other than `$` is copied as it stands. */
  lemma SubstituteHead(c: char, rest: string, matched: string, before: string, after: string)
    requires c != '$'
    ensures Substitute([c] + rest, matched, before, after) == [c] + Substitute(rest, matched, before, after)
  {
    assert ([c] + rest)[1..] == rest;
  }

  /** `s.replace(pat, repl)` with a string pattern and a string replacement:
      the first occurrence only, with the `$` patterns of the replacement
      expanded. */
  function ReplaceFirst(s: string, pat: string, repl: string): (r: string)
    ensures Find(s, pat, 0).None? ==> r == s
    ensures Find(s, pat, 0).Some? ==>
              var k := Find(s, pat, 0).value;
              r == s[..k] + Substitute(repl, pat, s[..k], s[k + |pat|..]) + s[k + |pat|..]
    ensures '$' !in repl ==> r == ReplaceFirstLiteral(s, pat, repl)
  {
    match Find(s, pat, 0)
    case None => s
    case Some(k) => s[..k] + Substitute(repl, pat, s[..k], s[k + |pat|..]) + s[k + |pat|..]
  }

  /** `s.replace(pat, () => repl)`: the first occurrence only, the
      replacement taken literally. */
  function ReplaceFirstLiteral(s: string, pat: string, repl: string): (r: string)
    ensures Find(s, pat, 0).None? ==> r == s
    ensures Find(s, pat, 0).Some? ==>
              var k := Find(s, pat, 0).value;
              r == s[..k] + repl + s[k + |pat|..]
  {
    match Find(s, pat, 0)
    case None => s
    case Some(k) => s[..k] + repl + s[k + |pat|..]
  }

  /** Both forms of `replace` with the first occurrence at `k`, and the text
      before and after it. */
  lemma ReplaceFirstAt(s: string, pat: string, repl: string, k: nat, before: string, after: string)
    requires Find(s, pat, 0) == Some(k)
    requires before == s[..k] && after == s[k + |pat|..]
    ensures ReplaceFirst(s, pat, repl) == before + Substitute(repl, pat, before, after) + after
    ensures ReplaceFirstLiteral(s, pat, repl) == before + repl + after
  {
    var sub := Substitute(repl, pat, s[..k], s[k + |pat|..]);
    assert ReplaceFirst(s, pat, repl) == s[..k] + sub + s[k + |pat|..];
  }

  /** Replacing an occurrence literally by itself changes nothing. */
  lemma ReplaceFirstLiteralSelf(s: string, pat: string)
    ensures ReplaceFirstLiteral(s, pat, pat) == s
  {
    match Find(s, pat, 0)
    case None =>
    case Some(k) =>
      assert s[k..k + |pat|] == pat;
      assert s == s[..k] + s[k..k + |pat|] + s[k + |pat|..];
  }

  /** The first position of character `c`, if any. */
  function IndexOf(s: string, c: char): (r: Option<nat>)
    ensures r.Some? ==> r.value < |s| && s[r.value] == c && c !in s[..r.value]
    ensures r.None? ==> c !in s
  {
    if |s| == 0 then None
    else if s[0] == c then Some(0)
    else match IndexOf(s[1..], c)
      case None => None
      case Some(i) => Some(i + 1)
  }

  /** `s.split(c)` with a one-character separator. */
  function Split(s: string, c: char): (parts: seq<string>)
    ensures |parts| >= 1
    ensures forall k :: 0 <= k < |parts| ==> c !in parts[k]
    decreases |s|
  {
    match IndexOf(s, c)
    case None => [s]
    case Some(i) => [s[..i]] + Split(s[i + 1..], c)
  }

  /** `parts.join(sep)`. */
  function Join(parts: seq<string>, sep: string): string
  {
    if |parts| == 0 then []
    else if |parts| == 1 then parts[0]
    else parts[0] + sep + Join(parts[1..], sep)
  }

  /** Joining the pieces of a split with the separator restores the text. */
  lemma {:induction false} JoinSplit(s: string, c: char)
    ensures Join(Split(s, c), [c]) == s
    decreases |s|
  {
    match IndexOf(s, c)
    case None =>
    case Some(i) =>
      var rest := Split(s[i + 1..], c);
      var parts := [s[..i]] + rest;
      assert Split(s, c) == parts;
      assert parts[1..] == rest;
      assert Join(parts, [c]) == s[..i] + [c] + Join(rest, [c]);
      JoinSplit(s[i + 1..], c);
      assert s == s[..i] + [c] + s[i + 1..];
  }

  /** Splitting a join restores the pieces when none contains the separator. */
  lemma {:induction false} SplitJoin(parts: seq<string>, c: char)
    requires |parts| >= 1
    requires forall k :: 0 <= k < |parts| ==> c !in parts[k]
    ensures Split(Join(parts, [c]), c) == parts
    decreases |parts|
  {
    if |parts| == 1 {
      assert IndexOf(parts[0], c).None?;
    } else {
      var rest := Join(parts[1..], [c]);
      var s := parts[0] + [c] + rest;
      assert Join(parts, [c]) == s;
      IndexOfAfter(parts[0], c, rest);
      assert s[..|parts[0]|] == parts[0];
      assert s[|parts[0]| + 1..] == rest;
      SplitJoin(parts[1..], c);
      assert parts == [parts[0]] + parts[1..];
    }
  }

  lemma IndexOfAfter(a: string, c: char, b: string)
    requires c !in a
    ensures IndexOf(a + [c] + b, c) == Some(|a|)
  {
    if |a| > 0 {
      assert (a + [c] + b)[1..] == a[1..] + [c] + b;
      IndexOfAfter(a[1..], c, b);
    }
  }

  /** `IndexOf` is pinned down by the first occurrence. */
  lemma IndexOfExact(s: string, c: char, i: nat)
    requires i < |s| && s[i] == c && c !in s[..i]
    ensures IndexOf(s, c) == Some(i)
  {
    if i > 0 {
      assert s[0] == s[..i][0];
      assert s[1..][..i - 1] == s[..i][1..];
      IndexOfExact(s[1..], c, i - 1);
    }
  }

  /** A text without the separator is one piece. */
  lemma SplitNone(s: string, c: char)
    requires c !in s
    ensures Split(s, c) == [s]
  {
  }

  /** The first piece of a split ends at the first separator. */
  lemma SplitCons(s: string, c: char, i: nat)
    requires IndexOf(s, c) == Some(i)
    ensures Split(s, c) == [s[..i]] + Split(s[i + 1..], c)
  {
  }

  /** A character absent from a text is absent from each of its slices. */
  lemma NotInSlice(s: string, c: char, a: nat, b: nat)
    requires a <= b <= |s| && c !in s
    ensures c !in s[a..b]
  {
    forall v | 0 <= v < b - a ensures s[a..b][v] != c {
      assert s[a..b][v] == s[a + v];
    }
  }

  /** Each piece of a split is made of characters of the text. */
  lemma {:induction false} SplitChars(s: string, c: char, k: nat, ch: char)
    requires k < |Split(s, c)| && ch in Split(s, c)[k]
    ensures ch in s
    decreases |s|
  {
    match IndexOf(s, c)
    case None =>
    case Some(i) =>
      if k > 0 {
        SplitChars(s[i + 1..], c, k - 1, ch);
      }
  }

  /** `s.split('T')[0]`: the calendar-date part of an ISO timestamp. */
  function BeforeT(s: string): (r: string)
    ensures 'T' !in r
    ensures StartsWith(s, r)
    ensures |r| == |s| || s[|r|] == 'T'
  {
    match IndexOf(s, 'T')
    case None => s
    case Some(i) => s[..i]
  }

  /** A JavaScript string value is truthy when present and non-empty. */
  predicate Truthy(o: Option<string>) {
    o.Some? && o.value != []
  }

  /** `a || b` on optional strings. */
  function OrElse(a: Option<string>, b: string): (r: string)
    ensures Truthy(a) ==> r == a.value
    ensures !Truthy(a) ==> r == b
  {
    if Truthy(a) then a.value else b
  }

  /** `text.repeat(n)`. */
  function Repeat(c: char, n: nat): (r: string)
    ensures |r| == n
    ensures forall k :: 0 <= k < n ==> r[k] == c
  {
    seq(n, _ => c)
  }

  /** The concatenation of a sequence of strings: `map(...).join('')`. */
  function Concat(parts: seq<string>): string
  {
    if |parts| == 0 then [] else parts[0] + Concat(parts[1..])
  }

  /** The characters of `s` satisfying `keep`, in order: `replace(/[^…]/g, '')`
      with a class of kept characters. */
  function Filter(s: string, keep: char -> bool): (r: string)
    ensures |r| <= |s|
    ensures forall k :: 0 <= k < |r| ==> keep(r[k])
  {
    if |s| == 0 then []
    else (if keep(s[0]) then [s[0]] else []) + Filter(s[1..], keep)
  }

  /** Runs depend only on the text from their start on. */
  lemma {:induction false} RunSame(s: string, i: nat, t: string, j: nat, p: char -> bool)
    requires i <= |s| && j <= |t| && s[i..] == t[j..]
    ensures Run(s, i, p) == Run(t, j, p)
    decreases |s| - i
  {
    if i < |s| {
      assert s[i] == s[i..][0] == t[j..][0] == t[j];
      assert s[i + 1..] == s[i..][1..] == t[j..][1..] == t[j + 1..];
      RunSame(s, i + 1, t, j + 1, p);
    }
  }

  /** Starting `i` characters into a run shortens it by `i`. */
  lemma {:induction false} RunInside(s: string, i: nat, p: char -> bool)
    requires i <= Run(s, 0, p)
    ensures Run(s, i, p) == Run(s, 0, p) - i
    decreases i
  {
    if i > 0 {
      RunInside(s, i - 1, p);
      assert p(s[i - 1]);
    }
  }

  /** Dropping the first `m` characters of a run of length at least `m`. */
  lemma RunDrop(s: string, m: nat, p: char -> bool)
    requires m <= Run(s, 0, p)
    ensures Run(s[m..], 0, p) == Run(s, 0, p) - m
  {
    RunInside(s, m, p);
    RunSame(s[m..], 0, s, m, p);
  }

  /** A string trims to nothing exactly when it is all white space. */
  lemma TrimEmptyIff(s: string)
    ensures Trim(s) == [] <==> forall k :: 0 <= k < |s| ==> IsSpace(s[k])
  {
    if forall k :: 0 <= k < |s| ==> IsSpace(s[k]) {
      TrimAllSpace(s);
    }
  }

  /** A run is pinned down by where it stops: `n` characters satisfying `p`
      followed by the end or by one that does not. */
  lemma RunExact(s: string, i: nat, p: char -> bool, n: nat)
    requires i + n <= |s|
    requires forall k :: i <= k < i + n ==> p(s[k])
    requires i + n == |s| || !p(s[i + n])
    ensures Run(s, i, p) == n
  {
  }

  /** Appending a piece to a non-empty join. */
  lemma {:induction false} JoinSnoc(parts: seq<string>, sep: string, x: string)
    requires |parts| >= 1
    ensures Join(parts + [x], sep) == Join(parts, sep) + sep + x
    decreases |parts|
  {
    if |parts| > 1 {
      assert (parts + [x])[1..] == parts[1..] + [x];
      JoinSnoc(parts[1..], sep, x);
    }
  }

  /** Trimming a trimmed text followed by white space gives the text back. */
  lemma TrimTrailingSpace(t: string, w: string)
    requires t != [] && !IsSpace(t[0]) && !IsSpace(t[|t| - 1])
    requires forall k :: 0 <= k < |w| ==> IsSpace(w[k])
    ensures Trim(t + w) == t
  {
    var s := t + w;
    var r := Trim(s);
    assert Run(s, 0, IsSpace) == 0;
    assert r == s[..|r|];
    assert !IsSpace(s[0]);
    assert r != [];
    assert !IsSpace(s[|r| - 1]);
    assert forall k :: |t| <= k < |s| ==> IsSpace(s[k]);
    assert |r| - 1 < |t|;
    assert !IsSpace(s[|t| - 1]);
    assert |t| - 1 < |r|;
    assert s[..|t|] == t;
  }

  /** Every character of a trim comes from the text. */
  lemma TrimKeeps(s: string, p: char -> bool)
    requires forall k :: 0 <= k < |s| ==> p(s[k])
    ensures forall k :: 0 <= k < |Trim(s)| ==> p(Trim(s)[k])
  {
    var r := Trim(s);
    var a := Run(s, 0, IsSpace);
    forall k | 0 <= k < |r| ensures p(r[k]) {
      assert r[k] == s[a + k];
    }
  }

  /** Filtering by a narrower class after a wider one is filtering by the
      narrower class alone. */
  lemma {:induction false} FilterNarrow(s: string, wide: char -> bool, narrow: char -> bool)
    requires forall c :: narrow(c) ==> wide(c)
    ensures Filter(Filter(s, wide), narrow) == Filter(s, narrow)
    decreases |s|
  {
    if |s| > 0 {
      FilterNarrow(s[1..], wide, narrow);
      var head := if wide(s[0]) then [s[0]] else [];
      assert Filter(s, wide) == head + Filter(s[1..], wide);
      FilterAppend(head, Filter(s[1..], wide), narrow);
      if wide(s[0]) {
        assert Filter(head, narrow) == (if narrow(s[0]) then [s[0]] else []) by {
          assert head[1..] == [];
        }
      }
    }
  }

  lemma {:induction false} FilterAppend(a: string, b: string, keep: char -> bool)
    ensures Filter(a + b, keep) == Filter(a, keep) + Filter(b, keep)
    decreases |a|
  {
    if |a| > 0 {
      assert (a + b)[1..] == a[1..] + b;
      FilterAppend(a[1..], b, keep);
    } else {
      assert a + b == b;
    }
  }

  /** Two filters that keep the same characters agree. */
  lemma {:induction false} FilterSame(s: string, p: char -> bool, q: char -> bool)
    requires forall c :: p(c) == q(c)
    ensures Filter(s, p) == Filter(s, q)
    decreases |s|
  {
    if |s| > 0 {
      FilterSame(s[1..], p, q);
    }
  }

  /** Everything survives a filter that keeps all of the characters. */
  lemma {:induction false} FilterAll(s: string, keep: char -> bool)
    requires forall k :: 0 <= k < |s| ==> keep(s[k])
    ensures Filter(s, keep) == s
    decreases |s|
  {
    if |s| > 0 {
      FilterAll(s[1..], keep);
      assert s == [s[0]] + s[1..];
    }
  }

  /** What holds of every character of a text holds of every character a
      filter keeps. */
  lemma {:induction false} FilterPreserves(s: string, keep: char -> bool, p: char -> bool)
    requires forall k :: 0 <= k < |s| ==> p(s[k])
    ensures forall k :: 0 <= k < |Filter(s, keep)| ==> p(Filter(s, keep)[k])
    decreases |s|
  {
    if |s| > 0 {
      FilterPreserves(s[1..], keep, p);
      var head := if keep(s[0]) then [s[0]] else [];
      assert Filter(s, keep) == head + Filter(s[1..], keep);
    }
  }

  /** Nothing survives a filter that keeps none of the characters. */
  lemma FilterNone(s: string, keep: char -> bool)
    requires forall k :: 0 <= k < |s| ==> !keep(s[k])
    ensures Filter(s, keep) == []
  {
  }

  /** The first occurrence from `from` on is pinned down by an occurrence
      with none before it. */
  lemma FindExact(s: string, pat: string, from: nat, k: nat)
    requires from <= k && OccursAt(s, pat, k)
    requires forall j :: from <= j < k ==> !OccursAt(s, pat, j)
    ensures Find(s, pat, from) == Some(k)
  {
  }

  /** Trimming a trimmed text after one space gives the text back. */
  lemma TrimLeadingSpace(t: string)
    requires t != [] && !IsSpace(t[0]) && !IsSpace(t[|t| - 1])
    ensures Trim(" " + t) == t
  {
    var s := " " + t;
    RunExact(s, 0, IsSpace, 1);
    var r := Trim(s);
    assert r == s[1..1 + |r|];
    assert r != [] by {
      assert !IsSpace(s[1]);
    }
    assert !IsSpace(s[|s| - 1]);
    assert 1 + |r| == |s|;
    assert s[1..] == t;
  }

  /** Filtering twice is filtering once by both classes. */
  lemma {:induction false} FilterCompose(s: string, p: char -> bool, q: char -> bool, both: char -> bool)
    requires forall c :: both(c) == (p(c) && q(c))
    ensures Filter(Filter(s, p), q) == Filter(s, both)
    decreases |s|
  {
    if |s| > 0 {
      FilterCompose(s[1..], p, q, both);
      var head := if p(s[0]) then [s[0]] else [];
      FilterAppend(head, Filter(s[1..], p), q);
      if p(s[0]) {
        assert Filter(head, q) == (if q(s[0]) then [s[0]] else []) by {
          assert head[1..] == [];
        }
      }
    }
  }

  /** Lower-casing commutes with a filter that cannot tell a character
      from its lower case. */
  lemma {:induction false} ToLowerFilter(s: string, keep: char -> bool)
    requires forall c :: keep(LowerChar(c)) == keep(c)
    ensures Filter(ToLower(s), keep) == ToLower(Filter(s, keep))
    decreases |s|
  {
    if |s| > 0 {
      ToLowerFilter(s[1..], keep);
      var l := ToLower(s);
      assert l[1..] == ToLower(s[1..]);
      assert keep(l[0]) == keep(s[0]);
      var head := if keep(s[0]) then [s[0]] else [];
      assert ToLower(head + Filter(s[1..], keep)) == ToLower(head) + ToLower(Filter(s[1..], keep));
    }
  }

  /** Trimming removes only white space. */
  lemma TrimFilter(s: string)
    ensures Filter(Trim(s), NotSpace) == Filter(s, NotSpace)
  {
    var r := Trim(s);
    var a := Run(s, 0, IsSpace);
    var b := a + |r|;
    SliceThree(s, a, b);
    SpacesDropped(s, 0, a);
    SpacesDropped(s, b, |s|);
    FilterAround(s[0..a], r, s[b..|s|], NotSpace);
  }

  lemma SliceThree(s: string, a: nat, b: nat)
    requires a <= b <= |s|
    ensures s == s[0..a] + s[a..b] + s[b..|s|]
  {
  }

  /** A stretch of white space leaves nothing through the filter. */
  lemma SpacesDropped(s: string, i: nat, j: nat)
    requires i <= j <= |s| && forall k :: i <= k < j ==> IsSpace(s[k])
    ensures Filter(s[i..j], NotSpace) == []
  {
    forall k | 0 <= k < j - i ensures !NotSpace(s[i..j][k]) {
      assert s[i..j][k] == s[i + k];
    }
    FilterNone(s[i..j], NotSpace);
  }

  /** Text around `r` that the filter drops entirely changes nothing. */
  lemma FilterAround(front: string, r: string, back: string, keep: char -> bool)
    requires Filter(front, keep) == [] && Filter(back, keep) == []
    ensures Filter(front + r + back, keep) == Filter(r, keep)
  {
    FilterAppend(front + r, back, keep);
    FilterAppend(front, r, keep);
    assert [] + Filter(r, keep) + [] == Filter(r, keep);
  }
}
