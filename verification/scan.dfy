/** A global regular-expression scan, as `String.prototype.replace` with a
    `/g` pattern, `matchAll` and an `exec` loop perform it: at each position,
    from left to right, the pattern is tried; on a match its replacement is
    written and the scan resumes just after the match, otherwise the character
    is copied and the scan moves on by one. Each regular expression of the
    scripts is given as a "match at position i" function returning a `Hit`. */
module Scan {
  import opened Wrappers
  import opened Text

  /** A match found at some position: how many characters it covers and what
      a `replace` writes in its place. */
  datatype Hit = Hit(len: nat, repl: string)

  type Matcher = (string, nat) -> Option<Hit>

  /** The pattern matches at `i`, covering a non-empty stretch of `s`. None of
      the scripts' patterns can match the empty string. */
  predicate MatchesAt(s: string, at: Matcher, i: nat) {
    var h := at(s, i);
    h.Some? && 0 < h.value.len && i + h.value.len <= |s|
  }

  /** The text from position `i` on, after every match taken by the scan has
      been replaced. */
  function ReplaceAll(s: string, at: Matcher, i: nat): string
    requires i <= |s|
    decreases |s| - i
  {
    if i == |s| then []
    else if MatchesAt(s, at, i) then at(s, i).value.repl + ReplaceAll(s, at, i + at(s, i).value.len)
    else [s[i]] + ReplaceAll(s, at, i + 1)
  }

  /** The start positions of the matches the scan takes from `i`, in order. */
  function Starts(s: string, at: Matcher, i: nat): (r: seq<nat>)
    requires i <= |s|
    ensures forall k :: 0 <= k < |r| ==> i <= r[k] < |s| && MatchesAt(s, at, r[k])
    ensures forall k, l :: 0 <= k < l < |r| ==> r[k] < r[l]
    decreases |s| - i
  {
    if i == |s| then []
    else if MatchesAt(s, at, i) then [i] + Starts(s, at, i + at(s, i).value.len)
    else Starts(s, at, i + 1)
  }

  /** A replacement that writes back exactly what it matched. */
  predicate Reproduces(s: string, at: Matcher, j: nat) {
    MatchesAt(s, at, j) ==> at(s, j).value.repl == s[j..j + at(s, j).value.len]
  }

  /** When every match is replaced by its own text, the scan is the
      identity. */
  lemma {:induction false} ReplaceAllIdentity(s: string, at: Matcher, i: nat)
    requires i <= |s|
    requires forall j :: i <= j < |s| ==> Reproduces(s, at, j)
    ensures ReplaceAll(s, at, i) == s[i..]
    decreases |s| - i
  {
    if i < |s| {
      var next := if MatchesAt(s, at, i) then i + at(s, i).value.len else i + 1;
      assert Reproduces(s, at, i);
      ReplaceAllIdentity(s, at, next);
      IdentityStep(s, at, i, next);
    }
  }

  /** One step of the scan copies its own text when the rest does. */
  lemma IdentityStep(s: string, at: Matcher, i: nat, next: nat)
    requires i < |s| && Reproduces(s, at, i)
    requires next == if MatchesAt(s, at, i) then i + at(s, i).value.len else i + 1
    requires next <= |s| && ReplaceAll(s, at, next) == s[next..]
    ensures ReplaceAll(s, at, i) == s[i..]
  {
    if MatchesAt(s, at, i) {
      assert ReplaceAll(s, at, i) == s[i..next] + s[next..];
    } else {
      assert ReplaceAll(s, at, i) == [s[i]] + s[next..];
    }
    assert s[i..] == s[i..next] + s[next..];
  }

  /** A match at `i` is the next start, and the scan resumes after it. */
  lemma StartsAtMatch(s: string, at: Matcher, i: nat, e: nat)
    requires i <= |s| && MatchesAt(s, at, i) && e == i + at(s, i).value.len
    ensures e <= |s| && Starts(s, at, i) == [i] + Starts(s, at, e)
  {
  }

  /** Where the pattern matches nowhere, the scan copies the text. */
  lemma ReplaceAllNoMatch(s: string, at: Matcher, i: nat)
    requires i <= |s|
    requires forall j :: i <= j < |s| ==> !MatchesAt(s, at, j)
    ensures ReplaceAll(s, at, i) == s[i..]
    ensures Starts(s, at, i) == []
  {
    ReplaceAllIdentity(s, at, i);
    NoStarts(s, at, i);
  }

  lemma {:induction false} NoStarts(s: string, at: Matcher, i: nat)
    requires i <= |s|
    requires forall j :: i <= j < |s| ==> !MatchesAt(s, at, j)
    ensures Starts(s, at, i) == []
    decreases |s| - i
  {
    if i < |s| {
      NoStarts(s, at, i + 1);
    }
  }

  /** A stretch without matches is copied verbatim, and the scan carries on
      after it. */
  lemma {:induction false} ReplaceAllSkip(s: string, at: Matcher, i: nat, j: nat)
    requires i <= j <= |s|
    requires forall k :: i <= k < j ==> !MatchesAt(s, at, k)
    ensures ReplaceAll(s, at, i) == s[i..j] + ReplaceAll(s, at, j)
    ensures Starts(s, at, i) == Starts(s, at, j)
    decreases j - i
  {
    if i < j {
      assert !MatchesAt(s, at, i);
      ReplaceAllSkip(s, at, i + 1, j);
      calc {
        ReplaceAll(s, at, i);
        [s[i]] + ReplaceAll(s, at, i + 1);
        [s[i]] + (s[i + 1..j] + ReplaceAll(s, at, j));
        { assert s[i..j] == [s[i]] + s[i + 1..j]; }
        s[i..j] + ReplaceAll(s, at, j);
      }
    }
  }

  /** A scan whose replacements are never longer than their matches does
      not lengthen the text. */
  lemma {:induction false} ReplaceAllShrinks(s: string, at: Matcher, i: nat)
    requires i <= |s|
    requires forall j :: i <= j < |s| && MatchesAt(s, at, j) ==> |at(s, j).value.repl| <= at(s, j).value.len
    ensures |ReplaceAll(s, at, i)| <= |s| - i
    decreases |s| - i
  {
    if i < |s| {
      if MatchesAt(s, at, i) {
        ReplaceAllShrinks(s, at, i + at(s, i).value.len);
      } else {
        ReplaceAllShrinks(s, at, i + 1);
      }
    }
  }

  /** `/[…]+/g` for a character class `p`: a maximal run of characters in
      the class, replaced by `repl`. */
  function RunAt(p: char -> bool, repl: string): Matcher
  {
    (s: string, i: nat) =>
      if i < |s| && p(s[i]) then Some(Hit(Run(s, i, p), repl)) else None
  }

  /** `/\s+/g`: a maximal run of white space, replaced by `repl`. */
  function SpaceRunAt(repl: string): Matcher
  {
    RunAt(IsSpace, repl)
  }

  /** `s.replace(/\s+/g, '-')`. */
  function DashSpaces(s: string): string
  {
    ReplaceAll(s, SpaceRunAt("-"), 0)
  }

  predicate Spaceless(r: string) {
    forall k :: 0 <= k < |r| ==> !IsSpace(r[k])
  }

  /** No two consecutive dashes. */
  predicate NoDoubleDash(r: string) {
    forall k :: 0 <= k < |r| - 1 ==> r[k] != '-' || r[k + 1] != '-'
  }

  /** Replacing every run of white space by one dash leaves no white space;
      when the text has no dash of its own, the dashes written never touch,
      and the result starts (ends) with a dash exactly when the text starts
      (ends) with white space. */
  lemma {:induction false} DashSpacesFrom(s: string, i: nat)
    requires i <= |s|
    requires forall k :: i <= k < |s| ==> s[k] != '-'
    ensures var r := ReplaceAll(s, SpaceRunAt("-"), i);
            && Spaceless(r) && NoDoubleDash(r)
            && (r == [] <==> i == |s|)
            && (r != [] && r[0] == '-' <==> i < |s| && IsSpace(s[i]))
            && (r != [] && r[|r| - 1] == '-' <==> i < |s| && IsSpace(s[|s| - 1]))
    decreases |s| - i
  {
    var at := SpaceRunAt("-");
    if i < |s| {
      var r := ReplaceAll(s, at, i);
      if IsSpace(s[i]) {
        var n := Run(s, i, IsSpace);
        assert MatchesAt(s, at, i) && at(s, i).value.repl == ['-'];
        ReplaceAllAtMatch(s, at, i, i + n);
        DashSpacesFrom(s, i + n);
        var rest := ReplaceAll(s, at, i + n);
        assert rest != [] ==> rest[0] != '-';
        assert i + n == |s| ==> IsSpace(s[|s| - 1]);
        ConsDashFree('-', rest);
        assert r == ['-'] + rest;
        if rest == [] {
          assert r == ['-'] && IsSpace(s[|s| - 1]);
        } else {
          assert r[|r| - 1] == rest[|rest| - 1] && i + n < |s|;
        }
      } else {
        assert !MatchesAt(s, at, i);
        DashSpacesFrom(s, i + 1);
        var rest := ReplaceAll(s, at, i + 1);
        ConsDashFree(s[i], rest);
        assert r == [s[i]] + rest;
        if rest == [] {
          assert r == [s[i]] && i + 1 == |s|;
        } else {
          assert r[|r| - 1] == rest[|rest| - 1] && i + 1 < |s|;
        }
      }
    }
  }

  /** One step of the scan over a match. */
  lemma ReplaceAllAtMatch(s: string, at: Matcher, i: nat, e: nat)
    requires i <= |s| && MatchesAt(s, at, i) && e == i + at(s, i).value.len
    ensures e <= |s| && ReplaceAll(s, at, i) == at(s, i).value.repl + ReplaceAll(s, at, e)
  {
  }

  /** One character in front of a spaceless text without a double dash
      keeps both properties, unless it is a dash meeting a dash. */
  lemma ConsDashFree(c: char, rest: string)
    requires !IsSpace(c) && Spaceless(rest)
    requires NoDoubleDash(rest) && (c == '-' && rest != [] ==> rest[0] != '-')
    ensures Spaceless([c] + rest) && NoDoubleDash([c] + rest)
    ensures ([c] + rest)[0] == c
    ensures rest != [] ==> ([c] + rest)[|rest|] == rest[|rest| - 1]
  {
  }

  /** The dash replacement leaves text without white space unchanged. */
  lemma DashSpacesNoSpace(s: string)
    requires forall k :: 0 <= k < |s| ==> !IsSpace(s[k])
    ensures DashSpaces(s) == s
  {
    ReplaceAllNoMatch(s, SpaceRunAt("-"), 0);
  }

  predicate DashOr(c: char, p: char -> bool) {
    c == '-' || (p(c) && !IsSpace(c))
  }

  /** What the dash replacement writes is a dash or a character of the text
      that is not white space. */
  lemma {:induction false} DashSpacesKeeps(s: string, i: nat, p: char -> bool)
    requires i <= |s|
    requires forall k :: i <= k < |s| ==> p(s[k]) || IsSpace(s[k])
    ensures forall k :: 0 <= k < |ReplaceAll(s, SpaceRunAt("-"), i)| ==>
              DashOr(ReplaceAll(s, SpaceRunAt("-"), i)[k], p)
    decreases |s| - i
  {
    var at := SpaceRunAt("-");
    if i < |s| {
      if IsSpace(s[i]) {
        var n := Run(s, i, IsSpace);
        assert MatchesAt(s, at, i);
        DashSpacesKeeps(s, i + n, p);
        assert ReplaceAll(s, at, i) == "-" + ReplaceAll(s, at, i + n);
      } else {
        assert !MatchesAt(s, at, i);
        DashSpacesKeeps(s, i + 1, p);
        var rest := ReplaceAll(s, at, i + 1);
        var r := ReplaceAll(s, at, i);
        assert r == [s[i]] + rest;
        assert p(s[i]) && !IsSpace(s[i]);
        forall k | 1 <= k < |r| ensures DashOr(r[k], p) {
          assert r[k] == rest[k - 1];
        }
      }
    }
  }

  // The words of a text, an independent description of the dash replacement.
  // The lemmas are stated for any character class `p` in place of `\s`.

  /** The complement of a character class. */
  function Outside(p: char -> bool): char -> bool
  {
    c => !p(c)
  }

  /** A list of words, first to last. */
  datatype WordList = NoWords | Then(word: string, more: WordList)

  /** The words joined by a separator, as `join` joins the parts of an
      array. */
  function JoinWords(ws: WordList, sep: string): string
  {
    match ws
    case NoWords => []
    case Then(w, NoWords) => w
    case Then(w, more) => w + sep + JoinWords(more, sep)
  }

  /** The words of `s` from position `i` on: its maximal runs of characters
      outside the class `p`, in order. */
  function WordsFrom(s: string, i: nat, p: char -> bool): WordList
    requires i <= |s|
    decreases |s| - i
  {
    if i == |s| then NoWords
    else if p(s[i]) then WordsFrom(s, i + 1, p)
    else
      var n := Run(s, i, Outside(p));
      Then(s[i..i + n], WordsFrom(s, i + n, p))
  }

  /** The words of a text: its maximal runs of characters that are not white
      space, in order. */
  function Words(s: string): WordList
  {
    WordsFrom(s, 0, IsSpace)
  }

  /** Characters of the class in front of the next word add no word. */
  lemma {:induction false} WordsSkip(s: string, i: nat, j: nat, p: char -> bool)
    requires i <= j <= |s|
    requires forall k :: i <= k < j ==> p(s[k])
    ensures WordsFrom(s, i, p) == WordsFrom(s, j, p)
    decreases j - i
  {
    if i < j {
      WordsSkip(s, i + 1, j, p);
    }
  }

  /** Words depend only on the text from their start on. */
  lemma {:induction false} WordsSame(s: string, i: nat, t: string, j: nat, p: char -> bool)
    requires i <= |s| && j <= |t| && s[i..] == t[j..]
    ensures WordsFrom(s, i, p) == WordsFrom(t, j, p)
    decreases |s| - i
  {
    if i == |s| {
      assert |t| == j;
    } else {
      assert s[i] == s[i..][0] == t[j..][0] == t[j];
      if p(s[i]) {
        assert s[i + 1..] == s[i..][1..] == t[j..][1..] == t[j + 1..];
        WordsSame(s, i + 1, t, j + 1, p);
      } else {
        var n := WordsSameWord(s, i, t, j, p);
        var w := s[i..i + n];
        WordsSame(s, i + n, t, j + n, p);
        assert WordsFrom(s, i, p) == Then(w, WordsFrom(t, j + n, p));
      }
    }
  }

  /** The first word is the same in two texts that agree from its start. */
  lemma WordsSameWord(s: string, i: nat, t: string, j: nat, p: char -> bool) returns (n: nat)
    requires i < |s| && j <= |t| && s[i..] == t[j..] && !p(s[i])
    ensures i + n <= |s| && j + n <= |t| && s[i + n..] == t[j + n..]
    ensures WordsFrom(s, i, p) == Then(s[i..i + n], WordsFrom(s, i + n, p))
    ensures WordsFrom(t, j, p) == Then(s[i..i + n], WordsFrom(t, j + n, p))
  {
    var q := Outside(p);
    RunSame(s, i, t, j, q);
    n := Run(s, i, q);
    assert s[i..i + n] == s[i..][..n] == t[j..][..n] == t[j..j + n];
    assert s[i + n..] == s[i..][n..] == t[j..][n..] == t[j + n..];
    assert t[j] == t[j..][0] == s[i..][0] == s[i];
  }

  /** Characters of the class at the end add no word. */
  lemma {:induction false} WordsTail(s: string, i: nat, b: nat, p: char -> bool)
    requires i <= b <= |s|
    requires forall k :: b <= k < |s| ==> p(s[k])
    ensures WordsFrom(s, i, p) == WordsFrom(s[..b], i, p)
    decreases |s| - i
  {
    var t := s[..b];
    if i == b {
      WordsSkip(s, i, |s|, p);
    } else if p(s[i]) {
      assert t[i] == s[i];
      assert WordsFrom(s, i, p) == WordsFrom(s, i + 1, p);
      assert WordsFrom(t, i, p) == WordsFrom(t, i + 1, p);
      WordsTail(s, i + 1, b, p);
    } else {
      var n := WordsTailWord(s, i, b, p);
      WordsTail(s, i + n, b, p);
    }
  }

  /** The first word is the same in a text and in its prefix up to `b`. */
  lemma WordsTailWord(s: string, i: nat, b: nat, p: char -> bool) returns (n: nat)
    requires i < b <= |s| && !p(s[i])
    requires forall k :: b <= k < |s| ==> p(s[k])
    ensures 0 < n && i + n <= b
    ensures WordsFrom(s, i, p) == Then(s[i..i + n], WordsFrom(s, i + n, p))
    ensures WordsFrom(s[..b], i, p) == Then(s[i..i + n], WordsFrom(s[..b], i + n, p))
  {
    var t := s[..b];
    assert t[i] == s[i];
    var q := Outside(p);
    n := Run(t, i, q);
    assert forall k :: i <= k < i + n ==> s[k] == t[k];
    RunExact(s, i, q, n);
    assert s[i..i + n] == t[i..i + n];
  }

  /** A text has the words of its trim. */
  lemma WordsTrim(s: string)
    ensures Words(Trim(s)) == Words(s)
  {
    var r := Trim(s);
    var a := Run(s, 0, IsSpace);
    var b := a + |r|;
    WordsSkip(s, 0, a, IsSpace);
    WordsTail(s, a, b, IsSpace);
    assert s[..b][a..] == r[0..];
    WordsSame(s[..b], a, r, 0, IsSpace);
  }

  /** On a text that starts and ends outside the class, replacing each run
      of the class by a dash joins the words with single dashes. */
  lemma {:induction false} DashJoinsWords(t: string, i: nat, p: char -> bool)
    requires i <= |t|
    requires i < |t| ==> !p(t[i])
    requires t != [] ==> !p(t[|t| - 1])
    ensures ReplaceAll(t, RunAt(p, "-"), i) == JoinWords(WordsFrom(t, i, p), "-")
    decreases |t| - i
  {
    if i < |t| {
      var n, m := WordThenGap(t, i, p);
      var w := t[i..i + n];
      if i + n == |t| {
        JoinLast(w, ReplaceAll(t, RunAt(p, "-"), i), ReplaceAll(t, RunAt(p, "-"), i + n),
                 WordsFrom(t, i, p), WordsFrom(t, i + n, p));
      } else {
        var j := i + n + m;
        DashJoinsWords(t, j, p);
        JoinDash(w, WordsFrom(t, j, p), ReplaceAll(t, RunAt(p, "-"), i), ReplaceAll(t, RunAt(p, "-"), j),
                 WordsFrom(t, i, p));
      }
    }
  }

  /** A last word alone is its own join. */
  lemma JoinLast(w: string, a: string, b: string, x: WordList, y: WordList)
    requires a == w + b && b == []
    requires x == Then(w, y) && y == NoWords
    ensures a == JoinWords(x, "-")
  {
    assert w + [] == w;
  }

  /** A word, a dash and the joined rest are the joined list of the word
      followed by the rest. */
  lemma JoinDash(w: string, rest: WordList, a: string, c: string, x: WordList)
    requires a == w + ("-" + c)
    requires c == JoinWords(rest, "-")
    requires rest.Then?
    requires x == Then(w, rest)
    ensures a == JoinWords(x, "-")
  {
    assert w + ("-" + c) == w + "-" + c;
  }

  /** A word and the run of the class after it, if any: the dash replacement
      copies the word and turns the run into one dash, and the word is the
      first of the words. */
  lemma WordThenGap(t: string, i: nat, p: char -> bool) returns (n: nat, m: nat)
    requires i < |t| && !p(t[i]) && !p(t[|t| - 1])
    ensures 0 < n && i + n <= |t|
    ensures ReplaceAll(t, RunAt(p, "-"), i) == t[i..i + n] + ReplaceAll(t, RunAt(p, "-"), i + n)
    ensures WordsFrom(t, i, p) == Then(t[i..i + n], WordsFrom(t, i + n, p))
    ensures i + n == |t| ==> ReplaceAll(t, RunAt(p, "-"), i + n) == [] && WordsFrom(t, i + n, p) == NoWords
    ensures i + n < |t| ==>
      i + n + m < |t| && !p(t[i + n + m]) &&
      ReplaceAll(t, RunAt(p, "-"), i + n) == "-" + ReplaceAll(t, RunAt(p, "-"), i + n + m) &&
      WordsFrom(t, i + n, p) == WordsFrom(t, i + n + m, p)
  {
    n := WordStep(t, i, p);
    m := 0;
    if i + n < |t| {
      m := GapStep(t, i + n, p);
    }
  }

  /** One word: it is copied, and it is the first word. */
  lemma WordStep(t: string, i: nat, p: char -> bool) returns (n: nat)
    requires i < |t| && !p(t[i])
    ensures 0 < n && i + n <= |t| && (i + n < |t| ==> p(t[i + n]))
    ensures forall k :: i <= k < i + n ==> !p(t[k])
    ensures ReplaceAll(t, RunAt(p, "-"), i) == t[i..i + n] + ReplaceAll(t, RunAt(p, "-"), i + n)
    ensures WordsFrom(t, i, p) == Then(t[i..i + n], WordsFrom(t, i + n, p))
  {
    var at := RunAt(p, "-");
    n := Run(t, i, Outside(p));
    assert forall k :: i <= k < i + n ==> !MatchesAt(t, at, k) by {
      forall k | i <= k < i + n ensures !p(t[k]) {
        assert Outside(p)(t[k]);
      }
    }
    ReplaceAllSkip(t, at, i, i + n);
  }

  /** One run of the class: it becomes one dash, and it adds no word. */
  lemma GapStep(t: string, j: nat, p: char -> bool) returns (m: nat)
    requires j < |t| && p(t[j])
    ensures 0 < m && j + m <= |t| && p(t[j + m - 1]) && (j + m < |t| ==> !p(t[j + m]))
    ensures forall k :: j <= k < j + m ==> p(t[k])
    ensures ReplaceAll(t, RunAt(p, "-"), j) == "-" + ReplaceAll(t, RunAt(p, "-"), j + m)
    ensures WordsFrom(t, j, p) == WordsFrom(t, j + m, p)
  {
    var at := RunAt(p, "-");
    m := Run(t, j, p);
    assert MatchesAt(t, at, j) && at(t, j).value == Hit(m, "-");
    ReplaceAllAtMatch(t, at, j, j + m);
    WordsSkip(t, j, j + m, p);
  }

  /** `s.trim().replace(/\s+/g, '-')` is the words of `s` joined by single
      dashes: one dash for each run of white space between two words. */
  lemma DashSpacesWords(s: string)
    ensures DashSpaces(Trim(s)) == JoinWords(Words(s), "-")
  {
    DashJoinsWords(Trim(s), 0, IsSpace);
    WordsTrim(s);
  }

  /** The two sides of the next lemma: the dash replacement from `i` without
      its dashes, and the text from `i` without the class. */
  function Undashed(s: string, i: nat, p: char -> bool): string
    requires i <= |s|
  {
    Filter(ReplaceAll(s, RunAt(p, "-"), i), NotDash)
  }

  function Unclassed(s: string, i: nat, p: char -> bool): string
    requires i <= |s|
  {
    Filter(s[i..], Outside(p))
  }

  /** Apart from its dashes, replacing each run of the class by a dash in a
      dash-free text gives the text without the class. */
  lemma {:induction false} DashRunsDropped(s: string, i: nat, p: char -> bool)
    requires i <= |s|
    requires forall k :: i <= k < |s| ==> s[k] != '-'
    ensures Undashed(s, i, p) == Unclassed(s, i, p)
    decreases |s| - i, 1
  {
    if i == |s| {
      assert s[i..] == [];
    } else if p(s[i]) {
      GapThenRest(s, i, p);
    } else {
      WordThenRest(s, i, p);
    }
  }

  /** A gap, then the rest of the text. */
  lemma {:induction false} GapThenRest(s: string, i: nat, p: char -> bool)
    requires i < |s| && p(s[i])
    requires forall k :: i <= k < |s| ==> s[k] != '-'
    ensures Undashed(s, i, p) == Unclassed(s, i, p)
    decreases |s| - i, 0
  {
    var m := GapDropped(s, i, p);
    DashRunsDropped(s, i + m, p);
    SameAcross(Undashed(s, i, p), Unclassed(s, i, p), Undashed(s, i + m, p), Unclassed(s, i + m, p));
  }

  /** A word, then the rest of the text. */
  lemma {:induction false} WordThenRest(s: string, i: nat, p: char -> bool)
    requires i < |s| && !p(s[i])
    requires forall k :: i <= k < |s| ==> s[k] != '-'
    ensures Undashed(s, i, p) == Unclassed(s, i, p)
    decreases |s| - i, 0
  {
    var n := WordKept(s, i, p);
    DashRunsDropped(s, i + n, p);
    SameAfter(s[i..i + n], Undashed(s, i, p), Unclassed(s, i, p), Undashed(s, i + n, p), Unclassed(s, i + n, p));
  }

  /** Two texts equal to two equal texts are equal. */
  lemma SameAcross(a: string, b: string, x: string, y: string)
    requires a == x && b == y && x == y
    ensures a == b
  {
  }

  /** Two texts that continue a common head with equal tails are equal. */
  lemma SameAfter(head: string, a: string, b: string, x: string, y: string)
    requires a == head + x && b == head + y && x == y
    ensures a == b
  {
  }

  /** A gap turned into a dash: the filters drop both. */
  lemma GapDropped(s: string, i: nat, p: char -> bool) returns (m: nat)
    requires i < |s| && p(s[i])
    ensures 0 < m && i + m <= |s|
    ensures Undashed(s, i, p) == Undashed(s, i + m, p)
    ensures Unclassed(s, i, p) == Unclassed(s, i + m, p)
  {
    m := GapStep(s, i, p);
    var rest := ReplaceAll(s, RunAt(p, "-"), i + m);
    var gap, tail := s[i..i + m], s[i + m..];
    FilterAppend("-", rest, NotDash);
    assert Filter("-", NotDash) == [];
    assert s[i..] == gap + tail;
    FilterAppend(gap, tail, Outside(p));
    assert forall k :: 0 <= k < |gap| ==> !Outside(p)(gap[k]) by {
      forall k | 0 <= k < |gap| ensures p(gap[k]) {
        assert gap[k] == s[i + k];
      }
    }
    FilterNone(gap, Outside(p));
  }

  /** A dash-free word kept as it stands: both filters keep it. */
  lemma WordKept(s: string, i: nat, p: char -> bool) returns (n: nat)
    requires i < |s| && !p(s[i])
    requires forall k :: i <= k < |s| ==> s[k] != '-'
    ensures 0 < n && i + n <= |s|
    ensures Undashed(s, i, p) == s[i..i + n] + Undashed(s, i + n, p)
    ensures Unclassed(s, i, p) == s[i..i + n] + Unclassed(s, i + n, p)
  {
    n := WordStep(s, i, p);
    var rest := ReplaceAll(s, RunAt(p, "-"), i + n);
    var w, tail := s[i..i + n], s[i + n..];
    assert forall k :: 0 <= k < |w| ==> Outside(p)(w[k]) && NotDash(w[k]) by {
      forall k | 0 <= k < |w| ensures !p(w[k]) && w[k] != '-' {
        assert w[k] == s[i + k];
      }
    }
    assert Undashed(s, i, p) == w + Undashed(s, i + n, p) by {
      FilterAppend(w, rest, NotDash);
      FilterAll(w, NotDash);
    }
    assert Unclassed(s, i, p) == w + Unclassed(s, i + n, p) by {
      assert s[i..] == w + tail;
      FilterAppend(w, tail, Outside(p));
      FilterAll(w, Outside(p));
    }
  }

  /** Apart from its dashes, the dash replacement of a dash-free text is the
      text without its white space. */
  lemma DashSpacesDropsSpace(s: string)
    requires forall k :: 0 <= k < |s| ==> s[k] != '-'
    ensures Filter(DashSpaces(s), NotDash) == Filter(s, NotSpace)
  {
    DashRunsDropped(s, 0, IsSpace);
    assert s[0..] == s;
    FilterSame(s, Outside(IsSpace), NotSpace);
  }
}
