/** The TypeScript sync script (`scripts/sync-notion.ts`): the per-post state
    machine with its skip-on-unchanged test, the reader of an existing
    post's header, and the run over all posts with its counters.

    The content directory is a map from file name to text. The outside world
    is a `World` value: the ISO normaliser and the current instant (as in the
    front-matter generator), the converter library's raw Markdown of a page,
    the URL path parser, and the image saver `downloadAndSaveImage`, which
    never fails. */
module SyncTs {
  import opened Wrappers
  import opened Text
  import opened NotionModel
  import opened FrontmatterTs
  import opened Sync
  import MarkdownTs

  // ---- Reading a header back ----

  const Open: string := "---\n"
  const Close: string := "\n---"

  /** `content.match(/^---\n([\s\S]*?)\n---/)`: the text between a leading
      `---` line and the first later `\n---`. */
  function HeaderBlock(content: string): (r: Option<string>)
    ensures r.Some? ==> StartsWith(content, Open + r.value + Close)
    ensures r.Some? ==> forall j :: 4 <= j < 4 + |r.value| ==> !OccursAt(content, Close, j)
    ensures r.None? ==> !StartsWith(content, Open) || forall j :: 4 <= j ==> !OccursAt(content, Close, j)
  {
    if StartsWith(content, Open) then
      match Find(content, Close, 4)
      case None => None
      case Some(k) =>
        assert content[..k + 4] == content[..4] + content[4..k] + content[k..k + 4];
        Some(content[4..k])
    else None
  }

  /** A value as read: trimmed, and one enclosing pair of double quotes
      removed; nothing is unescaped. */
  function ReadValue(raw: string): string
  {
    var v := Trim(raw);
    if StartsWith(v, "\"") && EndsWith(v, "\"") then (if |v| >= 2 then v[1..|v| - 1] else []) else v
  }

  /** One header line: split at its first `:`, both sides trimmed; a line
      without `:` is ignored. */
  function ReadLine(line: string): (r: Option<(string, string)>)
    ensures r.None? <==> ':' !in line
  {
    match IndexOf(line, ':')
    case None => None
    case Some(i) => Some((Trim(line[..i]), ReadValue(line[i + 1..])))
  }

  /** Whether a line sets key `k`. */
  predicate SetsKey(line: string, k: string) {
    ReadLine(line).Some? && ReadLine(line).value.0 == k
  }

  /** The object built from the lines in order: a later line with the same
      key overwrites an earlier one. */
  function ReadLines(lines: seq<string>): map<string, string>
    decreases |lines|
  {
    if |lines| == 0 then map[]
    else
      var m := ReadLines(lines[..|lines| - 1]);
      match ReadLine(lines[|lines| - 1])
      case None => m
      case Some(kv) => m[kv.0 := kv.1]
  }

  /** Every key read was set by some line. */
  lemma {:induction false} ReadLinesKeys(lines: seq<string>)
    ensures forall k :: k in ReadLines(lines) ==> exists j :: 0 <= j < |lines| && SetsKey(lines[j], k)
    decreases |lines|
  {
    if |lines| > 0 {
      var init := lines[..|lines| - 1];
      ReadLinesKeys(init);
      forall k | k in ReadLines(lines) ensures exists j :: 0 <= j < |lines| && SetsKey(lines[j], k) {
        if SetsKey(lines[|lines| - 1], k) {
        } else {
          assert k in ReadLines(init);
          var j :| 0 <= j < |init| && SetsKey(init[j], k);
          assert init[j] == lines[j];
        }
      }
    }
  }

  /** The last line with a key decides its value. */
  lemma {:induction false} ReadLinesLast(lines: seq<string>, j: nat)
    requires j < |lines| && ReadLine(lines[j]).Some?
    requires forall i :: j < i < |lines| ==> !SetsKey(lines[i], ReadLine(lines[j]).value.0)
    ensures ReadLine(lines[j]).value.0 in ReadLines(lines)
    ensures ReadLines(lines)[ReadLine(lines[j]).value.0] == ReadLine(lines[j]).value.1
    decreases |lines|
  {
    if j < |lines| - 1 {
      var init := lines[..|lines| - 1];
      assert init[j] == lines[j];
      forall i | j < i < |init| ensures !SetsKey(init[i], ReadLine(init[j]).value.0) {
        assert init[i] == lines[i];
      }
      ReadLinesLast(init, j);
      assert !SetsKey(lines[|lines| - 1], ReadLine(lines[j]).value.0);
    }
  }

  /** `readExistingFrontmatter`: the header of a post file as a key-value
      object; `None` stands for a file that cannot be read. */
  function ReadExistingFrontmatter(content: Option<string>): (m: map<string, string>)
    ensures content.None? ==> m == map[]
    ensures content.Some? && !StartsWith(content.value, Open) ==> m == map[]
  {
    match content
    case None => map[]
    case Some(c) =>
      match HeaderBlock(c)
      case None => map[]
      case Some(yaml) => ReadLines(Split(yaml, '\n'))
  }

  // ---- The written header reads back ----

  /** A key the reader recovers intact: non-empty, not starting with `-`, no
      surrounding white space, no `:` and no newline. */
  predicate GoodKey(key: string) {
    && key != [] && key[0] != '-' && !IsSpace(key[0]) && !IsSpace(key[|key| - 1])
    && ':' !in key && '\n' !in key
  }

  /** Header pairs that fit one line each. */
  predicate Readable(ps: seq<(string, string)>) {
    |ps| >= 1 && forall j :: 0 <= j < |ps| ==> GoodKey(ps[j].0) && '\n' !in ps[j].1
  }

  lemma ReadPairLine(key: string, f: string)
    requires GoodKey(key)
    ensures ReadLine(key + ": " + f) == Some((key, ReadValue(" " + f)))
  {
    var line := key + ": " + f;
    assert line == key + [':'] + (" " + f);
    IndexOfAfter(key, ':', " " + f);
    assert line[..|key|] == key;
    assert line[|key| + 1..] == " " + f;
    TrimOfTrimmed(key);
  }

  /** In a join of lines that do not start with `-`, a newline is never
      followed by `-`. */
  predicate NewlineFollowed(s: string) {
    forall i :: 0 <= i < |s| && s[i] == '\n' ==> i + 1 < |s| && s[i + 1] != '-'
  }

  lemma {:induction false} JoinNewlineFollow(lines: seq<string>)
    requires forall j :: 0 <= j < |lines| ==> lines[j] != [] && lines[j][0] != '-' && '\n' !in lines[j]
    ensures NewlineFollowed(Join(lines, "\n"))
    decreases |lines|
  {
    if |lines| > 1 {
      var rest := lines[1..];
      JoinNewlineFollow(rest);
      var r := Join(rest, "\n");
      var s := Join(lines, "\n");
      assert s == lines[0] + "\n" + r;
      assert r != [] && r[0] == lines[1][0] by {
        if |rest| > 1 {
          assert r == rest[0] + "\n" + Join(rest[1..], "\n");
        }
      }
      assert forall i :: 0 <= i < |lines[0]| ==> s[i] == lines[0][i];
      forall i | 0 <= i < |s| && s[i] == '\n' ensures i + 1 < |s| && s[i + 1] != '-' {
        if i == |lines[0]| {
          assert s[i + 1] == r[0];
        } else if i > |lines[0]| {
          var k := i - |lines[0]| - 1;
          assert s[i] == r[k];
          assert 0 <= k < |r| && r[k] == '\n';
          assert k + 1 < |r|;
          assert s[i + 1] == r[k + 1];
        }
      }
    }
  }

  lemma PairLinesShape(ps: seq<(string, string)>)
    requires Readable(ps)
    ensures var ls := PairLines(ps);
            forall j :: 0 <= j < |ls| ==> ls[j] != [] && ls[j][0] != '-' && '\n' !in ls[j]
  {
    var ls := PairLines(ps);
    forall j | 0 <= j < |ls| ensures ls[j] != [] && ls[j][0] != '-' && '\n' !in ls[j] {
      assert ls[j] == ps[j].0 + ": " + ps[j].1;
      assert ls[j][0] == ps[j].0[0];
    }
  }

  /** The header of a rendered file is exactly the joined lines. */
  lemma HeaderOfRendered(ps: seq<(string, string)>, rest: string)
    requires Readable(ps)
    ensures HeaderBlock(Open + Join(PairLines(ps), "\n") + Close + rest) == Some(Join(PairLines(ps), "\n"))
  {
    var y := Join(PairLines(ps), "\n");
    var c := Open + y + Close + rest;
    PairLinesShape(ps);
    JoinNewlineFollow(PairLines(ps));
    assert c[..4] == Open;
    assert c[4 + |y|..4 + |y| + 4] == Close;
    forall j | 4 <= j < 4 + |y| ensures !OccursAt(c, Close, j) {
      assert c[j] == y[j - 4];
      if y[j - 4] == '\n' {
        assert 0 <= j - 4 < |y| && y[j - 4] == '\n';
        assert j - 3 < |y| && y[j - 3] != '-';
        assert c[j + 1] == y[j - 3];
        assert c[j..j + 4][1] == c[j + 1];
      } else {
        assert c[j..j + 4][0] == c[j];
      }
    }
    FindExact(c, Close, 4, 4 + |y|);
    assert c[4..4 + |y|] == y;
  }

  /** A rendered file's header splits back into the rendered lines. */
  lemma RenderedLines(ps: seq<(string, string)>, rest: string)
    requires Readable(ps)
    ensures ReadExistingFrontmatter(Some(Open + Join(PairLines(ps), "\n") + Close + rest)) == ReadLines(PairLines(ps))
  {
    HeaderOfRendered(ps, rest);
    PairLinesShape(ps);
    SplitJoin(PairLines(ps), '\n');
  }

  lemma PairLineRead(ps: seq<(string, string)>, j: nat)
    requires Readable(ps) && j < |ps|
    ensures ReadLine(PairLines(ps)[j]) == Some((ps[j].0, ReadValue(" " + ps[j].1)))
  {
    ReadPairLine(ps[j].0, ps[j].1);
  }

  /** No pair after the `j`-th has its key. */
  predicate LastOfKey(ps: seq<(string, string)>, j: int)
    requires 0 <= j < |ps|
  {
    forall i :: j < i < |ps| ==> ps[i].0 != ps[j].0
  }

  /** Reading a rendered header back: every key read was written, and a
      pair no later pair overrides is read as `ReadValue` of its text. */
  lemma ReadRendered(ps: seq<(string, string)>, rest: string)
    requires Readable(ps)
    ensures var m := ReadExistingFrontmatter(Some(Open + Join(PairLines(ps), "\n") + Close + rest));
            && (forall k :: k in m ==> exists j :: 0 <= j < |ps| && ps[j].0 == k)
            && (forall j :: 0 <= j < |ps| && LastOfKey(ps, j) ==> ps[j].0 in m && m[ps[j].0] == ReadValue(" " + ps[j].1))
  {
    var ls := PairLines(ps);
    RenderedLines(ps, rest);
    var m := ReadLines(ls);
    ReadLinesKeys(ls);
    forall k | k in m ensures exists j :: 0 <= j < |ps| && ps[j].0 == k {
      var j :| 0 <= j < |ls| && SetsKey(ls[j], k);
      PairLineRead(ps, j);
    }
    forall j | 0 <= j < |ps| && LastOfKey(ps, j)
      ensures ps[j].0 in m && m[ps[j].0] == ReadValue(" " + ps[j].1)
    {
      PairLineRead(ps, j);
      forall i | j < i < |ls| ensures !SetsKey(ls[i], ReadLine(ls[j]).value.0) {
        PairLineRead(ps, i);
      }
      ReadLinesLast(ls, j);
    }
  }

  /** A quoted value reads back as its escaped text. */
  lemma ReadQuoted(s: string)
    ensures ReadValue(" " + Format(Str(s))) == Escape(s)
  {
    var f := Format(Str(s));
    assert !IsSpace(f[0]) && !IsSpace(f[|f| - 1]);
    TrimLeadingSpace(f);
    assert StartsWith(f, "\"") && EndsWith(f, "\"");
  }

  /** The keys the TypeScript generator may write. */
  const TsKeys: set<string> := {"title", "pubDate", "tags", "updatedDate"}

  /** The written pairs, spelled out. */
  lemma TsPairsSplit(post: Page, iso: IsoOracle, now: string)
    requires Entries(post, iso, now).Ok?
    ensures var title := ExtractPostTitle(post.properties);
            var pub := PubDate(post.properties, iso, now).value;
            Pairs(Entries(post, iso, now).value)
            == (if title != [] then [("title", Format(Str(title)))] else [])
               + ((if pub != [] then [("pubDate", Format(Str(pub)))] else []) + ExtraPairs(post, iso))
  {
    var title := ExtractPostTitle(post.properties);
    var pub := PubDate(post.properties, iso, now).value;
    var head: seq<(string, string)> := if title != [] then [("title", Format(Str(title)))] else [];
    var mid: seq<(string, string)> := if pub != [] then [("pubDate", Format(Str(pub)))] else [];
    FrontmatterTsPairs(post, iso, now);
    ConcatAssoc(head, mid, ExtraPairs(post, iso));
  }

  lemma ConcatAssoc<T>(a: seq<T>, b: seq<T>, c: seq<T>)
    ensures a + b + c == a + (b + c)
  {
  }

  /** The written pairs use only the generator's keys, all of which read
      back intact. */
  lemma TsPairKeys(post: Page, iso: IsoOracle, now: string)
    requires Entries(post, iso, now).Ok?
    ensures var ps := Pairs(Entries(post, iso, now).value);
            forall j :: 0 <= j < |ps| ==> ps[j].0 in TsKeys && GoodKey(ps[j].0)
  {
    var ps := Pairs(Entries(post, iso, now).value);
    var title := ExtractPostTitle(post.properties);
    var pub := PubDate(post.properties, iso, now).value;
    TsPairsSplit(post, iso, now);
    var head := if title != [] then [("title", Format(Str(title)))] else [];
    var mid := if pub != [] then [("pubDate", Format(Str(pub)))] else [];
    assert KeysAmong(head, TsKeys) && KeysAmong(mid, TsKeys);
    ExtraKeys(post, iso);
    KeysAmongConcat(mid, ExtraPairs(post, iso), TsKeys);
    KeysAmongConcat(head, mid + ExtraPairs(post, iso), TsKeys);
    GoodTsKeys();
  }

  lemma ExtraKeys(post: Page, iso: IsoOracle)
    requires AdditionalMetadata(post, iso).Ok?
    ensures KeysAmong(ExtraPairs(post, iso), TsKeys)
  {
    var tags := TagIds(post.properties);
    var updated := UpdatedDate(post, iso);
    var t := if tags.Some? then [("tags", Format(Ids(tags.value)))] else [];
    var u := if updated.Some? && updated.value != [] then [("updatedDate", Format(Str(updated.value)))] else [];
    assert KeysAmong(t, TsKeys) && KeysAmong(u, TsKeys);
    KeysAmongConcat(t, u, TsKeys);
  }

  /** Every pair's key is one of `keys`. */
  predicate KeysAmong(ps: seq<(string, string)>, keys: set<string>) {
    forall j :: 0 <= j < |ps| ==> ps[j].0 in keys
  }

  lemma KeysAmongConcat(a: seq<(string, string)>, b: seq<(string, string)>, keys: set<string>)
    requires KeysAmong(a, keys) && KeysAmong(b, keys)
    ensures KeysAmong(a + b, keys)
  {
    forall j | 0 <= j < |a + b| ensures (a + b)[j].0 in keys {
      if j < |a| { assert (a + b)[j] == a[j]; } else { assert (a + b)[j] == b[j - |a|]; }
    }
  }

  /** The keys the TypeScript generator writes are plain keys, and
      `updatedAt` is not one of them. */
  lemma GoodTsKeys()
    ensures forall k :: k in TsKeys ==> GoodKey(k)
    ensures "updatedAt" !in TsKeys
  {
    assert |"updatedAt"| == 9;
    assert GoodKey("title");
    assert GoodKey("pubDate");
    assert GoodKey("tags");
    assert GoodKey("updatedDate");
  }

  /** A non-empty title is the first pair and the only `title`. */
  lemma TsTitleFirst(post: Page, iso: IsoOracle, now: string)
    requires Entries(post, iso, now).Ok?
    requires ExtractPostTitle(post.properties) != []
    ensures var ps := Pairs(Entries(post, iso, now).value);
            |ps| >= 1 && ps[0] == ("title", Format(Str(ExtractPostTitle(post.properties)))) && LastOfKey(ps, 0)
  {
    var ps := Pairs(Entries(post, iso, now).value);
    var pub := PubDate(post.properties, iso, now).value;
    TsPairsSplit(post, iso, now);
    var tail := (if pub != [] then [("pubDate", Format(Str(pub)))] else []) + ExtraPairs(post, iso);
    assert forall x :: x in tail ==> x.0 != "title";
    forall i | 0 < i < |ps| ensures ps[i].0 != ps[0].0 {
      assert ps[i] == tail[i - 1];
      assert tail[i - 1] in tail;
    }
  }

  /** A non-empty `updatedDate` is the last pair. */
  lemma TsUpdatedLast(post: Page, iso: IsoOracle, now: string)
    requires Entries(post, iso, now).Ok?
    requires UpdatedDate(post, iso).Some? && UpdatedDate(post, iso).value != []
    ensures var ps := Pairs(Entries(post, iso, now).value);
            |ps| >= 1 && ps[|ps| - 1] == ("updatedDate", Format(Str(UpdatedDate(post, iso).value)))
            && LastOfKey(ps, |ps| - 1)
  {
    TsPairsSplit(post, iso, now);
  }

  /** The generated header is the rendered pair lines. */
  lemma TsHeaderText(post: Page, iso: IsoOracle, now: string)
    requires GenerateFrontmatterTs(post, iso, now).Ok?
    requires Pairs(Entries(post, iso, now).value) != []
    ensures GenerateFrontmatterTs(post, iso, now).value
            == Open + Join(PairLines(Pairs(Entries(post, iso, now).value)), "\n") + Close
  {
  }

  /** What the TypeScript generator wrote, its reader recovers: only the
      generator's keys appear, the title reads back escaped, and
      `updatedDate` reads back as the date part of the edit time. */
  lemma HeaderRoundTrip(post: Page, iso: IsoOracle, now: string, md: string)
    requires GenerateFrontmatterTs(post, iso, now).Ok?
    requires var ps := Pairs(Entries(post, iso, now).value);
             ps != [] && forall j :: 0 <= j < |ps| ==> '\n' !in ps[j].1
    ensures var m := ReadExistingFrontmatter(Some(GenerateFrontmatterTs(post, iso, now).value + "\n" + md));
            var title := ExtractPostTitle(post.properties);
            var updated := UpdatedDate(post, iso);
            && (forall k :: k in m ==> k in TsKeys)
            && (title != [] ==> "title" in m && m["title"] == Escape(title))
            && (updated.Some? && updated.value != [] ==> "updatedDate" in m && m["updatedDate"] == Escape(updated.value))
  {
    var ps := Pairs(Entries(post, iso, now).value);
    var title := ExtractPostTitle(post.properties);
    var updated := UpdatedDate(post, iso);
    TsPairKeys(post, iso, now);
    TsHeaderText(post, iso, now);
    var fm := GenerateFrontmatterTs(post, iso, now).value;
    assert fm + "\n" + md == Open + Join(PairLines(ps), "\n") + Close + ("\n" + md);
    ReadRendered(ps, "\n" + md);
    var m := ReadExistingFrontmatter(Some(fm + "\n" + md));
    forall k | k in m ensures k in TsKeys {
      var j :| 0 <= j < |ps| && ps[j].0 == k;
    }
    if title != [] {
      TsTitleFirst(post, iso, now);
      ReadQuoted(title);
    }
    if updated.Some? && updated.value != [] {
      TsUpdatedLast(post, iso, now);
      ReadQuoted(updated.value);
    }
  }

  // ---- The skip test ----

  /** `existingMeta.updatedAt || existingMeta.updatedDate`. */
  function StoredUpdate(existing: map<string, string>): (r: Option<string>)
    ensures "updatedAt" in existing && existing["updatedAt"] != [] ==> r == Some(existing["updatedAt"])
    ensures !("updatedAt" in existing && existing["updatedAt"] != []) ==>
              r == (if "updatedDate" in existing then Some(existing["updatedDate"]) else None)
  {
    if "updatedAt" in existing && existing["updatedAt"] != [] then Some(existing["updatedAt"])
    else if "updatedDate" in existing then Some(existing["updatedDate"])
    else None
  }

  /** The skip test against the remote edit instant `notionIso`: nothing
      stored means no skip; a stored value with a `T` is normalised (which
      throws when it does not parse) and compared as an instant; any other
      stored value is compared with the remote calendar date. */
  function SkipDecision(existing: map<string, string>, notionIso: string, iso: IsoOracle): (r: Result<bool, string>)
    ensures !Truthy(StoredUpdate(existing)) ==> r == Ok(false)
    ensures r.Err? <==> Truthy(StoredUpdate(existing)) && 'T' in StoredUpdate(existing).value
                        && iso(StoredUpdate(existing).value).None?
    ensures r == Ok(true) ==>
              var stored := StoredUpdate(existing).value;
              if 'T' in stored then iso(stored) == Some(notionIso) else stored == BeforeT(notionIso)
  {
    var stored := StoredUpdate(existing);
    if !Truthy(stored) then Ok(false)
    else if 'T' in stored.value then
      match iso(stored.value)
      case None => Err(InvalidTime)
      case Some(n) => Ok(n == notionIso)
    else Ok(stored.value == BeforeT(notionIso))
  }

  /** Re-running on a file the TypeScript generator wrote is a date-only
      check: only `updatedDate`, a calendar date, is stored, so the post is
      skipped exactly when the remote edit falls on the same day, even when
      it came later that day. */
  lemma RerunSkipIffSameDay(post: Page, iso: IsoOracle, now: string, md: string, laterIso: string)
    requires GenerateFrontmatterTs(post, iso, now).Ok?
    requires var ps := Pairs(Entries(post, iso, now).value);
             ps != [] && forall j :: 0 <= j < |ps| ==> '\n' !in ps[j].1
    requires Truthy(post.lastEditedTime)
    requires var d := UpdatedDate(post, iso).value; d != [] && '"' !in d
    ensures var m := ReadExistingFrontmatter(Some(GenerateFrontmatterTs(post, iso, now).value + "\n" + md));
            SkipDecision(m, laterIso, iso) == Ok(UpdatedDate(post, iso).value == BeforeT(laterIso))
  {
    var m := ReadExistingFrontmatter(Some(GenerateFrontmatterTs(post, iso, now).value + "\n" + md));
    var d := UpdatedDate(post, iso).value;
    HeaderRoundTrip(post, iso, now, md);
    assert UpdatedDate(post, iso).Some?;
    assert "updatedDate" in m && m["updatedDate"] == Escape(d);
    GoodTsKeys();
    assert "updatedAt" !in m;
    assert 'T' !in d;
    SkipOnDate(m, d, laterIso, iso);
  }

  /** A header holding only a calendar date under `updatedDate` is checked
      by date. */
  lemma SkipOnDate(m: map<string, string>, d: string, notionIso: string, iso: IsoOracle)
    requires "updatedAt" !in m
    requires "updatedDate" in m && m["updatedDate"] == Escape(d)
    requires d != [] && '"' !in d && 'T' !in d
    ensures SkipDecision(m, notionIso, iso) == Ok(d == BeforeT(notionIso))
  {
    assert StoredUpdate(m) == Some(d);
  }

  // ---- One post ----

  datatype Status = Created | Updated | Skipped

  /** One entry of the results table. */
  datatype Outcome = Outcome(title: string, status: Status, file: string)

  /** The content directory: file name to text. */
  type Files = map<string, string>

  /** `fs.writeFile(filePath, fullContent, 'utf8')` for a file name and a
      text: the error it throws, or `None` when the file is written. */
  type WriteOracle = (string, string) -> Option<string>

  datatype World = World(
    iso: IsoOracle,
    now: string,
    source: string -> Result<string, string>,
    parsePath: string -> Option<string>,
    save: (string, string) -> string,
    write: WriteOracle)

  /** The image saver for one post: `downloadAndSaveImage(url, postTitle)`. */
  function Local(w: World, title: string): string -> string
  {
    u => w.save(u, title)
  }

  /** `convertToMarkdown(pageId, postTitle)`: the library's Markdown, then
      the post-processing with images saved under the post's title. */
  function ConvertTs(w: World, pageId: string, title: string): (r: Result<string, string>)
    ensures w.source(pageId).Err? <==> r.Err?
    ensures r.Ok? ==> r.value == MarkdownTs.PostProcessTs(w.source(pageId).value, w.parsePath, Local(w, title))
  {
    match w.source(pageId)
    case Err(e) => Err(e)
    case Ok(raw) => Ok(MarkdownTs.PostProcessTs(raw, w.parsePath, Local(w, title)))
  }

  /** `new Date(post.last_edited_time).toISOString()`, which throws on a
      missing or unparseable time. */
  function NotionIso(post: Page, iso: IsoOracle): (r: Result<string, string>)
    ensures r.Ok? <==> post.lastEditedTime.Some? && iso(post.lastEditedTime.value).Some?
    ensures r.Ok? ==> r.value == iso(post.lastEditedTime.value).value
  {
    match post.lastEditedTime
    case None => Err(InvalidTime)
    case Some(x) =>
      match iso(x)
      case None => Err(InvalidTime)
      case Some(t) => Ok(t)
  }

  /** The file a post becomes: its name and its text, front matter, a blank
      line and the Markdown. Failures of either generator are passed on. */
  function Prepare(post: Page, w: World): (r: Result<(string, string), string>)
    ensures r.Err? <==> GenerateFrontmatterTs(post, w.iso, w.now).Err?
                        || ConvertTs(w, post.id, ExtractPostTitle(post.properties)).Err?
    ensures r.Ok? ==> r.value.0 == GenerateFileNameTs(ExtractPostTitle(post.properties))
    ensures r.Ok? ==> r.value.1 == GenerateFrontmatterTs(post, w.iso, w.now).value + "\n"
                                   + ConvertTs(w, post.id, ExtractPostTitle(post.properties)).value
  {
    var title := ExtractPostTitle(post.properties);
    var fm :- GenerateFrontmatterTs(post, w.iso, w.now);
    var md :- ConvertTs(w, post.id, title);
    Ok((GenerateFileNameTs(title), fm + "\n" + md))
  }

  /** The write-or-skip step of `processPost` for a prepared file `name`
      with `text`: a new file is written and marked created; an existing
      one is left alone and marked skipped when the skip test says so, else
      overwritten and marked updated. The edit-time conversion and the skip
      test are only reached for an existing file, and may throw; so may the
      write, and then nothing is counted for the post. */
  function Settle(post: Page, files: Files, name: string, text: string, iso: IsoOracle, write: WriteOracle)
    : (r: Result<(Status, Files), string>)
    ensures name !in files ==> (r.Ok? <==> write(name, text).None?)
    ensures name !in files && r.Ok? ==> r.value == (Created, files[name := text])
    ensures name in files ==>
              (r.Err? <==> || NotionIso(post, iso).Err?
                           || SkipDecision(ReadExistingFrontmatter(Some(files[name])), NotionIso(post, iso).value, iso).Err?
                           || (SkipDecision(ReadExistingFrontmatter(Some(files[name])), NotionIso(post, iso).value, iso)
                                 == Ok(false) && write(name, text).Some?))
    ensures r.Ok? && name in files ==>
              && r.value.0 != Created
              && SkipDecision(ReadExistingFrontmatter(Some(files[name])), NotionIso(post, iso).value, iso)
                 == Ok(r.value.0 == Skipped)
              && r.value.1 == (if r.value.0 == Skipped then files else files[name := text])
    ensures r.Ok? && r.value.0 != Skipped ==> write(name, text).None?
    ensures name !in files && r.Err? ==> r.error == write(name, text).value
  {
    if name in files then
      var existing := ReadExistingFrontmatter(Some(files[name]));
      var notionIso :- NotionIso(post, iso);
      var skip :- SkipDecision(existing, notionIso, iso);
      if skip then Ok((Skipped, files))
      else
        match write(name, text)
        case Some(e) => Err(e)
        case None => Ok((Updated, files[name := text]))
    else
      match write(name, text)
      case Some(e) => Err(e)
      case None => Ok((Created, files[name := text]))
  }

  /** `processPost`: front matter, Markdown and file name, then the
      write-or-skip step; every failure on the way is thrown. The outcome
      names the post's title and file. */
  function ProcessPostTs(post: Page, files: Files, w: World): (r: Result<(Outcome, Files), string>)
    ensures Prepare(post, w).Err? ==> r.Err?
    ensures Prepare(post, w).Ok? ==>
              var (name, text) := Prepare(post, w).value;
              var s := Settle(post, files, name, text, w.iso, w.write);
              && (r.Err? <==> s.Err?)
              && (r.Ok? ==> r.value == (Outcome(ExtractPostTitle(post.properties), s.value.0, name), s.value.1))
  {
    var (name, text) :- Prepare(post, w);
    var (status, files') :- Settle(post, files, name, text, w.iso, w.write);
    Ok((Outcome(ExtractPostTitle(post.properties), status, name), files'))
  }

  /** Processing a post a second time, with nothing changed remotely, skips
      it and writes nothing: the file it wrote carries the date the skip
      test compares against. */
  lemma SecondRunSkips(post: Page, files: Files, w: World)
    requires ProcessPostTs(post, files, w).Ok?
    requires ProcessPostTs(post, files, w).value.0.status != Skipped
    requires var ps := Pairs(Entries(post, w.iso, w.now).value);
             ps != [] && forall j :: 0 <= j < |ps| ==> '\n' !in ps[j].1
    requires Truthy(post.lastEditedTime)
    requires var d := UpdatedDate(post, w.iso).value; d != [] && '"' !in d
    ensures var first := ProcessPostTs(post, files, w).value;
            ProcessPostTs(post, first.1, w) == Ok((first.0.(status := Skipped), first.1))
  {
    var title := ExtractPostTitle(post.properties);
    var md := ConvertTs(w, post.id, title).value;
    var first := ProcessPostTs(post, files, w).value;
    RerunSkipIffSameDay(post, w.iso, w.now, md, NotionIso(post, w.iso).value);
  }

  // ---- The run ----

  datatype RunState = RunState(stats: Stats, results: seq<Outcome>, files: Files)

  /** One more success with the given status. */
  function Count(s: Stats, status: Status): (r: Stats)
    ensures r.success == s.success + 1 && r.errors == s.errors && r.total == s.total
    ensures r.created + r.updated + r.skipped == s.created + s.updated + s.skipped + 1
  {
    match status
    case Created => s.(success := s.success + 1, created := s.created + 1)
    case Updated => s.(success := s.success + 1, updated := s.updated + 1)
    case Skipped => s.(success := s.success + 1, skipped := s.skipped + 1)
  }

  /** What `processPost` does to one post given the files so far. */
  type Processor = (Page, Files) -> Result<(Outcome, Files), string>

  /** The try/catch around one post, given what processing it gave: a
      failure counts an error and the run goes on. */
  function Step(st: RunState, r: Result<(Outcome, Files), string>): RunState
  {
    match r
    case Err(_) => st.(stats := st.stats.(errors := st.stats.errors + 1))
    case Ok(res) => RunState(Count(st.stats, res.0.status), st.results + [res.0], res.1)
  }

  /** The state after the given posts, in order, each processed by `proc`
      against the files the posts before it left. */
  function RunWith(posts: seq<Page>, start: RunState, proc: Processor): RunState
    decreases |posts|
  {
    if |posts| == 0 then start
    else
      var before := RunWith(posts[..|posts| - 1], start, proc);
      Step(before, proc(posts[|posts| - 1], before.files))
  }

  /** The state after the given posts under this script's `processPost`. */
  function RunOver(posts: seq<Page>, start: RunState, w: World): RunState
  {
    RunWith(posts, start, (p, fs) => ProcessPostTs(p, fs, w))
  }

  /** How many results carry a status. */
  function CountStatus(results: seq<Outcome>, s: Status): (n: nat)
    ensures n <= |results|
    decreases |results|
  {
    if |results| == 0 then 0
    else CountStatus(results[..|results| - 1], s) + (if results[|results| - 1].status == s then 1 else 0)
  }

  /** The counters after `n` posts: each post is a success or an error, and
      the results table lists the successes with their statuses. */
  predicate Tallied(run: RunState, n: nat) {
    && run.stats.success + run.stats.errors == n
    && run.stats.created + run.stats.updated + run.stats.skipped == run.stats.success
    && |run.results| == run.stats.success
    && run.stats.created == CountStatus(run.results, Created)
    && run.stats.updated == CountStatus(run.results, Updated)
    && run.stats.skipped == CountStatus(run.results, Skipped)
  }

  /** One more post keeps the tally and the total. */
  lemma StepTallies(st: RunState, r: Result<(Outcome, Files), string>, n: nat)
    requires Tallied(st, n)
    ensures Tallied(Step(st, r), n + 1)
    ensures Step(st, r).stats.total == st.stats.total
  {
    if r.Ok? {
      var rs := st.results + [r.value.0];
      assert rs[..|rs| - 1] == st.results;
    }
  }

  /** The `processPosts` loop for any `processPost`: every post is tried in
      order, a failure counts an error and does not stop the run, and the
      counters agree with the results table. */
  method RunPosts(posts: seq<Page>, files: Files, proc: Processor) returns (run: RunState)
    ensures run == RunWith(posts, RunState(Zero.(total := |posts|), [], files), proc)
    ensures run.stats.total == |posts|
    ensures Tallied(run, |posts|)
  {
    var start := RunState(Zero.(total := |posts|), [], files);
    run := start;
    var i := 0;
    while i < |posts|
      invariant i <= |posts|
      invariant run == RunWith(posts[..i], start, proc)
      invariant run.stats.total == |posts|
      invariant Tallied(run, i)
    {
      assert posts[..i + 1][..i] == posts[..i];
      var r := proc(posts[i], run.files);
      StepTallies(run, r, i);
      run := Step(run, r);
      i := i + 1;
    }
    assert posts[..|posts|] == posts;
  }

  /** `processPosts` after `stats.total = posts.length`, with this script's
      `processPost`: the counters add up to the number of posts and agree
      with the results table. */
  method ProcessPostsTs(posts: seq<Page>, files: Files, w: World) returns (run: RunState)
    ensures run == RunOver(posts, RunState(Zero.(total := |posts|), [], files), w)
    ensures Conserves(run.stats, |posts|)
    ensures |run.results| == run.stats.success
    ensures run.stats.created == CountStatus(run.results, Created)
    ensures run.stats.updated == CountStatus(run.results, Updated)
    ensures run.stats.skipped == CountStatus(run.results, Skipped)
  {
    run := RunPosts(posts, files, (p, fs) => ProcessPostTs(p, fs, w));
  }
}
