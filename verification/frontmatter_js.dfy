/** The JavaScript front-matter generator
    (`scripts/utils/frontmatter-generator.js`): the property fallbacks, the
    hand-written YAML serialiser and the file-name slug. The current instant,
    used when a page has no date at all, is the ISO string `now`. */
module FrontmatterJs {
  import opened Wrappers
  import opened Text
  import opened Scan
  import opened NotionModel

  // ---- Field extraction ----

  /** `extractDescription`: the first `plain_text` of `Description`, else of
      `Summary`, else the empty string. */
  function ExtractDescription(props: Props): (r: string)
    ensures RichTextText(Get(props, "Description")).Some? ==> r == RichTextText(Get(props, "Description")).value
    ensures RichTextText(Get(props, "Description")).None? && RichTextText(Get(props, "Summary")).Some? ==>
              r == RichTextText(Get(props, "Summary")).value
    ensures RichTextText(Get(props, "Description")).None? && RichTextText(Get(props, "Summary")).None? ==>
              r == []
  {
    match RichTextText(Get(props, "Description"))
    case Some(t) => t
    case None =>
      match RichTextText(Get(props, "Summary"))
      case Some(t) => t
      case None => []
  }

  /** `p && p.date && p.date.start`, when truthy. */
  function DateStart(p: Option<Property>): (r: Option<string>)
    ensures r.Some? ==> r.value != []
  {
    if p.Some? && Truthy(p.value.dateStart) then p.value.dateStart else None
  }

  /** `p && p.created_time`, when truthy. */
  function Created(p: Option<Property>): (r: Option<string>)
    ensures r.Some? ==> r.value != []
  {
    if p.Some? && Truthy(p.value.createdTime) then p.value.createdTime else None
  }

  /** `extractPublishDate`: `PublishDate`, else `Date`, taken verbatim; else
      the date part of the creation time; else of the current instant. No
      date is parsed, so nothing here throws. */
  function ExtractPublishDate(props: Props, now: string): (r: string)
    ensures DateStart(Get(props, "PublishDate")).Some? ==> r == DateStart(Get(props, "PublishDate")).value
    ensures DateStart(Get(props, "PublishDate")).None? && DateStart(Get(props, "Date")).Some? ==>
              r == DateStart(Get(props, "Date")).value
    ensures DateStart(Get(props, "PublishDate")).None? && DateStart(Get(props, "Date")).None?
            && Created(Get(props, "Created")).Some? ==>
              r == BeforeT(Created(Get(props, "Created")).value) && 'T' !in r
    ensures DateStart(Get(props, "PublishDate")).None? && DateStart(Get(props, "Date")).None?
            && Created(Get(props, "Created")).None? ==>
              r == BeforeT(now) && 'T' !in r
  {
    match DateStart(Get(props, "PublishDate"))
    case Some(d) => d
    case None =>
      match DateStart(Get(props, "Date"))
      case Some(d) => d
      case None =>
        match Created(Get(props, "Created"))
        case Some(c) => BeforeT(c)
        case None => BeforeT(now)
  }

  /** The hero image object: `src` and `alt`. */
  datatype Hero = Hero(src: string, alt: string)

  const DefaultAlt: string := "Hero image"

  /** What reading `url` of a missing `external` object throws. */
  const NoExternal: string := "TypeError: Cannot read properties of undefined (reading 'url')"

  /** The first file of a files property, when it has any. */
  function FirstFile(p: Option<Property>): (r: Option<FileRef>)
    ensures r.Some? ==> p.Some? && p.value.files.Some? && |p.value.files.value| > 0
                        && r.value == p.value.files.value[0]
  {
    if p.Some? && p.value.files.Some? && |p.value.files.value| > 0 then Some(p.value.files.value[0]) else None
  }

  /** The image object of one file: the hosted URL when the file is hosted by
      Notion, else the external URL; a file that is neither makes the
      lookup throw. */
  function HeroOf(f: FileRef): (r: Result<Hero, string>)
    ensures r.Err? <==> f.hosted.None? && f.external.None?
    ensures r.Ok? ==> r.value.src == (if f.hosted.Some? then f.hosted.value else f.external.value)
    ensures r.Ok? ==> r.value.alt == OrElse(f.name, DefaultAlt)
  {
    var alt := OrElse(f.name, DefaultAlt);
    match f.hosted
    case Some(u) => Ok(Hero(u, alt))
    case None =>
      match f.external
      case Some(u) => Ok(Hero(u, alt))
      case None => Err(NoExternal)
  }

  /** `extractHeroImage`: the first file of `HeroImage`, else of `Image`, else
      no image. */
  function ExtractHeroImage(props: Props): (r: Result<Option<Hero>, string>)
    ensures FirstFile(Get(props, "HeroImage")).Some? ==>
              r == (match HeroOf(FirstFile(Get(props, "HeroImage")).value)
                    case Ok(h) => Ok(Some(h))
                    case Err(e) => Err(e))
    ensures FirstFile(Get(props, "HeroImage")).None? && FirstFile(Get(props, "Image")).Some? ==>
              r == (match HeroOf(FirstFile(Get(props, "Image")).value)
                    case Ok(h) => Ok(Some(h))
                    case Err(e) => Err(e))
    ensures FirstFile(Get(props, "HeroImage")).None? && FirstFile(Get(props, "Image")).None? ==>
              r == Ok(None)
  {
    var f := match FirstFile(Get(props, "HeroImage"))
             case Some(f) => Some(f)
             case None => FirstFile(Get(props, "Image"));
    match f
    case None => Ok(None)
    case Some(file) =>
      match HeroOf(file)
      case Ok(h) => Ok(Some(h))
      case Err(e) => Err(e)
  }

  /** The option names of a multi-select property, when it has any. */
  function Names(p: Option<Property>): (r: Option<seq<string>>)
    ensures r.Some? ==> |r.value| > 0 && p.Some? && p.value.multiSelect == r
  {
    if p.Some? && p.value.multiSelect.Some? && |p.value.multiSelect.value| > 0 then p.value.multiSelect else None
  }

  /** `extractTags`: the names of `Tags`, else of `Category`, else none. */
  function ExtractTags(props: Props): (r: seq<string>)
    ensures Names(Get(props, "Tags")).Some? ==> r == Names(Get(props, "Tags")).value
    ensures Names(Get(props, "Tags")).None? && Names(Get(props, "Category")).Some? ==>
              r == Names(Get(props, "Category")).value
    ensures Names(Get(props, "Tags")).None? && Names(Get(props, "Category")).None? ==> r == []
  {
    match Names(Get(props, "Tags"))
    case Some(ns) => ns
    case None =>
      match Names(Get(props, "Category"))
      case Some(ns) => ns
      case None => []
  }

  /** `extractSeries`: the selected option of `Series`, when truthy. */
  function ExtractSeries(props: Props): (r: Option<string>)
    ensures r.Some? ==> r.value != []
    ensures r.Some? <==> (Get(props, "Series").Some? && Truthy(Get(props, "Series").value.selectName))
  {
    var p := Get(props, "Series");
    if p.Some? && Truthy(p.value.selectName) then p.value.selectName else None
  }

  // ---- YAML ----

  /** A value of the front-matter object. */
  datatype YamlValue =
    | YNull
    | YStr(s: string)
    | YList(items: seq<string>)
    | YObj(pairs: seq<(string, string)>)

  type Entries = seq<(string, YamlValue)>

  /** The `  - "item"` lines of an array, each with its newline. */
  function ItemsText(items: seq<string>): string
  {
    if |items| == 0 then [] else "  - \"" + items[0] + "\"\n" + ItemsText(items[1..])
  }

  /** The `  k: "v"` lines of an object, each with its newline. */
  function PairsText(pairs: seq<(string, string)>): string
  {
    if |pairs| == 0 then [] else "  " + pairs[0].0 + ": \"" + pairs[0].1 + "\"\n" + PairsText(pairs[1..])
  }

  /** What one entry appends to the text: nothing for null, `key: "v"` for a
      string (not escaped), a `key:` line followed by the items or the pairs
      otherwise. */
  function EntryText(key: string, v: YamlValue): string
  {
    match v
    case YNull => []
    case YStr(s) => key + ": \"" + s + "\"\n"
    case YList(items) => key + ":\n" + ItemsText(items)
    case YObj(pairs) => key + ":\n" + PairsText(pairs)
  }

  function Body(entries: Entries): string
  {
    if |entries| == 0 then [] else EntryText(entries[0].0, entries[0].1) + Body(entries[1..])
  }

  /** `generateYAML`: the entries between two `---` lines, every line ending
      in a newline. */
  function GenerateYaml(entries: Entries): (r: string)
    ensures StartsWith(r, "---\n") && EndsWith(r, "---\n")
  {
    var r := "---\n" + Body(entries) + "---\n";
    assert r[|r| - 4..] == "---\n";
    r
  }

  // The line view of the same output, an independent description of it.

  /** The lines one entry stands for. */
  function EntryLines(key: string, v: YamlValue): seq<string>
  {
    match v
    case YNull => []
    case YStr(s) => [key + ": \"" + s + "\""]
    case YList(items) => [key + ":"] + seq(|items|, k requires 0 <= k < |items| => "  - \"" + items[k] + "\"")
    case YObj(pairs) =>
      [key + ":"] + seq(|pairs|, k requires 0 <= k < |pairs| => "  " + pairs[k].0 + ": \"" + pairs[k].1 + "\"")
  }

  function AllLines(entries: Entries): seq<string>
  {
    if |entries| == 0 then [] else EntryLines(entries[0].0, entries[0].1) + AllLines(entries[1..])
  }

  /** Lines, each followed by a newline. */
  function Terminated(lines: seq<string>): string
  {
    if |lines| == 0 then [] else lines[0] + "\n" + Terminated(lines[1..])
  }

  lemma {:induction false} TerminatedAppend(a: seq<string>, b: seq<string>)
    ensures Terminated(a + b) == Terminated(a) + Terminated(b)
    decreases |a|
  {
    if |a| == 0 {
      assert a + b == b;
    } else {
      assert (a + b)[1..] == a[1..] + b;
      TerminatedAppend(a[1..], b);
    }
  }

  /** Terminated lines are the lines and a final empty one, joined. */
  lemma {:induction false} TerminatedJoin(lines: seq<string>)
    ensures Terminated(lines) == Join(lines + [""], "\n")
    decreases |lines|
  {
    if |lines| > 0 {
      TerminatedJoin(lines[1..]);
      assert (lines + [""])[1..] == lines[1..] + [""];
    }
  }

  lemma {:induction false} ItemsLines(items: seq<string>)
    ensures ItemsText(items) == Terminated(seq(|items|, k requires 0 <= k < |items| => "  - \"" + items[k] + "\""))
    decreases |items|
  {
    if |items| > 0 {
      ItemsLines(items[1..]);
      var ls := seq(|items|, k requires 0 <= k < |items| => "  - \"" + items[k] + "\"");
      assert ls[1..] == seq(|items[1..]|, k requires 0 <= k < |items[1..]| => "  - \"" + items[1..][k] + "\"");
    }
  }

  lemma {:induction false} PairsLines(pairs: seq<(string, string)>)
    ensures PairsText(pairs)
            == Terminated(seq(|pairs|, k requires 0 <= k < |pairs| => "  " + pairs[k].0 + ": \"" + pairs[k].1 + "\""))
    decreases |pairs|
  {
    if |pairs| > 0 {
      PairsLines(pairs[1..]);
      var ls := seq(|pairs|, k requires 0 <= k < |pairs| => "  " + pairs[k].0 + ": \"" + pairs[k].1 + "\"");
      assert ls[1..] == seq(|pairs[1..]|, k requires 0 <= k < |pairs[1..]| =>
                              "  " + pairs[1..][k].0 + ": \"" + pairs[1..][k].1 + "\"");
    }
  }

  lemma EntryTextLines(key: string, v: YamlValue)
    ensures EntryText(key, v) == Terminated(EntryLines(key, v))
  {
    match v
    case YNull =>
    case YStr(s) =>
    case YList(items) =>
      var ls := seq(|items|, k requires 0 <= k < |items| => "  - \"" + items[k] + "\"");
      ItemsLines(items);
      TerminatedAppend([key + ":"], ls);
    case YObj(pairs) =>
      var ls := seq(|pairs|, k requires 0 <= k < |pairs| => "  " + pairs[k].0 + ": \"" + pairs[k].1 + "\"");
      PairsLines(pairs);
      TerminatedAppend([key + ":"], ls);
  }

  lemma {:induction false} BodyLines(entries: Entries)
    ensures Body(entries) == Terminated(AllLines(entries))
    decreases |entries|
  {
    if |entries| > 0 {
      BodyLines(entries[1..]);
      EntryTextLines(entries[0].0, entries[0].1);
      TerminatedAppend(EntryLines(entries[0].0, entries[0].1), AllLines(entries[1..]));
    }
  }

  /** No key, string, item or pair of the entries holds a newline. */
  predicate NoNewlines(entries: Entries) {
    forall e :: e in entries ==> '\n' !in e.0 && NoNewlineIn(e.1)
  }

  predicate NoNewlineIn(v: YamlValue) {
    match v
    case YNull => true
    case YStr(s) => '\n' !in s
    case YList(items) => forall k :: 0 <= k < |items| ==> '\n' !in items[k]
    case YObj(pairs) => forall k :: 0 <= k < |pairs| ==> '\n' !in pairs[k].0 && '\n' !in pairs[k].1
  }

  lemma {:induction false} AllLinesNoNewline(entries: Entries)
    requires NoNewlines(entries)
    ensures forall k :: 0 <= k < |AllLines(entries)| ==> '\n' !in AllLines(entries)[k]
    decreases |entries|
  {
    if |entries| > 0 {
      assert entries[0] in entries;
      assert forall e :: e in entries[1..] ==> e in entries;
      AllLinesNoNewline(entries[1..]);
      var head := EntryLines(entries[0].0, entries[0].1);
      var rest := AllLines(entries[1..]);
      forall k | 0 <= k < |head + rest| ensures '\n' !in (head + rest)[k] {
        if k >= |head| {
          assert (head + rest)[k] == rest[k - |head|];
        }
      }
    }
  }

  /** The YAML is its lines, each terminated: the opening `---`, the lines
      of the entries in order, the closing `---`. */
  lemma YamlTerminated(entries: Entries)
    ensures GenerateYaml(entries) == Terminated(["---"] + AllLines(entries) + ["---"])
  {
    BodyLines(entries);
    TerminatedAppend(["---"] + AllLines(entries), ["---"]);
    TerminatedAppend(["---"], AllLines(entries));
  }

  /** Read back line by line, the YAML is the opening `---`, the lines of
      the entries in order, the closing `---` and the empty text after the
      final newline; this needs values without newlines. */
  lemma YamlSplit(entries: Entries)
    requires NoNewlines(entries)
    ensures Split(GenerateYaml(entries), '\n') == ["---"] + AllLines(entries) + ["---", ""]
  {
    var all := ["---"] + AllLines(entries) + ["---", ""];
    var lines := ["---"] + AllLines(entries) + ["---"];
    YamlTerminated(entries);
    TerminatedJoin(lines);
    assert lines + [""] == all;
    FramedNoNewline(entries);
    SplitJoin(all, '\n');
  }

  lemma FramedNoNewline(entries: Entries)
    requires NoNewlines(entries)
    ensures var all := ["---"] + AllLines(entries) + ["---", ""];
            forall k :: 0 <= k < |all| ==> '\n' !in all[k]
  {
    AllLinesNoNewline(entries);
    var body := AllLines(entries);
    var all := ["---"] + body + ["---", ""];
    forall k | 0 <= k < |all| ensures '\n' !in all[k] {
      if 1 <= k <= |body| {
        assert all[k] == body[k - 1];
      }
    }
  }

  // ---- generateFrontmatter ----

  /** The front-matter object in key order: `title`, `description` and
      `pubDate` always, then `heroImage`, `tags` and `series` when present. */
  function EntriesJs(props: Props, now: string): (r: Result<Entries, string>)
    ensures r.Err? <==> ExtractHeroImage(props).Err?
    ensures r.Ok? ==> |r.value| >= 3
                      && r.value[0] == ("title", YStr(ExtractPostTitle(props)))
                      && r.value[1] == ("description", YStr(ExtractDescription(props)))
                      && r.value[2] == ("pubDate", YStr(ExtractPublishDate(props, now)))
  {
    var hero :- ExtractHeroImage(props);
    Ok(FixedEntries(ExtractPostTitle(props), ExtractDescription(props), ExtractPublishDate(props, now))
       + HeroEntry(hero) + TagsEntry(ExtractTags(props)) + SeriesEntry(ExtractSeries(props)))
  }

  /** The three entries always written. */
  function FixedEntries(title: string, description: string, pubDate: string): Entries
  {
    [("title", YStr(title)), ("description", YStr(description)), ("pubDate", YStr(pubDate))]
  }

  /** The optional entries: each is written only when it has a value. */
  function HeroEntry(hero: Option<Hero>): Entries
  {
    if hero.Some? then [("heroImage", HeroValue(hero.value))] else []
  }

  function TagsEntry(tags: seq<string>): Entries
  {
    if |tags| > 0 then [("tags", YList(tags))] else []
  }

  function SeriesEntry(series: Option<string>): Entries
  {
    if series.Some? then [("series", YStr(series.value))] else []
  }

  /** `generateFrontmatter`. It throws only when the hero image file is
      neither hosted nor external. */
  function GenerateFrontmatterJs(page: Page, now: string): (r: Result<string, string>)
    ensures r.Err? <==> ExtractHeroImage(page.properties).Err?
    ensures r.Ok? ==> StartsWith(r.value, "---\n") && EndsWith(r.value, "---\n")
  {
    var entries :- EntriesJs(page.properties, now);
    Ok(GenerateYaml(entries))
  }

  /** The first three lines after `---` are the title, description and
      publication date, written verbatim in double quotes, even when empty:
      nothing is escaped. */
  lemma FrontmatterJsFixedKeys(page: Page, now: string)
    requires EntriesJs(page.properties, now).Ok?
    requires NoNewlines(EntriesJs(page.properties, now).value)
    ensures var ls := Split(GenerateFrontmatterJs(page, now).value, '\n');
            && |ls| >= 6 && ls[0] == "---" && ls[|ls| - 2] == "---" && ls[|ls| - 1] == ""
            && ls[1] == "title: \"" + ExtractPostTitle(page.properties) + "\""
            && ls[2] == "description: \"" + ExtractDescription(page.properties) + "\""
            && ls[3] == "pubDate: \"" + ExtractPublishDate(page.properties, now) + "\""
  {
    var entries := EntriesJs(page.properties, now).value;
    FrontmatterJsIsYaml(page, now);
    YamlLeading(entries);
    FixedKeyPrefixes();
  }

  lemma FixedKeyPrefixes()
    ensures "title" + ": \"" == "title: \""
    ensures "description" + ": \"" == "description: \""
    ensures "pubDate" + ": \"" == "pubDate: \""
  {
  }

  lemma FrontmatterJsIsYaml(page: Page, now: string)
    requires EntriesJs(page.properties, now).Ok?
    ensures GenerateFrontmatterJs(page, now) == Ok(GenerateYaml(EntriesJs(page.properties, now).value))
  {
  }

  /** The lines of a YAML whose first three entries are strings. */
  lemma YamlLeading(entries: Entries)
    requires NoNewlines(entries)
    requires |entries| >= 3 && entries[0].1.YStr? && entries[1].1.YStr? && entries[2].1.YStr?
    ensures var ls := Split(GenerateYaml(entries), '\n');
            && |ls| >= 6 && ls[0] == "---" && ls[|ls| - 2] == "---" && ls[|ls| - 1] == ""
            && ls[1] == entries[0].0 + ": \"" + entries[0].1.s + "\""
            && ls[2] == entries[1].0 + ": \"" + entries[1].1.s + "\""
            && ls[3] == entries[2].0 + ": \"" + entries[2].1.s + "\""
  {
    YamlSplit(entries);
    LeadingStrings(entries);
    var body := AllLines(entries);
    var ls := ["---"] + body + ["---", ""];
    assert ls[1] == body[0] && ls[2] == body[1] && ls[3] == body[2];
  }

  /** Three leading string entries give three leading lines. */
  lemma LeadingStrings(entries: Entries)
    requires |entries| >= 3 && entries[0].1.YStr? && entries[1].1.YStr? && entries[2].1.YStr?
    ensures var ls := AllLines(entries);
            && |ls| >= 3
            && ls[0] == entries[0].0 + ": \"" + entries[0].1.s + "\""
            && ls[1] == entries[1].0 + ": \"" + entries[1].1.s + "\""
            && ls[2] == entries[2].0 + ": \"" + entries[2].1.s + "\""
  {
    var e1 := entries[1..];
    var e2 := e1[1..];
    assert AllLines(e1) == EntryLines(e1[0].0, e1[0].1) + AllLines(e2);
    assert AllLines(e2) == EntryLines(e2[0].0, e2[0].1) + AllLines(e2[1..]);
  }

  lemma {:induction false} AllLinesAppend(a: Entries, b: Entries)
    ensures AllLines(a + b) == AllLines(a) + AllLines(b)
    decreases |a|
  {
    if |a| == 0 {
      assert a + b == b;
    } else {
      assert (a + b)[1..] == a[1..] + b;
      AllLinesAppend(a[1..], b);
    }
  }

  /** The keys of the entries, in order. */
  function Keys(entries: Entries): (r: seq<string>)
    ensures |r| == |entries| && forall k :: 0 <= k < |r| ==> r[k] == entries[k].0
  {
    seq(|entries|, k requires 0 <= k < |entries| => entries[k].0)
  }

  /** The value under the first entry with a key, as an object lookup sees it. */
  function Lookup(entries: Entries, key: string): (r: Option<YamlValue>)
    ensures r.None? <==> key !in Keys(entries)
    decreases |entries|
  {
    if |entries| == 0 then None
    else if entries[0].0 == key then Some(entries[0].1)
    else
      var r := Lookup(entries[1..], key);
      assert Keys(entries) == [entries[0].0] + Keys(entries[1..]);
      r
  }

  lemma {:induction false} LookupAppend(a: Entries, b: Entries, key: string)
    ensures Lookup(a + b, key) == if key in Keys(a) then Lookup(a, key) else Lookup(b, key)
    decreases |a|
  {
    if |a| == 0 {
      assert a + b == b;
    } else {
      assert (a + b)[1..] == a[1..] + b;
      assert Keys(a) == [a[0].0] + Keys(a[1..]);
      LookupAppend(a[1..], b, key);
    }
  }

  /** The object written for a hero image: `src`, then `alt`. */
  function HeroValue(h: Hero): YamlValue
  {
    YObj([("src", h.src), ("alt", h.alt)])
  }

  /** The lines a hero image, the tags and the series are written as. */
  function HeroLines(hero: Option<Hero>): seq<string>
  {
    match hero
    case None => []
    case Some(h) => ["heroImage:", "  src: \"" + h.src + "\"", "  alt: \"" + h.alt + "\""]
  }

  function TagLines(tags: seq<string>): seq<string>
  {
    if |tags| == 0 then []
    else ["tags:"] + seq(|tags|, k requires 0 <= k < |tags| => "  - \"" + tags[k] + "\"")
  }

  function SeriesLines(series: Option<string>): seq<string>
  {
    match series
    case None => []
    case Some(v) => ["series: \"" + v + "\""]
  }

  lemma KeysAppend(a: Entries, b: Entries)
    ensures Keys(a + b) == Keys(a) + Keys(b)
  {
  }

  /** What each part of the entries contributes: its keys, its value under
      its own key and its lines. */
  lemma HeroEntryFacts(hero: Option<Hero>)
    ensures Keys(HeroEntry(hero)) == if hero.Some? then ["heroImage"] else []
    ensures Lookup(HeroEntry(hero), "heroImage") == if hero.Some? then Some(HeroValue(hero.value)) else None
    ensures AllLines(HeroEntry(hero)) == HeroLines(hero)
  {
    if hero.Some? {
      var e := HeroEntry(hero);
      assert AllLines(e) == EntryLines(e[0].0, e[0].1) + AllLines(e[1..]);
      assert e[1..] == [];
      var h := hero.value;
      var pairs := [("src", h.src), ("alt", h.alt)];
      var ls := seq(|pairs|, k requires 0 <= k < |pairs| => "  " + pairs[k].0 + ": \"" + pairs[k].1 + "\"");
      assert "  " + "src" + ": \"" == "  src: \"" && "  " + "alt" + ": \"" == "  alt: \"";
      assert ls == ["  src: \"" + h.src + "\"", "  alt: \"" + h.alt + "\""];
      assert "heroImage" + ":" == "heroImage:";
    }
  }

  lemma TagsEntryFacts(tags: seq<string>)
    ensures Keys(TagsEntry(tags)) == if |tags| > 0 then ["tags"] else []
    ensures Lookup(TagsEntry(tags), "tags") == if |tags| > 0 then Some(YList(tags)) else None
    ensures AllLines(TagsEntry(tags)) == TagLines(tags)
  {
    if |tags| > 0 {
      var e := TagsEntry(tags);
      assert AllLines(e) == EntryLines(e[0].0, e[0].1) + AllLines(e[1..]);
      assert e[1..] == [];
      assert "tags" + ":" == "tags:";
    }
  }

  lemma SeriesEntryFacts(series: Option<string>)
    ensures Keys(SeriesEntry(series)) == if series.Some? then ["series"] else []
    ensures Lookup(SeriesEntry(series), "series") == if series.Some? then Some(YStr(series.value)) else None
    ensures AllLines(SeriesEntry(series)) == SeriesLines(series)
  {
    if series.Some? {
      var e := SeriesEntry(series);
      assert AllLines(e) == EntryLines(e[0].0, e[0].1) + AllLines(e[1..]);
      assert e[1..] == [];
      assert "series" + ": \"" == "series: \"";
    }
  }

  lemma FixedEntriesFacts(title: string, description: string, pubDate: string)
    ensures Keys(FixedEntries(title, description, pubDate)) == ["title", "description", "pubDate"]
    ensures AllLines(FixedEntries(title, description, pubDate))
            == ["title: \"" + title + "\"", "description: \"" + description + "\"", "pubDate: \"" + pubDate + "\""]
  {
    var f := FixedEntries(title, description, pubDate);
    var f1 := f[1..];
    var f2 := f1[1..];
    assert f2[1..] == [];
    assert AllLines(f2) == EntryLines(f2[0].0, f2[0].1) + AllLines(f2[1..]);
    assert AllLines(f1) == EntryLines(f1[0].0, f1[0].1) + AllLines(f2);
    FixedKeyPrefixes();
  }

  /** The keys `generateFrontmatter` writes: `title`, `description` and
      `pubDate`, then `heroImage` exactly when a hero image was found,
      `tags` exactly when there is at least one tag and `series` exactly
      when a series is selected; under each optional key, the image's
      `src`/`alt` object, the tag names and the series name. */
  lemma EntriesJsOptional(props: Props, now: string)
    requires EntriesJs(props, now).Ok?
    ensures var e := EntriesJs(props, now).value;
            var hero := ExtractHeroImage(props).value;
            var tags := ExtractTags(props);
            var series := ExtractSeries(props);
            && Keys(e) == ["title", "description", "pubDate"]
                          + (if hero.Some? then ["heroImage"] else [])
                          + (if |tags| > 0 then ["tags"] else [])
                          + (if series.Some? then ["series"] else [])
            && Lookup(e, "heroImage") == (if hero.Some? then Some(HeroValue(hero.value)) else None)
            && Lookup(e, "tags") == (if |tags| > 0 then Some(YList(tags)) else None)
            && Lookup(e, "series") == (if series.Some? then Some(YStr(series.value)) else None)
  {
    var f := FixedEntries(ExtractPostTitle(props), ExtractDescription(props), ExtractPublishDate(props, now));
    var h := HeroEntry(ExtractHeroImage(props).value);
    var t := TagsEntry(ExtractTags(props));
    var r := SeriesEntry(ExtractSeries(props));
    assert EntriesJs(props, now).value == f + h + t + r;
    FixedEntriesFacts(ExtractPostTitle(props), ExtractDescription(props), ExtractPublishDate(props, now));
    HeroEntryFacts(ExtractHeroImage(props).value);
    TagsEntryFacts(ExtractTags(props));
    SeriesEntryFacts(ExtractSeries(props));
    KeysAppend(f + h + t, r);
    KeysAppend(f + h, t);
    KeysAppend(f, h);
    OptionalLookup(f, h, t, r, "heroImage");
    OptionalLookup(f, h, t, r, "tags");
    OptionalLookup(f, h, t, r, "series");
  }

  /** Each optional key is found in its own part of the entries. */
  lemma OptionalLookup(f: Entries, h: Entries, t: Entries, r: Entries, key: string)
    requires Keys(f) == ["title", "description", "pubDate"]
    requires Keys(h) == [] || Keys(h) == ["heroImage"]
    requires Keys(t) == [] || Keys(t) == ["tags"]
    requires Keys(r) == [] || Keys(r) == ["series"]
    ensures key == "heroImage" ==> Lookup(f + h + t + r, key) == Lookup(h, key)
    ensures key == "tags" ==> Lookup(f + h + t + r, key) == Lookup(t, key)
    ensures key == "series" ==> Lookup(f + h + t + r, key) == Lookup(r, key)
  {
    LookupAppend(f + h + t, r, key);
    LookupAppend(f + h, t, key);
    LookupAppend(f, h, key);
    KeysAppend(f, h);
    KeysAppend(f + h, t);
  }

  /** The lines of the entries: the three fixed lines, then the hero
      image's three lines, the `tags:` line with one line per tag and the
      series line, each only when present. */
  lemma EntriesJsLines(props: Props, now: string)
    requires EntriesJs(props, now).Ok?
    ensures AllLines(EntriesJs(props, now).value)
            == ["title: \"" + ExtractPostTitle(props) + "\"",
                "description: \"" + ExtractDescription(props) + "\"",
                "pubDate: \"" + ExtractPublishDate(props, now) + "\""]
               + HeroLines(ExtractHeroImage(props).value)
               + TagLines(ExtractTags(props))
               + SeriesLines(ExtractSeries(props))
  {
    var f := FixedEntries(ExtractPostTitle(props), ExtractDescription(props), ExtractPublishDate(props, now));
    var h := HeroEntry(ExtractHeroImage(props).value);
    var t := TagsEntry(ExtractTags(props));
    var r := SeriesEntry(ExtractSeries(props));
    assert EntriesJs(props, now).value == f + h + t + r;
    FixedEntriesFacts(ExtractPostTitle(props), ExtractDescription(props), ExtractPublishDate(props, now));
    HeroEntryFacts(ExtractHeroImage(props).value);
    TagsEntryFacts(ExtractTags(props));
    SeriesEntryFacts(ExtractSeries(props));
    AllLinesFour(f, h, t, r);
  }

  lemma AllLinesFour(f: Entries, h: Entries, t: Entries, r: Entries)
    ensures AllLines(f + h + t + r) == AllLines(f) + AllLines(h) + AllLines(t) + AllLines(r)
  {
    AllLinesAppend(f + h + t, r);
    AllLinesAppend(f + h, t);
    AllLinesAppend(f, h);
  }

  /** Read back line by line, the front matter is `---`, the lines of the
      entries and the closing `---`. */
  lemma FrontmatterJsLines(page: Page, now: string)
    requires EntriesJs(page.properties, now).Ok?
    requires NoNewlines(EntriesJs(page.properties, now).value)
    ensures var props := page.properties;
            Split(GenerateFrontmatterJs(page, now).value, '\n')
            == ["---",
                "title: \"" + ExtractPostTitle(props) + "\"",
                "description: \"" + ExtractDescription(props) + "\"",
                "pubDate: \"" + ExtractPublishDate(props, now) + "\""]
               + HeroLines(ExtractHeroImage(props).value)
               + TagLines(ExtractTags(props))
               + SeriesLines(ExtractSeries(props))
               + ["---", ""]
  {
    var props := page.properties;
    var e := EntriesJs(props, now).value;
    FrontmatterJsIsYaml(page, now);
    YamlSplit(e);
    EntriesJsLines(props, now);
    Framed(["title: \"" + ExtractPostTitle(props) + "\"",
            "description: \"" + ExtractDescription(props) + "\"",
            "pubDate: \"" + ExtractPublishDate(props, now) + "\""],
           HeroLines(ExtractHeroImage(props).value), TagLines(ExtractTags(props)), SeriesLines(ExtractSeries(props)));
  }

  lemma Framed(fixed: seq<string>, a: seq<string>, b: seq<string>, c: seq<string>)
    requires |fixed| == 3
    ensures ["---"] + (fixed + a + b + c) + ["---", ""] == ["---", fixed[0], fixed[1], fixed[2]] + a + b + c + ["---", ""]
  {
  }

  // ---- File names ----

  /** The hiragana, katakana and CJK ideograph ranges kept in file names. */
  predicate IsKanaOrKanji(c: char) {
    ('\U{3040}' <= c <= '\U{309F}') || ('\U{30A0}' <= c <= '\U{30FF}') || ('\U{4E00}' <= c <= '\U{9FAF}')
  }

  /** What the first stage keeps: `\w`, `\s` and U+3040-U+309F, U+30A0-U+30FF, U+4E00-U+9FAF. */
  predicate IsKept(c: char) {
    IsWord(c) || IsSpace(c) || IsKanaOrKanji(c)
  }

  /** What a slug is made of: lower-case `\w`, kana, kanji and `-`. */
  predicate IsSlugChar(c: char) {
    c == '-' || ((IsWord(c) || IsKanaOrKanji(c)) && !IsAsciiUpper(c))
  }

  /** `generateFileName`: keep word characters, white space, kana and kanji;
      trim; turn each white-space run into `-`; lower-case; add `.md`. There
      is no length limit and no fallback for an empty slug. */
  function GenerateFileNameJs(title: string): (r: string)
    ensures EndsWith(r, ".md")
    ensures var slug := r[..|r| - 3];
            && (forall k :: 0 <= k < |slug| ==> IsSlugChar(slug[k]))
            && NoDoubleDash(slug)
            && (slug == [] || (slug[0] != '-' && slug[|slug| - 1] != '-'))
  {
    var kept := Filter(title, IsKept);
    var trimmed := Trim(kept);
    TrimKeeps(kept, IsKept);
    SlugShape(trimmed);
    ToLower(DashSpaces(trimmed)) + ".md"
  }

  /** Lower-casing a dashed text keeps its dashes where they are. */
  lemma SlugShape(t: string)
    requires forall k :: 0 <= k < |t| ==> IsKept(t[k])
    requires t == [] || (!IsSpace(t[0]) && !IsSpace(t[|t| - 1]))
    ensures var slug := ToLower(DashSpaces(t));
            && (forall k :: 0 <= k < |slug| ==> IsSlugChar(slug[k]))
            && NoDoubleDash(slug)
            && (slug == [] || (slug[0] != '-' && slug[|slug| - 1] != '-'))
  {
    var d := DashSpaces(t);
    DashSpacesFrom(t, 0);
    DashSpacesKeeps(t, 0, IsKept);
    var slug := ToLower(d);
    forall k | 0 <= k < |slug| ensures IsSlugChar(slug[k]) && (slug[k] == '-' <==> d[k] == '-') {
      assert DashOr(d[k], IsKept);
    }
  }

  /** A title with nothing but punctuation gives exactly `.md`. */
  lemma GenerateFileNameJsEmpty(title: string)
    requires forall k :: 0 <= k < |title| ==> !IsSlugSource(title[k])
    ensures GenerateFileNameJs(title) == ".md"
  {
    var kept := Filter(title, IsKept);
    FilterPreserves(title, IsKept, c => !IsSlugSource(c));
    TrimAllSpace(kept);
  }

  /** Unlike the TypeScript slug, the JavaScript one is not cut: a title of
      `n` lower-case letters keeps all `n`. */
  lemma GenerateFileNameJsUncapped(n: nat)
    requires n > 0
    ensures GenerateFileNameJs(Repeat('a', n)) == Repeat('a', n) + ".md"
  {
    var t := Repeat('a', n);
    FilterAll(t, IsKept);
    TrimOfTrimmed(t);
    DashSpacesNoSpace(t);
    assert ToLower(t) == t;
  }

  /** What a slug keeps of a title besides its dashes: `\w`, kana and kanji. */
  predicate IsSlugSource(c: char) {
    IsWord(c) || IsKanaOrKanji(c)
  }

  /** With the dashes taken out, the slug is exactly the title's word
      characters, kana and kanji, in order and lower-cased. */
  lemma GenerateFileNameJsKeeps(title: string)
    ensures var r := GenerateFileNameJs(title);
            Filter(r[..|r| - 3], NotDash) == ToLower(Filter(title, IsSlugSource))
  {
    var kept := Filter(title, IsKept);
    var trimmed := Trim(kept);
    var r := GenerateFileNameJs(title);
    assert r[..|r| - 3] == ToLower(DashSpaces(trimmed));
    TrimmedDashless(kept);
    LowerKeepsDash();
    ToLowerFilter(DashSpaces(trimmed), NotDash);
    DashSpacesDropsSpace(trimmed);
    TrimFilter(kept);
    SlugSourceSplit();
    FilterCompose(title, IsKept, NotSpace, IsSlugSource);
  }

  /** The trimmed kept title has no `-` for a dash to be confused with. */
  lemma TrimmedDashless(kept: string)
    requires forall k :: 0 <= k < |kept| ==> IsKept(kept[k])
    ensures forall k :: 0 <= k < |Trim(kept)| ==> Trim(kept)[k] != '-'
  {
    TrimKeeps(kept, IsKept);
  }

  lemma LowerKeepsDash()
    ensures forall c :: NotDash(LowerChar(c)) == NotDash(c)
  {
  }

  lemma SlugSourceSplit()
    ensures forall c :: IsSlugSource(c) == (IsKept(c) && NotSpace(c))
  {
  }

  /** The slug is the words of the kept title — its maximal runs without
      white space — joined by single dashes and lower-cased: each dash
      stands for one white-space run between two words. */
  lemma GenerateFileNameJsWords(title: string)
    ensures GenerateFileNameJs(title) == ToLower(JoinWords(Words(Filter(title, IsKept)), "-")) + ".md"
  {
    DashSpacesWords(Filter(title, IsKept));
  }
}
