/** The TypeScript front-matter generator
    (`scripts/utils/frontmatter-generator.ts`): the header written at the top
    of every post, and the file name derived from the title.

    `new Date(x).toISOString()` is the oracle `iso`: `None` is the
    `RangeError` an unparseable date throws. The current instant, used when a
    page has no creation time, is the ISO string `now`. */
module FrontmatterTs {
  import opened Wrappers
  import opened Text
  import opened NotionModel
  import ImageProcessor

  type IsoOracle = string -> Option<string>

  /** What `toISOString` throws on an invalid date. */
  const InvalidTime: string := "Invalid time value"

  /** A header value: a string, or the array of tag relation IDs. */
  datatype FmValue = Str(s: string) | Ids(ids: seq<string>)

  /** A key is written unless its value is the empty string. */
  predicate Kept(v: FmValue) {
    v.Ids? || v.s != []
  }

  // ---- Values ----

  /** `value.replace(/"/g, '\\"')`: a backslash before every double quote. */
  function Escape(s: string): (r: string)
    ensures '"' !in s ==> r == s
    ensures |r| >= |s|
    ensures forall k :: 0 <= k < |r| && r[k] == '"' ==> 0 < k && r[k - 1] == '\\'
  {
    if |s| == 0 then []
    else if s[0] == '"' then "\\\"" + Escape(s[1..])
    else [s[0]] + Escape(s[1..])
  }

  /** Reading `\"` back as `"`: the inverse of `Escape`. */
  function Unescape(t: string): string
  {
    if |t| == 0 then []
    else if |t| >= 2 && t[0] == '\\' && t[1] == '"' then "\"" + Unescape(t[2..])
    else [t[0]] + Unescape(t[1..])
  }

  /** Escaping loses nothing: unescaping gives the original string back. */
  lemma {:induction false} UnescapeEscape(s: string)
    ensures Unescape(Escape(s)) == s
    decreases |s|
  {
    if |s| > 0 {
      UnescapeEscape(s[1..]);
      var rest := Escape(s[1..]);
      if s[0] == '"' {
        assert Escape(s) == "\\\"" + rest;
        assert (Escape(s))[2..] == rest;
      } else {
        assert Escape(s) == [s[0]] + rest;
        assert (Escape(s))[1..] == rest;
        assert rest != [] ==> rest[0] != '"';
      }
    }
  }

  /** A string value in double quotes; any other value through `String(v)`,
      which joins an array with commas. */
  function Format(v: FmValue): (r: string)
    ensures v.Str? ==> |r| >= 2 && r[0] == '"' && r[|r| - 1] == '"' && r[1..|r| - 1] == Escape(v.s)
    ensures v.Ids? ==> r == Join(v.ids, ",")
  {
    match v
    case Str(s) =>
      var r := "\"" + Escape(s) + "\"";
      assert r[1..|r| - 1] == Escape(s);
      r
    case Ids(ids) => Join(ids, ",")
  }

  /** The kept entries, each with its formatted value, in entry order. */
  function Pairs(entries: seq<(string, FmValue)>): (r: seq<(string, string)>)
    ensures |r| <= |entries|
  {
    if |entries| == 0 then []
    else
      (if Kept(entries[0].1) then [(entries[0].0, Format(entries[0].1))] else [])
      + Pairs(entries[1..])
  }

  /** One `key: value` line per pair. */
  function PairLines(ps: seq<(string, string)>): (r: seq<string>)
    ensures |r| == |ps|
    ensures forall j :: 0 <= j < |ps| ==> r[j] == ps[j].0 + ": " + ps[j].1
  {
    seq(|ps|, j requires 0 <= j < |ps| => ps[j].0 + ": " + ps[j].1)
  }

  /** The header text: a `---` line, the entry lines, a `---` line, joined
      by newlines without a trailing one. */
  function Render(entries: seq<(string, FmValue)>): (r: string)
    ensures StartsWith(r, "---\n") && EndsWith(r, "\n---")
    ensures Pairs(entries) != [] ==> r == "---\n" + Join(PairLines(Pairs(entries)), "\n") + "\n---"
  {
    var body := PairLines(Pairs(entries));
    var lines := ["---"] + body + ["---"];
    JoinSnoc(["---"] + body, "\n", "---");
    assert (["---"] + body)[1..] == body;
    Join(lines, "\n")
  }

  // ---- Field extraction ----

  /** `extractPubDate`: the date part of the creation time when the page has
      one, else of the current instant. */
  function PubDate(props: Props, iso: IsoOracle, now: string): (r: Result<string, string>)
    ensures Truthy(CreatedTime(props)) && iso(CreatedTime(props).value).None? ==> r == Err(InvalidTime)
    ensures Truthy(CreatedTime(props)) && iso(CreatedTime(props).value).Some? ==>
              r == Ok(BeforeT(iso(CreatedTime(props).value).value))
    ensures !Truthy(CreatedTime(props)) ==> r == Ok(BeforeT(now))
  {
    var created := CreatedTime(props);
    if Truthy(created) then
      match iso(created.value)
      case None => Err(InvalidTime)
      case Some(t) => Ok(BeforeT(t))
    else Ok(BeforeT(now))
  }

  /** `properties.Created?.created_time`. */
  function CreatedTime(props: Props): Option<string>
  {
    match Get(props, "Created")
    case None => None
    case Some(p) => p.createdTime
  }

  /** `post.properties.Tags?.relation`, when it lists at least one page. */
  function TagIds(props: Props): (r: Option<seq<string>>)
    ensures r.Some? ==> |r.value| > 0
  {
    match Get(props, "Tags")
    case None => None
    case Some(p) =>
      if p.relation.Some? && |p.relation.value| > 0 then p.relation else None
  }

  /** `extractAdditionalMetadata`: `tags` when the post has related tags,
      then `updatedDate` when it has an edit time. */
  function AdditionalMetadata(post: Page, iso: IsoOracle): (r: Result<seq<(string, FmValue)>, string>)
    ensures r.Err? <==> Truthy(post.lastEditedTime) && iso(post.lastEditedTime.value).None?
  {
    var tags := match TagIds(post.properties)
                case None => []
                case Some(ids) => [("tags", Ids(ids))];
    if Truthy(post.lastEditedTime) then
      match iso(post.lastEditedTime.value)
      case None => Err(InvalidTime)
      case Some(t) => Ok(tags + [("updatedDate", Str(BeforeT(t)))])
    else Ok(tags)
  }

  /** The header object in key order: `title`, `description` (always empty),
      `pubDate`, then the additional keys in the order they are assigned. */
  function Entries(post: Page, iso: IsoOracle, now: string): (r: Result<seq<(string, FmValue)>, string>)
    ensures r.Ok? <==> PubDate(post.properties, iso, now).Ok? && AdditionalMetadata(post, iso).Ok?
  {
    var pub :- PubDate(post.properties, iso, now);
    var extra :- AdditionalMetadata(post, iso);
    Ok([("title", Str(ExtractPostTitle(post.properties))), ("description", Str("")), ("pubDate", Str(pub))] + extra)
  }

  /** `generateFrontmatter`. It throws exactly when a date it reads does not
      parse; otherwise the header is framed by `---` lines. */
  function GenerateFrontmatterTs(post: Page, iso: IsoOracle, now: string): (r: Result<string, string>)
    ensures r.Err? <==>
              (Truthy(CreatedTime(post.properties)) && iso(CreatedTime(post.properties).value).None?)
              || (Truthy(post.lastEditedTime) && iso(post.lastEditedTime.value).None?)
    ensures r.Ok? ==> StartsWith(r.value, "---\n") && EndsWith(r.value, "\n---")
  {
    var entries :- Entries(post, iso, now);
    Ok(Render(entries))
  }

  /** The written keys, in order: `title` unless the title is empty, never
      `description`, `pubDate` unless empty, `tags` when the post has
      related tags, and `updatedDate` when it has an edit time. */
  lemma FrontmatterTsPairs(post: Page, iso: IsoOracle, now: string)
    requires Entries(post, iso, now).Ok?
    ensures var title := ExtractPostTitle(post.properties);
            var pub := PubDate(post.properties, iso, now).value;
            Pairs(Entries(post, iso, now).value)
            == (if title != [] then [("title", Format(Str(title)))] else [])
               + (if pub != [] then [("pubDate", Format(Str(pub)))] else [])
               + ExtraPairs(post, iso)
  {
    var entries := Entries(post, iso, now).value;
    var extra := AdditionalMetadata(post, iso).value;
    var title := ExtractPostTitle(post.properties);
    var pub := PubDate(post.properties, iso, now).value;
    var base := [("title", Str(title)), ("description", Str("")), ("pubDate", Str(pub))];
    assert entries == base + extra;
    PairsAppend(base, extra);
    BasePairs(title, pub);
    AdditionalPairs(post, iso);
  }

  /** The date part of the edit time, when the page has one. */
  function UpdatedDate(post: Page, iso: IsoOracle): Option<string>
    requires AdditionalMetadata(post, iso).Ok?
  {
    if Truthy(post.lastEditedTime) then Some(BeforeT(iso(post.lastEditedTime.value).value)) else None
  }

  /** The optional pairs: `tags` when the post has related tags, then
      `updatedDate` when it has an edit time (whose date part is not
      empty). */
  function ExtraPairs(post: Page, iso: IsoOracle): seq<(string, string)>
    requires AdditionalMetadata(post, iso).Ok?
  {
    var tags := TagIds(post.properties);
    var updated := UpdatedDate(post, iso);
    (if tags.Some? then [("tags", Format(Ids(tags.value)))] else [])
    + (if updated.Some? && updated.value != [] then [("updatedDate", Format(Str(updated.value)))] else [])
  }

  lemma BasePairs(title: string, pub: string)
    ensures Pairs([("title", Str(title)), ("description", Str("")), ("pubDate", Str(pub))])
            == (if title != [] then [("title", Format(Str(title)))] else [])
               + (if pub != [] then [("pubDate", Format(Str(pub)))] else [])
  {
    var base := [("title", Str(title)), ("description", Str("")), ("pubDate", Str(pub))];
    assert base[1..][1..] == [("pubDate", Str(pub))];
    assert Pairs([("pubDate", Str(pub))]) == (if pub != [] then [("pubDate", Format(Str(pub)))] else []);
  }

  lemma AdditionalPairs(post: Page, iso: IsoOracle)
    requires AdditionalMetadata(post, iso).Ok?
    ensures Pairs(AdditionalMetadata(post, iso).value) == ExtraPairs(post, iso)
  {
    var extra := AdditionalMetadata(post, iso).value;
    var tags := TagIds(post.properties);
    if tags.Some? && Truthy(post.lastEditedTime) {
      var t := iso(post.lastEditedTime.value).value;
      var a := ("tags", Ids(tags.value));
      var b := ("updatedDate", Str(BeforeT(t)));
      assert extra == [a] + [b];
      PairsAppend([a], [b]);
      assert Pairs([a]) == [("tags", Format(Ids(tags.value)))];
    }
  }

  lemma {:induction false} PairsAppend(a: seq<(string, FmValue)>, b: seq<(string, FmValue)>)
    ensures Pairs(a + b) == Pairs(a) + Pairs(b)
    decreases |a|
  {
    if |a| == 0 {
      assert a + b == b;
    } else {
      assert (a + b)[0] == a[0] && (a + b)[1..] == a[1..] + b;
      PairsAppend(a[1..], b);
      var h := if Kept(a[0].1) then [(a[0].0, Format(a[0].1))] else [];
      assert Pairs(a + b) == h + Pairs(a[1..] + b);
      assert Pairs(a) == h + Pairs(a[1..]);
    }
  }

  // ---- File names ----

  /** What the third stage keeps: `[\w\-.]`. */
  predicate IsSlugChar(c: char) {
    IsWord(c) || c == '-' || c == '.'
  }

  const MaxSlugLength: nat := 100

  /** `generateFileName`: delete `<>:"/\|?*`, delete all white space, keep
      `[\w\-.]`, lower-case, cut at one hundred characters, add `.md`. There
      is no fallback for an empty slug. */
  function GenerateFileNameTs(title: string): (r: string)
    ensures EndsWith(r, ".md") && |r| <= MaxSlugLength + 3
    ensures forall k :: 0 <= k < |r| - 3 ==> IsSlugChar(r[k]) && !IsAsciiUpper(r[k]) && !IsSpace(r[k])
  {
    var slug := Slug(title);
    assert forall k :: 0 <= k < |slug| ==> (slug + ".md")[k] == slug[k];
    slug + ".md"
  }

  /** The file name without its `.md`. */
  function Slug(title: string): (r: string)
    ensures |r| <= MaxSlugLength
    ensures forall k :: 0 <= k < |r| ==> IsSlugChar(r[k]) && !IsAsciiUpper(r[k]) && !IsSpace(r[k])
  {
    var s1 := Filter(title, ImageProcessor.NotForbidden);
    var s2 := Filter(s1, NotSpace);
    var s3 := Filter(s2, IsSlugChar);
    LowerSlugChars(s3);
    Take(ToLower(s3), MaxSlugLength)
  }

  /** Lower-casing keeps a slug a slug, and leaves no capital or blank. */
  lemma LowerSlugChars(s: string)
    requires forall k :: 0 <= k < |s| ==> IsSlugChar(s[k])
    ensures forall k :: 0 <= k < |ToLower(s)| ==> var c := ToLower(s)[k];
              IsSlugChar(c) && !IsAsciiUpper(c) && !IsSpace(c)
  {
    forall k | 0 <= k < |s| ensures var c := ToLower(s)[k]; IsSlugChar(c) && !IsAsciiUpper(c) && !IsSpace(c) {
      LowerSlugChar(s[k]);
    }
  }

  lemma LowerSlugChar(c: char)
    requires IsSlugChar(c)
    ensures IsSlugChar(LowerChar(c)) && !IsSpace(LowerChar(c))
  {
  }

  /** The slug is the allowed characters of the title, in order, lower-cased
      and cut at one hundred: the first two deletions only remove characters
      the third would drop anyway. */
  lemma GenerateFileNameTsAllowed(title: string)
    ensures GenerateFileNameTs(title) == Take(ToLower(Filter(title, IsSlugChar)), MaxSlugLength) + ".md"
  {
    SlugCharsSurvive();
    var s1 := Filter(title, ImageProcessor.NotForbidden);
    FilterNarrow(s1, NotSpace, IsSlugChar);
    FilterNarrow(title, ImageProcessor.NotForbidden, IsSlugChar);
  }

  /** The characters of `[\w\-.]` are neither deleted as forbidden nor as
      white space. */
  lemma SlugCharsSurvive()
    ensures forall c :: IsSlugChar(c) ==> NotSpace(c)
    ensures forall c :: IsSlugChar(c) ==> ImageProcessor.NotForbidden(c)
  {
  }

  /** A title with no character of `[\w\-.]` gives exactly `.md`. */
  lemma GenerateFileNameTsEmpty(title: string)
    requires forall k :: 0 <= k < |title| ==> !IsSlugChar(title[k])
    ensures GenerateFileNameTs(title) == ".md"
  {
    GenerateFileNameTsAllowed(title);
    FilterNone(title, IsSlugChar);
  }

  /** Deriving a file name from a slug gives the same slug back. */
  lemma GenerateFileNameTsIdempotent(title: string)
    ensures var r := GenerateFileNameTs(title);
            GenerateFileNameTs(r[..|r| - 3]) == r
  {
    var r := GenerateFileNameTs(title);
    var slug := r[..|r| - 3];
    assert r == slug + ".md";
    SlugFixed(slug);
  }

  /** A lower-case slug of at most one hundred allowed characters is its own
      slug. */
  lemma SlugFixed(slug: string)
    requires |slug| <= MaxSlugLength
    requires forall k :: 0 <= k < |slug| ==> IsSlugChar(slug[k]) && !IsAsciiUpper(slug[k])
    ensures GenerateFileNameTs(slug) == slug + ".md"
  {
    GenerateFileNameTsAllowed(slug);
    FilterAll(slug, IsSlugChar);
    assert ToLower(slug) == slug;
    assert Take(slug, MaxSlugLength) == slug;
  }
}
