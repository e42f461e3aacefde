/** The pure decisions of the Notion client (`scripts/utils/notion-client.ts`
    and its JavaScript twin, which agree on everything modelled here except
    the constructor check): the tag filter over resolved relation names, the
    tag cache built in batches of ten lookups, and the two title fallback
    chains. Network calls are parameters: the database query result and a
    page-lookup oracle. */
module NotionClient {
  import opened Wrappers
  import opened Text
  import opened NotionModel

  /** The name a relation ID resolves to when its lookup failed or gave an
      empty title. */
  const UnknownTag: string := "Unknown"

  /** How many tag lookups are issued together. */
  const BatchSize: nat := 10

  /** `tagCache.get(id) || 'Unknown'`. */
  function ResolveTag(cache: map<string, string>, id: string): (r: string)
    ensures r != []
    ensures id in cache && cache[id] != [] ==> r == cache[id]
    ensures !(id in cache && cache[id] != []) ==> r == UnknownTag
  {
    if id in cache && cache[id] != [] then cache[id] else UnknownTag
  }

  /** Some relation of the post resolves to the name `t`. */
  function AnyResolvesTo(relation: seq<string>, cache: map<string, string>, t: string): (r: bool)
    ensures r <==> exists j :: 0 <= j < |relation| && ResolveTag(cache, relation[j]) == t
  {
    if |relation| == 0 then false
    else ResolveTag(cache, relation[0]) == t || AnyResolvesTo(relation[1..], cache, t)
  }

  /** Every required name is among the resolved names. */
  function AllRequired(relation: seq<string>, required: seq<string>, cache: map<string, string>): (r: bool)
    ensures r <==> forall i :: 0 <= i < |required| ==> AnyResolvesTo(relation, cache, required[i])
  {
    if |required| == 0 then true
    else
      AnyResolvesTo(relation, cache, required[0]) && AllRequired(relation, required[1..], cache)
  }

  /** `hasRequiredTagsCached`: no required tags accepts every post; a post
      without relations is refused; otherwise each required tag must equal,
      case-sensitively, the resolved name of one of the post's relations. */
  function HasRequiredTagsCached(relation: seq<string>, required: seq<string>, cache: map<string, string>): (r: bool)
    ensures |required| == 0 ==> r
    ensures |required| > 0 && |relation| == 0 ==> !r
  {
    if |required| == 0 then true
    else if |relation| == 0 then false
    else AllRequired(relation, required, cache)
  }

  /** With at least one relation, a post is accepted exactly when every
      required tag is the resolved name of one of its relations. */
  lemma HasRequiredTagsIff(relation: seq<string>, required: seq<string>, cache: map<string, string>)
    requires |relation| > 0
    ensures HasRequiredTagsCached(relation, required, cache) <==>
              forall i :: 0 <= i < |required| ==>
                exists j :: 0 <= j < |relation| && ResolveTag(cache, relation[j]) == required[i]
  {
  }

  /** Requiring `'Unknown'` accepts every post with an unresolved relation:
      a missing cache entry and an empty title both read as `'Unknown'`. */
  lemma UnknownMatchesUnresolved(relation: seq<string>, cache: map<string, string>, k: nat)
    requires k < |relation|
    requires relation[k] !in cache || cache[relation[k]] == []
    ensures HasRequiredTagsCached(relation, [UnknownTag], cache)
  {
    assert ResolveTag(cache, relation[k]) == UnknownTag;
    HasRequiredTagsIff(relation, [UnknownTag], cache);
  }

  /** More relations never turn an accepted post into a refused one. */
  lemma MoreTagsStillAccepted(relation: seq<string>, extra: seq<string>, required: seq<string>,
                              cache: map<string, string>)
    requires HasRequiredTagsCached(relation, required, cache)
    ensures HasRequiredTagsCached(relation + extra, required, cache)
  {
    if |required| > 0 {
      HasRequiredTagsIff(relation, required, cache);
      HasRequiredTagsIff(relation + extra, required, cache);
      forall i | 0 <= i < |required|
        ensures exists j :: 0 <= j < |relation + extra| && ResolveTag(cache, (relation + extra)[j]) == required[i]
      {
        var j :| 0 <= j < |relation| && ResolveTag(cache, relation[j]) == required[i];
        assert (relation + extra)[j] == relation[j];
      }
    }
  }

  /** `post.properties.Tags?.relation || []`. */
  function RelationOf(post: Page): seq<string>
  {
    var tags := Get(post.properties, "Tags");
    if tags.Some? && tags.value.relation.Some? then tags.value.relation.value else []
  }

  /** `a` is `b` with some elements left out, the rest in the same order. */
  predicate IsSubsequence<T(==)>(a: seq<T>, b: seq<T>)
    decreases |b|
  {
    if |a| == 0 then true
    else if |b| == 0 then false
    else (a[0] == b[0] && IsSubsequence(a[1..], b[1..])) || IsSubsequence(a, b[1..])
  }

  lemma {:induction false} SubsequenceOfSelf<T>(a: seq<T>)
    ensures IsSubsequence(a, a)
    decreases |a|
  {
    if |a| > 0 {
      SubsequenceOfSelf(a[1..]);
    }
  }

  /** The posts the tag filter keeps, in query order. */
  function Accepted(posts: seq<Page>, required: seq<string>, cache: map<string, string>): (r: seq<Page>)
    ensures |r| <= |posts|
  {
    if |posts| == 0 then []
    else
      var rest := Accepted(posts[1..], required, cache);
      if HasRequiredTagsCached(RelationOf(posts[0]), required, cache) then [posts[0]] + rest else rest
  }

  /** The filter keeps exactly the posts the tag test accepts. */
  lemma {:induction false} AcceptedMembers(posts: seq<Page>, required: seq<string>, cache: map<string, string>)
    ensures forall p :: p in Accepted(posts, required, cache) <==>
              p in posts && HasRequiredTagsCached(RelationOf(p), required, cache)
    decreases |posts|
  {
    if |posts| > 0 {
      AcceptedMembers(posts[1..], required, cache);
      assert posts == [posts[0]] + posts[1..];
    }
  }

  /** The filter keeps the posts in their original order. */
  lemma {:induction false} AcceptedIsSubsequence(posts: seq<Page>, required: seq<string>, cache: map<string, string>)
    ensures IsSubsequence(Accepted(posts, required, cache), posts)
    decreases |posts|
  {
    if |posts| > 0 {
      AcceptedIsSubsequence(posts[1..], required, cache);
      var rest := Accepted(posts[1..], required, cache);
      if HasRequiredTagsCached(RelationOf(posts[0]), required, cache) {
        assert ([posts[0]] + rest)[1..] == rest;
      } else if |rest| > 0 {
        assert IsSubsequence(rest, posts[1..]);
      }
    }
  }

  /** With no required tags the filter keeps everything. */
  lemma {:induction false} AcceptedAllWhenNoTags(posts: seq<Page>, cache: map<string, string>)
    ensures Accepted(posts, [], cache) == posts
    decreases |posts|
  {
    if |posts| > 0 {
      AcceptedAllWhenNoTags(posts[1..], cache);
      assert posts == [posts[0]] + posts[1..];
    }
  }

  /** The relation IDs of all posts, in post order, duplicates included. */
  function AllRelationIds(posts: seq<Page>): (r: seq<string>)
    ensures forall id :: id in r <==> exists k :: 0 <= k < |posts| && id in RelationOf(posts[k])
  {
    if |posts| == 0 then []
    else
      var rest := AllRelationIds(posts[1..]);
      assert forall id :: id in rest <==> exists k :: 1 <= k < |posts| && id in RelationOf(posts[k]) by {
        forall id | id in rest ensures exists k :: 1 <= k < |posts| && id in RelationOf(posts[k]) {
          var k :| 0 <= k < |posts[1..]| && id in RelationOf(posts[1..][k]);
          assert posts[1..][k] == posts[k + 1];
        }
        forall id | (exists k :: 1 <= k < |posts| && id in RelationOf(posts[k])) ensures id in rest {
          var k :| 1 <= k < |posts| && id in RelationOf(posts[k]);
          assert posts[1..][k - 1] == posts[k];
        }
      }
      RelationOf(posts[0]) + rest
  }

  /** The distinct elements in first-occurrence order: iterating a `Set`
      filled from `xs`. */
  function Dedup(xs: seq<string>): (r: seq<string>)
    ensures forall x :: x in r <==> x in xs
    ensures forall i, j :: 0 <= i < j < |r| ==> r[i] != r[j]
    ensures |r| <= |xs|
  {
    if |xs| == 0 then []
    else
      var d := Dedup(xs[..|xs| - 1]);
      assert xs == xs[..|xs| - 1] + [xs[|xs| - 1]];
      if xs[|xs| - 1] in d then d else d + [xs[|xs| - 1]]
  }

  /** The title a tag page resolves to: `getPageTitle` of the fetched page,
      or `'Unknown'` when the lookup throws. */
  function TagTitle(lookup: string -> Result<Page, string>, id: string): string
  {
    match lookup(id)
    case Ok(page) => GetPageTitle(page.properties)
    case Err(_) => UnknownTag
  }

  /** One step of the cache build: a batch of lookups, or the pause before the
      next batch. */
  datatype Step = Fetch(batch: seq<string>) | Pause

  /** The steps of walking `ids` in slices of `BatchSize`, pausing only
      between slices. */
  function Schedule(ids: seq<string>): (r: seq<Step>)
    decreases |ids|
  {
    if |ids| == 0 then []
    else if |ids| <= BatchSize then [Fetch(ids)]
    else [Fetch(ids[..BatchSize]), Pause] + Schedule(ids[BatchSize..])
  }

  /** The IDs the fetch steps cover, in step order. */
  function Fetched(steps: seq<Step>): seq<string>
  {
    if |steps| == 0 then []
    else (if steps[0].Fetch? then steps[0].batch else []) + Fetched(steps[1..])
  }

  /** The schedule covers every ID exactly once in order, each slice holds one
      to ten IDs, and a pause always sits between two fetches: never first,
      never last, never twice in a row. */
  lemma {:induction false} ScheduleShape(ids: seq<string>)
    ensures Fetched(Schedule(ids)) == ids
    ensures forall k :: 0 <= k < |Schedule(ids)| && Schedule(ids)[k].Fetch? ==>
              0 < |Schedule(ids)[k].batch| <= BatchSize
    ensures forall k :: 0 <= k < |Schedule(ids)| && Schedule(ids)[k].Pause? ==>
              0 < k < |Schedule(ids)| - 1 && Schedule(ids)[k - 1].Fetch? && Schedule(ids)[k + 1].Fetch?
    ensures |ids| > 0 ==> Schedule(ids)[0].Fetch? && Schedule(ids)[|Schedule(ids)| - 1].Fetch?
    decreases |ids|
  {
    if |ids| > BatchSize {
      var rest := ids[BatchSize..];
      ScheduleShape(rest);
      var s := Schedule(ids);
      assert s == [Fetch(ids[..BatchSize]), Pause] + Schedule(rest);
      assert s[2..] == Schedule(rest);
      assert Fetched(s) == ids[..BatchSize] + Fetched(s[1..]);
      assert s[1..][1..] == Schedule(rest);
      assert ids == ids[..BatchSize] + rest;
      forall k | 0 <= k < |s| && s[k].Pause?
        ensures 0 < k < |s| - 1 && s[k - 1].Fetch? && s[k + 1].Fetch?
      {
        if k > 2 {
          assert s[k] == Schedule(rest)[k - 2];
        }
      }
    }
  }

  /** The cache entries for a list of IDs. */
  function CacheFor(lookup: string -> Result<Page, string>, ids: seq<string>): (m: map<string, string>)
    ensures m.Keys == set id | id in ids
  {
    map id | id in ids :: TagTitle(lookup, id)
  }

  /** `buildTagCache`: the distinct relation IDs of all posts are looked up
      in consecutive batches of at most ten; every ID gets exactly one entry,
      a failed lookup giving `'Unknown'` without stopping the batch. The
      returned steps record the batches and the pauses between them. */
  method BuildTagCache(posts: seq<Page>, lookup: string -> Result<Page, string>)
    returns (cache: map<string, string>, steps: seq<Step>)
    ensures cache.Keys == set id | id in AllRelationIds(posts)
    ensures forall id :: id in cache ==> cache[id] == TagTitle(lookup, id)
    ensures steps == Schedule(Dedup(AllRelationIds(posts)))
  {
    var tagIds := Dedup(AllRelationIds(posts));
    cache, steps := FetchInBatches(tagIds, lookup);
  }

  /** The batched lookup loop: slices of `BatchSize` IDs, a pause between
      consecutive slices. */
  method FetchInBatches(tagIds: seq<string>, lookup: string -> Result<Page, string>)
    returns (cache: map<string, string>, steps: seq<Step>)
    ensures cache == CacheFor(lookup, tagIds)
    ensures steps == Schedule(tagIds)
  {
    var n := |tagIds|;
    cache := map[];
    steps := [];
    var i := 0;
    while i < n
      invariant 0 <= i <= n
      invariant cache == CacheFor(lookup, tagIds[..i])
      invariant steps + Schedule(tagIds[i..]) == Schedule(tagIds)
    {
      var end := if i + BatchSize <= n then i + BatchSize else n;
      var batch := tagIds[i..end];
      var more: seq<Step> := if end < n then [Pause] else [];
      CacheAdvance(lookup, tagIds, i, end);
      ScheduleAdvance(tagIds, i, end, steps, more);
      cache := cache + CacheFor(lookup, batch);
      steps := steps + ([Fetch(batch)] + more);
      i := end;
    }
    assert tagIds[..n] == tagIds;
  }

  /** The cache up to the end of a batch is the cache before it and the
      batch's own entries. */
  lemma CacheAdvance(lookup: string -> Result<Page, string>, ids: seq<string>, i: nat, end: nat)
    requires i <= end <= |ids|
    ensures CacheFor(lookup, ids[..end]) == CacheFor(lookup, ids[..i]) + CacheFor(lookup, ids[i..end])
  {
    assert ids[..end] == ids[..i] + ids[i..end];
    CacheForAppend(lookup, ids[..i], ids[i..end]);
  }

  /** One batch of the loop: a fetch, then a pause unless it was the last. */
  lemma ScheduleAdvance(ids: seq<string>, i: nat, end: nat, steps: seq<Step>, more: seq<Step>)
    requires i < |ids| && end == (if i + BatchSize <= |ids| then i + BatchSize else |ids|)
    requires more == if end < |ids| then [Pause] else []
    ensures steps + Schedule(ids[i..]) == steps + ([Fetch(ids[i..end])] + more) + Schedule(ids[end..])
  {
    ScheduleStep(ids[i..], end - i);
    assert ids[i..][..end - i] == ids[i..end];
    assert ids[i..][end - i..] == ids[end..];
  }

  lemma CacheForAppend(lookup: string -> Result<Page, string>, a: seq<string>, b: seq<string>)
    ensures CacheFor(lookup, a + b) == CacheFor(lookup, a) + CacheFor(lookup, b)
  {
    var l := CacheFor(lookup, a + b);
    var r := CacheFor(lookup, a) + CacheFor(lookup, b);
    assert l.Keys == r.Keys;
  }

  /** How one batch advances the schedule. */
  lemma ScheduleStep(ids: seq<string>, m: nat)
    requires 0 < |ids| && m == (if BatchSize <= |ids| then BatchSize else |ids|)
    ensures m < |ids| ==> Schedule(ids) == [Fetch(ids[..m]), Pause] + Schedule(ids[m..])
    ensures m == |ids| ==> Schedule(ids) == [Fetch(ids[..m])] + Schedule(ids[m..])
  {
    if m == |ids| {
      assert ids[..m] == ids;
    }
  }

  /** The tag filter applied to the query results, in order. */
  method FilterPosts(posts: seq<Page>, required: seq<string>, cache: map<string, string>)
    returns (filtered: seq<Page>)
    ensures filtered == Accepted(posts, required, cache)
  {
    filtered := [];
    var i := 0;
    while i < |posts|
      invariant 0 <= i <= |posts|
      invariant filtered + Accepted(posts[i..], required, cache) == Accepted(posts, required, cache)
    {
      assert posts[i..][1..] == posts[i + 1..];
      if HasRequiredTagsCached(RelationOf(posts[i]), required, cache) {
        filtered := filtered + [posts[i]];
      }
      i := i + 1;
    }
    assert posts[i..] == [];
  }

  /** `getPublishedPosts`: a failed query propagates; with no required tags
      the query results come back unchanged; otherwise the tag cache is built
      and the posts accepted by `HasRequiredTagsCached` are kept, in order. */
  method GetPublishedPosts(query: Result<seq<Page>, string>, required: seq<string>,
                           lookup: string -> Result<Page, string>)
    returns (r: Result<seq<Page>, string>, cache: map<string, string>)
    ensures query.Err? <==> r.Err?
    ensures query.Ok? && |required| == 0 ==> r == query
    ensures query.Ok? ==> r.Ok? && IsSubsequence(r.value, query.value)
    ensures query.Ok? && |required| > 0 ==>
              && cache.Keys == set id | id in AllRelationIds(query.value)
              && r.value == Accepted(query.value, required, cache)
  {
    cache := map[];
    if query.Err? {
      return Err(query.error), cache;
    }
    var posts := query.value;
    if |required| == 0 {
      SubsequenceOfSelf(posts);
      return Ok(posts), cache;
    }
    var steps;
    cache, steps := BuildTagCache(posts, lookup);
    var filtered := FilterPosts(posts, required, cache);
    AcceptedIsSubsequence(posts, required, cache);
    return Ok(filtered), cache;
  }

  /** Step 3 of `getPageTitle`: the first property, in entry order, whose
      `title` array is non-empty. */
  function FirstTitle(props: Props): (r: Option<string>)
    ensures r.Some? ==> exists k :: 0 <= k < |props| && TitleText(Some(props[k].1)) == r
    ensures r.None? ==> forall k :: 0 <= k < |props| ==> TitleText(Some(props[k].1)).None?
  {
    if |props| == 0 then None
    else if TitleText(Some(props[0].1)).Some? then TitleText(Some(props[0].1))
    else
      var r := FirstTitle(props[1..]);
      assert forall k :: 1 <= k < |props| ==> props[1..][k - 1] == props[k];
      r
  }

  /** Step 4: the first property whose `rich_text` array is non-empty. */
  function FirstRichText(props: Props): (r: Option<string>)
    ensures r.Some? ==> exists k :: 0 <= k < |props| && RichTextText(Some(props[k].1)) == r
    ensures r.None? ==> forall k :: 0 <= k < |props| ==> RichTextText(Some(props[k].1)).None?
  {
    if |props| == 0 then None
    else if RichTextText(Some(props[0].1)).Some? then RichTextText(Some(props[0].1))
    else
      var r := FirstRichText(props[1..]);
      assert forall k :: 1 <= k < |props| ==> props[1..][k - 1] == props[k];
      r
  }

  /** `getPageTitle`, the tag-page title: a lowercase `title` property, then
      `Name`, then the first non-empty `title` array, then the first non-empty
      `rich_text` array, else `'Untitled'`. It never throws. */
  function GetPageTitle(props: Props): (r: string)
    ensures TitleText(Get(props, "title")).Some? ==> r == TitleText(Get(props, "title")).value
    ensures TitleText(Get(props, "title")).None? && TitleText(Get(props, "Name")).Some? ==>
              r == TitleText(Get(props, "Name")).value
    ensures r == Untitled || exists k :: 0 <= k < |props| &&
                                       (TitleText(Some(props[k].1)) == Some(r) || RichTextText(Some(props[k].1)) == Some(r))
    ensures (forall k :: 0 <= k < |props| ==>
               TitleText(Some(props[k].1)).None? && RichTextText(Some(props[k].1)).None?) ==> r == Untitled
  {
    match TitleText(Get(props, "title"))
    case Some(t) => t
    case None =>
      match TitleText(Get(props, "Name"))
      case Some(t) => t
      case None =>
        match FirstTitle(props)
        case Some(t) => t
        case None =>
          match FirstRichText(props)
          case Some(t) => t
          case None => Untitled
  }

  /** The two title chains agree on a page whose only non-empty `title`
      array is its `Title` or `Name` property. */
  lemma PostTitleAgreesWithPageTitle(props: Props, k: nat)
    requires DistinctNames(props)
    requires k < |props| && props[k].0 in {"Title", "Name"}
    requires TitleText(Some(props[k].1)).Some?
    requires forall j :: 0 <= j < |props| && j != k ==> TitleText(Some(props[j].1)).None?
    ensures ExtractPostTitle(props) == GetPageTitle(props)
  {
    var t := TitleText(Some(props[k].1)).value;
    OnlyTitle(props, k, "title");
    OnlyTitle(props, k, "Name");
    OnlyTitle(props, k, "Title");
    if props[k].0 == "Title" {
      var f := FirstTitle(props);
      if f.Some? {
        var j :| 0 <= j < |props| && TitleText(Some(props[j].1)) == f;
        assert j == k;
      }
    }
  }

  /** Under the hypotheses above, a named property has a title exactly when
      it is the `k`-th one. */
  lemma OnlyTitle(props: Props, k: nat, name: string)
    requires DistinctNames(props)
    requires k < |props|
    requires forall j :: 0 <= j < |props| && j != k ==> TitleText(Some(props[j].1)).None?
    ensures name != props[k].0 ==> TitleText(Get(props, name)).None?
    ensures name == props[k].0 ==> Get(props, name) == Some(props[k].1)
  {
    var g := Get(props, name);
    if g.Some? {
      var j :| 0 <= j < |props| && props[j] == (name, g.value);
      if name == props[k].0 {
        assert j == k;
      } else {
        assert j != k;
      }
    }
  }

  /** The client's configuration. */
  datatype ClientConfig = ClientConfig(token: Option<string>, databaseId: Option<string>)

  function Lookup(env: Env, name: string): Option<string>
  {
    if name in env then Some(env[name]) else None
  }

  const MissingConfig: string := "NOTION_TOKEN and NOTION_DATABASE_ID must be set"

  /** The TypeScript constructor: it throws unless both `NOTION_TOKEN` and
      `NOTION_DATABASE_ID` are set and non-empty. */
  function NewClientTs(env: Env): (r: Result<ClientConfig, string>)
    ensures r.Err? <==> !IsSet(env, "NOTION_TOKEN") || !IsSet(env, "NOTION_DATABASE_ID")
    ensures r.Ok? ==> r.value.token == Some(env["NOTION_TOKEN"])
                      && r.value.databaseId == Some(env["NOTION_DATABASE_ID"])
  {
    if !IsSet(env, "NOTION_TOKEN") || !IsSet(env, "NOTION_DATABASE_ID") then Err(MissingConfig)
    else Ok(ClientConfig(Lookup(env, "NOTION_TOKEN"), Lookup(env, "NOTION_DATABASE_ID")))
  }

  /** The JavaScript constructor performs no check: missing variables are
      passed on as `undefined`. */
  function NewClientJs(env: Env): (r: ClientConfig)
    ensures r.token.Some? <==> "NOTION_TOKEN" in env
    ensures r.databaseId.Some? <==> "NOTION_DATABASE_ID" in env
  {
    ClientConfig(Lookup(env, "NOTION_TOKEN"), Lookup(env, "NOTION_DATABASE_ID"))
  }

  /** `testConnection`: `true` when the database retrieval succeeds, `false`
      on any error; it never throws. */
  function TestConnection(retrieval: Result<(), string>): (r: bool)
    ensures r <==> retrieval.Ok?
  {
    match retrieval
    case Ok(_) => true
    case Err(_) => false
  }
}
