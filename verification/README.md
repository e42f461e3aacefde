# Notion → Markdown sync, modelled in Dafny

The repository's scripts pull the published posts of a Notion database and
write each one as a Markdown file with a front-matter header. Two parallel
implementations exist, one in TypeScript and one in JavaScript. This project
models the deterministic core of both:

- **the Notion client**
  - the required-tag filter and the tag-title cache it builds in batches of ten;
  - the fallback chains for post and tag-page titles;
  - the constructor's environment check and `testConnection`;
  - the JavaScript client's recursive, paginated block fetch.
- **the Markdown converter**
  - the custom block transformers (code, quote, callout, divider, table);
  - the post-processing pipeline: collapse blank lines, strip trailing blanks, trim, re-indent code fences, rewrite links, rewrite images;
  - `extractMetadata` in both of its shapes.
- **the image processor**
  - URL classification;
  - the content-type → extension map;
  - the sanitised, digest-addressed file name;
  - the download-or-fall-back contract;
  - the `![alt](url)` rewrite scan.
- **the front-matter generators**
  - the TypeScript `key: "value"` header and the JavaScript YAML;
  - the title, date, hero-image, tag and series fallbacks;
  - both file-name slug rules.
- **the sync scripts**
  - `validateEnvironment` and the parsing of `NOTION_REQUIRED_TAGS`;
  - the per-post state machine (created, updated, skipped, error) and the run counters;
  - the header re-reader and the skip-on-unchanged test (TypeScript only);
  - `withRetry`.

Everything the scripts do through the network, the file system or the clock
enters the model as a value or a function parameter:

- the database query result;
- a tag-page lookup `id -> Result<Page, string>`;
- the block-page fetcher `(blockId, cursor) -> Result<PageResp, string>`;
- the notion-to-md library's output for a page (`source`);
- an ISO-8601 normaliser standing for `new Date(x).toISOString()`;
- the current instant;
- the WHATWG pathname parser;
- an MD5 digest function;
- the content directory as a map from file name to text;
- a write oracle `(name, text) -> Option<error>` telling whether `fs.writeFile` throws;
- an image saver `(url, postTitle) -> path` standing for `downloadAndSaveImage`
  inside the sync pipeline (`SyncTs.World.save`, which both sync scripts use).
  It is left unconstrained there: whatever path it returns is the one written
  into the Markdown. The saver's own contract, a local path on
  success and the original URL on failure, is modelled on its own in
  `ImageProcessor.DownloadAndSaveImage`.

Strings are `seq<char>`. Each regular expression is modelled by a "match at
position `i`" function that reproduces the backtracking outcome. The
left-to-right global replacement is modelled by a generic scanner (module
`Scan`). `\w` is ASCII `[A-Za-z0-9_]`. `\s` and `trim` use the ECMAScript
white-space and line-terminator set.

Modules:
- `Wrappers`: `Option`, `Result`.
- `Text`: string helpers.
- `Scan`: the replacement scanner.
- `NotionModel`: pages, properties, blocks.
- `NotionClient`, `BlockTree`: the client.
- `MarkdownCommon`, `MarkdownTs`, `MarkdownJs`: the converter.
- `ImageProcessor`: the image processor.
- `FrontmatterTs`, `FrontmatterJs`: the front-matter generators.
- `Sync`, `SyncTs`, `SyncJs`: the sync scripts.

Logic that is textually the same in both variants is modelled once:
- the tag filter and both title chains;
- the image processor apart from `extractImageUrlFromBlock`;
- the clean-up steps and the code, quote and divider transformers;
- `validateEnvironment`, tag parsing and `withRetry`.

The variants are kept apart wherever they differ:
- the callout prefix;
- fence re-indentation and `normalizeLinks`;
- `extractMetadata`;
- the front-matter shape and the file-name rule;
- the sync loop.

Two consequences of the code are worth stating:
- **File names for titles without usable characters.** The TypeScript
  `generateFileName` has no fallback: such a title yields exactly `.md`
  (`FrontmatterTs.GenerateFileNameTsEmpty`). The JavaScript one does the
  same (`FrontmatterJs.GenerateFileNameJsEmpty`).
- **Image files per URL.** The stored name starts with the sanitised post
  title, so the same URL under two titles is stored as two files.
  `ImageProcessor.StoredNameInjective` states exactly when two names
  coincide.

## Model

| member | source | states |
|---|---|---|
| NotionModel.ExtractPostTitle | scripts/utils/notion-client.ts:204-216 | The post title is the first `plain_text` of `Title`, else of `Name`, else `'Untitled'` (the same chain as notion-client.js:165-177, sync-notion.js:198-210 and frontmatter-generator.ts:51-63) |
| NotionClient.ResolveTag | scripts/utils/notion-client.ts:143 | A relation resolves to its cached title, or to `'Unknown'` when the cache has no entry or an empty title; it is never empty |
| NotionClient.AnyResolvesTo | scripts/utils/notion-client.ts:147 | True exactly when some relation of the post resolves to the given name |
| NotionClient.AllRequired | scripts/utils/notion-client.ts:146-148 | True exactly when every required tag is resolved from some relation |
| NotionClient.HasRequiredTagsCached | scripts/utils/notion-client.ts:139-140 | No required tags accepts every post; required tags and no relations refuses the post |
| NotionClient.HasRequiredTagsIff | scripts/utils/notion-client.ts:139-148 | With at least one relation, a post is accepted iff each required tag equals, case-sensitively, the resolved name of one of its relations |
| NotionClient.UnknownMatchesUnresolved | scripts/utils/notion-client.ts:143-148 | Requiring `'Unknown'` accepts any post with a relation that is missing from the cache or has an empty title |
| NotionClient.MoreTagsStillAccepted | scripts/utils/notion-client.ts:146-148 | Adding relations to an accepted post never makes the filter refuse it |
| NotionClient.AcceptedMembers | scripts/utils/notion-client.ts:62-69 | A post is in the filtered list iff it is among the query results and passes `hasRequiredTagsCached` |
| NotionClient.AcceptedIsSubsequence | scripts/utils/notion-client.ts:60-69 | The filtered list is a subsequence of the query results, in query order |
| NotionClient.AcceptedAllWhenNoTags | scripts/utils/notion-client.ts:139 | With no required tags the filter loop keeps every post |
| NotionClient.FilterPosts | scripts/utils/notion-client.ts:60-72 | The loop over the query results pushes exactly the accepted posts, in order |
| NotionClient.GetPublishedPosts | scripts/utils/notion-client.ts:32-79 | A failed query propagates. Without required tags the results come back unchanged. Otherwise the cache has one key per relation ID of the results, and the answer is the accepted subsequence |
| NotionClient.AllRelationIds | scripts/utils/notion-client.ts:88-91 | An ID is collected iff it is a relation of some post |
| NotionClient.Dedup | scripts/utils/notion-client.ts:85-97 | The ID list built from the set holds each collected ID exactly once, and only those |
| NotionClient.ScheduleShape | scripts/utils/notion-client.ts:99-125 | The batches concatenate to the ID list, so every ID lands in exactly one batch, in order. Each batch holds 1 to 10 IDs. A pause sits only between two batches, never first or last |
| NotionClient.CacheFor | scripts/utils/notion-client.ts:104-119 | The cache filled from a list of IDs has exactly those IDs as keys |
| NotionClient.FetchInBatches | scripts/utils/notion-client.ts:99-125 | The batched loop fills the cache with one entry per ID and follows the batch-and-pause schedule |
| NotionClient.BuildTagCache | scripts/utils/notion-client.ts:84-129 | The cache keys are exactly the relation IDs of all posts. Each value is the tag page's title, or `'Unknown'` when the lookup fails, without aborting the batch |
| NotionClient.FirstTitle | scripts/utils/notion-client.ts:277-282 | The first property, in entry order, with a non-empty `title` array gives the title; none when no property has one |
| NotionClient.FirstRichText | scripts/utils/notion-client.ts:285-290 | The same as `FirstTitle`, for the first non-empty `rich_text` array |
| NotionClient.GetPageTitle | scripts/utils/notion-client.ts:260-307 | Tries a lowercase `title`, then `Name`, then any title, then any rich text, else `'Untitled'`. The result always comes from one of these or is `'Untitled'`, and it never throws |
| NotionClient.PostTitleAgreesWithPageTitle | scripts/utils/notion-client.ts:204-216 | On a page whose only non-empty title is its `Title` or `Name` property, the post-title and tag-title chains agree |
| NotionClient.NewClientTs | scripts/utils/notion-client.ts:15-27 | The TypeScript constructor throws iff `NOTION_TOKEN` or `NOTION_DATABASE_ID` is unset or empty, and otherwise keeps both values |
| NotionClient.NewClientJs | scripts/utils/notion-client.js:7-12 | The JavaScript constructor never throws: a value is present iff the variable is defined |
| NotionClient.TestConnection | scripts/utils/notion-client.js:263-273 | `true` iff the database retrieval succeeds, `false` on any error |
| BlockTree.GetPageBlocks | scripts/utils/notion-client.js:229-257 | A failed first page fetch is the result's error, so no partial tree is returned. A success carries children exactly on the blocks flagged `has_children`, and each block's children are the fetch of that block's own id |
| BlockTree.PagesSound | scripts/utils/notion-client.js:229-257 | A successful fetch has children exactly on the blocks flagged `has_children`, all the way down, each the fetch of the block's own id. Its top level is the result pages concatenated in cursor order |
| BlockTree.AttachSound | scripts/utils/notion-client.js:241-247 | Attaching children keeps each page's blocks in order and gives each `has_children` block the fetch of its own id |
| BlockTree.PagesFuelMonotone | scripts/utils/notion-client.js:229-257 | A fetch that succeeds within a recursion budget gives the same tree under any larger budget |
| BlockTree.AttachFuelMonotone | scripts/utils/notion-client.js:241-247 | The same for one page's children |
| Sync.Missing | scripts/sync-notion.ts:90-91 | A variable is listed as missing iff it is required and unset or empty, in the required order |
| Sync.ValidateEnvironment | scripts/sync-notion.ts:87-101 | Throws iff a required variable is unset or empty; the message starts with the prefix and the missing names joined by `, ` (sync-notion.js:70-84 is the same) |
| Sync.BothMissing | scripts/sync-notion.ts:94-97 | With both variables missing, the message names `NOTION_TOKEN, NOTION_DATABASE_ID` in that order |
| Sync.ParseRequiredTags | scripts/sync-notion.ts:136-138 | Unset or empty gives no tags. Otherwise at least one tag, each trimmed and free of commas (sync-notion.js:119-121 is the same) |
| Sync.ParseRequiredTagsJoin | scripts/sync-notion.ts:136-138 | Tags written comma-separated are read back exactly, empty ones included |
| Sync.WithRetry | scripts/sync-notion.ts:311-332 | Returns the first success, after failures only. After `maxRetries` failures it throws the last error. It waits `delay * attempt` after each failure but the last |
| SyncTs.HeaderBlock | scripts/sync-notion.ts:275 | The header is the text between a leading `---\n` and the first later `\n---`; absent when either is missing |
| SyncTs.ReadLine | scripts/sync-notion.ts:279-288 | A line is ignored iff it has no `:` |
| SyncTs.ReadLinesKeys | scripts/sync-notion.ts:279-288 | Every key of the parsed object was set by some header line |
| SyncTs.ReadLinesLast | scripts/sync-notion.ts:279-288 | The last line setting a key decides its value |
| SyncTs.ReadExistingFrontmatter | scripts/sync-notion.ts:272-293 | An unreadable file or one without a leading `---\n` gives `{}` |
| SyncTs.ReadQuoted | scripts/sync-notion.ts:283-286 | A value written in double quotes reads back as its escaped text: one pair of quotes removed, nothing unescaped |
| SyncTs.ReadRendered | scripts/sync-notion.ts:272-293 | Reading back a header of `key: value` lines recovers only written keys, and each key's last written value |
| SyncTs.TsPairKeys | scripts/utils/frontmatter-generator.ts:6-33 | The TypeScript generator writes only `title`, `pubDate`, `tags` and `updatedDate`, all of which the reader recovers intact |
| SyncTs.TsTitleFirst | scripts/utils/frontmatter-generator.ts:7-15 | A non-empty title is the first written pair and the only `title` |
| SyncTs.TsUpdatedLast | scripts/utils/frontmatter-generator.ts:103-105 | A non-empty `updatedDate` is the last written pair |
| SyncTs.HeaderRoundTrip | scripts/sync-notion.ts:272-293 | The reader recovers the TypeScript generator's header. Only generator keys appear, the title reads back escaped, and `updatedDate` reads back as the date part of the edit time |
| SyncTs.StoredUpdate | scripts/sync-notion.ts:200 | A non-empty `updatedAt` is the stored value; otherwise `updatedDate` when present |
| SyncTs.SkipDecision | scripts/sync-notion.ts:196-214 | Nothing stored: no skip. A stored value with `T` that does not parse throws. A skip means equal normalised instants when the stored value has `T`, and equal calendar dates otherwise |
| SyncTs.SkipOnDate | scripts/sync-notion.ts:202-207 | A header holding only a date under `updatedDate` is skipped iff that date is the remote edit's date |
| SyncTs.RerunSkipIffSameDay | scripts/sync-notion.ts:197-207 | On a file the TypeScript generator wrote, the post is skipped iff the remote edit falls on the stored calendar day, even when it is a later edit that day |
| SyncTs.ConvertTs | scripts/sync-notion.ts:186 | A library failure propagates; otherwise the Markdown after `postProcessMarkdown` as written, with images saved under the post title |
| SyncTs.NotionIso | scripts/sync-notion.ts:198 | The remote ISO instant, which throws on a missing or unparseable edit time |
| SyncTs.Prepare | scripts/sync-notion.ts:178-189 | Fails iff front matter or conversion fails. The name is `generateFileName(title)`. The text is front matter, `\n`, Markdown |
| SyncTs.Settle | scripts/sync-notion.ts:193-234 | No prior file: the write is attempted; it succeeds iff the write oracle reports no error, and then the file holds the text and is marked created, otherwise the write error is the error. Prior file: skipped without a write iff the skip test says so, else written and marked updated. Throws iff the edit-time conversion or the skip test throws, or the attempted write fails |
| SyncTs.ProcessPostTs | scripts/sync-notion.ts:177-236 | Conversion failures run before the skip test, so they fail the post. Otherwise the outcome and files are those of the write-or-skip step, with title and file name recorded |
| SyncTs.SecondRunSkips | scripts/sync-notion.ts:193-215 | Processing a post again with nothing changed remotely skips it and leaves the directory untouched |
| SyncTs.Count | scripts/sync-notion.ts:221-229 | A success increments `success` and exactly one of created, updated, skipped, and nothing else |
| SyncTs.StepTallies | scripts/sync-notion.ts:159-171 | One more post keeps the counting laws: success plus errors is the number of posts, created plus updated plus skipped is success, and the results table matches the counters |
| SyncTs.RunPosts | scripts/sync-notion.ts:156-172 | Every post is tried in order and an error never stops the run; after `n` posts the counting laws hold for `n` |
| SyncTs.ProcessPostsTs | scripts/sync-notion.ts:145-172 | With `total` set to the number of posts: `success + errors = total`, `created + updated + skipped = success`, and each counter equals the number of results with that status |
| SyncJs.ConvertJs | scripts/sync-notion.js:168 | The JavaScript conversion: `postProcessMarkdown` as written, with images always saved under the default title `untitled` |
| SyncJs.PrepareJs | scripts/sync-notion.js:159-175 | Fails iff front matter or conversion fails; the name comes from the JavaScript slug; the text is front matter, `\n`, Markdown |
| SyncJs.Write | scripts/sync-notion.js:175-191 | Never skips. Fails iff preparation failed or the write throws, and a write failure is the error. On success the directory maps the name to the text, and the post counts as created iff no file of that name existed |
| SyncJs.ProcessPostJs | scripts/sync-notion.js:158-193 | Fails iff the front matter, the conversion or the write fails. Otherwise the file named from the title holds front matter, `\n` and Markdown, every other file is unchanged, the post is never skipped, and it counts as created exactly when no file of that name existed |
| SyncJs.WriteTwice | scripts/sync-notion.js:175-187 | Writing the same prepared file again reports an update and leaves the directory as it was |
| SyncJs.SecondRunRewrites | scripts/sync-notion.js:159-193 | Processing a post again rewrites the same file with the same text and reports it as updated |
| SyncJs.RunPostsJs | scripts/sync-notion.js:139-154 | Every post is tried and errors do not stop the run. `success + errors = total` and `created + updated = success` |
| SyncJs.ProcessPostsJs | scripts/sync-notion.js:22-29 | With this script's `processPost`, `skipped` stays 0 and `created + updated = success = total - errors` |
| MarkdownCommon.CodeBlock | scripts/utils/markdown-converter.ts:49-57 | A fence with the language (or nothing), a newline, exactly the concatenated text, a newline and a closing fence |
| MarkdownCommon.QuoteBlock | scripts/utils/markdown-converter.ts:60-66 | `> ` followed by exactly the concatenated text |
| MarkdownCommon.CalloutIcon | scripts/utils/markdown-converter.ts:71 | The icon emoji when truthy, else a non-empty default |
| MarkdownTs.CalloutTs | scripts/utils/markdown-converter.ts:69-77 | Icon, ` **`, exactly the text, `**`, with no quote prefix |
| MarkdownTs.CalloutDefaultIcon | scripts/utils/markdown-converter.ts:71 | Without a usable emoji the callout opens with 💡 |
| MarkdownTs.TransformTs | scripts/utils/markdown-converter.ts:47-83 | Exactly code, quote, callout and divider blocks have a custom rendering, each the one above; the divider is `---` |
| MarkdownJs.CalloutJs | scripts/utils/markdown-converter.js:45-51 | `> ` followed by the TypeScript callout |
| MarkdownJs.TransformJs | scripts/utils/markdown-converter.js:75-79 | The table transformer defers to the library default |
| MarkdownJs.TransformAgree | scripts/utils/markdown-converter.js:43-80 | Both converters render every block alike except callouts, which the JavaScript one prefixes with `> ` |
| MarkdownCommon.CollapseBlankLines | scripts/utils/markdown-converter.ts:94 | After replacing each run of three or more newlines by two, no three newlines are adjacent anywhere in the result (carried by the induction `CollapseFrom`) |
| MarkdownCommon.StripTrailingBlanks | scripts/utils/markdown-converter.ts:97 | After deleting the spaces and tabs before each line end, no space or tab is followed by a line terminator or ends the text (carried by the induction `StripFrom`) |
| MarkdownCommon.CleanUp | scripts/utils/markdown-converter.ts:93-100 | After collapse, strip and trim, the text neither starts nor ends with white space |
| MarkdownCommon.CleanUpNoTrailingBlank | scripts/utils/markdown-converter.ts:93-100 | The clean-up still leaves no line ending in a blank |
| MarkdownCommon.CleanUpKeepsBlankRun | scripts/utils/markdown-converter.ts:93-100 | Because the strip runs after the collapse, `a\n\n \n\nb` comes out with four newlines in a row (see Findings) |
| MarkdownCommon.CleanUpCorrected | scripts/utils/markdown-converter.ts:93-100 | With the strip moved before the collapse, no three newlines remain after trimming |
| MarkdownCommon.TrimNoTriple | scripts/utils/markdown-converter.ts:100 | Trimming creates no run of three newlines |
| MarkdownCommon.HeadingAt | scripts/utils/markdown-converter.ts:187 | A heading match starts a line with 1 to 6 `#`, then white space, then a capture that runs to the end of its line |
| MarkdownCommon.HeadingHits | scripts/utils/markdown-converter.ts:187-190 | Every heading hit is a non-empty stretch of the text |
| MarkdownCommon.MinIndent | scripts/utils/markdown-converter.ts:125-133 | No minimum iff every line is blank; otherwise at most the indent of every non-blank line |
| MarkdownCommon.MinIndentAttained | scripts/utils/markdown-converter.ts:128-133 | The minimum is the indent of some non-blank line |
| MarkdownCommon.MinIndentZero | scripts/utils/markdown-converter.ts:128-133 | A non-blank line at column zero makes the minimum zero |
| MarkdownTs.DedentTsLines | scripts/utils/markdown-converter.ts:122-141 | The lines of the re-indented body are the lines with the common indent removed, blank lines kept as they are, line count preserved |
| MarkdownTs.DedentTsIdempotent | scripts/utils/markdown-converter.ts:117-144 | Re-indenting a block body twice is re-indenting it once |
| MarkdownTs.DedentTsFlush | scripts/utils/markdown-converter.ts:126 | A body whose lines are all blank, or whose minimum indent is zero, is unchanged |
| MarkdownTs.FenceTsAt | scripts/utils/markdown-converter.ts:119 | A fence match is a fence, a `\w*` language tag, a newline, the body, and the first following `\n` fence |
| MarkdownTs.FixTs | scripts/utils/markdown-converter.ts:117-144 | Text in which no fence occurs comes back unchanged, because the fence pattern can match nowhere (carried by `FenceFreeKept` and the scan lemma `ReplaceAllNoMatch`) |
| MarkdownTs.FixTsFlush | scripts/utils/markdown-converter.ts:117-144 | When every block the scan meets is already flush left or blank, the re-indentation changes nothing |
| MarkdownJs.DedentJs | scripts/utils/markdown-converter.js:119-144 | An empty body is returned as the match; otherwise the new body is trimmed |
| MarkdownJs.DedentJsNormal | scripts/utils/markdown-converter.js:123-143 | A body already trimmed, with every line empty or non-blank, comes back without the newline before the fence |
| MarkdownJs.FenceJsAt | scripts/utils/markdown-converter.js:119 | A fence match is a fence, an optional word tag, a newline, the body and the next fence |
| MarkdownJs.FixJs | scripts/utils/markdown-converter.js:118-145 | Text in which no fence occurs comes back unchanged (carried by `FenceFreeKept` and `ReplaceAllNoMatch`) |
| MarkdownJs.FixJsNormal | scripts/utils/markdown-converter.js:118-145 | Re-applying the re-indentation to adjusted blocks leaves them unchanged |
| MarkdownJs.DedentJsOutputNormal | scripts/utils/markdown-converter.js:119-144 | Whatever the re-indentation returns for a block body is in the form the re-indentation leaves unchanged |
| MarkdownJs.FixJsIdempotentBlock | scripts/utils/markdown-converter.js:118-145 | On a text that is one fenced block, re-indenting twice is re-indenting once |
| MarkdownTs.NotionLinkAt | scripts/utils/markdown-converter.ts:152 | A link match is `[`, non-empty text without `]`, `](https://www.notion.so/`, a non-empty target without `)`, and `)` |
| MarkdownTs.NormalizeLinksTs | scripts/utils/markdown-converter.ts:149-155 | Text in which `](https://www.notion.so/` never occurs comes back unchanged (carried by `NoNotionLinkKept` and `ReplaceAllNoMatch`) |
| MarkdownTs.NormalizeLinksTsDropsImage | scripts/utils/markdown-converter.ts:149-155 | An image link into `www.notion.so` becomes `![alt](#)` (see Findings) |
| MarkdownTs.NormalizeLinksTsDropsNotionImage | scripts/utils/markdown-converter.ts:149-155 | `![a](https://www.notion.so/image/x)` is an image URL by `isImageUrl`, yet the link rewrite turns it into `![a](#)` |
| MarkdownTs.NormalizeLinksTsFixedNoNotion | scripts/utils/markdown-converter.ts:149-155 | The corrected rewrite also leaves text without Notion links unchanged |
| MarkdownTs.NormalizeLinksTsFixedKeepsImage | scripts/utils/markdown-converter.ts:149-155 | The corrected rewrite leaves every image link untouched |
| MarkdownJs.NotionIdLinkAt | scripts/utils/markdown-converter.js:155-156 | Every match's replacement is exactly the matched text |
| MarkdownJs.NormalizeLinksJs | scripts/utils/markdown-converter.js:152-158 | The JavaScript `normalizeLinks` returns its input unchanged on every text: each match is replaced by its own text (carried by `NotionIdLinkAt` and `ReplaceAllIdentity`) |
| MarkdownTs.PostProcessTs | scripts/utils/markdown-converter.ts:88-112 | Empty input gives empty output |
| MarkdownTs.PostProcessTsPlain | scripts/utils/markdown-converter.ts:88-112 | Text whose cleaned form has no backtick and no `[` goes through the as-written clean-up only, and no line of the result ends in a blank |
| MarkdownTs.PostProcessTsKeepsBlankRun | scripts/utils/markdown-converter.ts:88-112 | The pipeline as written turns `a\n\n \n\nb` into `a\n\n\n\nb`, a run of four newlines (see Findings) |
| MarkdownTs.PostProcessTsFixedPlain | scripts/utils/markdown-converter.ts:88-112 | The pipeline with the corrected clean-up and link rewrite gives plain text its corrected clean-up, with no run of three newlines |
| MarkdownJs.PostProcessJs | scripts/utils/markdown-converter.js:87-111 | Empty input gives empty output |
| MarkdownJs.PostProcessJsPlain | scripts/utils/markdown-converter.js:87-111 | Text whose cleaned form has no fence and no `![` goes through the as-written clean-up only, and no line of the result ends in a blank; Notion links survive |
| MarkdownJs.PostProcessJsKeepsBlankRun | scripts/utils/markdown-converter.js:87-111 | The pipeline as written turns `a\n\n \n\nb` into `a\n\n\n\nb` (see Findings) |
| MarkdownJs.PostProcessJsFixedPlain | scripts/utils/markdown-converter.js:87-111 | With the corrected clean-up, plain text keeps no run of three newlines |
| MarkdownTs.DescriptionTs | scripts/utils/markdown-converter.ts:181-184 | At most 160 UTF-16 code units, none `#` or newline, no leading white space; empty when the text starts with `#` or a newline |
| MarkdownTs.DescriptionTsFirstParagraph | scripts/utils/markdown-converter.ts:181-184 | The description of a first paragraph is its trimmed text cut at 160 UTF-16 code units; a paragraph that fits comes back whole |
| MarkdownTs.DescriptionTsCountsUnits | scripts/utils/markdown-converter.ts:183 | `💡 ` followed by 200 `a`s keeps only 157 of them, because the emoji takes two code units |
| MarkdownTs.HeadingsTs | scripts/utils/markdown-converter.ts:187-190 | One non-empty, single-line capture per heading match, in document order |
| MarkdownTs.HeadingsTsNoHash | scripts/utils/markdown-converter.ts:187-190 | Text without `#` has no headings |
| MarkdownTs.HeadingsTsOneLine | scripts/utils/markdown-converter.ts:187-190 | A line of 1 to 6 `#`, a space and text is read back as that text |
| MarkdownTs.ExtractMetadataTs | scripts/utils/markdown-converter.ts:174-193 | The metadata is the description and the headings above |
| MarkdownJs.RemoveSpans | scripts/utils/markdown-converter.js:191-194 | Removing code blocks, images and links never lengthens the text |
| MarkdownJs.CleanText | scripts/utils/markdown-converter.js:191-196 | The counted text is no longer than the input and holds no `#*>` backtick or `-` |
| MarkdownJs.ReadingTime | scripts/utils/markdown-converter.js:199 | The reading time is the ceiling of the count divided by 500 |
| MarkdownJs.HeadingsJs | scripts/utils/markdown-converter.js:202-209 | One heading per heading match |
| MarkdownJs.HeadingsAgree | scripts/utils/markdown-converter.js:202-209 | Each heading's level is its `#` count, and its text is the TypeScript capture without leading white space |
| MarkdownJs.ExtractMetadataJs | scripts/utils/markdown-converter.js:181-220 | The word count lies between the cleaned text's character count and twice the input length; the reading time is its ceiling over 500; there is one heading per match |
| MarkdownJs.MetadataCountsZero | scripts/utils/markdown-converter.js:211-217 | No fence gives zero code blocks; no `![` gives zero images |
| MarkdownJs.PlainWordCount | scripts/utils/markdown-converter.js:190-198 | Text without code, brackets or markup counts the UTF-16 length of its trimmed text, which is its character count when every character lies in the Basic Multilingual Plane |
| MarkdownJs.WordCountUnits | scripts/utils/markdown-converter.js:198 | `💡 **x**` counts 4: the emoji takes two code units, the space and `x` one each |
| Text.Utf16LengthBmp | scripts/utils/markdown-converter.js:198 | On the Basic Multilingual Plane `length` is the number of characters |
| Text.Utf16LengthAppend | scripts/utils/markdown-converter.js:198 | The length of a concatenation is the sum of the lengths |
| Text.TakeUnits | scripts/utils/markdown-converter.ts:183 | `substring(0, n)`: a prefix whose UTF-16 length fits in `n` and that the next character would overflow; a string that fits is kept whole |
| Text.TakeUnitsExact | scripts/utils/markdown-converter.ts:183 | Any prefix that fits and cannot be extended is the one kept |
| ImageProcessor.IsImageUrl | scripts/utils/image-processor.ts:67-85 | An unparseable URL is not an image. A parseable one is an image iff its lower-cased pathname has a supported extension, or the URL contains `notion.so` and either contains `/image/` or has a dot in its pathname |
| ImageProcessor.ImageExtensionIgnoresCase | scripts/utils/image-processor.ts:70-74 | The extension test ignores letter case |
| ImageProcessor.NotionDotPathIsImage | scripts/utils/image-processor.ts:77-79 | A parseable `notion.so` URL whose pathname holds a dot is an image, whatever its extension |
| ImageProcessor.ExtensionFromContentType | scripts/utils/image-processor.ts:143-154 | Six MIME types map, after lower-casing, to their extension. `constructor` and `__proto__` hit the object's inherited members and give their string forms. Anything else gives `.jpg`. The result is a supported extension iff the type is not one of those two keys |
| ImageProcessor.ExtensionIgnoresCase | scripts/utils/image-processor.ts:143-154 | The lookup does not depend on letter case |
| ImageProcessor.SanitizeFileName | scripts/utils/image-processor.ts:159-166 | The result has only `[a-z0-9_-]` and at most 30 characters |
| ImageProcessor.SanitizeSafeName | scripts/utils/image-processor.ts:159-166 | A name already made of those characters and at most 30 long is unchanged |
| ImageProcessor.SanitizeIdempotent | scripts/utils/image-processor.ts:159-166 | Sanitising twice is sanitising once |
| ImageProcessor.StoredName | scripts/utils/image-processor.ts:110-112 | The stored name starts with the sanitised title and ends with the extension |
| ImageProcessor.StoredNameInjective | scripts/utils/image-processor.ts:110-112 | Two stored names coincide only when the sanitised titles, the first 8 digest characters and the extensions coincide |
| ImageProcessor.RelativeImagePath | scripts/utils/image-processor.ts:171-173 | `/images/notion/` followed by the file name |
| ImageProcessor.DownloadAndSaveImage | scripts/utils/image-processor.ts:90-138 | A rejected request or non-ok status gives the original URL. A write happens only when the file is absent. The result is the URL or the relative path of the derived name |
| ImageProcessor.DownloadReusesStoredFile | scripts/utils/image-processor.ts:116-122 | Downloading again after a write reuses the stored file without writing |
| ImageProcessor.LinkShapeAt | scripts/utils/image-processor.ts:185 | A match is `![`, alt text without `]`, `](`, a non-empty URL without `)`, `)` |
| ImageProcessor.LinkIntro | scripts/utils/image-processor.ts:185 | Conversely, every text of that shape is matched whole at its start, with its alt text and URL captured |
| ImageProcessor.LinkMatcherAt | scripts/utils/image-processor.ts:185-190 | The `exec` loop matches exactly where the pattern does, and resumes after the whole link |
| ImageProcessor.ImageCandidates | scripts/utils/image-processor.ts:190-203 | The candidates are exactly the found links whose URL passes `isImageUrl` |
| ImageProcessor.ProcessImagesInMarkdown | scripts/utils/image-processor.ts:178-226 | With no candidate the text is returned unchanged |
| ImageProcessor.AllDownloadsFailed | scripts/utils/image-processor.ts:131-137 | When every download falls back to its URL and no link holds a `$`, the Markdown is unchanged |
| ImageProcessor.OneLinkRewritten | scripts/utils/image-processor.ts:190-215 | A text with a single link, an image, whose text occurs nowhere before it: the link is replaced by `![alt](local path)` with the replacement's `$` patterns expanded; the corrected rewrite inserts it literally |
| ImageProcessor.DollarFallbackChanges | scripts/utils/image-processor.ts:215 | An image link whose URL holds `$$` and whose download fails becomes the link with a single `$`; the corrected rewrite leaves it unchanged (see Findings) |
| ImageProcessor.AllDownloadsFailedFixed | scripts/utils/image-processor.ts:131-137 | With the replacement inserted literally, a text whose downloads all fall back is unchanged, `$` or not |
| Text.ReplaceFirst | scripts/utils/image-processor.ts:215 | `replace` with a string pattern changes only the first occurrence, and with a `$`-free replacement it inserts the replacement literally |
| Text.SubstitutePlain | scripts/utils/image-processor.ts:215 | The `$`-free head of a replacement string is copied as it stands |
| ImageProcessor.ExtractImageUrlTs | scripts/utils/image-processor.ts:43-62 | A URL is returned only for an image block, or for an embed whose URL passes `isImageUrl`; never empty |
| ImageProcessor.ExtractImageUrlJs | scripts/utils/image-processor.js:30-53 | A missing `image` or `embed` object throws; other block types give null |
| ImageProcessor.ExtractImageUrlAgree | scripts/utils/image-processor.js:30-53 | On blocks carrying every object they name, the JavaScript and TypeScript versions agree |
| FrontmatterTs.Escape | scripts/utils/frontmatter-generator.ts:24 | Every `"` in the result is preceded by a backslash; quote-free strings are unchanged |
| FrontmatterTs.UnescapeEscape | scripts/utils/frontmatter-generator.ts:24 | Escaping loses nothing: unescaping gives the string back |
| FrontmatterTs.Format | scripts/utils/frontmatter-generator.ts:23-25 | A string is quoted with its escape inside; an ID list is comma-joined, unquoted |
| FrontmatterTs.PairLines | scripts/utils/frontmatter-generator.ts:22-26 | One `key: value` line per kept pair |
| FrontmatterTs.Render | scripts/utils/frontmatter-generator.ts:18-32 | A `---` line, the pair lines and a `---` line, joined by newlines with no trailing one |
| FrontmatterTs.PubDate | scripts/utils/frontmatter-generator.ts:76-87 | The date part of the creation time, or of now; an unparseable time throws |
| FrontmatterTs.TagIds | scripts/utils/frontmatter-generator.ts:96-100 | Tags are present only for a non-empty relation list |
| FrontmatterTs.AdditionalMetadata | scripts/utils/frontmatter-generator.ts:92-108 | Throws iff the edit time is set but does not parse |
| FrontmatterTs.GenerateFrontmatterTs | scripts/utils/frontmatter-generator.ts:6-33 | Throws iff a date it reads does not parse; otherwise the header is framed by `---` lines |
| FrontmatterTs.FrontmatterTsPairs | scripts/utils/frontmatter-generator.ts:6-33 | Written keys in order: `title` unless empty, never `description`, `pubDate`, then `tags` and `updatedDate` when present |
| FrontmatterTs.GenerateFileNameTs | scripts/utils/frontmatter-generator.ts:38-46 | Ends in `.md`; the slug has at most 100 characters from `[a-z0-9_.-]`, none upper-case or white space |
| FrontmatterTs.GenerateFileNameTsAllowed | scripts/utils/frontmatter-generator.ts:38-46 | The slug is the title's `[\w.-]` characters, in order, lower-cased and cut at 100 |
| FrontmatterTs.GenerateFileNameTsEmpty | scripts/utils/frontmatter-generator.ts:38-46 | A title without an allowed character gives exactly `.md` |
| FrontmatterTs.GenerateFileNameTsIdempotent | scripts/utils/frontmatter-generator.ts:38-46 | Deriving a file name from a slug gives the same file name |
| FrontmatterTs.SlugFixed | scripts/utils/frontmatter-generator.ts:38-46 | A lower-case slug of at most 100 allowed characters is its own slug |
| FrontmatterJs.ExtractDescription | scripts/utils/frontmatter-generator.js:68-80 | `Description`, else `Summary`, else empty |
| FrontmatterJs.ExtractPublishDate | scripts/utils/frontmatter-generator.js:87-105 | `PublishDate` start, else `Date` start, else the creation time's date part, else today's date |
| FrontmatterJs.HeroOf | scripts/utils/frontmatter-generator.js:112-132 | `src` is the hosted URL when hosted, else the external one; `alt` is the name or `Hero image`; a file with neither throws |
| FrontmatterJs.ExtractHeroImage | scripts/utils/frontmatter-generator.js:112-132 | The first file of `HeroImage`, else of `Image`, else none |
| FrontmatterJs.ExtractTags | scripts/utils/frontmatter-generator.js:139-151 | The names of `Tags`, else of `Category`, else none |
| FrontmatterJs.ExtractSeries | scripts/utils/frontmatter-generator.js:158-165 | A series is present iff the `Series` selection has a truthy name |
| FrontmatterJs.GenerateYaml | scripts/utils/frontmatter-generator.js:172-199 | The output opens and closes with `---\n` |
| FrontmatterJs.YamlTerminated | scripts/utils/frontmatter-generator.js:172-199 | The output is the opening line, each entry's lines in order, and the closing line, every one newline-terminated |
| FrontmatterJs.YamlSplit | scripts/utils/frontmatter-generator.js:172-199 | Split at newlines, the YAML gives exactly those lines and an empty tail, given values without newlines |
| FrontmatterJs.EntriesJs | scripts/utils/frontmatter-generator.js:10-42 | Fails iff the hero image fails; otherwise the entries open with `title`, `description` and `pubDate`, holding the three extracted strings |
| FrontmatterJs.EntriesJsOptional | scripts/utils/frontmatter-generator.js:24-39 | The keys are `title`, `description`, `pubDate`, then `heroImage` iff a hero image was found, `tags` iff the tag list is non-empty, `series` iff a series was found; `heroImage` holds `{src, alt}` of that image, `tags` the list of tag names, `series` the series name, and each key is absent otherwise |
| FrontmatterJs.EntriesJsLines | scripts/utils/frontmatter-generator.js:14-39 | The entries are written as the three quoted fixed lines, then `heroImage:` with indented `src` and `alt` lines, then `tags:` with one `  - "name"` line per tag, then `series: "name"`, each group present exactly when its key is |
| FrontmatterJs.GenerateFrontmatterJs | scripts/utils/frontmatter-generator.js:10-42 | Fails iff the hero image fails; otherwise the YAML framed by `---\n` |
| FrontmatterJs.FrontmatterJsLines | scripts/utils/frontmatter-generator.js:10-42 | Given values without newlines, the front matter split at newlines is `---`, the `title`, `description` and `pubDate` lines, the hero-image, tag and series lines as above, `---`, and an empty tail |
| FrontmatterJs.FrontmatterJsFixedKeys | scripts/utils/frontmatter-generator.js:15-21 | The three lines after `---` are `title`, `description` and `pubDate`, quoted verbatim even when empty |
| FrontmatterJs.FrontmatterJsIsYaml | scripts/utils/frontmatter-generator.js:10-42 | The front matter is the YAML of the entry list |
| FrontmatterJs.GenerateFileNameJs | scripts/utils/frontmatter-generator.js:206-214 | Ends in `.md`; the slug has only lower-case word characters, kana, kanji and `-`, never starts or ends with `-`, and never holds `--`. Which characters it holds, and where its dashes stand, is stated by `GenerateFileNameJsKeeps` and `GenerateFileNameJsWords` |
| FrontmatterJs.SlugShape | scripts/utils/frontmatter-generator.js:208-212 | Dashing the trimmed, dash-free text and lower-casing it gives that slug shape |
| FrontmatterJs.GenerateFileNameJsEmpty | scripts/utils/frontmatter-generator.js:206-214 | A title with nothing but punctuation gives exactly `.md` |
| FrontmatterJs.GenerateFileNameJsUncapped | scripts/utils/frontmatter-generator.js:206-214 | The slug has no length cap |
| FrontmatterJs.GenerateFileNameJsKeeps | scripts/utils/frontmatter-generator.js:208-212 | With its dashes removed, the slug is exactly the title's word characters, kana and kanji, in order, lower-cased: nothing else of the title survives and none of those is lost |
| FrontmatterJs.GenerateFileNameJsWords | scripts/utils/frontmatter-generator.js:208-212 | The file name is the words of the cleaned title (its maximal runs of non-white-space) joined by single dashes, lower-cased, then `.md`: each dash stands for exactly one run of white space between two words |
| Scan.ReplaceAllIdentity | scripts/utils/markdown-converter.js:154-157 | A global replacement that writes every match back unchanged is the identity |
| Scan.ReplaceAllShrinks | scripts/utils/markdown-converter.js:191-195 | A replacement never longer than its match does not lengthen the text |
| Scan.DashSpacesKeeps | scripts/utils/frontmatter-generator.js:211 | Replacing white-space runs by `-` writes only dashes and non-space characters of the text |
| Scan.DashSpacesNoSpace | scripts/utils/image-processor.ts:162 | Text without white space is unchanged by the dash replacement |
| Scan.DashSpacesWords | scripts/utils/frontmatter-generator.js:210-211 | Trimming and then replacing each white-space run by `-` gives the words of the text joined by single dashes |
| Scan.DashSpacesDropsSpace | scripts/utils/frontmatter-generator.js:211 | On a text without dashes, as the title is after its clean-up, removing the dashes from the dash replacement gives back the text without its white space: no other character is lost, added or moved |

## Left out

- The network, the file system and the clock: queries, page retrievals, HTTP downloads, reads, writes and existence checks are inputs or function parameters.
- `console` output, `sleep` pauses (recorded only as `Pause` steps) and timings: they carry no logic.
- `printSummary`, `printResultsTable`, `inspectDatabase` and `debugTagFiltering`: they only log.
- `ensureContentDirectory` and `ensureImageDirectory`: directory creation is I/O.
- `Promise.all` and `Promise.allSettled`: treated as sequential. The results do not depend on the interleaving, because each lookup and each download is independent.
- The notion-to-md library: it is an input (`source`). Only the custom transformers the scripts register are modelled.
- `new Date(...).toISOString()`, the WHATWG URL pathname parser and MD5: they are oracles, since date and URL parsing and hashing are out of scope.
- `withRetry` in TypeScript also wraps a thrown non-`Error` in an `Error`. With errors modelled as strings, both variants share one model.
- `process.exit`, `run` and the dynamic import of the image processor: they are orchestration.
- BlockTree.GetPageBlocks: it takes a recursion budget, because the page oracle may describe a cyclic or endless tree. `PagesFuelMonotone` shows the budget never changes a fetch that ends.
- MarkdownTs.PostProcessTs: its contract states only the empty case. Plain text is covered by `PostProcessTsPlain`, the blank-run defect by `PostProcessTsKeepsBlankRun`. Texts with fences, links or images are covered by the definition only.
- MarkdownJs.PostProcessJs: the same; see `PostProcessJsPlain` and `PostProcessJsKeepsBlankRun`.
- ImageProcessor.ProcessImagesInMarkdown: its contract covers the no-candidate case. `OneLinkRewritten` states the rewrite of a single link, and `AllDownloadsFailed` the all-fallback case. Several candidates, and a link whose text also occurs earlier, are covered by the definition only.
- ImageProcessor.AllDownloadsFailed: it requires links without `$`, because a `$` pattern in a failed link's text is expanded by `replace` and changes the text (`DollarFallbackChanges`, see Findings).
- MarkdownJs.FixJsIdempotentBlock: idempotence is proved for a text that is one fenced block only. In a longer text a rewritten block can move where the next fence match starts.
- MarkdownTs.DescriptionTs: when the 160th code unit is the first half of a surrogate pair, `substring` keeps that lone half. A Dafny string cannot hold it, so the model drops it and such a description is one code unit shorter.
- MarkdownJs.ExtractMetadataJs: the contract bounds the word count. The exact UTF-16 count is stated for plain text in `PlainWordCount`.
- SyncTs.Settle: whether the write fails is an oracle of the file name and the text only, because the file system is not modelled.
- SyncJs.Write: the same write oracle as `Settle`.
- MarkdownJs.HeadingsJs: the contract gives the count. The level and text of each heading are in `HeadingsAgree`.
- FrontmatterTs.Escape: it is proved injective through `UnescapeEscape`. The reader of the sync script does not unescape, so a title holding `"` reads back escaped (`HeaderRoundTrip`).
- `toLowerCase`: it is modelled as ASCII lower-casing. This is exact wherever the scripts call it, because kana and kanji have no case and every other kept character is ASCII.
- Content types with parameters (`image/png; charset=…`) are not split. They fall to `.jpg`, as in the source.

## Findings

| source | as written | input that shows it | evidently intended | confidence | as-written member | corrected member |
|---|---|---|---|---|---|---|
| scripts/utils/markdown-converter.ts:93-100 | Blank runs are collapsed before trailing blanks are stripped, so lines holding only spaces still separate newlines during the collapse | `a\n\n \n\nb` gives `a\n\n\n\nb`, with four newlines in a row | No run of three or more newlines after clean-up (same in markdown-converter.js:92-99) | not executed | MarkdownCommon.CleanUpKeepsBlankRun | MarkdownCommon.CleanUpCorrected |
| scripts/utils/markdown-converter.ts:149-155 | The Notion-link pattern does not look at the character before `[`, and it runs before image processing, so Notion-hosted images lose their URL | `![a](https://www.notion.so/image/x)` becomes `![a](#)`, although `isImageUrl` accepts the URL | Only plain links are rewritten; image links reach the image step intact | not executed | MarkdownTs.NormalizeLinksTsDropsNotionImage | MarkdownTs.NormalizeLinksTsFixedKeepsImage |
| scripts/utils/image-processor.ts:215 | `replace` receives the rewritten link as a string, so the `$` patterns of the alt text and URL are expanded (the same in image-processor.js:201) | `![a](x$$y)` whose download fails becomes `![a](x$y)`, although the fallback is meant to leave the link as it was | The link is replaced literally, so a failed download leaves the text unchanged | not executed | ImageProcessor.DollarFallbackChanges | ImageProcessor.AllDownloadsFailedFixed |
