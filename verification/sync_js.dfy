/** The JavaScript sync script (`scripts/sync-notion.js`): every post is
    written every time, with no skip test and no results table, and its
    Markdown is converted without the post's title. */
module SyncJs {
  import opened Wrappers
  import opened NotionModel
  import opened Sync
  import opened FrontmatterJs
  import opened SyncTs
  import MarkdownJs

  /** The default title `convertToMarkdown` saves images under when it is
      called with the page id alone, as this script does. */
  const DefaultImageTitle: string := "untitled"

  /** `convertToMarkdown(post.id)`: the library's Markdown, then the
      JavaScript post-processing, with images saved under `untitled`. */
  function ConvertJs(w: World, pageId: string): (r: Result<string, string>)
    ensures w.source(pageId).Err? <==> r.Err?
    ensures r.Ok? ==> r.value == MarkdownJs.PostProcessJs(w.source(pageId).value, w.parsePath, Local(w, DefaultImageTitle))
  {
    match w.source(pageId)
    case Err(e) => Err(e)
    case Ok(raw) => Ok(MarkdownJs.PostProcessJs(raw, w.parsePath, Local(w, DefaultImageTitle)))
  }

  /** The file a post becomes under this script: its name and its text. */
  function PrepareJs(post: Page, w: World): (r: Result<(string, string), string>)
    ensures r.Err? <==> GenerateFrontmatterJs(post, w.now).Err? || ConvertJs(w, post.id).Err?
    ensures r.Ok? ==> r.value.0 == GenerateFileNameJs(ExtractPostTitle(post.properties))
    ensures r.Ok? ==> r.value.1 == GenerateFrontmatterJs(post, w.now).value + "\n" + ConvertJs(w, post.id).value
  {
    var fm :- GenerateFrontmatterJs(post, w.now);
    var md :- ConvertJs(w, post.id);
    Ok((GenerateFileNameJs(ExtractPostTitle(post.properties)), fm + "\n" + md))
  }

  /** The write step of `processPost` for a prepared file: it is always
      written, and counts as updated when it existed before and as created
      otherwise. Nothing is ever skipped; a failed write is thrown. */
  function Write(prep: Result<(string, string), string>, files: Files, write: WriteOracle)
    : (r: Result<(Status, Files), string>)
    ensures r.Err? <==> prep.Err? || write(prep.value.0, prep.value.1).Some?
    ensures prep.Ok? && r.Err? ==> r.error == write(prep.value.0, prep.value.1).value
    ensures r.Ok? ==> r.value.0 != Skipped
    ensures r.Ok? ==>
              && (r.value.0 == Created <==> prep.value.0 !in files)
              && r.value.1 == files[prep.value.0 := prep.value.1]
    ensures r.Ok? ==>
              && r.value.1.Keys == files.Keys + {prep.value.0}
              && r.value.1[prep.value.0] == prep.value.1
              && (forall n :: n in files && n != prep.value.0 ==> r.value.1[n] == files[n])
  {
    var (name, text) :- prep;
    match write(name, text)
    case Some(e) => Err(e)
    case None => Ok((if name in files then Updated else Created, files[name := text]))
  }

  /** `processPost`: front matter, Markdown and file name, then the write.
      It fails when the front matter, the conversion or the write fails;
      otherwise the file named after the title holds the front matter, a
      blank line and the Markdown, every other file is as it was, and the
      post counts as created exactly when its file is new. */
  function ProcessPostJs(post: Page, files: Files, w: World): (r: Result<(Status, Files), string>)
    ensures r.Err? <==> PrepareJs(post, w).Err? || w.write(PrepareJs(post, w).value.0, PrepareJs(post, w).value.1).Some?
    ensures r.Ok? ==>
              var (name, text) := PrepareJs(post, w).value;
              && r.value.1.Keys == files.Keys + {name}
              && r.value.1[name] == text
              && (forall n :: n in files && n != name ==> r.value.1[n] == files[n])
              && r.value.0 != Skipped
              && (r.value.0 == Created <==> name !in files)
  {
    Write(PrepareJs(post, w), files, w.write)
  }

  /** Writing the same prepared file twice: the second write reports an
      update and leaves the directory as the first left it. */
  lemma WriteTwice(prep: Result<(string, string), string>, files: Files, write: WriteOracle)
    requires Write(prep, files, write).Ok?
    ensures var first := Write(prep, files, write).value;
            Write(prep, first.1, write) == Ok((Updated, first.1))
  {
    var fs := Write(prep, files, write).value.1;
    assert fs[prep.value.0 := prep.value.1] == fs;
  }

  /** Running the script twice with nothing changed remotely rewrites the
      same file with the same text: the second run reports an update and
      leaves the directory as the first run left it. */
  lemma SecondRunRewrites(post: Page, files: Files, w: World)
    requires ProcessPostJs(post, files, w).Ok?
    ensures var first := ProcessPostJs(post, files, w).value;
            ProcessPostJs(post, first.1, w) == Ok((Updated, first.1))
  {
    WriteTwice(PrepareJs(post, w), files, w.write);
  }

  // ---- The run ----

  /** What `processPost` does to one post given the files so far. */
  type ProcessorJs = (Page, Files) -> Result<(Status, Files), string>

  /** The try/catch around one post, given what processing it gave. */
  function StepJs(st: (Stats, Files), r: Result<(Status, Files), string>): (Stats, Files)
  {
    var (s, files) := st;
    match r
    case Err(_) => (s.(errors := s.errors + 1), files)
    case Ok((status, fs)) =>
      if status == Created then (s.(success := s.success + 1, created := s.created + 1), fs)
      else (s.(success := s.success + 1, updated := s.updated + 1), fs)
  }

  /** The counters and directory after the given posts, in order, each
      processed by `proc`. */
  function RunWithJs(posts: seq<Page>, start: (Stats, Files), proc: ProcessorJs): (Stats, Files)
    decreases |posts|
  {
    if |posts| == 0 then start
    else
      var before := RunWithJs(posts[..|posts| - 1], start, proc);
      StepJs(before, proc(posts[|posts| - 1], before.1))
  }

  /** The counters and directory after the given posts under this script's
      `processPost`. */
  function RunOverJs(posts: seq<Page>, start: (Stats, Files), w: World): (Stats, Files)
  {
    RunWithJs(posts, start, (p, fs) => ProcessPostJs(p, fs, w))
  }

  /** The `processPosts` loop for a `processPost` that never skips: every
      post is tried in order and a failure does not stop the run; created
      and updated files account for every success. */
  method RunPostsJs(posts: seq<Page>, files: Files, proc: ProcessorJs) returns (stats: Stats, out: Files)
    requires forall p, fs :: proc(p, fs).Ok? ==> proc(p, fs).value.0 != Skipped
    ensures (stats, out) == RunWithJs(posts, (Zero.(total := |posts|), files), proc)
    ensures Conserves(stats, |posts|)
    ensures stats.skipped == 0
  {
    var start := (Zero.(total := |posts|), files);
    stats, out := start.0, start.1;
    var i := 0;
    while i < |posts|
      invariant i <= |posts|
      invariant (stats, out) == RunWithJs(posts[..i], start, proc)
      invariant stats.total == |posts| && stats.skipped == 0
      invariant stats.success + stats.errors == i
      invariant stats.created + stats.updated == stats.success
    {
      assert posts[..i + 1][..i] == posts[..i];
      var next := StepJs((stats, out), proc(posts[i], out));
      stats, out := next.0, next.1;
      i := i + 1;
    }
    assert posts[..|posts|] == posts;
  }

  /** `processPosts` after `stats.total = posts.length`, with this script's
      `processPost`. */
  method ProcessPostsJs(posts: seq<Page>, files: Files, w: World) returns (stats: Stats, out: Files)
    ensures (stats, out) == RunOverJs(posts, (Zero.(total := |posts|), files), w)
    ensures Conserves(stats, |posts|)
    ensures stats.skipped == 0
    ensures stats.created + stats.updated == stats.success
  {
    stats, out := RunPostsJs(posts, files, (p, fs) => ProcessPostJs(p, fs, w));
  }
}
