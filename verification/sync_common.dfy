/** What the two sync scripts (`scripts/sync-notion.ts` and
    `scripts/sync-notion.js`) share word for word: the environment check, the
    parsing of the tag filter, the run counters and the retry helper. */
module Sync {
  import opened Wrappers
  import opened Text
  import opened NotionModel

  // ---- Environment ----

  const TokenVar: string := "NOTION_TOKEN"
  const DatabaseVar: string := "NOTION_DATABASE_ID"
  const TagsVar: string := "NOTION_REQUIRED_TAGS"

  /** The variables the run cannot start without, in the order checked. */
  const RequiredVars: seq<string> := [TokenVar, DatabaseVar]

  /** The names among `names` that are unset or empty, in order. */
  function Missing(names: seq<string>, env: Env): (r: seq<string>)
    ensures |r| <= |names|
    ensures forall v :: v in r <==> v in names && !IsSet(env, v)
  {
    if |names| == 0 then []
    else (if IsSet(env, names[0]) then [] else [names[0]]) + Missing(names[1..], env)
  }

  const MissingPrefix: string := "環境変数が不足しています: "

  /** `validateEnvironment`: it throws exactly when a required variable is
      unset or empty, naming the missing ones in order, comma-separated. */
  function ValidateEnvironment(env: Env): (r: Result<(), string>)
    ensures r.Err? <==> !IsSet(env, TokenVar) || !IsSet(env, DatabaseVar)
    ensures r.Err? ==> StartsWith(r.error, MissingPrefix + Join(Missing(RequiredVars, env), ", "))
  {
    var missing := Missing(RequiredVars, env);
    assert TokenVar in RequiredVars && DatabaseVar in RequiredVars;
    assert !IsSet(env, TokenVar) ==> TokenVar in missing;
    assert !IsSet(env, DatabaseVar) ==> DatabaseVar in missing;
    assert |missing| > 0 ==> missing[0] in missing && (missing[0] == TokenVar || missing[0] == DatabaseVar);
    if |missing| > 0 then
      var msg := MissingPrefix + Join(missing, ", ") + "\n.env.local ファイルを確認してください。";
      assert msg[..|MissingPrefix + Join(missing, ", ")|] == MissingPrefix + Join(missing, ", ");
      Err(msg)
    else Ok(())
  }

  /** Both variables missing are named token first. */
  lemma BothMissing(env: Env)
    requires !IsSet(env, TokenVar) && !IsSet(env, DatabaseVar)
    ensures StartsWith(ValidateEnvironment(env).error, MissingPrefix + "NOTION_TOKEN, NOTION_DATABASE_ID")
  {
    AllMissing(env);
    assert Join(RequiredVars, ", ") == "NOTION_TOKEN, NOTION_DATABASE_ID";
  }

  lemma AllMissing(env: Env)
    requires !IsSet(env, TokenVar) && !IsSet(env, DatabaseVar)
    ensures Missing(RequiredVars, env) == RequiredVars
  {
    assert RequiredVars[1..] == [DatabaseVar];
    assert Missing([DatabaseVar], env) == [DatabaseVar];
  }

  // ---- Tag filter ----

  /** The required tags: the value of `NOTION_REQUIRED_TAGS` split at commas,
      each piece trimmed and empty pieces kept; nothing when the variable is
      unset or empty. */
  function ParseRequiredTags(env: Env): (r: seq<string>)
    ensures !IsSet(env, TagsVar) ==> r == []
    ensures IsSet(env, TagsVar) ==> |r| >= 1
    ensures forall k :: 0 <= k < |r| ==> ',' !in r[k] && Trim(r[k]) == r[k]
  {
    if IsSet(env, TagsVar) then
      var pieces := Split(env[TagsVar], ',');
      var r := seq(|pieces|, k requires 0 <= k < |pieces| => Trim(pieces[k]));
      assert forall k :: 0 <= k < |r| ==> ',' !in r[k] by {
        forall k | 0 <= k < |r| ensures ',' !in r[k] {
          TrimInside(pieces[k], ',');
        }
      }
      assert forall k :: 0 <= k < |r| ==> Trim(r[k]) == r[k] by {
        forall k | 0 <= k < |r| ensures Trim(r[k]) == r[k] {
          TrimIdempotent(pieces[k]);
        }
      }
      r
    else []
  }

  /** A character absent from a text is absent from its trim. */
  lemma TrimInside(s: string, c: char)
    requires c !in s
    ensures c !in Trim(s)
  {
    var r := Trim(s);
    var a := Run(s, 0, IsSpace);
    forall k | 0 <= k < |r| ensures r[k] != c {
      assert r[k] == s[a + k];
    }
  }

  /** Tags written comma-separated, each without commas or surrounding
      white space, are read back as written, empty ones included. */
  lemma ParseRequiredTagsJoin(env: Env, tags: seq<string>)
    requires |tags| >= 1
    requires forall k :: 0 <= k < |tags| ==> ',' !in tags[k] && Trim(tags[k]) == tags[k]
    requires TagsVar in env && env[TagsVar] == Join(tags, ",") && env[TagsVar] != []
    ensures ParseRequiredTags(env) == tags
  {
    SplitJoin(tags, ',');
  }

  // ---- Counters ----

  /** `SyncStats`. */
  datatype Stats = Stats(total: nat, success: nat, skipped: nat, errors: nat, created: nat, updated: nat)

  const Zero: Stats := Stats(0, 0, 0, 0, 0, 0)

  /** The counting laws of a run over `n` posts: every post is a success or
      an error, and every success was created, updated or skipped. */
  predicate Conserves(s: Stats, n: nat) {
    && s.total == n
    && s.success + s.errors == n
    && s.created + s.updated + s.skipped == s.success
  }

  // ---- Retry ----

  /** `withRetry(fn, maxRetries, delay)`. The `i`-th call of `fn` yields
      `attempt(i)`. It returns the first success; after `maxRetries`
      failures it throws the last error (`undefined`, as `None`, when there
      was no attempt at all). `waits` are the pauses taken, one after each
      failed attempt but the last, growing by `delay`. */
  method WithRetry<T>(attempt: nat -> Result<T, string>, maxRetries: nat, delay: nat)
    returns (r: Result<T, Option<string>>, waits: seq<nat>)
    ensures r.Ok? ==> |waits| < maxRetries && attempt(|waits|) == Ok(r.value)
                      && forall j :: 0 <= j < |waits| ==> attempt(j).Err?
    ensures r.Err? ==> forall j :: 0 <= j < maxRetries ==> attempt(j).Err?
    ensures r.Err? ==> r.error == (if maxRetries == 0 then None else Some(attempt(maxRetries - 1).error))
    ensures r.Err? ==> |waits| == (if maxRetries == 0 then 0 else maxRetries - 1)
    ensures forall j :: 0 <= j < |waits| ==> waits[j] == delay * (j + 1)
  {
    var i := 0;
    var last: Option<string> := None;
    waits := [];
    while i < maxRetries
      invariant i <= maxRetries
      invariant forall j :: 0 <= j < i ==> attempt(j).Err?
      invariant last == (if i == 0 then None else Some(attempt(i - 1).error))
      invariant |waits| == (if i == maxRetries && i > 0 then i - 1 else i)
      invariant forall j :: 0 <= j < |waits| ==> waits[j] == delay * (j + 1)
    {
      match attempt(i)
      case Ok(v) =>
        return Ok(v), waits;
      case Err(e) =>
        last := Some(e);
        if i < maxRetries - 1 {
          waits := waits + [delay * (i + 1)];
        }
        i := i + 1;
    }
    return Err(last), waits;
  }
}
