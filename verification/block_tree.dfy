/** `getPageBlocks` of the JavaScript client: the children of a page are read
    one result page at a time, following `next_cursor` while it is truthy,
    and every block flagged `has_children` gets its own children fetched the
    same way and attached. Any failed request aborts the whole fetch.

    The API is the oracle `fetch(id, cursor)`. Nothing stops a server from
    handing out cursors forever or nesting blocks without end, so the fetch
    carries a fuel budget: it bounds the depth of nested and follow-up
    requests (each child fetch and each next page runs on one unit less),
    and running dry is an error of its own. */
module BlockTree {
  import opened Wrappers
  import opened Text
  import opened NotionModel

  /** One response of `blocks.children.list`. */
  datatype PageResp = PageResp(results: seq<RawBlock>, nextCursor: Option<string>)

  datatype FetchError = FetchFailed(message: string) | OutOfFuel

  type Fetcher = (string, Option<string>) -> Result<PageResp, string>

  /** The blocks under `id` from result page `cursor` on, children attached. */
  function Pages(fetch: Fetcher, id: string, cursor: Option<string>, fuel: nat): Result<seq<Block>, FetchError>
    decreases fuel, 0
  {
    if fuel == 0 then Err(OutOfFuel)
    else
      match fetch(id, cursor)
      case Err(e) => Err(FetchFailed(e))
      case Ok(resp) =>
        match Attach(fetch, resp.results, fuel - 1)
        case Err(e) => Err(e)
        case Ok(here) =>
          if Truthy(resp.nextCursor) then
            match Pages(fetch, id, resp.nextCursor, fuel - 1)
            case Err(e) => Err(e)
            case Ok(more) => Ok(here + more)
          else Ok(here)
  }

  /** The blocks of one result page, each with its children fetched when it
      has any. */
  function Attach(fetch: Fetcher, raws: seq<RawBlock>, fuel: nat): Result<seq<Block>, FetchError>
    decreases fuel, 1, |raws|
  {
    if |raws| == 0 then Ok([])
    else
      var b := raws[0];
      var first: Result<Block, FetchError> :=
        if b.hasChildren then
          match Pages(fetch, b.id, None, fuel)
          case Err(e) => Err(e)
          case Ok(kids) => Ok(Block(b.id, true, b.content, Attached(kids)))
        else Ok(Block(b.id, false, b.content, Absent));
      match first
      case Err(e) => Err(e)
      case Ok(blk) =>
        match Attach(fetch, raws[1..], fuel)
        case Err(e) => Err(e)
        case Ok(rest) => Ok([blk] + rest)
  }

  /** `getPageBlocks(pageId)`. A failed first request is the error; a
      success is a well-formed tree in which every block flagged
      `has_children` carries what fetching its own id returns. */
  function GetPageBlocks(fetch: Fetcher, pageId: string, fuel: nat): (r: Result<seq<Block>, FetchError>)
    ensures fetch(pageId, None).Err? && fuel > 0 ==> r == Err(FetchFailed(fetch(pageId, None).error))
    ensures r.Ok? ==> fuel > 0 && WellFormed(r.value) && ChildrenFetched(fetch, r.value, fuel - 1)
  {
    var r := Pages(fetch, pageId, None, fuel);
    if r.Ok? then
      PagesSound(fetch, pageId, None, fuel);
      r
    else r
  }

  /** Each block flagged `has_children` carries exactly the blocks a fetch of
      its own id returns, with the given budget. */
  predicate ChildrenFetched(fetch: Fetcher, blocks: seq<Block>, fuel: nat) {
    forall k :: 0 <= k < |blocks| && blocks[k].hasChildren ==>
      blocks[k].children.Attached? && Pages(fetch, blocks[k].id, None, fuel) == Ok(blocks[k].children.kids)
  }

  /** Every block carries children exactly when it is flagged `has_children`,
      all the way down. */
  predicate WellFormed(blocks: seq<Block>)
    decreases blocks
  {
    forall k :: 0 <= k < |blocks| ==> WellFormedBlock(blocks[k])
  }

  predicate WellFormedBlock(b: Block)
    decreases b
  {
    match b.children
    case Absent => !b.hasChildren
    case Attached(kids) => b.hasChildren && WellFormed(kids)
  }

  /** A block without its subtree, as the API lists it. */
  function Strip(b: Block): RawBlock {
    RawBlock(b.id, b.hasChildren, b.content)
  }

  function StripAll(blocks: seq<Block>): (r: seq<RawBlock>)
    ensures |r| == |blocks|
    ensures forall k :: 0 <= k < |blocks| ==> r[k] == Strip(blocks[k])
  {
    seq(|blocks|, k requires 0 <= k < |blocks| => Strip(blocks[k]))
  }

  /** The reference listing: the result pages of `id` concatenated, following
      cursors only, without descending into children. */
  function Listing(fetch: Fetcher, id: string, cursor: Option<string>, fuel: nat): Option<seq<RawBlock>>
    decreases fuel
  {
    if fuel == 0 then None
    else
      match fetch(id, cursor)
      case Err(_) => None
      case Ok(resp) =>
        if Truthy(resp.nextCursor) then
          match Listing(fetch, id, resp.nextCursor, fuel - 1)
          case None => None
          case Some(more) => Some(resp.results + more)
        else Some(resp.results)
  }

  /** A successful fetch returns a well-formed tree whose top level is, block
      for block and in order, the concatenation of the result pages. */
  lemma {:induction false} PagesSound(fetch: Fetcher, id: string, cursor: Option<string>, fuel: nat)
    requires Pages(fetch, id, cursor, fuel).Ok?
    ensures WellFormed(Pages(fetch, id, cursor, fuel).value)
    ensures Listing(fetch, id, cursor, fuel) == Some(StripAll(Pages(fetch, id, cursor, fuel).value))
    ensures fuel > 0 && ChildrenFetched(fetch, Pages(fetch, id, cursor, fuel).value, fuel - 1)
    decreases fuel, 0
  {
    var resp := fetch(id, cursor).value;
    var here := Attach(fetch, resp.results, fuel - 1).value;
    AttachSound(fetch, resp.results, fuel - 1);
    if Truthy(resp.nextCursor) {
      var more := Pages(fetch, id, resp.nextCursor, fuel - 1).value;
      assert Pages(fetch, id, cursor, fuel).value == here + more;
      PagesSound(fetch, id, resp.nextCursor, fuel - 1);
      WellFormedAppend(here, more);
      StripAllAppend(here, more);
      ChildrenFetchedMonotone(fetch, more, fuel - 2, fuel - 1);
      ChildrenFetchedAppend(fetch, here, more, fuel - 1);
    } else {
      assert Pages(fetch, id, cursor, fuel).value == here;
    }
  }

  lemma StripAllAppend(a: seq<Block>, b: seq<Block>)
    ensures StripAll(a + b) == StripAll(a) + StripAll(b)
  {
  }

  lemma ChildrenFetchedAppend(fetch: Fetcher, a: seq<Block>, b: seq<Block>, fuel: nat)
    requires ChildrenFetched(fetch, a, fuel) && ChildrenFetched(fetch, b, fuel)
    ensures ChildrenFetched(fetch, a + b, fuel)
  {
    forall k | 0 <= k < |a + b| && (a + b)[k].hasChildren
      ensures (a + b)[k].children.Attached? && Pages(fetch, (a + b)[k].id, None, fuel) == Ok((a + b)[k].children.kids)
    {
      if k < |a| {
        assert (a + b)[k] == a[k];
      } else {
        assert (a + b)[k] == b[k - |a|];
      }
    }
  }

  /** What a smaller budget fetched, a larger one fetches alike. */
  lemma ChildrenFetchedMonotone(fetch: Fetcher, blocks: seq<Block>, fuel: nat, more: nat)
    requires ChildrenFetched(fetch, blocks, fuel) && fuel <= more
    ensures ChildrenFetched(fetch, blocks, more)
  {
    forall k | 0 <= k < |blocks| && blocks[k].hasChildren
      ensures Pages(fetch, blocks[k].id, None, more) == Ok(blocks[k].children.kids)
    {
      PagesFuelMonotone(fetch, blocks[k].id, None, fuel, more);
    }
  }

  lemma {:induction false} AttachSound(fetch: Fetcher, raws: seq<RawBlock>, fuel: nat)
    requires Attach(fetch, raws, fuel).Ok?
    ensures WellFormed(Attach(fetch, raws, fuel).value)
    ensures StripAll(Attach(fetch, raws, fuel).value) == raws
    ensures ChildrenFetched(fetch, Attach(fetch, raws, fuel).value, fuel)
    decreases fuel, 1, |raws|
  {
    if |raws| > 0 {
      var b := raws[0];
      var out := Attach(fetch, raws, fuel).value;
      var rest := Attach(fetch, raws[1..], fuel).value;
      AttachSound(fetch, raws[1..], fuel);
      if b.hasChildren {
        PagesSound(fetch, b.id, None, fuel);
      }
      assert out == [out[0]] + rest;
      WellFormedAppend([out[0]], rest);
      ChildrenFetchedAppend(fetch, [out[0]], rest, fuel);
      assert raws == [b] + raws[1..];
    }
  }

  lemma WellFormedAppend(a: seq<Block>, b: seq<Block>)
    requires WellFormed(a) && WellFormed(b)
    ensures WellFormed(a + b)
  {
    forall k | 0 <= k < |a + b|
      ensures WellFormedBlock((a + b)[k])
    {
      if k < |a| {
        assert (a + b)[k] == a[k];
      } else {
        assert (a + b)[k] == b[k - |a|];
      }
    }
  }

  /** Extra fuel never changes a fetch that already succeeded: the budget
      only cuts off fetches that would not have ended. */
  lemma {:induction false} PagesFuelMonotone(fetch: Fetcher, id: string, cursor: Option<string>, fuel: nat, more: nat)
    requires Pages(fetch, id, cursor, fuel).Ok?
    requires fuel <= more
    ensures Pages(fetch, id, cursor, more) == Pages(fetch, id, cursor, fuel)
    decreases fuel, 0
  {
    var resp := fetch(id, cursor).value;
    AttachFuelMonotone(fetch, resp.results, fuel - 1, more - 1);
    if Truthy(resp.nextCursor) {
      PagesFuelMonotone(fetch, id, resp.nextCursor, fuel - 1, more - 1);
    }
  }

  lemma {:induction false} AttachFuelMonotone(fetch: Fetcher, raws: seq<RawBlock>, fuel: nat, more: nat)
    requires Attach(fetch, raws, fuel).Ok?
    requires fuel <= more
    ensures Attach(fetch, raws, more) == Attach(fetch, raws, fuel)
    decreases fuel, 1, |raws|
  {
    if |raws| > 0 {
      if raws[0].hasChildren {
        PagesFuelMonotone(fetch, raws[0].id, None, fuel, more);
      }
      AttachFuelMonotone(fetch, raws[1..], fuel, more);
    }
  }
}
