/**
 The pagination driver `analysis_prs`: it queries merged pull requests page by
 page, hands every page's edges to `insert_merged_prs` before asking for the
 next page, and stops after the first page that reports no next page. The
 upstream query is a parameter from cursor to reply. The source walks the pages
 by recursion; `WalkFrom` keeps that shape and `AnalysisPrs` is the equivalent
 loop.
 */
module Pager {
  import opened Records
  import Store

  /** The continuation of a query: none for the first page, otherwise the
      `after:` argument. */
  datatype Cursor = NoCursor | After(token: string)

  /** One reply page: its edges, `pageInfo.endCursor` and `pageInfo.hasNextPage`. */
  datatype Page = Page(edges: seq<PrSummary>, endCursor: string, hasNextPage: bool)

  /** What a query yields: a page, or a failure (non-2xx status, network error
      or a malformed body), which raises and ends the walk. */
  datatype Reply = Answer(page: Page) | QueryFailed

  /** The observable steps of a walk, in the order they happen. */
  datatype Event = Request(cursor: Cursor) | Stored(batch: seq<PrSummary>)

  /** How a walk ended: `Done` after the last page, `Failed` on a query or
      download error, `OutOfFuel` when the recursion depth ran out, which ends
      the source with a recursion error and so is a failure too. */
  datatype Status = Done | Failed | OutOfFuel

  /** The outcome of a walk: the store state, the steps taken and how it ended. */
  datatype Walk = Walk(run: Store.Run, trace: seq<Event>, status: Status)

  /** The cursor the next call receives: the source picks the cursor-less query
      whenever the cursor text is empty, so an empty `endCursor` means no cursor. */
  function NextCursor(endCursor: string): Cursor
  {
    if endCursor == "" then NoCursor else After(endCursor)
  }

  /** The recursive walk of the source from `cursor`, starting from store state
      `run`. `fuel` is the remaining recursion depth: each next page costs the
      source one nested call, and running out of it ends the source with a
      recursion error, which `OutOfFuel` stands for. */
  function WalkFrom(query: Cursor -> Reply, fetch: int -> Store.Fetched, run: Store.Run, cursor: Cursor, fuel: nat): Walk
    requires !run.aborted
    decreases fuel
  {
    if fuel == 0 then Walk(run, [], OutOfFuel)
    else
      match query(cursor)
      case QueryFailed => Walk(run, [Request(cursor)], Failed)
      case Answer(page) =>
        var run' := Store.Continue(run, page.edges, fetch);
        var head := [Request(cursor), Stored(page.edges)];
        if run'.aborted then Walk(run', head, Failed)
        else if !page.hasNextPage then Walk(run', head, Done)
        else
          var rest := WalkFrom(query, fetch, run', NextCursor(page.endCursor), fuel - 1);
          Walk(rest.run, head + rest.trace, rest.status)
  }

  /** Requests and stores strictly alternate, starting with a request: every
      page is stored before the next one is requested. */
  predicate Alternates(trace: seq<Event>)
  {
    forall i :: 0 <= i < |trace| ==> (trace[i].Request? <==> i % 2 == 0)
  }

  /** What follows a request is the storing of exactly the edges of the page
      that request returned. */
  predicate StoresReplies(query: Cursor -> Reply, trace: seq<Event>)
  {
    forall i :: 0 <= i < |trace| - 1 && trace[i].Request? ==>
      query(trace[i].cursor).Answer? && trace[i + 1] == Stored(query(trace[i].cursor).page.edges)
  }

  /** A further request follows a page only when that page reported a next page,
      and it carries the page's `endCursor`. */
  predicate FollowsCursors(query: Cursor -> Reply, trace: seq<Event>)
  {
    forall i :: 0 <= i < |trace| - 2 && trace[i].Request? ==>
      && query(trace[i].cursor).Answer?
      && query(trace[i].cursor).page.hasNextPage
      && trace[i + 2] == Request(NextCursor(query(trace[i].cursor).page.endCursor))
  }

  /** All edges handed to the store, in page order and edge order. */
  function Batches(trace: seq<Event>): seq<PrSummary>
  {
    if |trace| == 0 then []
    else (if trace[0].Stored? then trace[0].batch else []) + Batches(trace[1..])
  }

  /** How a walk ended, read off its last step: `Done` right after storing a
      page that reported no next page; `Failed` after a failed query or after a
      store that raised; `OutOfFuel` after `fuel` complete pages. */
  predicate EndsAsReported(query: Cursor -> Reply, w: Walk, fuel: nat)
  {
    match w.status
    case Done =>
      && |w.trace| >= 2 && w.trace[|w.trace| - 2].Request?
      && query(w.trace[|w.trace| - 2].cursor).Answer?
      && !query(w.trace[|w.trace| - 2].cursor).page.hasNextPage
      && !w.run.aborted
    case Failed =>
      && |w.trace| >= 1
      && (if w.trace[|w.trace| - 1].Request?
          then query(w.trace[|w.trace| - 1].cursor) == QueryFailed && !w.run.aborted
          else w.run.aborted)
    case OutOfFuel => |w.trace| == 2 * fuel && !w.run.aborted
  }

  lemma BatchesAppend(a: seq<Event>, b: seq<Event>)
    ensures Batches(a + b) == Batches(a) + Batches(b)
  {
    if |a| > 0 {
      assert (a + b)[1..] == a[1..] + b;
      BatchesAppend(a[1..], b);
    } else {
      assert a + b == b;
    }
  }

  /** A page that reported a next page, and was stored without a failure,
      puts its request and store in front of the walk from its end cursor. */
  lemma WalkUnfold(query: Cursor -> Reply, fetch: int -> Store.Fetched, run: Store.Run, cursor: Cursor, fuel: nat)
    requires !run.aborted && fuel > 0 && query(cursor).Answer?
    requires query(cursor).page.hasNextPage
    requires !Store.Continue(run, query(cursor).page.edges, fetch).aborted
    ensures var page := query(cursor).page;
      var rest := WalkFrom(query, fetch, Store.Continue(run, page.edges, fetch), NextCursor(page.endCursor), fuel - 1);
      WalkFrom(query, fetch, run, cursor, fuel) == Walk(rest.run, [Request(cursor), Stored(page.edges)] + rest.trace, rest.status)
  {
  }

  /** A walk with fuel opens with a request for its cursor, and requests and
      stores strictly alternate. */
  lemma {:induction false} WalkAlternates(query: Cursor -> Reply, fetch: int -> Store.Fetched, run: Store.Run, cursor: Cursor, fuel: nat)
    requires !run.aborted
    ensures fuel > 0 ==> |WalkFrom(query, fetch, run, cursor, fuel).trace| > 0
    ensures fuel > 0 ==> WalkFrom(query, fetch, run, cursor, fuel).trace[0] == Request(cursor)
    ensures Alternates(WalkFrom(query, fetch, run, cursor, fuel).trace)
    decreases fuel
  {
    if fuel > 0 && query(cursor).Answer? && query(cursor).page.hasNextPage
      && !Store.Continue(run, query(cursor).page.edges, fetch).aborted
    {
      var page := query(cursor).page;
      var run' := Store.Continue(run, page.edges, fetch);
      var rest := WalkFrom(query, fetch, run', NextCursor(page.endCursor), fuel - 1);
      WalkUnfold(query, fetch, run, cursor, fuel);
      WalkAlternates(query, fetch, run', NextCursor(page.endCursor), fuel - 1);
      AlternatesPrepend(cursor, page.edges, rest.trace);
    } else {
      AlternatesHere(query, fetch, run, cursor, fuel);
    }
  }

  /** A walk that stops at its first step alternates. */
  lemma AlternatesHere(query: Cursor -> Reply, fetch: int -> Store.Fetched, run: Store.Run, cursor: Cursor, fuel: nat)
    requires !run.aborted
    requires !(fuel > 0 && query(cursor).Answer? && query(cursor).page.hasNextPage
      && !Store.Continue(run, query(cursor).page.edges, fetch).aborted)
    ensures fuel > 0 ==> |WalkFrom(query, fetch, run, cursor, fuel).trace| > 0
    ensures fuel > 0 ==> WalkFrom(query, fetch, run, cursor, fuel).trace[0] == Request(cursor)
    ensures Alternates(WalkFrom(query, fetch, run, cursor, fuel).trace)
  {
  }

  lemma AlternatesPrepend(cursor: Cursor, edges: seq<PrSummary>, rest: seq<Event>)
    requires Alternates(rest)
    ensures Alternates([Request(cursor), Stored(edges)] + rest)
  {
    var trace := [Request(cursor), Stored(edges)] + rest;
    forall i | 0 <= i < |trace|
      ensures trace[i].Request? <==> i % 2 == 0
    {
      if i >= 2 {
        assert trace[i] == rest[i - 2];
      }
    }
  }


  /** What follows a request is the storing of that request's page. */
  lemma {:induction false} WalkStoresReplies(query: Cursor -> Reply, fetch: int -> Store.Fetched, run: Store.Run, cursor: Cursor, fuel: nat)
    requires !run.aborted
    ensures StoresReplies(query, WalkFrom(query, fetch, run, cursor, fuel).trace)
    decreases fuel
  {
    if fuel > 0 && query(cursor).Answer? && query(cursor).page.hasNextPage
      && !Store.Continue(run, query(cursor).page.edges, fetch).aborted
    {
      var page := query(cursor).page;
      var run' := Store.Continue(run, page.edges, fetch);
      var rest := WalkFrom(query, fetch, run', NextCursor(page.endCursor), fuel - 1);
      WalkUnfold(query, fetch, run, cursor, fuel);
      WalkStoresReplies(query, fetch, run', NextCursor(page.endCursor), fuel - 1);
      StoresRepliesPrepend(query, cursor, rest.trace);
    }
  }

  lemma StoresRepliesPrepend(query: Cursor -> Reply, cursor: Cursor, rest: seq<Event>)
    requires query(cursor).Answer?
    requires StoresReplies(query, rest)
    ensures StoresReplies(query, [Request(cursor), Stored(query(cursor).page.edges)] + rest)
  {
    var trace := [Request(cursor), Stored(query(cursor).page.edges)] + rest;
    forall i | 0 <= i < |trace| - 1 && trace[i].Request?
      ensures query(trace[i].cursor).Answer? && trace[i + 1] == Stored(query(trace[i].cursor).page.edges)
    {
      if i >= 2 {
        assert trace[i] == rest[i - 2] && trace[i + 1] == rest[i - 1];
      }
    }
  }


  /** Each further request follows a page reporting a next page and carries
      that page's end cursor. */
  lemma {:induction false} WalkFollowsCursors(query: Cursor -> Reply, fetch: int -> Store.Fetched, run: Store.Run, cursor: Cursor, fuel: nat)
    requires !run.aborted
    ensures FollowsCursors(query, WalkFrom(query, fetch, run, cursor, fuel).trace)
    decreases fuel
  {
    if fuel > 0 && query(cursor).Answer? && query(cursor).page.hasNextPage
      && !Store.Continue(run, query(cursor).page.edges, fetch).aborted
    {
      var page := query(cursor).page;
      var run' := Store.Continue(run, page.edges, fetch);
      var next := NextCursor(page.endCursor);
      var rest := WalkFrom(query, fetch, run', next, fuel - 1);
      WalkUnfold(query, fetch, run, cursor, fuel);
      WalkFollowsCursors(query, fetch, run', next, fuel - 1);
      WalkAlternates(query, fetch, run', next, fuel - 1);
      FollowsCursorsPrepend(query, cursor, rest.trace);
    }
  }

  lemma FollowsCursorsPrepend(query: Cursor -> Reply, cursor: Cursor, rest: seq<Event>)
    requires query(cursor).Answer? && query(cursor).page.hasNextPage
    requires |rest| > 0 ==> rest[0] == Request(NextCursor(query(cursor).page.endCursor))
    requires FollowsCursors(query, rest)
    ensures FollowsCursors(query, [Request(cursor), Stored(query(cursor).page.edges)] + rest)
  {
    var trace := [Request(cursor), Stored(query(cursor).page.edges)] + rest;
    forall i | 0 <= i < |trace| - 2 && trace[i].Request?
      ensures query(trace[i].cursor).Answer? && query(trace[i].cursor).page.hasNextPage
      ensures trace[i + 2] == Request(NextCursor(query(trace[i].cursor).page.endCursor))
    {
      if i >= 2 {
        assert trace[i] == rest[i - 2] && trace[i + 2] == rest[i];
      } else {
        assert i == 0;
      }
    }
  }


  /** A walk ends as its status says. */
  lemma {:induction false} WalkEnds(query: Cursor -> Reply, fetch: int -> Store.Fetched, run: Store.Run, cursor: Cursor, fuel: nat)
    requires !run.aborted
    ensures EndsAsReported(query, WalkFrom(query, fetch, run, cursor, fuel), fuel)
    decreases fuel
  {
    if fuel > 0 && query(cursor).Answer? && query(cursor).page.hasNextPage
      && !Store.Continue(run, query(cursor).page.edges, fetch).aborted
    {
      var page := query(cursor).page;
      var run' := Store.Continue(run, page.edges, fetch);
      var rest := WalkFrom(query, fetch, run', NextCursor(page.endCursor), fuel - 1);
      WalkUnfold(query, fetch, run, cursor, fuel);
      WalkEnds(query, fetch, run', NextCursor(page.endCursor), fuel - 1);
      EndsPrepend(query, [Request(cursor), Stored(page.edges)], rest, fuel);
    } else {
      EndsHere(query, fetch, run, cursor, fuel);
    }
  }

  /** A walk that stops at its first step ends as its status says. */
  lemma EndsHere(query: Cursor -> Reply, fetch: int -> Store.Fetched, run: Store.Run, cursor: Cursor, fuel: nat)
    requires !run.aborted
    requires !(fuel > 0 && query(cursor).Answer? && query(cursor).page.hasNextPage
      && !Store.Continue(run, query(cursor).page.edges, fetch).aborted)
    ensures EndsAsReported(query, WalkFrom(query, fetch, run, cursor, fuel), fuel)
  {
  }

  /** A complete page in front of a walk leaves the way it ends unchanged. */
  lemma EndsPrepend(query: Cursor -> Reply, head: seq<Event>, rest: Walk, fuel: nat)
    requires |head| == 2 && fuel > 0
    requires EndsAsReported(query, rest, fuel - 1)
    ensures EndsAsReported(query, Prepend(head, rest), fuel)
  {
    var trace := head + rest.trace;
    if |rest.trace| > 0 {
      assert trace[|trace| - 1] == rest.trace[|rest.trace| - 1];
    }
    if |rest.trace| > 1 {
      assert trace[|trace| - 2] == rest.trace[|rest.trace| - 2];
    }
  }

  /** Every edge of every page reaches the store, in page order and in edge
      order within a page: the walk's store state is one long
      `insert_merged_prs` over all stored edges. */
  lemma {:induction false} WalkIngestsInOrder(query: Cursor -> Reply, fetch: int -> Store.Fetched, run: Store.Run, cursor: Cursor, fuel: nat)
    requires !run.aborted
    ensures WalkFrom(query, fetch, run, cursor, fuel).run
      == Store.Continue(run, Batches(WalkFrom(query, fetch, run, cursor, fuel).trace), fetch)
    decreases fuel
  {
    if fuel > 0 && query(cursor).Answer? && query(cursor).page.hasNextPage
      && !Store.Continue(run, query(cursor).page.edges, fetch).aborted
    {
      var page := query(cursor).page;
      WalkIngestsInOrder(query, fetch, Store.Continue(run, page.edges, fetch), NextCursor(page.endCursor), fuel - 1);
      IngestsStep(query, fetch, run, cursor, fuel);
    } else {
      IngestsHere(query, fetch, run, cursor, fuel);
    }
  }

  /** The claim of `WalkIngestsInOrder` carries over a page with a next page. */
  lemma IngestsStep(query: Cursor -> Reply, fetch: int -> Store.Fetched, run: Store.Run, cursor: Cursor, fuel: nat)
    requires !run.aborted && fuel > 0 && query(cursor).Answer? && query(cursor).page.hasNextPage
    requires !Store.Continue(run, query(cursor).page.edges, fetch).aborted
    requires var page := query(cursor).page;
      var rest := WalkFrom(query, fetch, Store.Continue(run, page.edges, fetch), NextCursor(page.endCursor), fuel - 1);
      rest.run == Store.Continue(Store.Continue(run, page.edges, fetch), Batches(rest.trace), fetch)
    ensures WalkFrom(query, fetch, run, cursor, fuel).run
      == Store.Continue(run, Batches(WalkFrom(query, fetch, run, cursor, fuel).trace), fetch)
  {
    var page := query(cursor).page;
    var rest := WalkFrom(query, fetch, Store.Continue(run, page.edges, fetch), NextCursor(page.endCursor), fuel - 1);
    WalkUnfold(query, fetch, run, cursor, fuel);
    BatchesOfPage(cursor, page.edges);
    IngestsPrepend(run, page.edges, [Request(cursor), Stored(page.edges)], rest, fetch);
  }

  /** A walk that stops at its first step stores at most its first page. */
  lemma IngestsHere(query: Cursor -> Reply, fetch: int -> Store.Fetched, run: Store.Run, cursor: Cursor, fuel: nat)
    requires !run.aborted
    requires !(fuel > 0 && query(cursor).Answer? && query(cursor).page.hasNextPage
      && !Store.Continue(run, query(cursor).page.edges, fetch).aborted)
    ensures WalkFrom(query, fetch, run, cursor, fuel).run
      == Store.Continue(run, Batches(WalkFrom(query, fetch, run, cursor, fuel).trace), fetch)
  {
    ContinueEmpty(run, fetch);
    BatchesOfRequest(cursor);
    if fuel > 0 && query(cursor).Answer? {
      BatchesOfPage(cursor, query(cursor).page.edges);
    }
  }


  lemma IngestsPrepend(run: Store.Run, edges: seq<PrSummary>, head: seq<Event>, rest: Walk, fetch: int -> Store.Fetched)
    requires Batches(head) == edges
    requires rest.run == Store.Continue(Store.Continue(run, edges, fetch), Batches(rest.trace), fetch)
    ensures rest.run == Store.Continue(run, Batches(head + rest.trace), fetch)
  {
    BatchesAppend(head, rest.trace);
    ContinueAppend(run, edges, Batches(rest.trace), fetch);
  }

  lemma BatchesOfRequest(cursor: Cursor)
    ensures Batches([]) == [] && Batches([Request(cursor)]) == []
  {
    assert Batches([Request(cursor)]) == [] + Batches([]);
  }

  lemma BatchesOfPage(cursor: Cursor, edges: seq<PrSummary>)
    ensures Batches([Request(cursor), Stored(edges)]) == edges
  {
    var head := [Request(cursor), Stored(edges)];
    assert head[1..] == [Stored(edges)];
    assert Batches(head[1..]) == edges + Batches([]);
  }

  lemma ContinueEmpty(run: Store.Run, fetch: int -> Store.Fetched)
    ensures Store.Continue(run, [], fetch) == run
  {
    assert run.fetched + [] == run.fetched;
  }

  /** Handing two batches one after the other is handing their concatenation. */
  lemma ContinueAppend(run: Store.Run, a: seq<PrSummary>, b: seq<PrSummary>, fetch: int -> Store.Fetched)
    ensures Store.Continue(Store.Continue(run, a, fetch), b, fetch) == Store.Continue(run, a + b, fetch)
  {
    if !run.aborted {
      Store.IngestAppend(run.table, a, b, fetch);
      var r1 := Store.Ingest(run.table, a, fetch);
      if !r1.aborted {
        var r2 := Store.Ingest(r1.table, b, fetch);
        assert run.fetched + r1.fetched + r2.fetched == run.fetched + (r1.fetched + r2.fetched);
      }
    }
  }

  /** Puts the steps `trace` in front of a walk. */
  function Prepend(trace: seq<Event>, w: Walk): Walk
  {
    Walk(w.run, trace + w.trace, w.status)
  }

  /** One page of the loop: what the rest of the walk is after the page
      returned by `cursor` has been stored. */
  lemma WalkStep(query: Cursor -> Reply, fetch: int -> Store.Fetched, run: Store.Run, cursor: Cursor, left: nat, trace: seq<Event>, whole: Walk)
    requires !run.aborted && left > 0 && query(cursor).Answer?
    requires Prepend(trace, WalkFrom(query, fetch, run, cursor, left)) == whole
    ensures var page := query(cursor).page;
      var run' := Store.Continue(run, page.edges, fetch);
      var trace' := trace + [Request(cursor), Stored(page.edges)];
      && (run'.aborted ==> whole == Walk(run', trace', Failed))
      && (!run'.aborted && !page.hasNextPage ==> whole == Walk(run', trace', Done))
      && (!run'.aborted && page.hasNextPage ==>
            Prepend(trace', WalkFrom(query, fetch, run', NextCursor(page.endCursor), left - 1)) == whole)
  {
    var page := query(cursor).page;
    var run' := Store.Continue(run, page.edges, fetch);
    var head := [Request(cursor), Stored(page.edges)];
    if !run'.aborted && page.hasNextPage {
      var rest := WalkFrom(query, fetch, run', NextCursor(page.endCursor), left - 1);
      WalkUnfold(query, fetch, run, cursor, left);
      assert trace + head + rest.trace == trace + (head + rest.trace);
    }
  }

  /** `analysis_prs()` as a loop: the first query carries no cursor, every
      page is handed to the store before the next query, and the walk stops
      after a page reporting no next page. It takes exactly the steps of the
      recursive walk and leaves the same store state. */
  method AnalysisPrs(query: Cursor -> Reply, fetch: int -> Store.Fetched, table: seq<PrRecord>, fuel: nat) returns (w: Walk)
    ensures w == WalkFrom(query, fetch, Store.Run(table, [], false), NoCursor, fuel)
  {
    ghost var whole := WalkFrom(query, fetch, Store.Run(table, [], false), NoCursor, fuel);
    var run := Store.Run(table, [], false);
    var cursor := NoCursor;
    var trace: seq<Event> := [];
    var left := fuel;
    assert [] + whole.trace == whole.trace;
    while left > 0
      invariant !run.aborted
      invariant Prepend(trace, WalkFrom(query, fetch, run, cursor, left)) == whole
      decreases left
    {
      match query(cursor)
      case QueryFailed =>
        return Walk(run, trace + [Request(cursor)], Failed);
      case Answer(page) =>
        WalkStep(query, fetch, run, cursor, left, trace, whole);
        var r := Store.InsertMergedPrs(run.table, page.edges, fetch);
        run := Store.Run(r.table, run.fetched + r.fetched, r.aborted);
        trace := trace + [Request(cursor), Stored(page.edges)];
        if run.aborted {
          return Walk(run, trace, Failed);
        }
        if !page.hasNextPage {
          return Walk(run, trace, Done);
        }
        cursor := NextCursor(page.endCursor);
        left := left - 1;
    }
    assert trace + [] == trace;
    return Walk(run, trace, OutOfFuel);
  }

  /** Walking again with a store that already holds every number the walk
      stored takes the same steps, downloads nothing and changes nothing. */
  lemma {:induction false} WalkKnown(query: Cursor -> Reply, fetch: int -> Store.Fetched, run: Store.Run, other: Store.Run, cursor: Cursor, fuel: nat)
    requires !run.aborted && !other.aborted
    requires WalkFrom(query, fetch, run, cursor, fuel).status == Done
    requires BatchNumbers(Batches(WalkFrom(query, fetch, run, cursor, fuel).trace)) <= Numbers(other.table)
    ensures WalkFrom(query, fetch, other, cursor, fuel) == Walk(other, WalkFrom(query, fetch, run, cursor, fuel).trace, Done)
    decreases fuel
  {
    var page := query(cursor).page;
    var run' := Store.Continue(run, page.edges, fetch);
    if page.hasNextPage {
      WalkUnfold(query, fetch, run, cursor, fuel);
      var next := NextCursor(page.endCursor);
      var rest := WalkFrom(query, fetch, run', next, fuel - 1);
      PageNumbers(cursor, page.edges, rest.trace);
      ContinueKnown(other, page.edges, fetch);
      WalkKnown(query, fetch, run', other, next, fuel - 1);
      WalkUnfold(query, fetch, other, cursor, fuel);
    } else {
      PageNumbers(cursor, page.edges, []);
      assert [Request(cursor), Stored(page.edges)] + [] == [Request(cursor), Stored(page.edges)];
      ContinueKnown(other, page.edges, fetch);
    }
  }

  /** The numbers stored by a page followed by more steps. */
  lemma PageNumbers(cursor: Cursor, edges: seq<PrSummary>, rest: seq<Event>)
    ensures BatchNumbers(Batches([Request(cursor), Stored(edges)] + rest)) == BatchNumbers(edges) + BatchNumbers(Batches(rest))
  {
    BatchesOfPage(cursor, edges);
    BatchesAppend([Request(cursor), Stored(edges)], rest);
    BatchNumbersAppend(edges, Batches(rest));
  }

  /** Handing a store a batch it already holds changes nothing. */
  lemma ContinueKnown(other: Store.Run, edges: seq<PrSummary>, fetch: int -> Store.Fetched)
    requires !other.aborted && BatchNumbers(edges) <= Numbers(other.table)
    ensures Store.Continue(other, edges, fetch) == other
  {
    Store.IngestKnown(other.table, edges, fetch);
    assert other.fetched + [] == other.fetched;
  }


  /** Re-running the whole walk after a complete run downloads no diff and
      leaves the table as it was: a restart costs only the queries. */
  lemma RerunChangesNothing(query: Cursor -> Reply, fetch: int -> Store.Fetched, table: seq<PrRecord>, fuel: nat)
    requires WalkFrom(query, fetch, Store.Run(table, [], false), NoCursor, fuel).status == Done
    ensures var w := WalkFrom(query, fetch, Store.Run(table, [], false), NoCursor, fuel);
      WalkFrom(query, fetch, Store.Run(w.run.table, [], false), NoCursor, fuel)
        == Walk(Store.Run(w.run.table, [], false), w.trace, Done)
  {
    var w := WalkFrom(query, fetch, Store.Run(table, [], false), NoCursor, fuel);
    WalkIngestsInOrder(query, fetch, Store.Run(table, [], false), NoCursor, fuel);
    WalkEnds(query, fetch, Store.Run(table, [], false), NoCursor, fuel);
    Store.IngestAccounts(table, Batches(w.trace), fetch);
    WalkKnown(query, fetch, Store.Run(table, [], false), Store.Run(w.run.table, [], false), NoCursor, fuel);
  }

  /** From an empty run, the store state the walk leaves is exactly
      `insert_merged_prs` over every stored edge in walk order. */
  lemma WalkFromStartIngests(query: Cursor -> Reply, fetch: int -> Store.Fetched, table: seq<PrRecord>, fuel: nat)
    ensures WalkFrom(query, fetch, Store.Run(table, [], false), NoCursor, fuel).run
      == Store.Ingest(table, Batches(WalkFrom(query, fetch, Store.Run(table, [], false), NoCursor, fuel).trace), fetch)
  {
    WalkIngestsInOrder(query, fetch, Store.Run(table, [], false), NoCursor, fuel);
    var r := Store.Ingest(table, Batches(WalkFrom(query, fetch, Store.Run(table, [], false), NoCursor, fuel).trace), fetch);
    assert [] + r.fetched == r.fetched;
  }
}
