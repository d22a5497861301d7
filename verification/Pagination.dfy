/** The page walk `Scoped::fetch_all`, against an arbitrary server.

    A server is any function of the request's number and offset, so one that answers differently every time, or
    lies about offsets and totals, is included. `Walk` is the loop as a recursion; `FetchAll` is the loop. */
module Pagination {
  import opened Prelude

  datatype Envelope<+T> = Envelope(items: seq<T>, totalCount: nat, offset: nat, limit: nat)

  datatype Page<+T> = Page(items: seq<T>, totalCount: nat, offset: nat, limit: nat, truncated: bool)

  datatype Limits = Limits(pageSize: nat, maxPages: nat, maxItems: nat)

  // The answer to request number `n`, for the page at `offset`.
  type Server<!T, !E> = (nat, nat) -> Result<Envelope<T>, E>

  // The loop's variables, and the requests made so far with their answers.
  datatype Progress<T> = Progress(items: seq<T>, offset: nat, totalCount: nat, limitUsed: nat,
                                  asked: seq<nat>, pages: seq<Envelope<T>>)

  function Start<T>(limits: Limits): Progress<T> { Progress([], 0, 0, limits.pageSize, [], []) }

  datatype Next<T> = Continue(p: Progress<T>) | Stop(p: Progress<T>, truncated: bool)

  // What one answer does: stop, with the walk's `truncated` flag, or go on.
  function Turn<T>(limits: Limits, p: Progress<T>, e: Envelope<T>): Next<T> {
    var got := |e.items|;
    var p' := Progress(p.items + e.items, p.offset, e.totalCount, e.limit, p.asked + [p.offset], p.pages + [e]);
    if got == 0 then Stop(p', p.offset < e.totalCount)
    else if e.offset + got > U64_MAX || e.offset + got <= p.offset then Stop(p', true)
    else
      var q := p'.(offset := e.offset + got);
      if q.offset >= q.totalCount then Stop(q, false)
      else if |q.items| >= limits.maxItems then Stop(q, true)
      else Continue(q)
  }

  datatype Fetched<T, E> = Done(p: Progress<T>, truncated: bool) | Failed(p: Progress<T>, error: E)

  function Walk<T, E>(server: Server<T, E>, limits: Limits, p: Progress<T>): Fetched<T, E>
    decreases limits.maxPages - |p.pages|
  {
    if |p.pages| >= limits.maxPages then Done(p, p.offset < p.totalCount)
    else
      match server(|p.pages|, p.offset)
      case Err(e) => Failed(p.(asked := p.asked + [p.offset]), e)
      case Ok(e) =>
        match Turn(limits, p, e)
        case Stop(q, truncated) => Done(q, truncated)
        case Continue(q) => Walk(server, limits, q)
  }

  function ToPage<T>(p: Progress<T>, truncated: bool): Page<T> {
    Page(p.items, p.totalCount, p.offset, p.limitUsed, truncated)
  }

  // What the caller gets from a walk.
  function Answer<T, E>(f: Fetched<T, E>): Result<Page<T>, E> {
    match f
    case Done(p, truncated) => Ok(ToPage(p, truncated))
    case Failed(_, e) => Err(e)
  }

  // `asked` is the log of the offsets requested.
  method FetchAll<T, E>(server: Server<T, E>, limits: Limits) returns (result: Result<Page<T>, E>, asked: seq<nat>)
    ensures var walk := Walk(server, limits, Start(limits));
            result == Answer(walk) && asked == walk.p.asked
  {
    var items: seq<T> := [];
    var offset, totalCount, limitUsed := 0, 0, limits.pageSize;
    var truncated := false;
    var pagesFetched := 0;
    asked := [];
    ghost var pages: seq<Envelope<T>> := [];
    while true
      invariant pagesFetched == |pages| <= limits.maxPages
      invariant Walk(server, limits, Start(limits))
                == Walk(server, limits, Progress(items, offset, totalCount, limitUsed, asked, pages))
      decreases limits.maxPages - pagesFetched
    {
      if pagesFetched >= limits.maxPages {
        truncated := offset < totalCount;
        break;
      }
      asked := asked + [offset];
      var response := server(pagesFetched, offset);
      if response.Err? { return Err(response.error), asked; }
      var envelope := response.value;
      totalCount := envelope.totalCount;
      limitUsed := envelope.limit;
      var got := |envelope.items|;
      pagesFetched := pagesFetched + 1;
      pages := pages + [envelope];
      if got == 0 {
        assert items + envelope.items == items;
        truncated := offset < totalCount;
        break;
      }
      items := items + envelope.items;
      if envelope.offset + got > U64_MAX {
        truncated := true;
        break;
      }
      var newOffset := envelope.offset + got;
      if newOffset <= offset {
        truncated := true;
        break;
      }
      offset := newOffset;
      if offset >= totalCount {
        truncated := false;
        break;
      }
      if |items| >= limits.maxItems {
        truncated := true;
        break;
      }
    }
    result := Ok(Page(items, totalCount, offset, limitUsed, truncated));
  }

  /* ---------- Any server, however it lies ---------- */

  function Concat<T>(pages: seq<Envelope<T>>): seq<T> {
    if pages == [] then [] else Concat(pages[..|pages| - 1]) + pages[|pages| - 1].items
  }

  // A page that holds something and ends past the offset asked for.
  predicate Advances<T>(e: Envelope<T>, asked: nat) {
    e.items != [] && asked < e.offset + |e.items| <= U64_MAX
  }

  // Each request starts where the page before ended, further on.
  ghost predicate Chained<T>(limits: Limits, asked: seq<nat>, pages: seq<Envelope<T>>) {
    && |pages| <= |asked| <= |pages| + 1 && |asked| <= limits.maxPages
    && (asked != [] ==> asked[0] == 0)
    && (forall i :: 0 <= i < |asked| - 1 ==> Follows(asked, pages, i))
  }

  ghost predicate Follows<T>(asked: seq<nat>, pages: seq<Envelope<T>>, i: nat)
    requires i < |asked| - 1 <= |pages|
  {
    asked[i] < asked[i + 1] == pages[i].offset + |pages[i].items|
  }

  // The last request was made only because the item cap was not reached before.
  ghost predicate Needed<T>(limits: Limits, asked: seq<nat>, pages: seq<Envelope<T>>)
    requires |asked| <= |pages| + 1
  {
    |asked| > 1 ==> |Concat(pages[..|asked| - 1])| < limits.maxItems
  }

  // What the last of `n` pages received, asked for at `at`, makes of the page returned.
  ghost predicate Summarises<T>(limits: Limits, page: Page<T>, n: nat, e: Envelope<T>, at: nat) {
    && page.totalCount == e.totalCount && page.limit == e.limit
    && page.offset == (if Advances(e, at) then e.offset + |e.items| else at)
    && (page.truncated <==> page.offset < page.totalCount || (e.items != [] && !Advances(e, at)))
    && (Advances(e, at) && page.truncated ==> n >= limits.maxPages || |page.items| >= limits.maxItems)
  }

  // What holds of a page returned after the requests `asked` were answered by `pages`.
  ghost predicate Returned<T>(limits: Limits, page: Page<T>, asked: seq<nat>, pages: seq<Envelope<T>>) {
    && page.items == Concat(pages) && |asked| == |pages|
    && if pages == [] then page == Page([], 0, 0, limits.pageSize, false) && limits.maxPages == 0
       else Summarises(limits, page, |pages|, pages[|pages| - 1], asked[|pages| - 1])
  }

  // The answers received were those of the server, and a failure is the answer to the last request.
  ghost predicate Answered<T, E>(server: Server<T, E>, f: Fetched<T, E>) {
    var asked, pages := f.p.asked, f.p.pages;
    && |asked| == |pages| + (if f.Failed? then 1 else 0)
    && (forall i :: 0 <= i < |pages| ==> server(i, asked[i]) == Ok(pages[i]))
    && (f.Failed? ==> server(|pages|, asked[|pages|]) == Err(f.error))
  }

  // The log at the loop's head.
  ghost predicate SaneLog<T>(limits: Limits, p: Progress<T>) {
    && |p.asked| == |p.pages| && Chained(limits, p.asked, p.pages) && Needed(limits, p.asked, p.pages)
    && (p.pages == [] ==> p.offset == 0)
    && (p.pages != [] ==>
          && p.asked[|p.asked| - 1] < p.offset == p.pages[|p.pages| - 1].offset + |p.pages[|p.pages| - 1].items|
          && |p.items| < limits.maxItems)
    && p.items == Concat(p.pages)
  }

  lemma LogTurn<T>(limits: Limits, p: Progress<T>, e: Envelope<T>)
    requires SaneLog(limits, p) && |p.pages| < limits.maxPages
    ensures var asked := p.asked + [p.offset];
            && Chained(limits, asked, p.pages) && Chained(limits, asked, p.pages + [e])
            && Needed(limits, asked, p.pages) && Needed(limits, asked, p.pages + [e])
  {
    var asked := p.asked + [p.offset];
    forall i | 0 <= i < |asked| - 1
      ensures Follows(asked, p.pages, i) && Follows(asked, p.pages + [e], i)
    {
      assert i < |p.asked| - 1 ==> Follows(p.asked, p.pages, i);
    }
    assert p.pages[..|p.pages|] == p.pages && (p.pages + [e])[..|p.pages|] == p.pages;
  }

  lemma {:induction false} WalkLogs<T, E>(server: Server<T, E>, limits: Limits, p: Progress<T>)
    requires SaneLog(limits, p)
    ensures var f := Walk(server, limits, p);
            Chained(limits, f.p.asked, f.p.pages) && Needed(limits, f.p.asked, f.p.pages)
    decreases limits.maxPages - |p.pages|
  {
    if |p.pages| < limits.maxPages {
      var response := server(|p.pages|, p.offset);
      if response.Ok? {
        LogTurn(limits, p, response.value);
        ConcatLast(p.pages, response.value);
        var next := Turn(limits, p, response.value);
        if next.Continue? { WalkLogs(server, limits, next.p); }
      } else {
        LogTurn(limits, p, Envelope([], 0, 0, 0));
      }
    }
  }

  lemma ConcatLast<T>(pages: seq<Envelope<T>>, e: Envelope<T>)
    ensures Concat(pages + [e]) == Concat(pages) + e.items
  {
    assert (pages + [e])[..|pages|] == pages;
  }

  // The page so far at the loop's head.
  ghost predicate SanePage<T>(limits: Limits, p: Progress<T>) {
    && |p.asked| == |p.pages| && p.items == Concat(p.pages)
    && (p.pages == [] ==> p.items == [] && p.offset == p.totalCount == 0 && p.limitUsed == limits.pageSize)
    && (p.pages != [] ==>
          var e := p.pages[|p.pages| - 1];
          && Advances(e, p.asked[|p.asked| - 1]) && p.offset == e.offset + |e.items| < p.totalCount == e.totalCount
          && p.limitUsed == e.limit)
  }

  lemma PageTurn<T>(limits: Limits, p: Progress<T>, e: Envelope<T>)
    requires SanePage(limits, p) && |p.pages| < limits.maxPages
    ensures match Turn(limits, p, e)
            case Continue(q) => SanePage(limits, q)
            case Stop(q, truncated) => Returned(limits, ToPage(q, truncated), q.asked, q.pages)
  {
    ConcatLast(p.pages, e);
  }

  lemma {:induction false} WalkReturns<T, E>(server: Server<T, E>, limits: Limits, p: Progress<T>)
    requires SanePage(limits, p)
    ensures var f := Walk(server, limits, p);
            f.Done? ==> Returned(limits, ToPage(f.p, f.truncated), f.p.asked, f.p.pages)
    decreases limits.maxPages - |p.pages|
  {
    if |p.pages| < limits.maxPages && server(|p.pages|, p.offset).Ok? {
      var e := server(|p.pages|, p.offset).value;
      PageTurn(limits, p, e);
      var next := Turn(limits, p, e);
      if next.Continue? { WalkReturns(server, limits, next.p); }
    }
  }

  lemma {:induction false} WalkAnswers<T, E>(server: Server<T, E>, limits: Limits, p: Progress<T>)
    requires |p.asked| == |p.pages| && forall i :: 0 <= i < |p.pages| ==> server(i, p.asked[i]) == Ok(p.pages[i])
    ensures var f := Walk(server, limits, p);
            Answered(server, f) && (f.p.asked == [] ==> |p.pages| >= limits.maxPages)
    decreases limits.maxPages - |p.pages|
  {
    if |p.pages| < limits.maxPages && server(|p.pages|, p.offset).Ok? {
      var next := Turn(limits, p, server(|p.pages|, p.offset).value);
      if next.Continue? { WalkAnswers(server, limits, next.p); }
    }
  }

  // Against any server: at most `maxPages` requests, each from where the page before ended and further on; the page
  // returned is what was received, in order, with the totals last reported; it claims completeness exactly when it has
  // reached the last total and the last page did not stall. An error returned is the answer to the last request, and
  // an error answered is returned.
  lemma AnyServer<T, E>(server: Server<T, E>, limits: Limits)
    ensures var f := Walk(server, limits, Start(limits));
            var asked, pages := f.p.asked, f.p.pages;
            && Chained(limits, asked, pages) && Needed(limits, asked, pages)
            && (forall i :: 0 <= i < |pages| ==> server(i, asked[i]) == Ok(pages[i]))
            && (asked == [] ==> limits.maxPages == 0)
            && match Answer(f)
               case Ok(page) => |asked| == |pages| && Returned(limits, page, asked, pages)
               case Err(e) => |asked| == |pages| + 1 && server(|pages|, asked[|pages|]) == Err(e)
  {
    WalkLogs(server, limits, Start(limits));
    WalkReturns(server, limits, Start(limits));
    WalkAnswers(server, limits, Start(limits));
  }

  // So an error is returned if, and only if, it is what the last request was answered with.
  lemma FailsIff<T, E>(server: Server<T, E>, limits: Limits, e: E)
    ensures var f := Walk(server, limits, Start(limits));
            var last := |f.p.asked| - 1;
            Answer(f) == Err(e) <==> last >= 0 && server(last, f.p.asked[last]) == Err(e)
  {
    AnyServer(server, limits);
  }

  /* ---------- A server holding a fixed list ---------- */

  // Each answer is an error, or some of the list from the offset asked for: at most a page, and something if
  // anything is left.
  ghost predicate Honest<T, E>(server: Server<T, E>, list: seq<T>, pageSize: nat) {
    forall n: nat, offset: nat :: server(n, offset).Ok? ==> HonestPage(server(n, offset).value, list, offset, pageSize)
  }

  ghost predicate HonestPage<T>(e: Envelope<T>, list: seq<T>, offset: nat, pageSize: nat) {
    && e.totalCount == |list|
    && e.offset == offset
    && |e.items| <= pageSize
    && (offset < |list| ==> 0 < |e.items| <= |list| - offset && e.items == list[offset..offset + |e.items|])
    && (offset >= |list| ==> e.items == [])
  }

  ghost predicate Prefix<T>(list: seq<T>, limits: Limits, p: Progress<T>) {
    && p.offset == |p.items| <= |list|
    && p.items == list[..p.offset]
    && (p.pages == [] ==> p.offset == p.totalCount == 0)
    && (p.pages != [] ==> p.totalCount == |list|)
  }

  // One honest answer extends the prefix; the walk stops at the end of the list, or flags what it leaves.
  lemma HonestTurn<T>(list: seq<T>, limits: Limits, p: Progress<T>, e: Envelope<T>)
    requires HonestPage(e, list, p.offset, limits.pageSize) && |list| <= U64_MAX && Prefix(list, limits, p)
    ensures match Turn(limits, p, e)
            case Continue(q) =>
              && Prefix(list, limits, q) && q.pages == p.pages + [e] && q.offset == p.offset + |e.items| < |list|
              && |q.items| < limits.maxItems
            case Stop(q, truncated) =>
              && Prefix(list, limits, q) && q.pages == p.pages + [e] && q.offset == p.offset + |e.items|
              && (truncated <==> q.offset < |list|)
              && (truncated ==> |q.items| >= limits.maxItems)
  {}

  lemma {:induction false} WalkIsPrefix<T, E>(server: Server<T, E>, list: seq<T>, limits: Limits, p: Progress<T>)
    requires Honest(server, list, limits.pageSize) && |list| <= U64_MAX
    requires Prefix(list, limits, p) && (p.pages != [] ==> p.offset < |list|)
    requires p.offset == 0 || |p.items| < limits.maxItems
    requires |p.pages| <= limits.maxPages && (p.pages == [] ==> p == Start(limits))
    ensures var f := Walk(server, limits, p);
            f.Done? ==>
              && Prefix(list, limits, f.p)
              && (f.p.pages != [] ==> (f.truncated <==> |f.p.items| < |list|))
              && (f.p.pages == [] <==> limits.maxPages == 0)
              && (f.p.pages == [] ==> !f.truncated && f.p.items == [])
              && |f.p.items| <= Max(limits.maxItems - 1, 0) + limits.pageSize
    decreases limits.maxPages - |p.pages|
  {
    if |p.pages| < limits.maxPages {
      var response := server(|p.pages|, p.offset);
      if response.Ok? {
        var e := response.value;
        assert HonestPage(e, list, p.offset, limits.pageSize);
        HonestTurn(list, limits, p, e);
        var next := Turn(limits, p, e);
        if next.Continue? { WalkIsPrefix(server, list, limits, next.p); }
      }
    }
  }

  // Against an honest server the page is a prefix of the list, without gap or duplicate, and less than one page over
  // the item cap. The `truncated` flag tells exactly whether something is missing if, and only if, the client may
  // fetch a page at all or there is nothing to fetch.
  lemma HonestServer<T, E>(server: Server<T, E>, list: seq<T>, limits: Limits)
    requires Honest(server, list, limits.pageSize) && |list| <= U64_MAX
    ensures match Answer(Walk(server, limits, Start(limits)))
            case Err(_) => true
            case Ok(page) =>
              && |page.items| <= |list| && page.items == list[..|page.items|]
              && page.offset == |page.items|
              && (limits.maxPages >= 1 ==> page.totalCount == |list|)
              && (limits.maxItems >= 1 ==> |page.items| < limits.maxItems + limits.pageSize)
              && ((page.truncated <==> |page.items| < |list|) <==> limits.maxPages >= 1 || list == [])
  {
    WalkIsPrefix(server, list, limits, Start(limits));
  }

  // An honest server that never fails and never sends a short page except the last.
  ghost predicate FullPages<T, E>(server: Server<T, E>, list: seq<T>, pageSize: nat) {
    forall n: nat, offset: nat ::
      && server(n, offset).Ok?
      && |server(n, offset).value.items| == if offset < |list| then Min(pageSize, |list| - offset) else 0
  }

  // How many items so many more pages can carry.
  ghost function Room(pages: nat, size: nat): nat { if pages == 0 then 0 else size + Room(pages - 1, size) }

  lemma {:induction false} RoomIsProduct(pages: nat, size: nat)
    ensures Room(pages, size) == pages * size
  {
    if pages != 0 {
      RoomIsProduct(pages - 1, size);
      assert pages * size == (pages - 1) * size + size;
    }
  }

  lemma {:induction false} WalkReachesTheEnd<T, E>(server: Server<T, E>, list: seq<T>, limits: Limits, p: Progress<T>)
    requires Honest(server, list, limits.pageSize) && FullPages(server, list, limits.pageSize)
    requires |list| <= U64_MAX && |list| <= limits.maxItems && |p.pages| <= limits.maxPages
    requires |list| - p.offset <= Room(limits.maxPages - |p.pages|, limits.pageSize)
    requires Prefix(list, limits, p) && (p.pages != [] ==> p.offset < |list|)
    ensures var f := Walk(server, limits, p);
            f.Done? && !f.truncated && f.p.items == list
    decreases limits.maxPages - |p.pages|
  {
    if |p.pages| < limits.maxPages {
      var e := server(|p.pages|, p.offset).value;
      assert HonestPage(e, list, p.offset, limits.pageSize);
      HonestTurn(list, limits, p, e);
      var next := Turn(limits, p, e);
      if next.Continue? { WalkReachesTheEnd(server, list, limits, next.p); }
    }
  }

  // A collection that fits the caps is fetched whole.
  lemma FitsTheCaps<T, E>(server: Server<T, E>, list: seq<T>, limits: Limits)
    requires Honest(server, list, limits.pageSize) && FullPages(server, list, limits.pageSize)
    requires |list| <= U64_MAX && |list| <= limits.maxItems && |list| <= limits.maxPages * limits.pageSize
    ensures match Answer(Walk(server, limits, Start(limits)))
            case Err(_) => false
            case Ok(page) => page.items == list && !page.truncated
  {
    RoomIsProduct(limits.maxPages, limits.pageSize);
    WalkReachesTheEnd(server, list, limits, Start(limits));
  }
}
