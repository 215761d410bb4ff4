/** The contributor paging loop of `main` in contrib.go. The client call is
    replaced by `fetch`, a total function from the requested page number to
    the page the provider returns; `fuel` bounds the number of fetches,
    because the loop has no bound of its own when the provider's cursor
    never lets it end. */
module Paging {
  import opened GitHub

  /** How the loop ends. `requested` lists the page numbers asked for, in order. */
  datatype Outcome =
    | Complete(contributors: seq<Contributor>, requested: seq<int>)
    | Aborted(requested: seq<int>)   // a fetch failed: main returns (or panics on a nil reply), the pages are dropped
    | OutOfFuel(requested: seq<int>)

  /** The loop's starting cursor: `cpage = 0`, `lpage = 1000`. */
  const FirstPage: int := 0
  const InitialLastPage: int := 1000

  /** Put earlier pages' contributors and page numbers in front of an outcome. */
  function Extend(cs: seq<Contributor>, pages: seq<int>, o: Outcome): Outcome
  {
    match o
    case Complete(c, r) => Complete(cs + c, pages + r)
    case Aborted(r) => Aborted(pages + r)
    case OutOfFuel(r) => OutOfFuel(pages + r)
  }

  lemma ExtendExtend(a: seq<Contributor>, p: seq<int>, b: seq<Contributor>, q: seq<int>, o: Outcome)
    ensures Extend(a, p, Extend(b, q, o)) == Extend(a + b, p + q, o)
  {
    match o
    case Complete(c, r) =>
      assert a + (b + c) == (a + b) + c;
      assert p + (q + r) == (p + q) + r;
    case Aborted(r) =>
      assert p + (q + r) == (p + q) + r;
    case OutOfFuel(r) =>
      assert p + (q + r) == (p + q) + r;
  }

  /** The loop as written: fetch while `cpage < lpage`, then take the next
      cursor from the response. */
  function Crawl(fetch: int -> PageResult, cpage: int, lpage: int, fuel: nat): Outcome
    decreases fuel
  {
    if !(cpage < lpage) then Complete([], [])
    else if fuel == 0 then OutOfFuel([])
    else match fetch(cpage)
      case PageErr => Aborted([cpage])
      case PageOk(cs, next, last) => Extend(cs, [cpage], Crawl(fetch, next, last, fuel - 1))
  }

  /** The paging loop of main, as written. */
  method FetchContributors(fetch: int -> PageResult, fuel: nat) returns (out: Outcome)
    ensures out == Crawl(fetch, FirstPage, InitialLastPage, fuel)
  {
    var cpage, lpage := FirstPage, InitialLastPage;
    var finContributors: seq<Contributor> := [];
    var requested: seq<int> := [];
    var left := fuel;
    while cpage < lpage
      invariant Crawl(fetch, FirstPage, InitialLastPage, fuel)
        == Extend(finContributors, requested, Crawl(fetch, cpage, lpage, left))
      decreases left
    {
      if left == 0 {
        return OutOfFuel(requested);
      }
      var res := fetch(cpage);
      if res.PageErr? {
        return Aborted(requested + [cpage]);
      }
      ExtendExtend(finContributors, requested, res.contributors, [cpage],
                   Crawl(fetch, res.nextPage, res.lastPage, left - 1));
      lpage := res.lastPage;
      requested := requested + [cpage];
      cpage := res.nextPage;
      finContributors := finContributors + res.contributors;
      left := left - 1;
    }
    assert finContributors + [] == finContributors && requested + [] == requested;
    return Complete(finContributors, requested);
  }

  /** The contributors of a page, none for a failed fetch. */
  function ContentsOf(r: PageResult): seq<Contributor>
  {
    if r.PageOk? then r.contributors else []
  }

  /** The in-order concatenation of the requested pages. */
  function Concat(fetch: int -> PageResult, req: seq<int>): seq<Contributor>
  {
    if req == [] then [] else ContentsOf(fetch(req[0])) + Concat(fetch, req[1..])
  }

  /** `req` starts at `c`, and each page before the last was fetched, told
      the loop to continue (`NextPage < LastPage`) and named the next page. */
  ghost predicate Chain(fetch: int -> PageResult, c: int, req: seq<int>)
  {
    (|req| > 0 ==> req[0] == c) &&
    forall i :: 0 <= i < |req| - 1 ==>
      fetch(req[i]).PageOk? && req[i + 1] == fetch(req[i]).nextPage &&
      fetch(req[i]).nextPage < fetch(req[i]).lastPage
  }

  lemma ChainCons(fetch: int -> PageResult, c: int, n: int, l: int, req: seq<int>)
    requires fetch(c).PageOk? && fetch(c).nextPage == n && fetch(c).lastPage == l
    requires Chain(fetch, n, req) && (req != [] <==> n < l)
    ensures Chain(fetch, c, [c] + req)
  {
    var r := [c] + req;
    forall i | 0 <= i < |r| - 1
      ensures fetch(r[i]).PageOk? && r[i + 1] == fetch(r[i]).nextPage
      ensures fetch(r[i]).nextPage < fetch(r[i]).lastPage
    {
      if i > 0 {
        assert r[i] == req[i - 1] && r[i + 1] == req[i];
      }
    }
  }

  /** A completed loop fetched exactly the pages it reached while
      `cpage < lpage` held, and its list of contributors is those pages
      concatenated in order. */
  lemma {:induction false} CompleteIsChain(fetch: int -> PageResult, c: int, l: int, fuel: nat,
                                           cs: seq<Contributor>, req: seq<int>)
    requires Crawl(fetch, c, l, fuel) == Complete(cs, req)
    ensures req != [] <==> c < l
    ensures Chain(fetch, c, req)
    ensures req != [] ==>
      fetch(req[|req| - 1]).PageOk? &&
      !(fetch(req[|req| - 1]).nextPage < fetch(req[|req| - 1]).lastPage)
    ensures cs == Concat(fetch, req)
    decreases fuel
  {
    if c < l {
      var r := fetch(c);
      assert fuel > 0 && r.PageOk?;
      var inner := Crawl(fetch, r.nextPage, r.lastPage, fuel - 1);
      assert inner.Complete?;
      CompleteIsChain(fetch, r.nextPage, r.lastPage, fuel - 1, inner.contributors, inner.requested);
      ChainCons(fetch, c, r.nextPage, r.lastPage, inner.requested);
      assert req == [c] + inner.requested;
      assert req[1..] == inner.requested;
    }
  }

  /** An aborted loop stopped at the first failed fetch: the pages before it
      were fetched and continued the loop, and nothing was asked for after it. */
  lemma {:induction false} AbortedAtFailure(fetch: int -> PageResult, c: int, l: int, fuel: nat,
                                            req: seq<int>)
    requires Crawl(fetch, c, l, fuel) == Aborted(req)
    ensures req != [] && c < l
    ensures Chain(fetch, c, req)
    ensures fetch(req[|req| - 1]).PageErr?
    decreases fuel
  {
    var r := fetch(c);
    if r.PageOk? {
      var inner := Crawl(fetch, r.nextPage, r.lastPage, fuel - 1);
      assert inner.Aborted?;
      AbortedAtFailure(fetch, r.nextPage, r.lastPage, fuel - 1, inner.requested);
      ChainCons(fetch, c, r.nextPage, r.lastPage, inner.requested);
      assert req == [c] + inner.requested;
    }
  }

  // ---------------------------------------------------------------------
  // GitHub's pagination convention. The client fills NextPage and LastPage
  // from the Link header; GitHub sends rel="next" and rel="last" on every
  // page but the final one, and neither on the final one. Page 0 (the
  // client leaves it out of the query) is served as page 1.

  /** A provider serving `pages` (page k is pages[k - 1]) under that convention. */
  function GitHubPages(pages: seq<seq<Contributor>>): int -> PageResult
  {
    p =>
      var n := |pages|;
      var k := if p < 1 then 1 else p;
      if k > n then PageOk([], 0, 0)
      else if k == n then PageOk(pages[n - 1], 0, 0)
      else PageOk(pages[k - 1], k + 1, n)
  }

  function Flatten(pages: seq<seq<Contributor>>): seq<Contributor>
  {
    if pages == [] then [] else pages[0] + Flatten(pages[1..])
  }

  /** The numbers lo, lo + 1, ..., hi - 1. */
  function Range(lo: int, hi: int): seq<int>
    decreases hi - lo
  {
    if lo >= hi then [] else [lo] + Range(lo + 1, hi)
  }

  /** From page p (2 <= p < n) on, the loop as written fetches pages p .. n - 1. */
  lemma {:induction false} CrawlFromMiddle(pages: seq<seq<Contributor>>, p: int, fuel: nat)
    requires 2 <= p < |pages| && fuel >= |pages| - p
    ensures Crawl(GitHubPages(pages), p, |pages|, fuel)
      == Complete(Flatten(pages[p - 1..|pages| - 1]), Range(p, |pages|))
    decreases |pages| - p
  {
    var n := |pages|;
    var gh := GitHubPages(pages);
    assert gh(p) == PageOk(pages[p - 1], p + 1, n);
    assert pages[p - 1..n - 1] == [pages[p - 1]] + pages[p..n - 1];
    if p + 1 == n {
      assert pages[p..n - 1] == [];
      assert Range(p + 1, n) == [];
    } else {
      CrawlFromMiddle(pages, p + 1, fuel - 1);
    }
  }

  /** Finding: for a listing of n >= 2 pages, the loop as written stops after
      page n - 1. On page n - 1 the response names n as both the next and the
      last page, so `cpage < lpage` fails and page n is never fetched. */
  lemma AsWrittenMissesLastPage(pages: seq<seq<Contributor>>, fuel: nat)
    requires |pages| >= 2 && fuel >= |pages| - 1
    ensures Crawl(GitHubPages(pages), FirstPage, InitialLastPage, fuel)
      == Complete(Flatten(pages[..|pages| - 1]), [FirstPage] + Range(2, |pages|))
  {
    var n := |pages|;
    var gh := GitHubPages(pages);
    assert gh(0) == PageOk(pages[0], 2, n);
    assert pages[..n - 1] == [pages[0]] + pages[1..n - 1];
    if n == 2 {
      assert pages[1..n - 1] == [];
      assert Range(2, n) == [];
    } else {
      CrawlFromMiddle(pages, 2, fuel - 1);
    }
  }

  /** A one-page listing is fetched in full by the loop as written: the
      finding applies from two pages on. */
  lemma AsWrittenFetchesOnePage(page: seq<Contributor>, fuel: nat)
    requires fuel >= 1
    ensures Crawl(GitHubPages([page]), FirstPage, InitialLastPage, fuel) == Complete(page, [FirstPage])
  {
    assert GitHubPages([page])(0) == PageOk(page, 0, 0);
    assert page + [] == page;
  }

  /** The three-page listing of the finding: the third page's contributor is lost. */
  lemma ThreePagesLoseTheThird(a: Contributor, b: Contributor, c: Contributor)
    ensures Crawl(GitHubPages([[a], [b], [c]]), FirstPage, InitialLastPage, 3) == Complete([a, b], [0, 2])
  {
    AsWrittenMissesLastPage([[a], [b], [c]], 3);
    assert [[a], [b], [c]][..2] == [[a], [b]];
    assert Flatten([[a], [b]]) == [a, b];
    assert Range(2, 3) == [2];
  }

  // ---------------------------------------------------------------------
  // The loop as evidently intended: keep fetching while the response names
  // a next page.

  function CrawlFixed(fetch: int -> PageResult, cpage: int, fuel: nat): Outcome
    decreases fuel
  {
    if fuel == 0 then OutOfFuel([])
    else match fetch(cpage)
      case PageErr => Aborted([cpage])
      case PageOk(cs, next, _) =>
        Extend(cs, [cpage], if next == 0 then Complete([], []) else CrawlFixed(fetch, next, fuel - 1))
  }

  /** The paging loop, corrected to stop only when no next page is named. */
  method FetchContributorsFixed(fetch: int -> PageResult, fuel: nat) returns (out: Outcome)
    ensures out == CrawlFixed(fetch, FirstPage, fuel)
  {
    var cpage, left := FirstPage, fuel;
    var finContributors: seq<Contributor> := [];
    var requested: seq<int> := [];
    while left > 0
      invariant CrawlFixed(fetch, FirstPage, fuel)
        == Extend(finContributors, requested, CrawlFixed(fetch, cpage, left))
      decreases left
    {
      var res := fetch(cpage);
      if res.PageErr? {
        return Aborted(requested + [cpage]);
      }
      ghost var rest := if res.nextPage == 0 then Complete([], []) else CrawlFixed(fetch, res.nextPage, left - 1);
      ExtendExtend(finContributors, requested, res.contributors, [cpage], rest);
      requested := requested + [cpage];
      finContributors := finContributors + res.contributors;
      if res.nextPage == 0 {
        assert finContributors + [] == finContributors && requested + [] == requested;
        return Complete(finContributors, requested);
      }
      cpage, left := res.nextPage, left - 1;
    }
    assert requested + [] == requested;
    return OutOfFuel(requested);
  }

  lemma {:induction false} CrawlFixedFrom(pages: seq<seq<Contributor>>, p: int, fuel: nat)
    requires 2 <= p <= |pages| && fuel >= |pages| - p + 1
    ensures CrawlFixed(GitHubPages(pages), p, fuel)
      == Complete(Flatten(pages[p - 1..]), Range(p, |pages| + 1))
    decreases |pages| - p
  {
    var n := |pages|;
    var gh := GitHubPages(pages);
    assert pages[p - 1..] == [pages[p - 1]] + pages[p..];
    if p == n {
      assert gh(p) == PageOk(pages[p - 1], 0, 0);
      assert pages[p..] == [];
      assert Range(p + 1, n + 1) == [];
    } else {
      assert gh(p) == PageOk(pages[p - 1], p + 1, n);
      CrawlFixedFrom(pages, p + 1, fuel - 1);
    }
  }

  /** The corrected loop fetches every page exactly once, in order, and
      returns all contributors of all pages. */
  lemma FixedFetchesEveryPage(pages: seq<seq<Contributor>>, fuel: nat)
    requires fuel >= |pages| && fuel >= 1
    ensures CrawlFixed(GitHubPages(pages), FirstPage, fuel)
      == Complete(Flatten(pages), [FirstPage] + Range(2, |pages| + 1))
  {
    var n := |pages|;
    var gh := GitHubPages(pages);
    if n == 0 {
      assert gh(0) == PageOk([], 0, 0);
      assert Range(2, n + 1) == [];
      return;
    }
    assert pages == [pages[0]] + pages[1..];
    if n == 1 {
      assert gh(0) == PageOk(pages[0], 0, 0);
      assert pages[1..] == [];
      assert Range(2, n + 1) == [];
    } else {
      assert gh(0) == PageOk(pages[0], 2, n);
      CrawlFixedFrom(pages, 2, fuel - 1);
      assert pages[1..] == pages[2 - 1..];
    }
  }
}
