/** The per-remote pagination cursor of `PullRequestManager`
    (src/github/pullRequestManager.ts) and the paged listing of pull
    requests it drives, plus the timeline event names. The hosting service
    and the git configuration are parameters: `fetch(url, page)` is one page
    of pull requests of a remote, or None when the request gives nothing;
    `isPRRemote(name)` tells whether a remote was created for a pull
    request. */
module Pagination {
  import opened Wrappers
  import opened Grouping

  datatype Remote = Remote(url: string, remoteName: string)

  datatype PullRequest = PullRequest(number: int)

  /** One page as the service returns it. */
  datatype Page = Page(pullRequests: seq<PullRequest>, hasMorePages: bool)

  /** The cursor of one remote: the next page to ask for, and whether more
      pages exist (`null`, None, before the first page). */
  datatype PageInformation = PageInformation(pullRequestPage: int, hasMorePages: Option<bool>)

  const FirstPage := PageInformation(1, None)

  /** A page that reports more pages holds at least one pull request. */
  ghost predicate NoEmptyMorePages(fetch: (string, int) -> Option<Page>)
  {
    forall url, page :: fetch(url, page).Some? && fetch(url, page).value.hasMorePages ==>
      |fetch(url, page).value.pullRequests| > 0
  }

  predicate Exhausted(cursor: PageInformation)
  {
    cursor.hasMorePages == Some(false)
  }

  // ---------------------------------------------------------------------
  // Cursor initialisation and reset

  /** The cursors after `updateRepositories`: each repository without an
      entry gets the first-page cursor. */
  function InitCursors(cursors: map<string, PageInformation>, repos: seq<Remote>): map<string, PageInformation>
  {
    if repos == [] then cursors
    else
      var n := |repos| - 1;
      var before := InitCursors(cursors, repos[..n]);
      if repos[n].url in before then before else before[repos[n].url := FirstPage]
  }

  /** Existing entries are untouched; each repository without one gets the
      first-page cursor; nothing else is added. */
  lemma {:induction false} InitCursorsKeepsEntries(cursors: map<string, PageInformation>, repos: seq<Remote>)
    ensures forall url :: url in InitCursors(cursors, repos) <==> url in cursors || exists r :: r in repos && r.url == url
    ensures forall url :: url in cursors ==> InitCursors(cursors, repos)[url] == cursors[url]
    ensures forall r :: r in repos && r.url !in cursors ==> InitCursors(cursors, repos)[r.url] == FirstPage
  {
    if repos != [] {
      var n := |repos| - 1;
      var front, last := repos[..n], repos[n];
      InitCursorsKeepsEntries(cursors, front);
      forall url
        ensures url in InitCursors(cursors, repos) <==> url in cursors || exists r :: r in repos && r.url == url
      {
        if r :| r in repos && r.url == url {
          InFrontOrLast(repos, r);
        }
        if r :| r in front && r.url == url {
          InFrontOrLast(repos, r);
        }
        if last.url == url {
          assert last in repos;
        }
      }
      forall r | r in repos && r.url !in cursors ensures InitCursors(cursors, repos)[r.url] == FirstPage {
        InFrontOrLast(repos, r);
      }
    }
  }

  /** The cursors after the reset at the head of a first-page listing. */
  function ResetCursors(cursors: map<string, PageInformation>, repos: seq<Remote>): map<string, PageInformation>
  {
    if repos == [] then cursors
    else
      var n := |repos| - 1;
      ResetCursors(cursors, repos[..n])[repos[n].url := FirstPage]
  }

  /** A reset puts every repository back on the first-page cursor and
      leaves the entries of other remotes alone. */
  lemma {:induction false} ResetCursorsRestarts(cursors: map<string, PageInformation>, repos: seq<Remote>)
    ensures forall url :: url in ResetCursors(cursors, repos) <==> url in cursors || exists r :: r in repos && r.url == url
    ensures forall r :: r in repos ==> ResetCursors(cursors, repos)[r.url] == FirstPage
    ensures forall url :: url in cursors && (forall r :: r in repos ==> r.url != url) ==>
      ResetCursors(cursors, repos)[url] == cursors[url]
  {
    if repos != [] {
      var n := |repos| - 1;
      var front, last := repos[..n], repos[n];
      ResetCursorsRestarts(cursors, front);
      assert last in repos;
      forall url
        ensures url in ResetCursors(cursors, repos) <==> url in cursors || exists r :: r in repos && r.url == url
      {
        if r :| r in repos && r.url == url {
          InFrontOrLast(repos, r);
        }
        if r :| r in front && r.url == url {
          InFrontOrLast(repos, r);
        }
      }
      forall r | r in repos ensures ResetCursors(cursors, repos)[r.url] == FirstPage {
        InFrontOrLast(repos, r);
      }
      forall url | url in cursors && (forall r :: r in repos ==> r.url != url)
        ensures ResetCursors(cursors, repos)[url] == cursors[url]
      {
        forall r | r in front ensures r.url != url {
          InFrontOrLast(repos, r);
        }
      }
    }
  }


  // ---------------------------------------------------------------------
  // Fetching

  /** The pages one remote yields: the pull requests fetched, its final
      cursor, the running count and whether some fetched page reported
      more pages. */
  datatype PageRun = PageRun(pullRequests: seq<PullRequest>, cursor: PageInformation, count: int, sawMore: bool)

  /** The `while` loop over the pages of one remote: fetch the cursor's page
      while the count is under the budget and the cursor is not exhausted;
      stop at a page that gives nothing. */
  function FetchPages(url: string, cursor: PageInformation, count: int, pageSize: int,
                      fetch: (string, int) -> Option<Page>): PageRun
    requires NoEmptyMorePages(fetch)
    decreases pageSize - count, if Exhausted(cursor) then 0 else 1
  {
    if count >= pageSize || Exhausted(cursor) then PageRun([], cursor, count, false)
    else
      match fetch(url, cursor.pullRequestPage)
      case None => PageRun([], cursor, count, false)
      case Some(page) =>
        var next := PageInformation(cursor.pullRequestPage + 1, Some(page.hasMorePages));
        var rest := FetchPages(url, next, count + |page.pullRequests|, pageSize, fetch);
        PageRun(page.pullRequests + rest.pullRequests, rest.cursor, rest.count, page.hasMorePages || rest.sawMore)
  }

  /** What the page loop of one remote does: the count grows by the pull
      requests fetched; the page number never goes back, and stays put only
      when nothing is fetched, as happens when the loop starts over budget or
      on an exhausted cursor; the loop stops only at the budget, on an
      exhausted cursor or at a page that gives nothing; and when no fetched
      page reported more pages, the cursor ends exhausted. */
  lemma {:induction false} FetchPagesFacts(url: string, cursor: PageInformation, count: int, pageSize: int,
                                           fetch: (string, int) -> Option<Page>)
    requires NoEmptyMorePages(fetch)
    ensures var r := FetchPages(url, cursor, count, pageSize, fetch);
      && r.count == count + |r.pullRequests|
      && r.cursor.pullRequestPage >= cursor.pullRequestPage
      && (r.cursor.pullRequestPage == cursor.pullRequestPage ==> r == PageRun([], cursor, count, false))
      && (count >= pageSize || Exhausted(cursor) ==> r == PageRun([], cursor, count, false))
      && (r.count >= pageSize || Exhausted(r.cursor) || fetch(url, r.cursor.pullRequestPage).None?)
      && (!r.sawMore && r.cursor.pullRequestPage > cursor.pullRequestPage ==> Exhausted(r.cursor))
    decreases pageSize - count, if Exhausted(cursor) then 0 else 1
  {
    if count < pageSize && !Exhausted(cursor) {
      match fetch(url, cursor.pullRequestPage)
      case None =>
      case Some(page) =>
        var next := PageInformation(cursor.pullRequestPage + 1, Some(page.hasMorePages));
        FetchPagesFacts(url, next, count + |page.pullRequests|, pageSize, fetch);
    }
  }

  /** The pages already fetched followed by the run still to come. */
  function Resume(fetched: seq<PullRequest>, sawMore: bool, rest: PageRun): PageRun
  {
    PageRun(fetched + rest.pullRequests, rest.cursor, rest.count, sawMore || rest.sawMore)
  }

  /** One page of the loop: fetching the cursor's page moves it from the run
      to come to the pages fetched, and either counts at least one pull
      request or exhausts the cursor. */
  lemma FetchPagesStep(url: string, cursor: PageInformation, count: int, pageSize: int,
                       fetch: (string, int) -> Option<Page>, page: Page, fetched: seq<PullRequest>, sawMore: bool,
                       whole: PageRun)
    requires NoEmptyMorePages(fetch)
    requires count < pageSize && !Exhausted(cursor) && fetch(url, cursor.pullRequestPage) == Some(page)
    requires Resume(fetched, sawMore, FetchPages(url, cursor, count, pageSize, fetch)) == whole
    ensures var next := PageInformation(cursor.pullRequestPage + 1, Some(page.hasMorePages));
      && Resume(fetched + page.pullRequests, sawMore || page.hasMorePages,
                FetchPages(url, next, count + |page.pullRequests|, pageSize, fetch)) == whole
      && (|page.pullRequests| > 0 || Exhausted(next))
  {
    var next := PageInformation(cursor.pullRequestPage + 1, Some(page.hasMorePages));
    var rest := FetchPages(url, next, count + |page.pullRequests|, pageSize, fetch);
    assert FetchPages(url, cursor, count, pageSize, fetch)
        == PageRun(page.pullRequests + rest.pullRequests, rest.cursor, rest.count, page.hasMorePages || rest.sawMore);
    assert fetched + (page.pullRequests + rest.pullRequests) == (fetched + page.pullRequests) + rest.pullRequests;
  }

  /** The loop fetches nothing once over budget, on an exhausted cursor, or
      when the cursor's page gives nothing. */
  lemma FetchPagesStops(url: string, cursor: PageInformation, count: int, pageSize: int,
                        fetch: (string, int) -> Option<Page>)
    requires NoEmptyMorePages(fetch)
    requires count >= pageSize || Exhausted(cursor) || fetch(url, cursor.pullRequestPage).None?
    ensures FetchPages(url, cursor, count, pageSize, fetch) == PageRun([], cursor, count, false)
  {
  }

  /** The state the listing carries from remote to remote. */
  datatype Listing = Listing(pullRequests: seq<PullRequest>, cursors: map<string, PageInformation>, count: int, hasMorePages: bool)

  /** Visiting one remote: a remote created for a pull request is skipped;
      any other fetches its pages and stores its new cursor. */
  function Visit(repo: Remote, st: Listing, pageSize: int, fetch: (string, int) -> Option<Page>, isPRRemote: string -> bool)
    : (r: Listing)
    requires NoEmptyMorePages(fetch)
    requires repo.url in st.cursors
    ensures r.cursors.Keys == st.cursors.Keys
  {
    if isPRRemote(repo.remoteName) then st
    else
      var r := FetchPages(repo.url, st.cursors[repo.url], st.count, pageSize, fetch);
      Listing(st.pullRequests + r.pullRequests, st.cursors[repo.url := r.cursor], r.count, st.hasMorePages || r.sawMore)
  }

  /** The filter predicate "not created for a pull request". */
  function KeepRemote(isPRRemote: string -> bool): Remote -> bool
  {
    (r: Remote) => !isPRRemote(r.remoteName)
  }

  predicate Tracked(repos: seq<Remote>, cursors: map<string, PageInformation>)
  {
    forall r :: r in repos ==> r.url in cursors
  }

  /** The `for` loop over the remotes still worth asking: once the count
      reaches the budget at the head of an iteration the listing stops and
      reports more pages. */
  function Run(repos: seq<Remote>, st: Listing, pageSize: int, fetch: (string, int) -> Option<Page>, isPRRemote: string -> bool)
    : (r: Listing)
    requires NoEmptyMorePages(fetch)
    requires Tracked(repos, st.cursors)
    ensures r.cursors.Keys == st.cursors.Keys
    decreases |repos|
  {
    if repos == [] then st
    else if st.count >= pageSize then st.(hasMorePages := true)
    else Run(repos[1..], Visit(repos[0], st, pageSize, fetch, isPRRemote), pageSize, fetch, isPRRemote)
  }

  /** Under budget, the run over `repos[i..]` visits `repos[i]` and goes on
      with the rest. */
  lemma RunStep(repos: seq<Remote>, i: int, st: Listing, pageSize: int,
                fetch: (string, int) -> Option<Page>, isPRRemote: string -> bool)
    requires NoEmptyMorePages(fetch)
    requires 0 <= i < |repos|
    requires Tracked(repos, st.cursors)
    requires st.count < pageSize
    ensures Tracked(repos, Visit(repos[i], st, pageSize, fetch, isPRRemote).cursors)
    ensures Tracked(repos[i..], st.cursors)
    ensures Run(repos[i..], st, pageSize, fetch, isPRRemote)
         == Run(repos[i + 1..], Visit(repos[i], st, pageSize, fetch, isPRRemote), pageSize, fetch, isPRRemote)
  {
    assert repos[i] in repos;
    assert repos[i..][1..] == repos[i + 1..];
    assert forall r :: r in repos[i..] ==> r in repos;
    assert forall r :: r in repos[i + 1..] ==> r in repos;
  }

  /** The filter predicate "the remote's cursor is not exhausted". */
  function MayHaveMore(cursors: map<string, PageInformation>): Remote -> bool
  {
    (r: Remote) => r.url in cursors && !Exhausted(cursors[r.url])
  }

  function Eligible(repos: seq<Remote>, cursors: map<string, PageInformation>): (es: seq<Remote>)
    ensures forall r :: r in es <==> r in repos && r.url in cursors && !Exhausted(cursors[r.url])
  {
    assert forall r :: MayHaveMore(cursors)(r) == (r.url in cursors && !Exhausted(cursors[r.url]));
    Filter(repos, MayHaveMore(cursors))
  }

  // ---------------------------------------------------------------------
  // What a listing does

  /** A first-page listing asks every repository: after the reset no
      cursor is exhausted. */
  lemma ResetMakesAllEligible(cursors: map<string, PageInformation>, repos: seq<Remote>)
    ensures Eligible(repos, ResetCursors(cursors, repos)) == repos
  {
    var reset := ResetCursors(cursors, repos);
    ResetCursorsRestarts(cursors, repos);
    forall i | 0 <= i < |repos| ensures MayHaveMore(reset)(repos[i]) {
      assert repos[i] in repos;
    }
    FilterKeepsAll(repos, MayHaveMore(reset));
  }

  /** When every cursor is exhausted no repository is asked and the listing
      is empty and reports no more pages. */
  lemma NothingLeftToFetch(repos: seq<Remote>, cursors: map<string, PageInformation>, pageSize: int,
                           fetch: (string, int) -> Option<Page>, isPRRemote: string -> bool)
    requires NoEmptyMorePages(fetch)
    requires forall r :: r in repos ==> r.url in cursors && Exhausted(cursors[r.url])
    ensures Eligible(repos, cursors) == []
    ensures Run(Eligible(repos, cursors), Listing([], cursors, 0, false), pageSize, fetch, isPRRemote)
         == Listing([], cursors, 0, false)
  {
    forall i | 0 <= i < |repos| ensures !MayHaveMore(cursors)(repos[i]) {
      assert repos[i] in repos;
    }
    FilterKeepsNone(repos, MayHaveMore(cursors));
  }

  /** What a listing does to the cursors and the list: it only appends pull
      requests and counts them; it keeps the set of tracked remotes; page
      numbers never decrease; and the cursor of a remote that is exhausted,
      or that is not asked (absent or created for a pull request), is left
      untouched. */
  /** What visiting one remote does to the cursors and the list. */
  lemma VisitCursors(repo: Remote, st: Listing, pageSize: int,
                     fetch: (string, int) -> Option<Page>, isPRRemote: string -> bool)
    requires NoEmptyMorePages(fetch)
    requires repo.url in st.cursors
    ensures var v := Visit(repo, st, pageSize, fetch, isPRRemote);
      && |v.pullRequests| >= |st.pullRequests| && v.pullRequests[..|st.pullRequests|] == st.pullRequests
      && v.count == st.count + |v.pullRequests| - |st.pullRequests|
      && (forall url :: url in st.cursors ==> v.cursors[url].pullRequestPage >= st.cursors[url].pullRequestPage)
      && (forall url :: url in st.cursors && Exhausted(st.cursors[url]) ==> v.cursors[url] == st.cursors[url])
      && (forall url :: url in st.cursors && (isPRRemote(repo.remoteName) || repo.url != url) ==>
            v.cursors[url] == st.cursors[url])
  {
    var v := Visit(repo, st, pageSize, fetch, isPRRemote);
    FetchPagesFacts(repo.url, st.cursors[repo.url], st.count, pageSize, fetch);
    assert v.pullRequests[..|st.pullRequests|] == st.pullRequests;
  }

  lemma {:induction false} RunCursors(repos: seq<Remote>, st: Listing, pageSize: int,
                                      fetch: (string, int) -> Option<Page>, isPRRemote: string -> bool)
    requires NoEmptyMorePages(fetch)
    requires Tracked(repos, st.cursors)
    ensures var r := Run(repos, st, pageSize, fetch, isPRRemote);
      && |r.pullRequests| >= |st.pullRequests| && r.pullRequests[..|st.pullRequests|] == st.pullRequests
      && r.count == st.count + |r.pullRequests| - |st.pullRequests|
      && r.cursors.Keys == st.cursors.Keys
      && (forall url :: url in st.cursors ==> r.cursors[url].pullRequestPage >= st.cursors[url].pullRequestPage)
      && (forall url :: url in st.cursors && Exhausted(st.cursors[url]) ==> r.cursors[url] == st.cursors[url])
      && (forall url :: url in st.cursors && (forall x :: x in repos && !isPRRemote(x.remoteName) ==> x.url != url) ==>
            r.cursors[url] == st.cursors[url])
    decreases |repos|
  {
    if repos != [] && st.count < pageSize {
      var next := Visit(repos[0], st, pageSize, fetch, isPRRemote);
      assert repos[0] in repos;
      VisitCursors(repos[0], st, pageSize, fetch, isPRRemote);
      assert forall x :: x in repos[1..] ==> x in repos;
      RunCursors(repos[1..], next, pageSize, fetch, isPRRemote);
      var r := Run(repos[1..], next, pageSize, fetch, isPRRemote);
      assert r == Run(repos, st, pageSize, fetch, isPRRemote);
      assert r.pullRequests[..|next.pullRequests|][..|st.pullRequests|] == r.pullRequests[..|st.pullRequests|];
    }
  }


  /** One page holds at most `m` pull requests: a remote's loop starts only
      under the budget and so overshoots it by less than `m`. */
  lemma {:induction false} FetchPagesBudget(url: string, cursor: PageInformation, count: int, pageSize: int,
                                            fetch: (string, int) -> Option<Page>, m: int)
    requires NoEmptyMorePages(fetch)
    requires forall u, p :: fetch(u, p).Some? ==> |fetch(u, p).value.pullRequests| <= m
    requires count < pageSize + m
    ensures FetchPages(url, cursor, count, pageSize, fetch).count < pageSize + m
    decreases pageSize - count, if Exhausted(cursor) then 0 else 1
  {
    if count < pageSize && !Exhausted(cursor) {
      match fetch(url, cursor.pullRequestPage)
      case None =>
      case Some(page) =>
        var next := PageInformation(cursor.pullRequestPage + 1, Some(page.hasMorePages));
        FetchPagesBudget(url, next, count + |page.pullRequests|, pageSize, fetch, m);
    }
  }

  /** The budget: a listing that starts under `pageSize + m` ends under it,
      so a listing from an empty start returns fewer than `pageSize + m`
      pull requests when no page holds more than `m`. */
  lemma {:induction false} RunBudget(repos: seq<Remote>, st: Listing, pageSize: int,
                                     fetch: (string, int) -> Option<Page>, isPRRemote: string -> bool, m: int)
    requires NoEmptyMorePages(fetch)
    requires Tracked(repos, st.cursors)
    requires forall u, p :: fetch(u, p).Some? ==> |fetch(u, p).value.pullRequests| <= m
    requires st.count < pageSize + m
    ensures Run(repos, st, pageSize, fetch, isPRRemote).count < pageSize + m
    decreases |repos|
  {
    if repos != [] && st.count < pageSize {
      var repo := repos[0];
      if !isPRRemote(repo.remoteName) {
        FetchPagesBudget(repo.url, st.cursors[repo.url], st.count, pageSize, fetch, m);
      }
      RunBudget(repos[1..], Visit(repo, st, pageSize, fetch, isPRRemote), pageSize, fetch, isPRRemote, m);
    }
  }

  /** A remote is settled when its cursor is exhausted or its next page
      gives nothing. */
  predicate Settled(url: string, cursor: PageInformation, fetch: (string, int) -> Option<Page>)
  {
    Exhausted(cursor) || fetch(url, cursor.pullRequestPage).None?
  }

  /** One remote's visit under budget keeps settled cursors settled, and
      settles the visited remote's cursor when no page reported more. */
  lemma VisitSettles(repo: Remote, st: Listing, pageSize: int,
                     fetch: (string, int) -> Option<Page>, isPRRemote: string -> bool)
    requires NoEmptyMorePages(fetch)
    requires repo.url in st.cursors
    requires st.count < pageSize
    ensures var v := Visit(repo, st, pageSize, fetch, isPRRemote);
      && (forall u :: u in st.cursors && Settled(u, st.cursors[u], fetch) ==> Settled(u, v.cursors[u], fetch))
      && (!isPRRemote(repo.remoteName) && !v.hasMorePages ==> Settled(repo.url, v.cursors[repo.url], fetch))
  {
    FetchPagesFacts(repo.url, st.cursors[repo.url], st.count, pageSize, fetch);
  }

  /** A listing that reports no more pages did not stop at the budget, and
      left every remote it was given to ask settled; remotes settled before
      stay settled. */
  lemma {:induction false} QuietRunSettles(repos: seq<Remote>, st: Listing, pageSize: int,
                                           fetch: (string, int) -> Option<Page>, isPRRemote: string -> bool)
    requires NoEmptyMorePages(fetch)
    requires Tracked(repos, st.cursors)
    requires !Run(repos, st, pageSize, fetch, isPRRemote).hasMorePages
    ensures !st.hasMorePages
    ensures forall u :: u in st.cursors && Settled(u, st.cursors[u], fetch) ==>
      Settled(u, Run(repos, st, pageSize, fetch, isPRRemote).cursors[u], fetch)
    ensures forall x :: x in repos && !isPRRemote(x.remoteName) ==>
      Settled(x.url, Run(repos, st, pageSize, fetch, isPRRemote).cursors[x.url], fetch)
    decreases |repos|
  {
    if repos != [] {
      var next := Visit(repos[0], st, pageSize, fetch, isPRRemote);
      VisitSettles(repos[0], st, pageSize, fetch, isPRRemote);
      QuietRunSettles(repos[1..], next, pageSize, fetch, isPRRemote);
      forall x | x in repos && !isPRRemote(x.remoteName)
        ensures Settled(x.url, Run(repos, st, pageSize, fetch, isPRRemote).cursors[x.url], fetch)
      {
        if x != repos[0] {
          assert x in repos[1..];
        }
      }
    }
  }

  /** The returned flag is the OR of the fetched pages' flags, not whether
      more pages remain: a remote whose first page reports more pages and
      whose second is empty and last leaves every cursor exhausted, yet the
      listing reports more pages. */
  lemma MoreReportedAfterLastPage()
    ensures var fetch := (url: string, page: int) =>
              if page == 1 then Some(Page([PullRequest(1)], true))
              else if page == 2 then Some(Page([], false))
              else None;
      var repo := Remote("https://example.com/o/r", "origin");
      var cursors := map[repo.url := FirstPage];
      && NoEmptyMorePages(fetch)
      && var r := Run(Eligible([repo], cursors), Listing([], cursors, 0, false), 10, fetch, _ => false);
      && r.pullRequests == [PullRequest(1)]
      && r.hasMorePages
      && r.cursors[repo.url] == PageInformation(3, Some(false))
      && Eligible([repo], r.cursors) == []
  {
    var fetch := (url: string, page: int) =>
      if page == 1 then Some(Page([PullRequest(1)], true))
      else if page == 2 then Some(Page([], false))
      else None;
    var repo := Remote("https://example.com/o/r", "origin");
    var cursors := map[repo.url := FirstPage];
    var isPR := (_: string) => false;
    ResetMakesAllEligible(cursors, [repo]);
    assert ResetCursors(cursors, [repo]) == cursors;
    var last := FetchPages(repo.url, PageInformation(3, Some(false)), 1, 10, fetch);
    var second := FetchPages(repo.url, PageInformation(2, Some(true)), 1, 10, fetch);
    var first := FetchPages(repo.url, FirstPage, 0, 10, fetch);
    assert second == PageRun([], PageInformation(3, Some(false)), 1, false);
    assert first == PageRun([PullRequest(1)], PageInformation(3, Some(false)), 1, true);
    var start := Listing([], cursors, 0, false);
    var visited := Visit(repo, start, 10, fetch, isPR);
    assert visited.cursors == map[repo.url := PageInformation(3, Some(false))];
    assert Run([repo], start, 10, fetch, isPR) == Run([], visited, 10, fetch, isPR);
  }

  class PullRequestManager {
    var repositories: seq<Remote>
    var pageInformation: map<string, PageInformation>

    /** Every repository has a cursor. */
    predicate Valid()
      reads this
    {
      Tracked(repositories, pageInformation)
    }

    constructor()
      ensures Valid()
      ensures repositories == [] && pageInformation == map[]
    {
      repositories := [];
      pageInformation := map[];
    }

    /** `updateRepositories`, cursor part: keep the remotes not created for a
        pull request, and give each one without a cursor the first-page
        cursor. */
    method UpdateRepositories(remotes: seq<Remote>, isPRRemote: string -> bool)
      modifies this
      ensures Valid()
      ensures repositories == Filter(remotes, KeepRemote(isPRRemote))
      ensures pageInformation == InitCursors(old(pageInformation), repositories)
    {
      var kept: seq<Remote> := [];
      for i := 0 to |remotes|
        invariant kept == Filter(remotes[..i], KeepRemote(isPRRemote))
      {
        if !isPRRemote(remotes[i].remoteName) {
          kept := kept + [remotes[i]];
        }
        assert remotes[..i + 1][..i] == remotes[..i];
      }
      assert remotes[..|remotes|] == remotes;
      repositories := kept;
      InitPages();
    }

    /** The loop of `updateRepositories` over the kept repositories. */
    method InitPages()
      modifies this`pageInformation
      ensures Valid()
      ensures pageInformation == InitCursors(old(pageInformation), repositories)
    {
      var repos := repositories;
      for i := 0 to |repos|
        invariant pageInformation == InitCursors(old(pageInformation), repos[..i])
      {
        var url := repos[i].url;
        if url !in pageInformation {
          pageInformation := pageInformation[url := FirstPage];
        }
        assert repos[..i + 1][..i] == repos[..i];
      }
      assert repos[..|repos|] == repos;
      InitCursorsKeepsEntries(old(pageInformation), repos);
    }

    /** `mayHaveMorePages`: some repository's cursor is not exhausted, that
        is, a next-page listing has a remote to ask. */
    function MayHaveMorePages(): (b: bool)
      reads this
      requires Valid()
      ensures b <==> Eligible(repositories, pageInformation) != []
    {
      var b := exists r :: r in repositories && !Exhausted(pageInformation[r.url]);
      assert b ==> Eligible(repositories, pageInformation) != [] by {
        if b {
          var r :| r in repositories && !Exhausted(pageInformation[r.url]);
          assert r in Eligible(repositories, pageInformation);
        }
      }
      assert Eligible(repositories, pageInformation) != [] ==> b by {
        if Eligible(repositories, pageInformation) != [] {
          assert Eligible(repositories, pageInformation)[0] in Eligible(repositories, pageInformation);
        }
      }
      b
    }

    /** The reset at the head of a first-page listing: every repository's
        cursor goes back to the first page. */
    method ResetPages()
      requires Valid()
      modifies this`pageInformation
      ensures Valid()
      ensures pageInformation == ResetCursors(old(pageInformation), repositories)
    {
      var repos := repositories;
      for i := 0 to |repos|
        invariant pageInformation == ResetCursors(old(pageInformation), repos[..i])
      {
        pageInformation := pageInformation[repos[i].url := FirstPage];
        assert repos[..i + 1][..i] == repos[..i];
      }
      assert repos[..|repos|] == repos;
      ResetCursorsRestarts(old(pageInformation), repos);
    }

    /** The `while` loop of `getPullRequests` for one remote: fetch pages
        into the running count, each page advancing the remote's cursor by
        one and recording the page's more-pages flag; the cursor is stored
        back when the loop ends. */
    method FetchRemotePages(url: string, count0: int, pageSize: int, fetch: (string, int) -> Option<Page>)
      returns (fetched: seq<PullRequest>, count: int, sawMore: bool)
      requires url in pageInformation
      requires NoEmptyMorePages(fetch)
      modifies this`pageInformation
      ensures var r := FetchPages(url, old(pageInformation)[url], count0, pageSize, fetch);
        && fetched == r.pullRequests && count == r.count && sawMore == r.sawMore
        && pageInformation == old(pageInformation)[url := r.cursor]
    {
      var info := pageInformation;
      var cursor := info[url];
      ghost var whole := FetchPages(url, cursor, count0, pageSize, fetch);
      fetched, count, sawMore := [], count0, false;
      assert Resume(fetched, sawMore, whole) == whole;
      while count < pageSize && !Exhausted(cursor)
        invariant Resume(fetched, sawMore, FetchPages(url, cursor, count, pageSize, fetch)) == whole
        decreases pageSize - count, if Exhausted(cursor) then 0 else 1
      {
        var data := fetch(url, cursor.pullRequestPage);
        if data.None? {
          break;
        }
        var page := data.value;
        FetchPagesStep(url, cursor, count, pageSize, fetch, page, fetched, sawMore, whole);
        count := count + |page.pullRequests|;
        fetched := fetched + page.pullRequests;
        sawMore := sawMore || page.hasMorePages;
        cursor := PageInformation(cursor.pullRequestPage + 1, Some(page.hasMorePages));
      }
      FetchPagesStops(url, cursor, count, pageSize, fetch);
      pageInformation := info[url := cursor];
    }

  /** The `for` loop of `getPullRequests` over the remotes still worth
        asking, with the budget check at its head. */
    method ListEligible(eligible: seq<Remote>, pageSize: int,
                        fetch: (string, int) -> Option<Page>, isPRRemote: string -> bool)
      returns (pullRequests: seq<PullRequest>, hasMorePages: bool)
      requires Tracked(eligible, pageInformation)
      requires NoEmptyMorePages(fetch)
      modifies this`pageInformation
      ensures var r := Run(eligible, Listing([], old(pageInformation), 0, false), pageSize, fetch, isPRRemote);
        pullRequests == r.pullRequests && hasMorePages == r.hasMorePages && pageInformation == r.cursors
    {
      ghost var start := Listing([], pageInformation, 0, false);
      pullRequests, hasMorePages := [], false;
      var count := 0;
      var i := 0;
      assert eligible[0..] == eligible;
      while i < |eligible|
        invariant 0 <= i <= |eligible|
        invariant Tracked(eligible, pageInformation)
        invariant Run(eligible[i..], Listing(pullRequests, pageInformation, count, hasMorePages), pageSize, fetch, isPRRemote)
               == Run(eligible, start, pageSize, fetch, isPRRemote)
      {
        if count >= pageSize {
          hasMorePages := true;
          break;
        }
        var repo := eligible[i];
        ghost var before := Listing(pullRequests, pageInformation, count, hasMorePages);
        RunStep(eligible, i, before, pageSize, fetch, isPRRemote);
        if !isPRRemote(repo.remoteName) {
          var fetched, sawMore;
          fetched, count, sawMore := FetchRemotePages(repo.url, count, pageSize, fetch);
          pullRequests := pullRequests + fetched;
          hasMorePages := hasMorePages || sawMore;
        }
        ghost var after := Listing(pullRequests, pageInformation, count, hasMorePages);
        assert after == Visit(repo, before, pageSize, fetch, isPRRemote);
        assert Run(eligible[i + 1..], after, pageSize, fetch, isPRRemote) == Run(eligible, start, pageSize, fetch, isPRRemote);
        i := i + 1;
      }
    }

    /** `getPullRequests`: with no repositories, nothing. Otherwise a first
        page listing resets every cursor; then the remotes whose cursor is
        not exhausted are asked in turn, page after page, until the count of
        pull requests reaches `pageSize`. */
    method GetPullRequests(fetchNextPage: bool, pageSize: int,
                           fetch: (string, int) -> Option<Page>, isPRRemote: string -> bool)
      returns (pullRequests: seq<PullRequest>, hasMorePages: bool)
      requires Valid()
      requires NoEmptyMorePages(fetch)
      modifies this`pageInformation
      ensures Valid()
      ensures repositories == [] ==> pullRequests == [] && !hasMorePages && pageInformation == old(pageInformation)
      ensures repositories != [] ==>
        var start := if fetchNextPage then old(pageInformation) else ResetCursors(old(pageInformation), repositories);
        var r := Run(Eligible(repositories, start), Listing([], start, 0, false), pageSize, fetch, isPRRemote);
        pullRequests == r.pullRequests && hasMorePages == r.hasMorePages && pageInformation == r.cursors
    {
      if |repositories| == 0 {
        return [], false;
      }
      if !fetchNextPage {
        ResetPages();
      }
      var eligible := Filter(repositories, MayHaveMore(pageInformation));
      assert eligible == Eligible(repositories, pageInformation);
      ghost var start := pageInformation;
      pullRequests, hasMorePages := ListEligible(eligible, pageSize, fetch, isPRRemote);
      assert pageInformation.Keys == start.Keys;
    }
  }

  // ---------------------------------------------------------------------
  // Timeline events

  datatype EventType = Committed | Mentioned | Subscribed | Commented | Reviewed | Other

  /** `getEventType`: the five known event names, everything else `Other`. */
  function GetEventType(text: string): (e: EventType)
    ensures e == Other <==> text !in {"committed", "mentioned", "subscribed", "commented", "reviewed"}
  {
    match text
    case "committed" => Committed
    case "mentioned" => Mentioned
    case "subscribed" => Subscribed
    case "commented" => Commented
    case "reviewed" => Reviewed
    case _ => Other
  }

  /** The service's name of a known event type. */
  function EventName(e: EventType): string
    requires e != Other
  {
    match e
    case Committed => "committed"
    case Mentioned => "mentioned"
    case Subscribed => "subscribed"
    case Commented => "commented"
    case Reviewed => "reviewed"
  }

  /** Event names and known event types correspond one to one. */
  lemma EventNamesRoundTrip(e: EventType, text: string)
    ensures e != Other ==> GetEventType(EventName(e)) == e
    ensures GetEventType(text) != Other ==> EventName(GetEventType(text)) == text
  {
  }
}
