/** The bounded crawl of `_crawl_links` (scripts/smoke_links.py:101-156) over a
    site that answers every URL the same way each time. */
module Crawler {
  import opened Options

  type Url = string

  /** What one response means to the crawler.  `links` are the results of
      `_normalize_url` on the page's hrefs in order, `redirect` its result on the
      `location` header; `None` stands for a link the crawler ignores. */
  datatype Page = Page(status: int, loginRedirect: bool, redirect: Option<Url>,
                       html: bool, links: seq<Option<Url>>)

  type Site = Url -> Page

  datatype Failure =
    | HttpError(url: Url, status: int, parent: Option<Url>)
    | LoginRedirect(url: Url, parent: Option<Url>)

  /** A queue entry: a URL with the page it was found on (line 110). */
  datatype Job = Job(url: Url, parent: Option<Url>)

  predicate IsLoginRedirect(p: Page) {
    300 <= p.status < 400 && p.loginRedirect
  }

  /** Whether lines 122-142 let the crawl go on past this page. */
  predicate Accepted(p: Page, allowLogin: bool) {
    p.status < 400 && (IsLoginRedirect(p) ==> allowLogin)
  }

  /** The links lines 133-153 consider on an accepted page. */
  function PageLinks(p: Page): seq<Option<Url>> {
    if 300 <= p.status < 400 then (if p.loginRedirect then [] else [p.redirect])
    else if p.html then p.links
    else []
  }

  function Values(links: seq<Option<Url>>): set<Url> {
    set link | link in links && link.Some? :: link.value
  }

  /** The URLs that an accepted page leads to. */
  function Targets(p: Page): set<Url> {
    Values(PageLinks(p))
  }

  /** The same in the fields of the response: a redirect leads to where it points, unless
      that is the login page, and any other HTML page to the links on it. */
  predicate LinksTo(p: Page, u: Url) {
    if p.status < 300 || p.status >= 400 then p.html && exists i :: 0 <= i < |p.links| && p.links[i] == Some(u)
    else !p.loginRedirect && p.redirect == Some(u)
  }

  lemma TargetsMean(p: Page, u: Url)
    ensures u in Targets(p) <==> LinksTo(p, u)
  {
    if u in Targets(p) {
      assert Some(u) in PageLinks(p);
    }
  }

  /** A walk along links from one of the start URLs. */
  ghost predicate IsPath(site: Site, starts: set<Url>, path: seq<Url>) {
    && path != [] && path[0] in starts
    && forall i {:trigger path[i]} :: 0 < i < |path| ==> path[i] in Targets(site(path[i - 1]))
  }

  /** `u` can be reached from the starts along at most `n` links. */
  ghost predicate Within(site: Site, starts: set<Url>, u: Url, n: nat) {
    exists path :: IsPath(site, starts, path) && |path| <= n + 1 && path[|path| - 1] == u
  }

  ghost predicate Reachable(site: Site, starts: set<Url>, u: Url) {
    exists n: nat :: Within(site, starts, u, n)
  }

  ghost predicate AllReachable(site: Site, starts: set<Url>, visited: set<Url>) {
    forall u :: u in visited ==> Reachable(site, starts, u)
  }

  ghost predicate Complete(site: Site, starts: set<Url>, visited: set<Url>) {
    forall u :: Reachable(site, starts, u) <==> u in visited
  }

  /** Every visited URL is at most as far from the starts as every unvisited one. */
  ghost predicate NearestFirst(site: Site, starts: set<Url>, visited: set<Url>) {
    forall v, u, n: nat :: v in visited && u !in visited && Within(site, starts, u, n)
                           ==> Within(site, starts, v, n)
  }

  /** `url` is not acceptable, and no page closer to the starts is unacceptable. */
  ghost predicate NearestUnacceptable(site: Site, starts: set<Url>, url: Url, allowLogin: bool) {
    && !Accepted(site(url), allowLogin)
    && forall u, n: nat :: !Accepted(site(u), allowLogin) && Within(site, starts, u, n) ==> Within(site, starts, url, n)
  }

  /** All URLs within `n` links, built layer by layer. */
  ghost function Ball(site: Site, starts: set<Url>, n: nat): set<Url> {
    if n == 0 then starts
    else var inner := Ball(site, starts, n - 1);
         inner + set u, v | u in inner && v in Targets(site(u)) :: v
  }

  lemma {:induction false} BallGrows(site: Site, starts: set<Url>, m: nat, n: nat)
    requires m <= n
    ensures Ball(site, starts, m) <= Ball(site, starts, n)
  {
    if m < n {
      BallGrows(site, starts, m, n - 1);
    }
  }

  lemma {:induction false} PathInBall(site: Site, starts: set<Url>, path: seq<Url>)
    requires IsPath(site, starts, path)
    ensures path[|path| - 1] in Ball(site, starts, |path| - 1)
  {
    if |path| > 1 {
      var init := path[..|path| - 1];
      assert IsPath(site, starts, init);
      PathInBall(site, starts, init);
      assert path[|path| - 1] in Targets(site(path[|path| - 2]));
    }
  }

  lemma {:induction false} BallHasPath(site: Site, starts: set<Url>, u: Url, n: nat) returns (path: seq<Url>)
    requires u in Ball(site, starts, n)
    ensures IsPath(site, starts, path) && |path| <= n + 1 && path[|path| - 1] == u
    decreases n
  {
    hide PageLinks, Values;
    if n == 0 {
      path := [u];
    } else if u in Ball(site, starts, n - 1) {
      path := BallHasPath(site, starts, u, n - 1);
    } else {
      var v :| v in Ball(site, starts, n - 1) && u in Targets(site(v));
      var p := BallHasPath(site, starts, v, n - 1);
      path := p + [u];
      LongerPath(site, starts, p, u);
    }
  }

  lemma LongerPath(site: Site, starts: set<Url>, path: seq<Url>, u: Url)
    requires IsPath(site, starts, path) && u in Targets(site(path[|path| - 1]))
    ensures IsPath(site, starts, path + [u])
  {
    hide Targets;
  }

  lemma WithinIsBall(site: Site, starts: set<Url>, u: Url, n: nat)
    ensures Within(site, starts, u, n) <==> u in Ball(site, starts, n)
  {
    if Within(site, starts, u, n) {
      var path :| IsPath(site, starts, path) && |path| <= n + 1 && path[|path| - 1] == u;
      PathInBall(site, starts, path);
      BallGrows(site, starts, |path| - 1, n);
    }
    if u in Ball(site, starts, n) {
      var path := BallHasPath(site, starts, u, n);
    }
  }

  /** A set that contains the starts and every target of its members contains everything reachable. */
  lemma {:induction false} ClosedContainsBall(site: Site, starts: set<Url>, s: set<Url>, n: nat)
    requires starts <= s
    requires forall v :: v in s ==> Targets(site(v)) <= s
    ensures Ball(site, starts, n) <= s
  {
    if n > 0 {
      ClosedContainsBall(site, starts, s, n - 1);
    }
  }

  function Urls(jobs: seq<Job>): set<Url> {
    set job | job in jobs :: job.url
  }

  function Elements(urls: seq<Url>): set<Url> {
    set u | u in urls
  }

  ghost predicate NoRepeats(urls: seq<Url>) {
    forall i, j :: 0 <= i < j < |urls| ==> urls[i] != urls[j]
  }

  /** The parent noted for a job is a visited page that links to it; a start has none. */
  ghost predicate Sourced(site: Site, starts: set<Url>, visited: set<Url>, job: Job) {
    match job.parent
    case None => job.url in starts
    case Some(p) => p in visited && job.url in Targets(site(p))
  }

  /** The invariant of the crawl while its front entries lie at distance `depth`:
      the first `front` jobs are at most `depth` links away, the others one more;
      everything closer is visited already, everything at `depth` is visited or queued. */
  ghost predicate Frontier(site: Site, starts: set<Url>, visited: set<Url>, queue: seq<Job>, depth: nat, front: nat) {
    && front <= |queue|
    && visited <= Ball(site, starts, depth)
    && (depth > 0 ==> Ball(site, starts, depth - 1) <= visited)
    && Ball(site, starts, depth) <= visited + Urls(queue[..front])
    && Urls(queue[..front]) <= Ball(site, starts, depth)
    && Urls(queue) <= Ball(site, starts, depth + 1)
    && (forall v :: v in visited ==> Targets(site(v)) <= visited + Urls(queue))
    && (forall job :: job in queue ==> Sourced(site, starts, visited, job))
  }

  /** When the front layer is used up, the rest of the queue is the next one. */
  lemma NextLayer(site: Site, starts: set<Url>, visited: set<Url>, queue: seq<Job>, depth: nat)
    requires Frontier(site, starts, visited, queue, depth, 0)
    ensures Frontier(site, starts, visited, queue, depth + 1, |queue|)
  {
    assert queue[..0] == [] && queue[..|queue|] == queue;
    BallGrows(site, starts, depth, depth + 1);
    BallGrows(site, starts, depth + 1, depth + 2);
  }

  /** Line 110. */
  function StartJobs(starts: seq<Url>): seq<Job> {
    seq(|starts|, i requires 0 <= i < |starts| => Job(starts[i], None))
  }

  lemma InitialFrontier(site: Site, starts: seq<Url>)
    ensures Frontier(site, Elements(starts), {}, StartJobs(starts), 0, |starts|)
  {
    var queue := StartJobs(starts);
    assert queue[..|queue|] == queue;
    forall u | u in Elements(starts) ensures u in Urls(queue) {
      var i :| 0 <= i < |starts| && starts[i] == u;
      assert queue[i] in queue;
    }
    BallGrows(site, Elements(starts), 0, 1);
  }

  /** Lines 115-116: the front job's URL was visited before. */
  lemma SkipVisited(site: Site, starts: set<Url>, visited: set<Url>, queue: seq<Job>, depth: nat, front: nat)
    requires Frontier(site, starts, visited, queue, depth, front) && front > 0 && queue != []
    requires queue[0].url in visited
    ensures Frontier(site, starts, visited, queue[1..], depth, front - 1)
  {
    assert queue[1..][..front - 1] == queue[..front][1..];
    assert queue == [queue[0]] + queue[1..] && queue[..front] == [queue[0]] + queue[..front][1..];
  }

  /** Lines 118-153: the front page is visited, and the unvisited URLs it leads to
      (with any repetitions) are queued behind. */
  lemma VisitFront(site: Site, starts: set<Url>, visited: set<Url>, queue: seq<Job>, depth: nat, front: nat,
                   added: seq<Job>)
    requires Frontier(site, starts, visited, queue, depth, front) && front > 0 && queue != []
    requires forall job :: job in added ==> job.parent == Some(queue[0].url)
    requires Urls(added) == Values(PageLinks(site(queue[0].url))) - (visited + {queue[0].url})
    ensures Frontier(site, starts, visited + {queue[0].url}, queue[1..] + added, depth, front - 1)
  {
    hide PageLinks, Values;
    var url := queue[0].url;
    var visited', queue' := visited + {url}, queue[1..] + added;
    assert queue'[..front - 1] == queue[..front][1..];
    assert queue == [queue[0]] + queue[1..] && queue[..front] == [queue[0]] + queue[..front][1..];
    assert queue[0] in queue[..front];
    assert Urls(queue) == {url} + Urls(queue[1..]);
    assert Urls(queue[..front]) == {url} + Urls(queue[..front][1..]);
    UrlsAppend(queue[1..], added);
    SourcedStill(site, starts, visited, queue, added);
  }

  lemma SourcedStill(site: Site, starts: set<Url>, visited: set<Url>, queue: seq<Job>, added: seq<Job>)
    requires queue != [] && forall job :: job in queue ==> Sourced(site, starts, visited, job)
    requires forall job :: job in added ==> job.parent == Some(queue[0].url)
    requires Urls(added) == Values(PageLinks(site(queue[0].url))) - (visited + {queue[0].url})
    ensures forall job :: job in queue[1..] + added ==> Sourced(site, starts, visited + {queue[0].url}, job)
  {
    forall job | job in queue[1..] + added ensures Sourced(site, starts, visited + {queue[0].url}, job) {
      if job in added {
        assert job.url in Urls(added);
      } else {
        assert job in queue;
      }
    }
  }

  lemma UrlsAppend(a: seq<Job>, b: seq<Job>)
    ensures Urls(a + b) == Urls(a) + Urls(b)
  {
    forall u | u in Urls(a) + Urls(b) ensures u in Urls(a + b) {
      if u in Urls(a) {
        var job :| job in a && job.url == u;
        assert job in a + b;
      } else {
        var job :| job in b && job.url == u;
        assert job in a + b;
      }
    }
  }

  /** Lines 150-153, and line 141 for a single link. */
  method Enqueue(links: seq<Option<Url>>, url: Url, visited: set<Url>) returns (added: seq<Job>)
    ensures forall job :: job in added ==> job.parent == Some(url)
    ensures Urls(added) == Values(links) - visited
  {
    added := [];
    for i := 0 to |links|
      invariant forall job :: job in added ==> job.parent == Some(url)
      invariant Urls(added) == Values(links[..i]) - visited
    {
      assert links[..i + 1] == links[..i] + [links[i]];
      if links[i].Some? && links[i].value !in visited {
        UrlsAppend(added, [Job(links[i].value, Some(url))]);
        added := added + [Job(links[i].value, Some(url))];
      }
    }
    assert links[..|links|] == links;
  }

  /** The failure reported for a page, if lines 122-139 report one. */
  ghost predicate FailureFor(page: Page, job: Job, allowLogin: bool, failure: Failure) {
    match failure
    case HttpError(url, status, parent) =>
      job == Job(url, parent) && page.status == status && status >= 400
    case LoginRedirect(url, parent) =>
      job == Job(url, parent) && IsLoginRedirect(page) && !allowLogin
  }

  /** Lines 121-153: look at the response; report an error, or a redirect to the login page
      unless that is allowed; or queue what it links to. */
  method Inspect(page: Page, job: Job, visited: set<Url>, allowLogin: bool)
    returns (failure: Option<Failure>, added: seq<Job>)
    ensures failure.None? <==> Accepted(page, allowLogin)
    ensures failure.Some? ==> FailureFor(page, job, allowLogin, failure.value)
    ensures failure.None? ==>
              && (forall j :: j in added ==> j.parent == Some(job.url))
              && Urls(added) == Values(PageLinks(page)) - visited
    ensures failure == if page.status >= 400 then Some(HttpError(job.url, page.status, job.parent))
                       else if page.status >= 300 && page.loginRedirect && !allowLogin
                       then Some(LoginRedirect(job.url, job.parent))
                       else None
    ensures failure.None? ==> forall u :: u in Urls(added) <==> u !in visited && LinksTo(page, u)
  {
    forall u ensures u in Targets(page) <==> LinksTo(page, u) {
      TargetsMean(page, u);
    }
    if page.status >= 400 {
      return Some(HttpError(job.url, page.status, job.parent)), [];
    }
    if 300 <= page.status < 400 {
      if page.loginRedirect {
        if !allowLogin {
          return Some(LoginRedirect(job.url, job.parent)), [];
        }
        return None, [];
      }
      added := Enqueue([page.redirect], job.url, visited);
      return None, added;
    }
    if !page.html {
      return None, [];
    }
    added := Enqueue(page.links, job.url, visited);
    failure := None;
  }

  lemma AppendNew(urls: seq<Url>, url: Url)
    requires NoRepeats(urls) && url !in Elements(urls)
    ensures NoRepeats(urls + [url]) && Elements(urls + [url]) == Elements(urls) + {url}
  {
  }

  /** What is left when the crawl ends without an error. */
  datatype Outcome = Finished(pending: seq<Job>) | Failed(failure: Failure)

  /** The crawl.  `requested` lists the URLs it asks for, in order.
      - No URL is requested twice, and at most `maxPages` are.
      - If it fails, the last page requested is the one reported, it is reachable,
        its parent links to it, and it is indeed not acceptable; all pages before it
        were accepted, and no page that is not acceptable is closer to the starts.
      - If it ends with its queue empty, in particular whenever it ends below the
        cap, the visited pages are exactly the reachable ones, and all are accepted.
      - If the cap ends it, every visited URL is at most as far from the starts as
        every reachable unvisited one. */
  method Crawl(site: Site, starts: seq<Url>, maxPages: int, allowLogin: bool)
    returns (outcome: Outcome, visited: set<Url>, requested: seq<Url>)
    ensures visited == Elements(requested) && NoRepeats(requested) && |visited| == |requested|
    ensures requested != [] ==> |requested| <= maxPages
    ensures AllReachable(site, Elements(starts), visited)
    ensures outcome.Failed? ==>
              && requested != [] && outcome.failure.url == requested[|requested| - 1]
              && Sourced(site, Elements(starts), visited, Job(outcome.failure.url, outcome.failure.parent))
    ensures outcome.Failed? ==>
              var job := Job(outcome.failure.url, outcome.failure.parent);
              FailureFor(site(job.url), job, allowLogin, outcome.failure)
    ensures outcome.Failed? ==>
              && (forall u :: u in visited && u != outcome.failure.url ==> Accepted(site(u), allowLogin))
              && NearestUnacceptable(site, Elements(starts), outcome.failure.url, allowLogin)
    ensures outcome.Finished? ==> forall u :: u in visited ==> Accepted(site(u), allowLogin)
    ensures outcome.Finished? ==>
              forall u :: u in visited ==>
                site(u).status < 400 && !(300 <= site(u).status && site(u).loginRedirect && !allowLogin)
    ensures outcome.Failed? ==>
              var page := site(outcome.failure.url);
              if outcome.failure.HttpError? then page.status == outcome.failure.status >= 400
              else 300 <= page.status < 400 && page.loginRedirect && !allowLogin
    ensures outcome.Finished? && outcome.pending != [] ==> |visited| >= maxPages
    ensures outcome.Finished? && outcome.pending == [] ==> Complete(site, Elements(starts), visited)
    ensures outcome.Finished? ==> NearestFirst(site, Elements(starts), visited)
  {
    ghost var from := Elements(starts);
    var queue := StartJobs(starts);
    visited, requested := {}, [];
    InitialCrawling(site, starts, allowLogin);
    hide Crawling, Sourced, Values, PageLinks, Urls, Elements, NoRepeats, AllReachable, NearestFirst;
    hide NearestUnacceptable, FailureFor, StartJobs;
    while queue != [] && |visited| < maxPages
      invariant Crawling(site, from, visited, queue, requested, allowLogin)
      invariant requested != [] ==> |requested| <= maxPages
      decreases maxPages - |visited|, |queue|
    {
      var job := queue[0];
      if job.url in visited {
        SkipJob(site, from, visited, queue, requested, allowLogin);
        queue := queue[1..];
        continue;
      }
      RequestJob(site, from, visited, queue, requested, allowLogin);
      requested := requested + [job.url];
      var failure, added := Inspect(site(job.url), job, visited + {job.url}, allowLogin);
      if failure.Some? {
        AcceptedSoFar(site, from, visited, queue, requested[..|requested| - 1], allowLogin);
        FailureIsNearest(site, from, visited + {job.url}, job.url, allowLogin);
        return Failed(failure.value), visited + {job.url}, requested;
      }
      VisitJob(site, from, visited, queue, requested[..|requested| - 1], allowLogin, added);
      assert requested == requested[..|requested| - 1] + [job.url];
      visited := visited + {job.url};
      queue := queue[1..] + added;
    }
    FinishedCrawl(site, from, visited, queue, requested, allowLogin);
    outcome := Finished(queue);
  }

  /** The invariant of the crawl. */
  ghost predicate Crawling(site: Site, starts: set<Url>, visited: set<Url>, queue: seq<Job>,
                           requested: seq<Url>, allowLogin: bool) {
    && (exists depth: nat, front: nat :: Frontier(site, starts, visited, queue, depth, front))
    && visited == Elements(requested) && NoRepeats(requested) && |visited| == |requested|
    && forall u :: u in visited ==> Accepted(site(u), allowLogin)
  }

  lemma AcceptedSoFar(site: Site, starts: set<Url>, visited: set<Url>, queue: seq<Job>,
                      requested: seq<Url>, allowLogin: bool)
    requires Crawling(site, starts, visited, queue, requested, allowLogin)
    ensures forall u :: u in visited ==> Accepted(site(u), allowLogin)
  {
  }

  lemma InitialCrawling(site: Site, starts: seq<Url>, allowLogin: bool)
    ensures Crawling(site, Elements(starts), {}, StartJobs(starts), [], allowLogin)
  {
    hide Frontier;
    InitialFrontier(site, starts);
  }

  /** A nonempty queue starts with a layer that is not used up. */
  lemma FrontLayer(site: Site, starts: set<Url>, visited: set<Url>, queue: seq<Job>, depth: nat, front: nat)
    returns (depth': nat, front': nat)
    requires Frontier(site, starts, visited, queue, depth, front) && queue != []
    ensures Frontier(site, starts, visited, queue, depth', front') && front' > 0
  {
    depth', front' := depth, front;
    if front == 0 {
      NextLayer(site, starts, visited, queue, depth);
      depth', front' := depth + 1, |queue|;
    }
  }

  lemma SkipJob(site: Site, starts: set<Url>, visited: set<Url>, queue: seq<Job>,
                requested: seq<Url>, allowLogin: bool)
    requires Crawling(site, starts, visited, queue, requested, allowLogin)
    requires queue != [] && queue[0].url in visited
    ensures Crawling(site, starts, visited, queue[1..], requested, allowLogin)
  {
    hide Frontier;
    var depth: nat, front: nat :| Frontier(site, starts, visited, queue, depth, front);
    depth, front := FrontLayer(site, starts, visited, queue, depth, front);
    SkipVisited(site, starts, visited, queue, depth, front);
  }

  lemma RequestJob(site: Site, starts: set<Url>, visited: set<Url>, queue: seq<Job>,
                   requested: seq<Url>, allowLogin: bool)
    requires Crawling(site, starts, visited, queue, requested, allowLogin)
    requires queue != [] && queue[0].url !in visited
    ensures var url := queue[0].url;
            && visited + {url} == Elements(requested + [url]) && NoRepeats(requested + [url])
            && |visited + {url}| == |requested + [url]|
            && Sourced(site, starts, visited + {url}, queue[0])
            && AllReachable(site, starts, visited + {url}) && NearestFirst(site, starts, visited + {url})
  {
    hide Frontier, Sourced, AllReachable, NearestFirst;
    var depth: nat, front: nat :| Frontier(site, starts, visited, queue, depth, front);
    depth, front := FrontLayer(site, starts, visited, queue, depth, front);
    FrontJob(site, starts, visited, queue, depth, front);
    AppendNew(requested, queue[0].url);
  }

  lemma VisitJob(site: Site, starts: set<Url>, visited: set<Url>, queue: seq<Job>,
                 requested: seq<Url>, allowLogin: bool, added: seq<Job>)
    requires Crawling(site, starts, visited, queue, requested, allowLogin)
    requires queue != [] && queue[0].url !in visited && Accepted(site(queue[0].url), allowLogin)
    requires forall job :: job in added ==> job.parent == Some(queue[0].url)
    requires Urls(added) == Values(PageLinks(site(queue[0].url))) - (visited + {queue[0].url})
    ensures Crawling(site, starts, visited + {queue[0].url}, queue[1..] + added,
                     requested + [queue[0].url], allowLogin)
  {
    hide Frontier, Urls, Values, PageLinks, Accepted;
    var depth: nat, front: nat :| Frontier(site, starts, visited, queue, depth, front);
    depth, front := FrontLayer(site, starts, visited, queue, depth, front);
    VisitFront(site, starts, visited, queue, depth, front, added);
    AppendNew(requested, queue[0].url);
  }

  lemma FinishedCrawl(site: Site, starts: set<Url>, visited: set<Url>, queue: seq<Job>,
                      requested: seq<Url>, allowLogin: bool)
    requires Crawling(site, starts, visited, queue, requested, allowLogin)
    ensures visited == Elements(requested) && NoRepeats(requested) && |visited| == |requested|
    ensures forall u :: u in visited ==> Accepted(site(u), allowLogin)
    ensures AllReachable(site, starts, visited) && NearestFirst(site, starts, visited)
    ensures queue == [] ==> Complete(site, starts, visited)
  {
    hide Frontier, AllReachable, NearestFirst, Complete;
    var depth: nat, front: nat :| Frontier(site, starts, visited, queue, depth, front);
    VisitedReachable(site, starts, visited, queue, depth, front);
    VisitedNearest(site, starts, visited, queue, depth, front);
    if queue == [] {
      Drained(site, starts, visited, queue, depth, front);
    }
  }

  /** With nothing queued the visited set is closed under links, so it is everything reachable. */
  lemma Drained(site: Site, starts: set<Url>, visited: set<Url>, queue: seq<Job>, depth: nat, front: nat)
    requires Frontier(site, starts, visited, queue, depth, front) && queue == []
    ensures Complete(site, starts, visited)
  {
    VisitedReachable(site, starts, visited, queue, depth, front);
    assert queue[..front] == [];
    forall u | Reachable(site, starts, u) ensures u in visited {
      var n: nat :| Within(site, starts, u, n);
      WithinIsBall(site, starts, u, n);
      BallGrows(site, starts, 0, depth);
      ClosedContainsBall(site, starts, visited, n);
    }
  }

  lemma VisitedReachable(site: Site, starts: set<Url>, visited: set<Url>, queue: seq<Job>, depth: nat, front: nat)
    requires Frontier(site, starts, visited, queue, depth, front)
    ensures AllReachable(site, starts, visited)
  {
    forall u | u in visited ensures Reachable(site, starts, u) {
      WithinIsBall(site, starts, u, depth);
    }
  }

  /** The front job is reachable and was found where it says. */
  lemma FrontJob(site: Site, starts: set<Url>, visited: set<Url>, queue: seq<Job>, depth: nat, front: nat)
    requires Frontier(site, starts, visited, queue, depth, front) && front > 0 && queue != []
    ensures Sourced(site, starts, visited + {queue[0].url}, queue[0])
    ensures AllReachable(site, starts, visited + {queue[0].url}) && NearestFirst(site, starts, visited + {queue[0].url})
  {
    VisitedReachable(site, starts, visited, queue, depth, front);
    assert queue[0] in queue && queue[0] in queue[..front];
    WithinIsBall(site, starts, queue[0].url, depth);
    var visited' := visited + {queue[0].url};
    forall v, u, n: nat | v in visited' && u !in visited' && Within(site, starts, u, n)
      ensures Within(site, starts, v, n)
    {
      Nearer(site, starts, visited', depth, v, u, n);
    }
  }

  /** A page that is not acceptable, visited after acceptable ones only and before
      anything farther away, is a nearest one of its kind. */
  lemma FailureIsNearest(site: Site, starts: set<Url>, visited: set<Url>, url: Url, allowLogin: bool)
    requires NearestFirst(site, starts, visited) && url in visited && !Accepted(site(url), allowLogin)
    requires forall u :: u in visited && u != url ==> Accepted(site(u), allowLogin)
    ensures NearestUnacceptable(site, starts, url, allowLogin)
  {
    hide Within, Accepted;
  }

  lemma VisitedNearest(site: Site, starts: set<Url>, visited: set<Url>, queue: seq<Job>, depth: nat, front: nat)
    requires Frontier(site, starts, visited, queue, depth, front)
    ensures NearestFirst(site, starts, visited)
  {
    forall v, u, n: nat | v in visited && u !in visited && Within(site, starts, u, n)
      ensures Within(site, starts, v, n)
    {
      Nearer(site, starts, visited, depth, v, u, n);
    }
  }

  lemma Nearer(site: Site, starts: set<Url>, visited: set<Url>, depth: nat, v: Url, u: Url, n: nat)
    requires visited <= Ball(site, starts, depth)
    requires depth > 0 ==> Ball(site, starts, depth - 1) <= visited
    requires v in visited && u !in visited && Within(site, starts, u, n)
    ensures Within(site, starts, v, n)
  {
    hide Within, Ball;
    WithinIsBall(site, starts, u, n);
    WithinIsBall(site, starts, v, n);
    if n < depth {
      BallGrows(site, starts, n, depth - 1);
    } else {
      BallGrows(site, starts, depth, n);
    }
  }
}
