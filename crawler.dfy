/**
 * The depth-bounded breadth-first crawl. The network is an oracle `web` from a
 * URL to the fetched page (its origin after redirects and its raw hrefs), or
 * to None when the fetch fails. Bfs is `bfs`'s loop over the visited set
 * and the two frontiers; Rounds is the same state machine one round at a time;
 * Reach is an independent definition of "within k link hops of the seed"; the
 * lemmas show that a completed crawl visits exactly Reach(maxDepth).
 */
module Crawler {
  import opened Links

  datatype Option<T> = None | Some(value: T)

  /** A fetched page: the scheme://host origin of its final URL and the raw
      href values found in its body. */
  datatype Page = Page(origin: Url, hrefs: seq<string>)

  /** What fetching each URL gives; None stands for a fetch error. */
  type Web = Url -> Option<Page>

  /** The result of a crawl: the visited pages, or the URL whose fetch failed
      and ended the crawl without a site map. */
  datatype Outcome = SiteMap(pages: seq<Url>) | Fatal(url: Url)

  /** The outcome of `get` for every URL: the links it returns, or None when
      the fetch fails. */
  type Graph = Url -> Option<seq<Url>>

  /** `get` on top of the network: fetch, then filter(origin, hrefs(body, origin)). */
  function GetLinks(web: Web): Graph {
    u => if web(u).Some? then Some(LinksOf(web(u).value.origin, web(u).value.hrefs)) else None
  }

  /** The links of `u`, none when its fetch fails. */
  ghost function Out(g: Graph, u: Url): seq<Url> {
    if g(u).Some? then g(u).value else []
  }

  /** Every link found on the pages of `urls`. */
  ghost function Discovered(g: Graph, urls: set<Url>): set<Url> {
    set u, l | u in urls && l in Out(g, u) :: l
  }

  /** A URL enters a next frontier only through a page whose fetch succeeded,
      and only when it starts with that page's origin. */
  lemma DiscoveredOnSite(web: Web, urls: set<Url>, l: Url)
    requires l in Discovered(GetLinks(web), urls)
    ensures exists u :: u in urls && web(u).Some? && HasPrefix(l, web(u).value.origin)
  {
    var u :| u in urls && l in Out(GetLinks(web), u);
  }

  /** The page a discovered link was found on. */
  lemma DiscoveredFrom(g: Graph, urls: set<Url>, l: Url) returns (u: Url)
    requires l in Discovered(g, urls)
    ensures u in urls && l in Out(g, u)
  {
    u :| u in urls && l in Out(g, u);
  }

  lemma DiscoveredUnion(g: Graph, a: set<Url>, b: set<Url>)
    ensures Discovered(g, a + b) == Discovered(g, a) + Discovered(g, b)
  {}

  /** Some URL of `urls` cannot be fetched. */
  ghost predicate AnyFails(g: Graph, urls: set<Url>) {
    exists u :: u in urls && g(u).None?
  }

  /** The crawl state between rounds: the visited set and the next frontier. */
  datatype State = State(seen: set<Url>, next: set<Url>)

  /** One round: the next frontier becomes the frontier; every URL of it not
      yet visited is visited and fetched, and its links form the new next
      frontier. A failed fetch ends the crawl. */
  ghost function Round(g: Graph, s: State): Option<State> {
    var unvisited := s.next - s.seen;
    if AnyFails(g, unvisited) then None
    else Some(State(s.seen + unvisited, Discovered(g, unvisited)))
  }

  /** The state after `n` rounds, starting with nothing visited and the seed
      as the only URL of the next frontier. */
  ghost function Rounds(g: Graph, seed: Url, n: nat): Option<State> {
    if n == 0 then Some(State({}, {seed}))
    else
      match Rounds(g, seed, n - 1)
      case None => None
      case Some(s) => Round(g, s)
  }

  /** The visited set of a crawl to depth `maxDepth`: maxDepth + 1 rounds. */
  ghost function Crawl(g: Graph, seed: Url, maxDepth: int): Option<set<Url>> {
    var n := if maxDepth < 0 then 0 else maxDepth + 1;
    match Rounds(g, seed, n)
    case None => None
    case Some(s) => Some(s.seen)
  }

  /** The URLs within `k` link hops of the seed. */
  ghost function Reach(g: Graph, seed: Url, k: nat): set<Url> {
    if k == 0 then {seed}
    else Reach(g, seed, k - 1) + Discovered(g, Reach(g, seed, k - 1))
  }

  /** `p` follows links: of two consecutive URLs, the second is a link of the first. */
  ghost predicate IsPath(g: Graph, p: seq<Url>) {
    forall i, j :: 0 <= i < j < |p| && j == i + 1 ==> p[j] in Out(g, p[i])
  }

  lemma ReachStep(g: Graph, seed: Url, k: nat)
    ensures Reach(g, seed, k) <= Reach(g, seed, k + 1)
  {}

  lemma {:induction false} ReachGrows(g: Graph, seed: Url, j: nat, k: nat)
    requires j <= k
    ensures Reach(g, seed, j) <= Reach(g, seed, k)
    decreases k
  {
    if j == k {
      assert Reach(g, seed, j) == Reach(g, seed, k);
    } else {
      ReachGrows(g, seed, j, k - 1);
      ReachStep(g, seed, k - 1);
    }
  }

  /** `p` is a path of at most `k` hops from the seed to `u`. */
  ghost predicate HopPath(g: Graph, seed: Url, k: nat, p: seq<Url>, u: Url) {
    1 <= |p| <= k + 1 && p[0] == seed && p[|p| - 1] == u && IsPath(g, p)
  }

  /** A path to `v` followed by a link of `v` is a path one hop longer. */
  lemma PathExtend(g: Graph, seed: Url, k: nat, p: seq<Url>, v: Url, u: Url)
    requires k >= 1 && HopPath(g, seed, k - 1, p, v) && u in Out(g, v)
    ensures HopPath(g, seed, k, p + [u], u)
  {
    var p' := p + [u];
    forall i, j | 0 <= i < j < |p'| && j == i + 1
      ensures p'[j] in Out(g, p'[i])
    {
      if j < |p| {
        assert p'[j] == p[j] && p'[i] == p[i];
      }
    }
  }

  /** A path of at most `k` hops to a URL of Reach(k). */
  lemma {:induction false} ReachHasPath(g: Graph, seed: Url, k: nat, u: Url) returns (p: seq<Url>)
    requires u in Reach(g, seed, k)
    ensures HopPath(g, seed, k, p, u)
    decreases k, 1
  {
    if k == 0 {
      p := [seed];
    } else {
      var r := Reach(g, seed, k - 1);
      assert u in r + Discovered(g, r);
      if u in r {
        p := ReachHasPath(g, seed, k - 1, u);
      } else {
        p := DiscoveredHasPath(g, seed, k, u);
      }
    }
  }

  /** A path of at most `k` hops to a link found on a page of Reach(k - 1). */
  lemma {:induction false} DiscoveredHasPath(g: Graph, seed: Url, k: nat, u: Url) returns (p: seq<Url>)
    requires k >= 1 && u in Discovered(g, Reach(g, seed, k - 1))
    ensures HopPath(g, seed, k, p, u)
    decreases k, 0
  {
    var v := DiscoveredFrom(g, Reach(g, seed, k - 1), u);
    var p' := ReachHasPath(g, seed, k - 1, v);
    PathExtend(g, seed, k, p', v, u);
    p := p' + [u];
  }

  lemma {:induction false} PathInReach(g: Graph, seed: Url, k: nat, p: seq<Url>, u: Url)
    requires HopPath(g, seed, k, p, u)
    ensures u in Reach(g, seed, k)
    decreases k
  {
    if k > 0 {
      var r := Reach(g, seed, k - 1);
      if |p| <= k {
        PathInReach(g, seed, k - 1, p, u);
      } else {
        var q := p[..|p| - 1];
        var v := q[|q| - 1];
        assert HopPath(g, seed, k - 1, q, v);
        PathInReach(g, seed, k - 1, q, v);
        assert u in Out(g, v);
        assert u in Discovered(g, r);
      }
    }
  }

  /** Reach(k) is exactly the set of URLs at the end of a link path from the
      seed with at most `k` hops. */
  lemma ReachIsHops(g: Graph, seed: Url, k: nat, u: Url)
    ensures u in Reach(g, seed, k) <==> exists p :: HopPath(g, seed, k, p, u)
  {
    if u in Reach(g, seed, k) {
      var p := ReachHasPath(g, seed, k, u);
    }
    if exists p :: HopPath(g, seed, k, p, u) {
      var p :| HopPath(g, seed, k, p, u);
      PathInReach(g, seed, k, p, u);
    }
  }

  lemma AnyFailsUnion(g: Graph, a: set<Url>, b: set<Url>)
    ensures AnyFails(g, a + b) <==> AnyFails(g, a) || AnyFails(g, b)
  {
    if AnyFails(g, a + b) {
      var u :| u in a + b && g(u).None?;
    }
  }

  /** After n >= 1 rounds the visited set is Reach(n - 1), and the visited set
      together with the next frontier is Reach(n); the crawl has failed by then
      exactly when some URL of Reach(n - 1) cannot be fetched. */
  lemma {:induction false} RoundsAreReach(g: Graph, seed: Url, n: nat)
    requires n >= 1
    ensures Rounds(g, seed, n).Some? <==> !AnyFails(g, Reach(g, seed, n - 1))
    ensures Rounds(g, seed, n).Some? ==>
      Rounds(g, seed, n).value.seen == Reach(g, seed, n - 1) &&
      Rounds(g, seed, n).value.seen + Rounds(g, seed, n).value.next == Reach(g, seed, n)
    decreases n
  {
    if n == 1 {
      assert Reach(g, seed, 0) == {seed};
      assert AnyFails(g, {seed}) <==> g(seed).None?;
    } else {
      RoundsAreReach(g, seed, n - 1);
      var prev, cur := Reach(g, seed, n - 2), Reach(g, seed, n - 1);
      ReachStep(g, seed, n - 2);
      if Rounds(g, seed, n - 1).Some? {
        var s := Rounds(g, seed, n - 1).value;
        var unvisited := s.next - s.seen;
        assert unvisited == cur - prev;
        assert cur == prev + unvisited;
        AnyFailsUnion(g, prev, unvisited);
        if !AnyFails(g, unvisited) {
          DiscoveredUnion(g, prev, unvisited);
          assert Reach(g, seed, n) == cur + Discovered(g, cur);
        }
      } else {
        AnyFailsUnion(g, prev, cur - prev);
        assert cur == prev + (cur - prev);
      }
    }
  }

  /** A crawl to depth `maxDepth` visits exactly the URLs within `maxDepth`
      link hops of the seed, and fails exactly when one of them cannot be
      fetched; a negative depth visits nothing. */
  lemma CrawlIsReach(g: Graph, seed: Url, maxDepth: int)
    ensures maxDepth < 0 ==> Crawl(g, seed, maxDepth) == Some({})
    ensures maxDepth >= 0 ==>
      Crawl(g, seed, maxDepth) == (if AnyFails(g, Reach(g, seed, maxDepth)) then None else Some(Reach(g, seed, maxDepth)))
  {
    if maxDepth >= 0 {
      var n: nat := maxDepth + 1;
      RoundsAreReach(g, seed, n);
      var reached := Reach(g, seed, maxDepth);
      var final := Rounds(g, seed, n);
      assert Crawl(g, seed, maxDepth) == if final.None? then None else Some(final.value.seen);
      assert final.Some? <==> !AnyFails(g, reached);
      assert final.Some? ==> final.value.seen == reached;
    }
  }

  lemma {:induction false} SeedReached(g: Graph, seed: Url, k: nat)
    ensures seed in Reach(g, seed, k)
    decreases k
  {
    if k > 0 {
      SeedReached(g, seed, k - 1);
    }
  }

  /** The seed is always visited when the crawl completes with maxDepth >= 0. */
  lemma SeedVisited(g: Graph, seed: Url, maxDepth: int)
    requires maxDepth >= 0 && Crawl(g, seed, maxDepth).Some?
    ensures seed in Crawl(g, seed, maxDepth).value
  {
    CrawlIsReach(g, seed, maxDepth);
    SeedReached(g, seed, maxDepth);
  }

  /** With depth 0 only the seed is fetched; the links found on it are never
      visited. */
  lemma DepthZero(g: Graph, seed: Url)
    ensures Crawl(g, seed, 0) == if g(seed).None? then None else Some({seed})
  {
    CrawlIsReach(g, seed, 0);
    assert AnyFails(g, {seed}) <==> g(seed).None?;
  }

  /** A completed crawl to depth `maxDepth` visits exactly the URLs at the end
      of a link path of at most `maxDepth` hops from the seed. */
  lemma VisitedWithinHops(g: Graph, seed: Url, maxDepth: nat, u: Url)
    requires Crawl(g, seed, maxDepth).Some?
    ensures u in Crawl(g, seed, maxDepth).value <==> exists p :: HopPath(g, seed, maxDepth, p, u)
  {
    CrawlIsReach(g, seed, maxDepth);
    ReachIsHops(g, seed, maxDepth, u);
  }

  /** The visited set only grows from round to round, and a failed crawl stays failed. */
  lemma {:induction false} SeenGrows(g: Graph, seed: Url, m: nat, n: nat)
    requires m <= n && Rounds(g, seed, n).Some?
    ensures Rounds(g, seed, m).Some?
    ensures Rounds(g, seed, m).value.seen <= Rounds(g, seed, n).value.seen
    decreases n
  {
    if m < n {
      SeenGrows(g, seed, m, n - 1);
    }
  }

  /** Once a fetch has failed, the crawl has failed for good. */
  lemma {:induction false} FailurePersists(g: Graph, seed: Url, m: nat, n: nat)
    requires m <= n && Rounds(g, seed, m).None?
    ensures Rounds(g, seed, n).None?
    decreases n
  {
    if m < n {
      FailurePersists(g, seed, m, n - 1);
    }
  }

  // ---------------------------------------------------------------------------
  // The crawl loop
  // ---------------------------------------------------------------------------

  ghost predicate NoDuplicates(s: seq<Url>) {
    forall i, j :: 0 <= i < j < |s| ==> s[i] != s[j]
  }

  /** `get`: fetch `url`, then resolve the page's hrefs against the origin of
      its final URL and keep those under that origin. None is a failed fetch. */
  method Get(web: Web, url: Url) returns (res: Option<seq<Url>>)
    ensures res == GetLinks(web)(url)
    ensures res.None? <==> web(url).None?
    ensures res.Some? ==> res.value == LinksOf(web(url).value.origin, web(url).value.hrefs)
    ensures res.Some? ==> forall l :: l in res.value ==> HasPrefix(l, web(url).value.origin)
    ensures res.Some? ==> forall i :: 0 <= i < |web(url).value.hrefs| && HasPrefix(web(url).value.hrefs[i], "/") ==>
      web(url).value.origin + web(url).value.hrefs[i] in res.value
  {
    var fetched := web(url);
    if fetched.None? {
      return None;
    }
    var page := fetched.value;
    var resolved := Hrefs(page.hrefs, page.origin);
    var links := Filter(page.origin, resolved);
    forall i | 0 <= i < |page.hrefs| && HasPrefix(page.hrefs[i], "/")
      ensures page.origin + page.hrefs[i] in links
    {
      RootRelativeSurvives(page.origin, page.hrefs, i);
    }
    res := Some(links);
  }

  /** The visited set as a list, in no particular order (Go map iteration). */
  method ToList(seen: set<Url>) returns (pages: seq<Url>)
    ensures NoDuplicates(pages)
    ensures forall u :: u in pages <==> u in seen
    ensures |pages| == |seen|
  {
    pages := [];
    var left := seen;
    while left != {}
      invariant left <= seen
      invariant NoDuplicates(pages)
      invariant forall u :: u in pages <==> u in seen - left
      invariant |pages| == |seen - left|
      decreases left
    {
      var u :| u in left;
      assert seen - (left - {u}) == (seen - left) + {u};
      pages := pages + [u];
      left := left - {u};
    }
  }

  /** The links of one page, as a set. */
  lemma DiscoveredOne(g: Graph, u: Url)
    ensures Discovered(g, {u}) == set l | l in Out(g, u)
  {}

  /** The body of `bfs`'s outer loop: visit every URL of the frontier `q` that
      is not yet in `seen`, fetch it and collect its links into `nq`. `log`
      extends the record of fetched URLs. */
  method VisitFrontier(g: Graph, seen0: set<Url>, q: set<Url>, ghost log0: seq<Url>)
    returns (seen: set<Url>, nq: set<Url>, failed: Option<Url>, ghost log: seq<Url>)
    requires NoDuplicates(log0) && forall u :: u in log0 <==> u in seen0
    ensures failed.None? <==> Round(g, State(seen0, q)).Some?
    ensures failed.None? ==> Round(g, State(seen0, q)) == Some(State(seen, nq))
    ensures failed.Some? ==> g(failed.value).None? && failed.value in log
    ensures NoDuplicates(log) && forall u :: u in log <==> u in seen
  {
    seen, nq, failed, log := seen0, {}, None, log0;
    var rest := q;
    while rest != {}
      invariant rest <= q
      invariant seen == seen0 + (q - rest)
      invariant !AnyFails(g, (q - rest) - seen0)
      invariant nq == Discovered(g, (q - rest) - seen0)
      invariant NoDuplicates(log) && forall u :: u in log <==> u in seen
      decreases rest
    {
      var url :| url in rest;
      ghost var done := (q - rest) - seen0;
      rest := rest - {url};
      if url in seen {
        continue;
      }
      seen := seen + {url};
      log := log + [url];
      var page := g(url);
      if page.None? {
        assert url in q - seen0;
        return seen, nq, Some(url), log;
      }
      var links := page.value;
      ghost var nq0 := nq;
      for j := 0 to |links|
        invariant nq == nq0 + set k | 0 <= k < j :: links[k]
      {
        nq := nq + {links[j]};
      }
      assert (set k | 0 <= k < |links| :: links[k]) == set l | l in Out(g, url);
      DiscoveredOne(g, url);
      DiscoveredUnion(g, done, {url});
      assert (q - rest) - seen0 == done + {url};
    }
    assert q - rest == q;
    assert !AnyFails(g, q - seen0) && nq == Discovered(g, q - seen0);
    assert seen == seen0 + (q - seen0);
  }

  /** `bfs`: maxDepth + 1 rounds over the visited set `seen`, the frontier `q`
      and the next frontier `nq`, then the visited set as a list (in no
      particular order). `get` is the oracle `g` (GetLinks(web) on a real
      network); `fetched` records every URL handed to it. */
  method Bfs(g: Graph, seed: Url, maxDepth: int) returns (r: Outcome, ghost fetched: seq<Url>)
    ensures r.SiteMap? <==> Crawl(g, seed, maxDepth).Some?
    ensures r.SiteMap? ==> forall u :: u in r.pages <==> u in Crawl(g, seed, maxDepth).value
    ensures r.SiteMap? ==> NoDuplicates(r.pages) && |r.pages| == |Crawl(g, seed, maxDepth).value|
    ensures r.Fatal? ==> g(r.url).None? && r.url in fetched
    ensures NoDuplicates(fetched)
    ensures r.SiteMap? ==> forall u :: u in fetched <==> u in r.pages
  {
    var seen: set<Url> := {};
    var q: set<Url> := {};
    var nq: set<Url> := {seed};
    fetched := [];
    var i := 0;
    while i <= maxDepth
      invariant if maxDepth < 0 then i == 0 else 0 <= i <= maxDepth + 1
      invariant Rounds(g, seed, i) == Some(State(seen, nq))
      invariant NoDuplicates(fetched) && forall u :: u in fetched <==> u in seen
    {
      q, nq := nq, {};
      var failed;
      seen, nq, failed, fetched := VisitFrontier(g, seen, q, fetched);
      if failed.Some? {
        FailurePersists(g, seed, i + 1, maxDepth + 1);
        return Fatal(failed.value), fetched;
      }
      i := i + 1;
    }
    assert i == if maxDepth < 0 then 0 else maxDepth + 1;
    assert Crawl(g, seed, maxDepth) == Some(seen);
    var pages := ToList(seen);
    r := SiteMap(pages);
  }
}
