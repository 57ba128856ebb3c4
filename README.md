# sitemap crawler — Dafny model

`sitemap` builds a site map of a web site. Starting from a seed URL, it runs
a breadth-first crawl that is bounded by a maximum depth. On every page it
fetches, it keeps the links whose text begins with the page's origin. At the
end it lists every page it visited.

This project models the crawl engine of `main.go`:

- **`hrefs`** turns the raw `href` values of a page into URLs:
  - a root-relative href `/x` becomes `origin + "/x"`;
  - an href that begins with `http` is kept as written;
  - every other href is dropped.
- **`filter`** keeps, in order, the links that begin with the origin.
- **`get`** fetches a URL and returns `filter(origin, hrefs(body, origin))`.
  The origin is the `scheme://host` of the final URL. A fetch error ends the
  program (`log.Fatal`).
- **`bfs`** keeps a visited set `seen`, a frontier `q` and a next frontier
  `nq`. It runs `maxDepth + 1` rounds. In each round `nq` becomes the frontier.
  Every URL of the frontier that is not yet visited is marked visited and
  fetched, and its links go into the new `nq`. The result is the visited set
  as a list.

`links.dfy` (module `Links`) covers `hrefs`, `filter` and their composition:

- The two loops are methods (`Hrefs`, `Filter`). Each is proved equal to a
  recursive sequence function (`ResolveAll`, `KeepPrefixed`).
- What `hrefs` and `filter` promise is proved as lemmas about those functions:
  - membership rules;
  - order;
  - a subsequence relation;
  - occurrence counts;
  - idempotence.

`crawler.dfy` (module `Crawler`) covers `get` and `bfs`:

- The network is an oracle `Web = Url -> Option<Page>`. A `Page` holds the
  origin and the raw hrefs; `None` is a failed fetch.
- `Get` realises `get` on top of it. `GetLinks(web)` is the same thing as a
  function, of type `Graph = Url -> Option<seq<Url>>`.
- `Bfs` is the loop over `seen`, `q` and `nq`, written as a method over sets.
  It works on any `Graph`, and a real network is `GetLinks(web)`.
- `Bfs` is proved against the round-by-round state machine `Rounds` / `Crawl`.
  That state machine is proved equal to an independent definition, `Reach(k)`,
  the URLs within `k` link hops of the seed.
- A failed fetch is the outcome `Fatal(url)`: the program stops without a site
  map.

## Model

| member | source | states |
|---|---|---|
| Links.ResolveAll | main.go:105-120 | the resolved links are never more than the raw hrefs, and each begins with the origin or with `http` |
| Links.ResolveAllAppend | main.go:108-117 | resolution goes href by href: resolving a concatenation is the concatenation of the resolutions, so input order is kept |
| Links.ResolveAllSplit | main.go:108-117 | the href at position i contributes its own resolution, placed between those of the hrefs before it and after it |
| Links.ResolveAllAt | main.go:110-116 | an href at position i adds `origin + href` when it begins with `/`, otherwise adds itself when it begins with `http`, otherwise adds nothing; it is placed between the links of the hrefs before and after it |
| Links.ResolveAllMembership | main.go:109-117 | a URL is a resolved link exactly when some href begins with `/` and the URL is origin + href, or the href does not begin with `/`, begins with `http` and is the URL |
| Links.Hrefs | main.go:105-120 | the appending loop returns exactly ResolveAll of the raw hrefs |
| Links.KeepPrefixed | main.go:122-131 | the filtered list is never longer than its input, and every link in it is from the input and begins with the base |
| Links.KeepPrefixedAppend | main.go:124-128 | filtering goes link by link: it distributes over concatenation |
| Links.KeepPrefixedCount | main.go:124-128 | every occurrence of a link that begins with the base is kept, and no link that does not |
| Links.KeepPrefixedIsSubsequence | main.go:122-131 | the output is a subsequence of the input: links are deleted, never reordered or invented |
| Links.KeepPrefixedAllKept | main.go:122-131 | links that all begin with the base pass unchanged |
| Links.KeepPrefixedIdempotent | main.go:122-131 | filtering twice by the same base is the same as filtering once |
| Links.Filter | main.go:122-131 | the appending loop returns exactly KeepPrefixed of its input |
| Links.LinksOf | main.go:102 | the links `get` returns are never more than the raw hrefs, and every one begins with the origin |
| Links.LinksOfMembership | main.go:102 | a link is returned by `get` exactly when it begins with the origin and is a resolved href |
| Links.RootRelativeSurvives | main.go:111-112 | every root-relative href of a page appears as origin + href among the links `get` returns |
| Links.LookalikeHostKept | main.go:125 | the filter compares strings: an absolute link to a host whose name merely begins with the origin's host is kept |
| Links.ProtocolRelativeKept | main.go:111-112 | a protocol-relative href `//evil.com/x` begins with `/`, so it becomes `https://ex.com//evil.com/x` and passes the filter for `https://ex.com` |
| Links.ExampleResolved | main.go:110-116 | a concrete page: the root-relative, same-site and other-site hrefs resolve in order, and the `mailto:` href is dropped |
| Links.ExampleKept | main.go:124-128 | a concrete filter run: the two same-site links are kept in order and the other-site link is dropped |
| Links.ExamplePage | main.go:102 | a concrete page on https://ex.com yields exactly its two same-site links |
| Crawler.Get | main.go:89-104 | fails exactly when the fetch fails; otherwise returns filter(origin, hrefs(body, origin)) of the fetched page, every link begins with the origin, and every root-relative href is among them |
| Crawler.DiscoveredOnSite | main.go:77-79 | a URL enters the next frontier only through a page that was fetched, and only if it begins with that page's origin |
| Crawler.DiscoveredUnion | main.go:69-80 | the links collected from a union of pages are the union of the links collected from each part |
| Crawler.ReachGrows | main.go:67-81 | the set of URLs within k hops only grows with k |
| Crawler.ReachIsHops | main.go:67-81 | Reach(k) is exactly the set of URLs at the end of a link path from the seed with at most k hops |
| Crawler.RoundsAreReach | main.go:67-81 | after n >= 1 rounds, `seen` is Reach(n-1) and `seen` together with `nq` is Reach(n); the crawl has failed by then exactly when a URL of Reach(n-1) cannot be fetched |
| Crawler.CrawlIsReach | main.go:56-87 | a crawl to depth d visits exactly Reach(d), and fails exactly when one of those URLs cannot be fetched; a negative depth runs no round and visits nothing |
| Crawler.SeedVisited | main.go:63-67 | a completed crawl with depth >= 0 visits the seed |
| Crawler.DepthZero | main.go:67-80 | with depth 0 only the seed is fetched and the result is {seed}, or the crawl fails when the seed's fetch fails |
| Crawler.VisitedWithinHops | main.go:56-87 | a completed crawl to depth d visits exactly the URLs reachable from the seed within d link hops |
| Crawler.SeenGrows | main.go:71-74 | the visited set never shrinks from round to round, and an earlier round cannot have failed if a later one completed |
| Crawler.FailurePersists | main.go:90-93 | once a fetch has failed, the crawl stays failed in every later round |
| Crawler.ToList | main.go:82-86 | the result list holds each visited URL exactly once, so its length is the size of the visited set |
| Crawler.VisitFrontier | main.go:68-80 | one round of the loop: it fails exactly when an unvisited frontier URL cannot be fetched; otherwise it produces the next state of Round; each URL is fetched at most once, and exactly the visited URLs are fetched |
| Crawler.Bfs | main.go:56-87 | produces a site map exactly when Crawl(maxDepth) succeeds; the pages are exactly the visited set, without duplicates, and as many as its size; on failure it names a fetched URL whose fetch failed; no URL is fetched twice |

## Left out

- Fetching pages (`http.Get`, redirects, reading and closing the body) is the oracle `Web`. The computation of the origin with `net/url` (main.go:96-101) is also inside the oracle: a `Page` carries that origin and the raw hrefs.
- HTML link extraction (`link.Parse` from the `linkparser` package) is not part of this model. Its output is the `hrefs` field of a `Page`, and its ignored error is not modelled.
- `log.Fatal` ends the process. Here it is the outcome `Fatal(url)`, which carries no site map. The unreachable `return []string{}` after it is not modelled.
- `main` is not part of this model: flag parsing, the defaults `https://gophercises.com` and depth 3, and the XML encoding of the result.
- Go's map iteration order is unspecified. The loops choose elements with `:|`. The contracts therefore speak of sets and of duplicate-free lists, never of the order of the result list.
- Crawler.Bfs: `maxDepth` and the loop counter are unbounded integers. Go's `int` would overflow in `i++` when `maxDepth` is the largest `int`, and that case is not modelled.
- Crawler.Bfs: the crawl calls `get` through the oracle `g: Graph` rather than calling `Crawler.Get`. On a real network `g` is `GetLinks(web)`, and `Crawler.Get` is proved to return exactly `GetLinks(web)(url)`.
- Strings are sequences of characters. The byte-level behaviour of `strings.HasPrefix` on UTF-8 coincides with this for the prefixes involved, and no encoding is modelled.
