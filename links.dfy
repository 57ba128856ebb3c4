/**
 * Link handling of the site-map crawler: resolving the raw href values found
 * on a page against the page's origin (`hrefs`), keeping the links whose text
 * begins with that origin (`filter`), and the composition of the two that the
 * fetch step applies to every page (`get`).
 *
 * The loops of `hrefs` and `filter` are the methods Hrefs and Filter, proved
 * against the recursive sequence functions ResolveAll and KeepPrefixed; the
 * properties of `hrefs` and `filter` are proved about those functions.
 */
module Links {

  type Url = string

  /** `s` starts with `prefix` (Go's strings.HasPrefix). */
  predicate HasPrefix(s: string, prefix: string) {
    |prefix| <= |s| && s[..|prefix|] == prefix
  }

  // ---------------------------------------------------------------------------
  // hrefs: resolution of raw href values
  // ---------------------------------------------------------------------------

  /** The URLs (none or one) a single raw href resolves to against `base`. */
  function Resolve(href: string, base: Url): seq<Url> {
    if HasPrefix(href, "/") then [base + href]
    else if HasPrefix(href, "http") then [href]
    else []
  }

  /** The resolved links of a page, in the order of its raw hrefs. */
  function ResolveAll(raw: seq<string>, base: Url): (r: seq<Url>)
    ensures |r| <= |raw|
    ensures forall u :: u in r ==> HasPrefix(u, base) || HasPrefix(u, "http")
  {
    if raw == [] then []
    else ResolveAll(raw[..|raw| - 1], base) + Resolve(raw[|raw| - 1], base)
  }

  /** Resolution works href by href: it distributes over concatenation, so the
      output keeps the order of the input. */
  lemma {:induction false} ResolveAllAppend(a: seq<string>, b: seq<string>, base: Url)
    ensures ResolveAll(a + b, base) == ResolveAll(a, base) + ResolveAll(b, base)
    decreases |b|
  {
    if b == [] {
      assert a + b == a;
    } else {
      var b' := b[..|b| - 1];
      assert (a + b)[..|a + b| - 1] == a + b';
      ResolveAllAppend(a, b', base);
    }
  }

  /** The resolved links of `raw` split around position `i`. */
  lemma ResolveAllSplit(raw: seq<string>, base: Url, i: nat)
    requires i < |raw|
    ensures ResolveAll(raw, base) ==
      ResolveAll(raw[..i], base) + Resolve(raw[i], base) + ResolveAll(raw[i + 1..], base)
  {
    var pre, post := raw[..i], raw[i + 1..];
    assert raw == (pre + [raw[i]]) + post;
    ResolveAllAppend(pre + [raw[i]], post, base);
    ResolveAllAppend(pre, [raw[i]], base);
    assert [raw[i]][..0] == [];
  }

  /** What the href at position `i` contributes, and where: a root-relative
      href becomes `base + href`, an href starting with "http" is kept as
      written, and any other href contributes nothing. */
  lemma ResolveAllAt(raw: seq<string>, base: Url, i: nat)
    requires i < |raw|
    ensures HasPrefix(raw[i], "/") ==>
      ResolveAll(raw, base) == ResolveAll(raw[..i], base) + [base + raw[i]] + ResolveAll(raw[i + 1..], base)
    ensures !HasPrefix(raw[i], "/") && HasPrefix(raw[i], "http") ==>
      ResolveAll(raw, base) == ResolveAll(raw[..i], base) + [raw[i]] + ResolveAll(raw[i + 1..], base)
    ensures !HasPrefix(raw[i], "/") && !HasPrefix(raw[i], "http") ==>
      ResolveAll(raw, base) == ResolveAll(raw[..i], base) + ResolveAll(raw[i + 1..], base)
  {
    ResolveAllSplit(raw, base, i);
    var pre, post := ResolveAll(raw[..i], base), ResolveAll(raw[i + 1..], base);
    ConcatCases(pre, Resolve(raw[i], base), post);
  }

  /** Concatenation with a middle part of length at most one. */
  lemma ConcatCases<T>(pre: seq<T>, mid: seq<T>, post: seq<T>)
    ensures mid == [] ==> pre + mid + post == pre + post
  {
    if mid == [] {
      assert pre + mid == pre;
    }
  }

  /** A URL is among the resolved links exactly when some raw href resolves to it. */
  lemma {:induction false} ResolveAllMembership(raw: seq<string>, base: Url, u: Url)
    ensures u in ResolveAll(raw, base) <==>
      exists h :: h in raw &&
        ((HasPrefix(h, "/") && u == base + h) ||
         (!HasPrefix(h, "/") && HasPrefix(h, "http") && u == h))
  {
    if raw != [] {
      var init, h := raw[..|raw| - 1], raw[|raw| - 1];
      assert raw == init + [h];
      ResolveAllMembership(init, base, u);
      forall h' | h' in raw
        ensures h' in init || h' == h
      {}
    }
  }

  /** The `hrefs` loop: builds the resolved links by appending, href by href. */
  method Hrefs(raw: seq<string>, base: Url) returns (hrefs: seq<Url>)
    ensures hrefs == ResolveAll(raw, base)
  {
    hrefs := [];
    for i := 0 to |raw|
      invariant hrefs == ResolveAll(raw[..i], base)
    {
      var href := raw[i];
      if HasPrefix(href, "/") {
        hrefs := hrefs + [base + href];
      } else if HasPrefix(href, "http") {
        hrefs := hrefs + [href];
      }
      assert raw[..i + 1][..i] == raw[..i];
    }
    assert raw[..|raw|] == raw;
  }

  // ---------------------------------------------------------------------------
  // filter: the prefix-based domain filter
  // ---------------------------------------------------------------------------

  /** The links that start with `base`, in their original order. */
  function KeepPrefixed(base: Url, links: seq<Url>): (r: seq<Url>)
    ensures |r| <= |links|
    ensures forall u :: u in r ==> u in links && HasPrefix(u, base)
  {
    if links == [] then []
    else
      var last := links[|links| - 1];
      KeepPrefixed(base, links[..|links| - 1]) + (if HasPrefix(last, base) then [last] else [])
  }

  /** The filter works link by link: it distributes over concatenation. */
  lemma {:induction false} KeepPrefixedAppend(base: Url, a: seq<Url>, b: seq<Url>)
    ensures KeepPrefixed(base, a + b) == KeepPrefixed(base, a) + KeepPrefixed(base, b)
    decreases |b|
  {
    if b == [] {
      assert a + b == a;
    } else {
      var b' := b[..|b| - 1];
      assert (a + b)[..|a + b| - 1] == a + b';
      KeepPrefixedAppend(base, a, b');
    }
  }

  /** Every occurrence of a link with prefix `base` is kept, and no other:
      the filter's output holds each link as often as the input does when it
      starts with `base`, and never otherwise. */
  lemma {:induction false} KeepPrefixedCount(base: Url, links: seq<Url>, u: Url)
    ensures multiset(KeepPrefixed(base, links))[u] ==
      if HasPrefix(u, base) then multiset(links)[u] else 0
  {
    if links != [] {
      var init := links[..|links| - 1];
      assert links == init + [links[|links| - 1]];
      KeepPrefixedCount(base, init, u);
    }
  }

  /** `idx` lists positions of `t`, strictly increasing, at which `s` occurs. */
  ghost predicate Embeds(idx: seq<nat>, s: seq<Url>, t: seq<Url>) {
    |idx| == |s| &&
    (forall k :: 0 <= k < |idx| ==> idx[k] < |t| && s[k] == t[idx[k]]) &&
    (forall k, m :: 0 <= k < m < |idx| ==> idx[k] < idx[m])
  }

  /** `s` is obtained from `t` by deleting elements. */
  ghost predicate IsSubsequence(s: seq<Url>, t: seq<Url>) {
    exists idx :: Embeds(idx, s, t)
  }

  /** Appending one element to `t` keeps an embedding, and appending it to
      both sides extends it by the new last position. */
  lemma EmbedsSnoc(idx: seq<nat>, s: seq<Url>, t: seq<Url>, x: Url)
    requires Embeds(idx, s, t)
    ensures Embeds(idx, s, t + [x])
    ensures Embeds(idx + [|t|], s + [x], t + [x])
  {
    var idx', s', t' := idx + [|t|], s + [x], t + [x];
    forall k | 0 <= k < |idx'|
      ensures idx'[k] < |t'| && s'[k] == t'[idx'[k]]
    {
      if k < |idx| {
        assert idx'[k] == idx[k] && s'[k] == s[k] && t'[idx[k]] == t[idx[k]];
      }
    }
  }

  /** The positions of `links` the filter keeps. */
  lemma {:induction false} KeptPositions(base: Url, links: seq<Url>) returns (idx: seq<nat>)
    ensures Embeds(idx, KeepPrefixed(base, links), links)
  {
    if links == [] {
      idx := [];
    } else {
      var n := |links| - 1;
      var init := links[..n];
      var idx0 := KeptPositions(base, init);
      EmbedsSnoc(idx0, KeepPrefixed(base, init), init, links[n]);
      assert init + [links[n]] == links;
      idx := if HasPrefix(links[n], base) then idx0 + [n] else idx0;
    }
  }

  /** The filter's output is a subsequence of its input: it deletes links and
      never reorders or invents them. */
  lemma KeepPrefixedIsSubsequence(base: Url, links: seq<Url>)
    ensures IsSubsequence(KeepPrefixed(base, links), links)
  {
    var idx := KeptPositions(base, links);
    assert Embeds(idx, KeepPrefixed(base, links), links);
  }

  /** Links that all start with `base` pass the filter unchanged. */
  lemma {:induction false} KeepPrefixedAllKept(base: Url, links: seq<Url>)
    requires forall u :: u in links ==> HasPrefix(u, base)
    ensures KeepPrefixed(base, links) == links
  {
    if links != [] {
      var init := links[..|links| - 1];
      assert links == init + [links[|links| - 1]];
      KeepPrefixedAllKept(base, init);
    }
  }

  /** Filtering an already filtered list against the same base changes nothing. */
  lemma KeepPrefixedIdempotent(base: Url, links: seq<Url>)
    ensures KeepPrefixed(base, KeepPrefixed(base, links)) == KeepPrefixed(base, links)
  {
    KeepPrefixedAllKept(base, KeepPrefixed(base, links));
  }

  /** The `filter` loop: appends every link that starts with `base`. */
  method Filter(base: Url, links: seq<Url>) returns (ret: seq<Url>)
    ensures ret == KeepPrefixed(base, links)
  {
    ret := [];
    for i := 0 to |links|
      invariant ret == KeepPrefixed(base, links[..i])
    {
      if HasPrefix(links[i], base) {
        ret := ret + [links[i]];
      }
      assert links[..i + 1][..i] == links[..i];
    }
    assert links[..|links|] == links;
  }

  // ---------------------------------------------------------------------------
  // get: filter(base, hrefs(body, base))
  // ---------------------------------------------------------------------------

  /** The links a fetched page contributes to the next frontier: its raw hrefs
      resolved against the page's origin and then filtered by that origin. */
  function LinksOf(base: Url, raw: seq<string>): (r: seq<Url>)
    ensures |r| <= |raw|
    ensures forall u :: u in r ==> HasPrefix(u, base)
  {
    KeepPrefixed(base, ResolveAll(raw, base))
  }

  /** A link survives exactly when it starts with the origin and some raw href
      resolves to it. */
  lemma LinksOfMembership(base: Url, raw: seq<string>, u: Url)
    ensures u in LinksOf(base, raw) <==> HasPrefix(u, base) && u in ResolveAll(raw, base)
  {
    KeepPrefixedCount(base, ResolveAll(raw, base), u);
  }

  /** Every root-relative href of a page survives the filter, as `base + href`,
      because `base + href` always starts with `base`. */
  lemma RootRelativeSurvives(base: Url, raw: seq<string>, i: nat)
    requires i < |raw| && HasPrefix(raw[i], "/")
    ensures base + raw[i] in LinksOf(base, raw)
  {
    ResolveAllAt(raw, base, i);
    assert base + raw[i] in ResolveAll(raw, base);
    assert (base + raw[i])[..|base|] == base;
    LinksOfMembership(base, raw, base + raw[i]);
  }

  /** The filter compares strings, not hosts: an absolute link to a host whose
      name merely begins with the origin's host is kept. */
  lemma LookalikeHostKept()
    ensures LinksOf("https://ex.com", ["https://ex.com.evil.com/x"]) == ["https://ex.com.evil.com/x"]
  {
    var raw := ["https://ex.com.evil.com/x"];
    assert raw[..0] == [];
    assert raw[0][0] == 'h';
    assert !HasPrefix(raw[0], "/");
    assert HasPrefix(raw[0], "http");
    assert ResolveAll(raw, "https://ex.com") == raw;
    assert HasPrefix(raw[0], "https://ex.com");
    KeepPrefixedAllKept("https://ex.com", raw);
  }

  /** A protocol-relative href such as "//evil.com/x" begins with "/", so it
      is resolved as root-relative and the result passes the filter. */
  lemma ProtocolRelativeKept()
    ensures LinksOf("https://ex.com", ["//evil.com/x"]) == ["https://ex.com//evil.com/x"]
  {
    var base, href := "https://ex.com", "//evil.com/x";
    var u := base + href;
    assert HasPrefix(href, "/") by {
      assert href[..1] == "/";
    }
    var raw: seq<string> := [href];
    assert ResolveAll(raw, base) == [u] by {
      assert raw[..0] == [];
    }
    assert HasPrefix(u, base) by {
      assert u[..|base|] == base;
    }
    KeepPrefixedAllKept(base, [u]);
    assert u == "https://ex.com//evil.com/x";
  }

  /** Resolution of a sample page's hrefs against https://ex.com. */
  lemma ExampleResolved()
    ensures ResolveAll(["/a", "https://ex.com/b", "https://other.com/c", "mailto:x@y.com"], "https://ex.com")
      == ["https://ex.com/a", "https://ex.com/b", "https://other.com/c"]
  {
    var base := "https://ex.com";
    var raw := ["/a", "https://ex.com/b", "https://other.com/c", "mailto:x@y.com"];
    var a, b, c := "https://ex.com/a", "https://ex.com/b", "https://other.com/c";
    assert ResolveAll(raw[..1], base) == [a] by {
      assert raw[..1][..0] == [];
      assert HasPrefix(raw[0], "/") && base + raw[0] == a;
    }
    assert ResolveAll(raw[..2], base) == [a, b] by {
      assert raw[..2][..1] == raw[..1];
      assert raw[1][0] == 'h' && !HasPrefix(raw[1], "/") && HasPrefix(raw[1], "http");
    }
    assert ResolveAll(raw[..3], base) == [a, b, c] by {
      assert raw[..3][..2] == raw[..2];
      assert raw[2][0] == 'h' && !HasPrefix(raw[2], "/") && HasPrefix(raw[2], "http");
    }
    assert raw[..4][..3] == raw[..3];
    assert raw[3][0] == 'm' && !HasPrefix(raw[3], "/") && !HasPrefix(raw[3], "http");
    assert raw[..4] == raw;
  }

  /** Filtering the resolved sample links by https://ex.com. */
  lemma ExampleKept()
    ensures KeepPrefixed("https://ex.com", ["https://ex.com/a", "https://ex.com/b", "https://other.com/c"])
      == ["https://ex.com/a", "https://ex.com/b"]
  {
    var base := "https://ex.com";
    var a, b, c := "https://ex.com/a", "https://ex.com/b", "https://other.com/c";
    var resolved := [a, b, c];
    assert KeepPrefixed(base, resolved[..1]) == [a] by {
      assert resolved[..1][..0] == [];
      assert HasPrefix(a, base);
    }
    assert KeepPrefixed(base, resolved[..2]) == [a, b] by {
      assert resolved[..2][..1] == resolved[..1];
      assert HasPrefix(b, base);
    }
    assert KeepPrefixed(base, resolved) == [a, b] by {
      assert resolved[..2] == resolved[..3][..2];
      assert c[8] == 'o' && !HasPrefix(c, base);
      assert resolved[..3] == resolved;
    }
  }

  /** A page on https://ex.com with a root-relative link, a same-site absolute
      link, a link to another site and a mail link keeps the first two. */
  lemma ExamplePage()
    ensures LinksOf("https://ex.com", ["/a", "https://ex.com/b", "https://other.com/c", "mailto:x@y.com"])
      == ["https://ex.com/a", "https://ex.com/b"]
  {
    ExampleResolved();
    ExampleKept();
  }
}
