/** The link-discovery strategy: walk the anchors of a listing page in
    order, skip unusable ones, resolve each against a base URL, visit every
    resolved URL at most once and stop once enough records are collected. */
module Discover {

  import opened Wrappers
  import opened Text
  import opened Extract
  import opened Courses

  /** An anchor of the listing page: its `href` attribute (empty when
      absent) and its stripped link text. */
  datatype Link = Link(href: string, text: string)

  /** The anchors the loop is willing to follow: a non-empty `href` and a
      link text of at least three characters. */
  predicate Usable(l: Link) {
    |l.href| > 0 && |l.text| >= 3
  }

  /** Absolute links are kept as they are; every other `href` goes through
      `join` (`urljoin(base, href)`), which the model leaves opaque. */
  function Resolve(l: Link, base: string, join: (string, string) -> string): string {
    if StartsWith(l.href, "http") then l.href else join(base, l.href)
  }

  function Max0(n: int): nat { if n < 0 then 0 else n }

  /** One anchor of the walk: a usable anchor whose resolved URL has not
      been seen yet is picked; any other is skipped. The URLs picked so far
      are the loop's set of seen URLs. */
  function Step(links: seq<Link>, base: string, join: (string, string) -> string, i: nat,
                picked: seq<nat>, urls: seq<string>): (seq<nat>, seq<string>)
    requires i < |links|
  {
    if Usable(links[i]) && Resolve(links[i], base, join) !in urls
    then (picked + [i], urls + [Resolve(links[i], base, join)])
    else (picked, urls)
  }

  /** The state after walking the first `i` anchors: the picks are usable
      anchors in order, their URLs are pairwise distinct, each comes from
      the first usable anchor resolving to it, and every usable anchor
      walked so far has its URL among the picks. */
  predicate Walked(links: seq<Link>, base: string, join: (string, string) -> string, limit: int, i: int,
                   picked: seq<nat>, urls: seq<string>) {
    && 0 <= i <= |links|
    && |picked| <= Max0(limit)
    && (forall k :: 0 <= k < |picked| ==> picked[k] < i && Usable(links[picked[k]]))
    && (forall a, b :: 0 <= a < b < |picked| ==> picked[a] < picked[b])
    && |urls| == |picked|
    && (forall k :: 0 <= k < |picked| ==> urls[k] == Resolve(links[picked[k]], base, join))
    && (forall a, b :: 0 <= a < b < |urls| ==> urls[a] != urls[b])
    && (forall k, j :: 0 <= k < |picked| && 0 <= j < picked[k] && Usable(links[j]) ==>
          Resolve(links[j], base, join) != urls[k])
    && (forall j :: 0 <= j < i && Usable(links[j]) ==> Resolve(links[j], base, join) in urls)
  }

  lemma StepWalks(links: seq<Link>, base: string, join: (string, string) -> string, limit: int, i: nat,
                  picked: seq<nat>, urls: seq<string>)
    requires Walked(links, base, join, limit, i, picked, urls)
    requires i < |links| && |picked| < limit
    ensures var (p, u) := Step(links, base, join, i, picked, urls);
            Walked(links, base, join, limit, i + 1, p, u)
  {
    if Usable(links[i]) && Resolve(links[i], base, join) !in urls {
      PickWalks(links, base, join, limit, i, picked, urls);
    }
  }

  lemma PickWalks(links: seq<Link>, base: string, join: (string, string) -> string, limit: int, i: nat,
                  picked: seq<nat>, urls: seq<string>)
    requires Walked(links, base, join, limit, i, picked, urls)
    requires i < |links| && |picked| < limit
    requires Usable(links[i]) && Resolve(links[i], base, join) !in urls
    ensures Walked(links, base, join, limit, i + 1, picked + [i], urls + [Resolve(links[i], base, join)])
  {
    var url := Resolve(links[i], base, join);
    assert forall j :: 0 <= j < i && Usable(links[j]) ==> Resolve(links[j], base, join) != url;
  }

  /** The link walk of `discover_and_scrape`, apart from visiting the
      pages: which anchors are followed, in order. `limit` is the record
      budget. Only usable anchors are picked, in anchor order, never two
      with the same resolved URL, each URL through its first usable anchor,
      no more than `limit`, and every usable anchor before the stopping
      point had its URL picked. */
  method SelectLinks(links: seq<Link>, base: string, join: (string, string) -> string, limit: int)
    returns (picked: seq<nat>, urls: seq<string>)
    ensures |picked| <= Max0(limit)
    ensures forall k :: 0 <= k < |picked| ==> picked[k] < |links| && Usable(links[picked[k]])
    ensures forall a, b :: 0 <= a < b < |picked| ==> picked[a] < picked[b]
    ensures |urls| == |picked|
    ensures forall k :: 0 <= k < |picked| ==> urls[k] == Resolve(links[picked[k]], base, join)
    ensures forall a, b :: 0 <= a < b < |urls| ==> urls[a] != urls[b]
    ensures forall k, j :: 0 <= k < |picked| && 0 <= j < picked[k] && Usable(links[j]) ==>
              Resolve(links[j], base, join) != urls[k]
    ensures forall j :: 0 <= j < |links| && Usable(links[j]) && |picked| < limit ==>
              Resolve(links[j], base, join) in urls
    ensures forall j :: 0 <= j < |links| && Usable(links[j]) && |picked| > 0 && j < picked[|picked| - 1] ==>
              Resolve(links[j], base, join) in urls
  {
    picked, urls := [], [];
    var i := 0;
    while i < |links| && |picked| < limit
      invariant Walked(links, base, join, limit, i, picked, urls)
    {
      StepWalks(links, base, join, limit, i, picked, urls);
      var next := Step(links, base, join, i, picked, urls);
      picked, urls := next.0, next.1;
      i := i + 1;
    }
  }

  /** `discover_and_scrape`. `listing` holds the anchors the selector found
      on the listing page, or `None` when that page could not be fetched;
      `fetch` stands for fetching and parsing a course page. The records
      are the scraped pages of the selected anchors, one each, in anchor
      order, with the anchor text as fallback title. Each resolved URL is
      scraped through its first usable anchor, and no usable anchor is
      passed over: every one before the last picked anchor, and every one
      at all when the budget was not used up, has its URL scraped. */
  method DiscoverAndScrape(listing: Option<seq<Link>>, base: string, join: (string, string) -> string,
                           fetch: string -> Option<Page>, pats: Patterns, maxCourses: int)
    returns (courses: seq<Course>, picked: seq<nat>)
    ensures listing.None? ==> courses == [] && picked == []
    ensures |courses| == |picked| <= Max0(maxCourses)
    ensures listing.Some? ==>
              forall k :: 0 <= k < |picked| ==> picked[k] < |listing.value| && Usable(listing.value[picked[k]])
    ensures forall a, b :: 0 <= a < b < |picked| ==> picked[a] < picked[b]
    ensures listing.Some? ==>
              forall a, b :: 0 <= a < b < |picked| ==>
                Resolve(listing.value[picked[a]], base, join) != Resolve(listing.value[picked[b]], base, join)
    ensures listing.Some? ==>
              forall k, j :: 0 <= k < |picked| && 0 <= j < picked[k] && Usable(listing.value[j]) ==>
                Resolve(listing.value[j], base, join) != Resolve(listing.value[picked[k]], base, join)
    ensures listing.Some? ==>
              forall j :: 0 <= j < |listing.value| && Usable(listing.value[j]) && |picked| < maxCourses ==>
                exists k :: 0 <= k < |picked| && Resolve(listing.value[j], base, join) == Resolve(listing.value[picked[k]], base, join)
    ensures listing.Some? ==>
              forall j :: 0 <= j < |listing.value| && Usable(listing.value[j]) && |picked| > 0 && j < picked[|picked| - 1] ==>
                exists k :: 0 <= k < |picked| && Resolve(listing.value[j], base, join) == Resolve(listing.value[picked[k]], base, join)
    ensures listing.Some? ==>
              forall k :: 0 <= k < |picked| ==>
                courses[k] == ScrapeCoursePage(fetch(Resolve(listing.value[picked[k]], base, join)),
                                               listing.value[picked[k]].text, pats)
  {
    if listing.None? {
      return [], [];
    }
    var links := listing.value;
    var urls;
    picked, urls := SelectLinks(links, base, join, maxCourses);
    courses := ScrapePicked(links, picked, urls, base, join, fetch, pats);
  }

  /** The picked anchors' pages, scraped through their resolved URLs. */
  method ScrapePicked(links: seq<Link>, picked: seq<nat>, urls: seq<string>, base: string,
                      join: (string, string) -> string, fetch: string -> Option<Page>, pats: Patterns)
    returns (courses: seq<Course>)
    requires |urls| == |picked|
    requires forall k :: 0 <= k < |picked| ==> picked[k] < |links| && urls[k] == Resolve(links[picked[k]], base, join)
    ensures |courses| == |picked|
    ensures forall k :: 0 <= k < |picked| ==>
              courses[k] == ScrapeCoursePage(fetch(Resolve(links[picked[k]], base, join)), links[picked[k]].text, pats)
  {
    courses := ScrapeAll(seq(|picked|, k requires 0 <= k < |picked| => links[picked[k]].text), urls,
                         (url, text) => ScrapeCoursePage(fetch(url), text, pats));
  }

  /** Visits the selected URLs in order, each with its anchor text as the
      fallback title: one record per URL. `visit` is the page scraper. */
  method ScrapeAll(texts: seq<string>, urls: seq<string>, visit: (string, string) -> Course)
    returns (courses: seq<Course>)
    requires |texts| == |urls|
    ensures |courses| == |urls|
    ensures forall k :: 0 <= k < |urls| ==> courses[k] == visit(urls[k], texts[k])
  {
    courses := [];
    var k := 0;
    while k < |urls|
      invariant 0 <= k <= |urls|
      invariant |courses| == k
      invariant forall m :: 0 <= m < k ==> courses[m] == visit(urls[m], texts[m])
    {
      courses := courses + [visit(urls[k], texts[k])];
      k := k + 1;
    }
  }
}
