/**
 Where a crawl of crates/crawl/src goes and what it processes: which hosts are in scope, told by
 their labels, and over every run which pages are taken, which of those are processed, and why the
 run ended.
 */
module CrawlTrace {
  import opened Wrappers
  import opened Segments
  import opened Crawl

  // ---------- Hosts ----------

  /** The labels of the seed's host are the last labels of the other. */
  ghost predicate Subdomain(host: string, seedHost: string) {
    var a, b := Split(host, '.'), Split(seedHost, '.');
    |b| <= |a| && a[|a| - |b|..] == b
  }

  lemma SuffixIsSubdomain(front: string, seedHost: string)
    ensures Subdomain(front + ['.'] + seedHost, seedHost)
  {
    SplitAt(front, seedHost, '.');
  }

  lemma SubdomainIsSuffix(host: string, seedHost: string)
    requires Subdomain(host, seedHost) && host != seedHost
    ensures exists front: string :: host == front + ['.'] + seedHost
  {
    var a, b := Split(host, '.'), Split(seedHost, '.');
    var front := a[..|a| - |b|];
    assert a == front + b;
    JoinSplit(host, '.');
    JoinSplit(seedHost, '.');
    assert front != [];
    JoinBoth(front, b, '.');
    assert host == Join(front, '.') + ['.'] + seedHost;
  }

  lemma SubdomainIff(host: string, seedHost: string)
    ensures host == seedHost || EndsWith(host, "." + seedHost) <==> Subdomain(host, seedHost)
  {
    if EndsWith(host, "." + seedHost) {
      var front := host[..|host| - |seedHost| - 1];
      assert host == front + ['.'] + seedHost;
      SuffixIsSubdomain(front, seedHost);
    }
    if Subdomain(host, seedHost) && host != seedHost {
      SubdomainIsSuffix(host, seedHost);
      var front: string :| host == front + ['.'] + seedHost;
      assert host == front + ("." + seedHost);
    }
  }

  /** The pages a policy lets a crawl follow: web pages on the seed's host, under it, or anywhere. */
  ghost predicate MayFollow(web: Web, policy: Policy, seedHost: string, url: Url) {
    && web.isHttp(url)
    && match policy.scope
       case AnyHost => true
       case SameHost => web.hostOf(url) == Some(seedHost)
       case SameDomain => web.hostOf(url).Some? && Subdomain(web.hostOf(url).value, seedHost)
  }

  lemma AdmitsIff(sc: Scope, url: Url)
    ensures sc.Admits(url) <==> MayFollow(sc.web, sc.policy, sc.seedHost, url)
  {
    if sc.web.hostOf(url).Some? { SubdomainIff(sc.web.hostOf(url).value, sc.seedHost); }
  }

  // ---------- What a run did ----------

  /** The page taken at place `k` was processed. */
  ghost predicate Processed(site: Site, taken: seq<Item>, k: nat)
    requires k < |taken|
  {
    !site.cancelled(k + 1) && site.allows(taken[k].url) && site.page(taken[k].url).Some?
  }

  /** Every listed page but the seed may be followed. */
  ghost predicate AllFollowed(sc: Scope, seed: Url, items: seq<Item>) {
    forall k :: 0 <= k < |items| ==> items[k].url == seed || MayFollow(sc.web, sc.policy, sc.seedHost, items[k].url)
  }

  /** The links kept are those of the pages processed, as the site gave them. */
  ghost predicate LinksOf(site: Site, taken: seq<Item>, links: Links) {
    && (forall u :: u in links ==> exists k :: 0 <= k < |taken| && taken[k].url == u && Processed(site, taken, k))
    && (forall k :: 0 <= k < |taken| && Processed(site, taken, k) ==>
          taken[k].url in links && site.page(taken[k].url) == Some(links[taken[k].url]))
  }

  /** The host has not called the crawl off before the last page taken, nor at it while the crawl goes on. */
  ghost predicate NotCalledOff(site: Site, s: Crawler) {
    && (forall k :: 1 <= k < |s.taken| ==> !site.cancelled(k))
    && (!s.stopped && s.taken != [] ==> !site.cancelled(|s.taken|))
  }

  ghost predicate Traced(sc: Scope, site: Site, seed: Url, s: Crawler) {
    && AllFollowed(sc, seed, s.taken) && AllFollowed(sc, seed, s.front.queue)
    && LinksOf(site, s.taken, s.links) && NotCalledOff(site, s)
    && (s.stopped ==> s.front.queue == [] || |s.taken| >= sc.policy.maxPages
                      || (s.taken != [] && site.cancelled(|s.taken|)))
  }

  lemma {:induction false} EnqueuedFollowed(sc: Scope, seed: Url, f: Front, links: seq<string>, depth: nat, room: nat)
    requires AllFollowed(sc, seed, f.queue)
    ensures AllFollowed(sc, seed, Enqueued(sc, f, links, depth, room).queue)
    decreases |links|
  {
    if links != [] && room != 0 {
      var url := sc.web.normalize(links[0]);
      AdmitsIff(sc, url);
      if sc.Admits(url) && url !in f.seen {
        EnqueuedFollowed(sc, seed, Front(f.queue + [Item(url, depth)], f.seen + {url}), links[1..], depth, room - 1);
      } else {
        EnqueuedFollowed(sc, seed, f, links[1..], depth, room);
      }
    }
  }

  lemma LinksNext(site: Site, taken: seq<Item>, links: Links, item: Item)
    requires LinksOf(site, taken, links)
    ensures var more := taken + [item];
            LinksOf(site, more,
                    if Processed(site, more, |taken|) then links[item.url := site.page(item.url).value] else links)
  {
    var more := taken + [item];
    assert forall k :: 0 <= k < |taken| ==>
        more[k] == taken[k] && (Processed(site, more, k) <==> Processed(site, taken, k));
    var next := if Processed(site, more, |taken|) then links[item.url := site.page(item.url).value] else links;
    forall u | u in next ensures exists k :: 0 <= k < |more| && more[k].url == u && Processed(site, more, k) {
      if u == item.url && Processed(site, more, |taken|) {
        assert more[|taken|].url == u;
      } else {
        var k :| 0 <= k < |taken| && taken[k].url == u && Processed(site, taken, k);
        assert more[k].url == u && Processed(site, more, k);
      }
    }
    forall k | 0 <= k < |more| && Processed(site, more, k)
      ensures more[k].url in next && site.page(more[k].url) == Some(next[more[k].url])
    {
      if k < |taken| { assert Processed(site, taken, k); }
    }
  }

  lemma TurnStaysTraced(sc: Scope, site: Site, seed: Url, s: Crawler)
    requires Traced(sc, site, seed, s) && !s.stopped
    ensures Traced(sc, site, seed, Turn(sc, site, s))
  {
    if CanTake(sc, s) {
      var item, rest := s.front.queue[0], Front(s.front.queue[1..], s.front.seen);
      var taken := s.taken + [item];
      assert AllFollowed(sc, seed, taken) && AllFollowed(sc, seed, rest.queue);
      LinksNext(site, s.taken, s.links, item);
      assert Processes(site, s) <==> Processed(site, taken, |s.taken|);
      if Processes(site, s) {
        var found := site.page(item.url).value;
        EnqueuedFollowed(sc, seed, rest, found, item.depth + 1, sc.policy.maxFanout);
      }
    }
  }

  lemma {:induction false} RunStaysTraced(sc: Scope, site: Site, seed: Url, s: Crawler)
    requires Traced(sc, site, seed, s)
    ensures Traced(sc, site, seed, RunFrom(sc, site, s)) && RunFrom(sc, site, s).stopped
    decreases !s.stopped, sc.policy.maxPages - |s.taken|
  {
    if !s.stopped {
      TurnStaysTraced(sc, site, seed, s);
      RunStaysTraced(sc, site, seed, Turn(sc, site, s));
    }
  }

  /**
   Every crawl, to its end: it takes the seed and pages it may follow; the links it keeps are those
   of exactly the pages it took, was allowed, could fetch and was not called off at; and it ends
   because nothing is queued, because the page cap is reached, or because it was called off.
   */
  lemma CrawlIsTraced(web: Web, policy: Policy, seedUrl: string, sitemap: Option<seq<string>>, site: Site)
    ensures Traced(ScopeFor(web, policy, seedUrl), site, web.normalize(seedUrl),
                   RunFrom(ScopeFor(web, policy, seedUrl), site, Begin(web, policy, seedUrl, sitemap)))
  {
    var sc, seed := ScopeFor(web, policy, seedUrl), web.normalize(seedUrl);
    if policy.seedSitemap && sitemap.Some? {
      EnqueuedFollowed(sc, seed, Start(web, seedUrl), sitemap.value, 1, |sitemap.value|);
    }
    RunStaysTraced(sc, site, seed, Begin(web, policy, seedUrl, sitemap));
  }

  // ---------- How it begins ----------

  /** The seed comes first, at depth zero; then, where the policy asks, every page of the sitemap it may follow. */
  lemma BeginsWith(web: Web, policy: Policy, seedUrl: string, sitemap: Option<seq<string>>)
    ensures var front := Begin(web, policy, seedUrl, sitemap).front;
            var sc, seed := ScopeFor(web, policy, seedUrl), web.normalize(seedUrl);
            && sc.web == web && sc.policy == policy
            && sc.seedHost == (match web.hostOf(seed) case Some(host) => host case None => "")
            && front.queue != [] && front.queue[0] == Item(seed, 0)
            && (forall k :: 1 <= k < |front.queue| ==> front.queue[k].depth == 1)
            && front.seen == {seed} + if policy.seedSitemap && sitemap.Some? then Targets(sc, sitemap.value) else {}
  {
    var sc, seed := ScopeFor(web, policy, seedUrl), web.normalize(seedUrl);
    if policy.seedSitemap && sitemap.Some? {
      SeedsAll(sc, Start(web, seedUrl), sitemap.value, |sitemap.value|);
    }
  }

  lemma {:induction false} SeedsAll(sc: Scope, f: Front, urls: seq<string>, room: nat)
    requires |urls| <= room && f.queue != [] && forall k :: 1 <= k < |f.queue| ==> f.queue[k].depth == 1
    ensures var next := Enqueued(sc, f, urls, 1, room);
            && next.seen == f.seen + Targets(sc, urls) && next.queue != [] && next.queue[0] == f.queue[0]
            && forall k :: 1 <= k < |next.queue| ==> next.queue[k].depth == 1
    decreases |urls|
  {
    if urls == [] {
      assert Targets(sc, urls) == {};
    } else {
      var url := sc.web.normalize(urls[0]);
      TargetsOfTail(sc, urls);
      if sc.Admits(url) && url !in f.seen {
        SeedsAll(sc, Front(f.queue + [Item(url, 1)], f.seen + {url}), urls[1..], room - 1);
      } else {
        SeedsAll(sc, f, urls[1..], room);
      }
    }
  }
}
