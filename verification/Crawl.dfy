/**
 The bounded crawl of crates/crawl/src: the frontier (frontier.rs) as the object it is, and the
 loop that drives it (lib.rs). URL parsing, robots rules and page fetches are given as functions;
 waiting between fetches is left out, and depths do not overflow.

 The exactness of depths rests on two invariants of the list of pages taken followed by the queue:
 it is in depth order and spans two levels at most, and every link of a processed page that the
 caps allow leads to a page of the list no more than one level down.
 */
module Crawl {
  import opened Wrappers

  type Url = string

  datatype HostScope = SameHost | SameDomain | AnyHost

  datatype Policy = Policy(maxDepth: nat, maxPages: nat, maxFanout: nat, scope: HostScope, seedSitemap: bool)

  /** What the URL library answers. */
  datatype Web = Web(normalize: string -> Url, isHttp: Url -> bool, hostOf: Url -> Option<string>)

  datatype Item = Item(url: Url, depth: nat)

  predicate EndsWith(s: string, suffix: string) {
    |suffix| <= |s| && s[|s| - |suffix|..] == suffix
  }

  predicate InScope(web: Web, scope: HostScope, seedHost: string, url: Url) {
    var host := web.hostOf(url);
    match scope
    case AnyHost => true
    case SameHost => host == Some(seedHost)
    case SameDomain => host.Some? && (host.value == seedHost || EndsWith(host.value, "." + seedHost))
  }

  /** Everything but the memory: which URLs a crawl may follow. */
  datatype Scope = Scope(web: Web, policy: Policy, seedHost: string) {
    predicate Admits(url: Url) {
      web.isHttp(url) && InScope(web, policy.scope, seedHost, url)
    }
  }

  // ---------- The frontier as a value ----------

  datatype Front = Front(queue: seq<Item>, seen: set<Url>)

  /** Add the admissible new links in order, at most `room` of them. */
  function Enqueued(sc: Scope, f: Front, links: seq<string>, depth: nat, room: nat): Front
    decreases |links|
  {
    if links == [] || room == 0 then f
    else
      var url := sc.web.normalize(links[0]);
      if sc.Admits(url) && url !in f.seen then
        Enqueued(sc, Front(f.queue + [Item(url, depth)], f.seen + {url}), links[1..], depth, room - 1)
      else Enqueued(sc, f, links[1..], depth, room)
  }

  /** The links of a page at `depth`, subject to the depth cap and the fan-out cap. */
  function PageEnqueued(sc: Scope, f: Front, links: seq<string>, depth: nat): Front {
    if depth + 1 > sc.policy.maxDepth then f else Enqueued(sc, f, links, depth + 1, sc.policy.maxFanout)
  }

  class Frontier {
    const sc: Scope
    var queue: seq<Item>
    var seen: set<Url>
    var fetched: nat

    function Contents(): Front
      reads this
    {
      Front(queue, seen)
    }

    constructor (web: Web, policy: Policy, seedUrl: string)
      ensures sc == ScopeFor(web, policy, seedUrl)
      ensures Contents() == Start(web, seedUrl) && fetched == 0
    {
      sc := ScopeFor(web, policy, seedUrl);
      var seed := web.normalize(seedUrl);
      seen, queue, fetched := {seed}, [Item(seed, 0)], 0;
    }

    /** The next page to fetch, unless the page cap is reached. */
    method Next() returns (r: Option<Item>)
      modifies this
      ensures r.Some? <==> old(fetched) < sc.policy.maxPages && old(queue) != []
      ensures r.Some? ==> old(queue) == [r.value] + queue && fetched == old(fetched) + 1
      ensures r.None? ==> queue == old(queue) && fetched == old(fetched)
      ensures seen == old(seen)
    {
      if fetched >= sc.policy.maxPages || queue == [] {
        return None;
      }
      r := Some(queue[0]);
      queue := queue[1..];
      fetched := fetched + 1;
    }

    method Enqueue(links: seq<string>, depth: nat) returns (added: nat)
      modifies this`queue, this`seen
      ensures Contents() == PageEnqueued(sc, old(Contents()), links, depth)
      ensures |queue| == |old(queue)| + added
    {
      added := 0;
      if depth + 1 > sc.policy.maxDepth {
        return;
      }
      for i := 0 to |links|
        invariant added <= sc.policy.maxFanout && |queue| == |old(queue)| + added
        invariant Enqueued(sc, Contents(), links[i..], depth + 1, sc.policy.maxFanout - added)
               == Enqueued(sc, old(Contents()), links, depth + 1, sc.policy.maxFanout)
      {
        assert links[i..] != [] && links[i..][1..] == links[i + 1..];
        if added >= sc.policy.maxFanout {
          break;
        }
        var url := sc.web.normalize(links[i]);
        if !sc.Admits(url) || url in seen {
          continue;
        }
        seen, queue := seen + {url}, queue + [Item(url, depth + 1)];
        added := added + 1;
      }
    }

    /** Bulk seeds at depth 1: neither cap applies. */
    method EnqueueSeeds(urls: seq<string>) returns (added: nat)
      modifies this`queue, this`seen
      ensures Contents() == Enqueued(sc, old(Contents()), urls, 1, |urls|)
      ensures |queue| == |old(queue)| + added
    {
      added := 0;
      for i := 0 to |urls|
        invariant added <= i && |queue| == |old(queue)| + added
        invariant Enqueued(sc, Contents(), urls[i..], 1, |urls| - added)
               == Enqueued(sc, old(Contents()), urls, 1, |urls|)
      {
        assert urls[i..] != [] && urls[i..][1..] == urls[i + 1..];
        var url := sc.web.normalize(urls[i]);
        if !sc.Admits(url) || url in seen {
          continue;
        }
        seen, queue := seen + {url}, queue + [Item(url, 1)];
        added := added + 1;
      }
    }
  }

  function ScopeFor(web: Web, policy: Policy, seedUrl: string): Scope {
    var host := web.hostOf(web.normalize(seedUrl));
    Scope(web, policy, if host.Some? then host.value else "")
  }

  function Start(web: Web, seedUrl: string): Front {
    Front([Item(web.normalize(seedUrl), 0)], {web.normalize(seedUrl)})
  }

  // ---------- What every run keeps ----------

  ghost predicate DepthsRise(items: seq<Item>) {
    forall i, j :: 0 <= i < j < |items| ==> items[i].depth <= items[j].depth
  }

  ghost predicate NoRepeat(items: seq<Item>) {
    forall i, j :: 0 <= i < j < |items| ==> items[i].url != items[j].url
  }

  ghost function Urls(items: seq<Item>): set<Url> {
    set i | 0 <= i < |items| :: items[i].url
  }

  /** Pages handed out and pages waiting form one breadth-first list, at most one level ahead. */
  ghost predicate Breadth(taken: seq<Item>, f: Front, level: nat) {
    var all := taken + f.queue;
    && DepthsRise(all) && NoRepeat(all) && f.seen == Urls(all)
    && (forall i :: 0 <= i < |f.queue| ==> level <= f.queue[i].depth <= level + 1)
    && (forall i :: 0 <= i < |taken| ==> taken[i].depth <= level)
  }

  lemma PushKeepsBreadth(taken: seq<Item>, f: Front, level: nat, url: Url)
    requires Breadth(taken, f, level) && url !in f.seen
    ensures Breadth(taken, Front(f.queue + [Item(url, level + 1)], f.seen + {url}), level)
  {
    var all := taken + f.queue;
    var next := taken + (f.queue + [Item(url, level + 1)]);
    assert next == all + [Item(url, level + 1)];
    assert forall i :: 0 <= i < |all| ==> all[i].depth <= level + 1 && all[i].url in f.seen;
    assert Urls(next) == Urls(all) + {url} by {
      assert next[|all|].url == url;
      assert forall i :: 0 <= i < |all| ==> next[i] == all[i];
    }
  }

  lemma {:induction false} EnqueueKeepsBreadth(sc: Scope, taken: seq<Item>, f: Front, level: nat, links: seq<string>,
                                               room: nat)
    requires Breadth(taken, f, level)
    ensures Breadth(taken, Enqueued(sc, f, links, level + 1, room), level)
    decreases |links|
  {
    if links != [] && room > 0 {
      var url := sc.web.normalize(links[0]);
      if sc.Admits(url) && url !in f.seen {
        PushKeepsBreadth(taken, f, level, url);
        EnqueueKeepsBreadth(sc, taken, Front(f.queue + [Item(url, level + 1)], f.seen + {url}), level, links[1..],
                            room - 1);
      } else {
        EnqueueKeepsBreadth(sc, taken, f, level, links[1..], room);
      }
    }
  }

  lemma NextKeepsBreadth(taken: seq<Item>, f: Front, level: nat, item: Item, rest: seq<Item>)
    requires Breadth(taken, f, level) && f.queue == [item] + rest
    ensures Breadth(taken + [item], Front(rest, f.seen), item.depth)
  {
    var all := taken + f.queue;
    assert (taken + [item]) + rest == all;
    var k := |taken|;
    assert all[k] == item;
    forall i | 0 <= i < k + 1 ensures (taken + [item])[i].depth <= item.depth { assert all[i] == (taken + [item])[i]; }
    forall i | 0 <= i < |rest| ensures item.depth <= rest[i].depth <= item.depth + 1 {
      assert f.queue[i + 1] == rest[i] && f.queue[0] == item;
      assert all[k + 1 + i] == rest[i];
    }
  }

  // ---------- Link distance ----------

  /** The pages a processed page links to, as the crawl reads them. */
  ghost function Targets(sc: Scope, links: seq<string>): set<Url> {
    set i | 0 <= i < |links| && sc.Admits(sc.web.normalize(links[i])) :: sc.web.normalize(links[i])
  }

  /** The links found on processed pages. */
  type Links = map<Url, seq<string>>

  ghost predicate HopAt(sc: Scope, links: Links, p: seq<Url>, i: int)
    requires 0 <= i < |p| - 1
  {
    p[i] in links && p[i + 1] in Targets(sc, links[p[i]])
  }

  /** A walk from the seed along admissible links of processed pages. */
  ghost predicate LinkWalk(sc: Scope, links: Links, seed: Url, p: seq<Url>) {
    |p| >= 1 && p[0] == seed && forall i :: 0 <= i < |p| - 1 ==> HopAt(sc, links, p, i)
  }

  /** The least number of hops from the seed is `d`. */
  ghost predicate Distance(sc: Scope, links: Links, seed: Url, url: Url, d: nat) {
    && (exists p :: LinkWalk(sc, links, seed, p) && |p| == d + 1 && p[d] == url)
    && (forall p :: LinkWalk(sc, links, seed, p) && p[|p| - 1] == url ==> |p| >= d + 1)
  }

  /** Every page on the list is reached in as many hops as its depth. */
  ghost predicate Reached(sc: Scope, links: Links, seed: Url, items: seq<Item>) {
    forall k :: 0 <= k < |items| ==> ReachedAt(sc, links, seed, items[k])
  }

  ghost predicate ReachedAt(sc: Scope, links: Links, seed: Url, item: Item) {
    exists p :: LinkWalk(sc, links, seed, p) && |p| == item.depth + 1 && p[item.depth] == item.url
  }

  /** `v` is on the list, no deeper than `d`. */
  ghost predicate ListedBy(items: seq<Item>, v: Url, d: nat) {
    exists k :: 0 <= k < |items| && items[k].url == v && items[k].depth <= d
  }

  /** What a page at depth `d` links to is listed one level on, unless the depth cap stops it. */
  ghost predicate SpreadFrom(sc: Scope, found: seq<string>, d: nat, all: seq<Item>) {
    d + 1 <= sc.policy.maxDepth ==> forall v :: v in Targets(sc, found) ==> ListedBy(all, v, d + 1)
  }

  /** Every processed page was taken, and its links are spread. */
  ghost predicate Explored(sc: Scope, links: Links, taken: seq<Item>, all: seq<Item>) {
    && links.Keys <= Urls(taken)
    && forall k :: 0 <= k < |taken| && taken[k].url in links ==>
        SpreadFrom(sc, links[taken[k].url], taken[k].depth, all)
  }

  ghost predicate WithinCap(sc: Scope, items: seq<Item>) {
    forall k :: 0 <= k < |items| ==> items[k].depth <= sc.policy.maxDepth
  }

  lemma SameItem(items: seq<Item>, j: nat, k: nat)
    requires NoRepeat(items) && j < |items| && k < |items| && items[j].url == items[k].url
    ensures j == k
  {
  }

  /** Along any walk, a listed page lies no deeper than its place in the walk. */
  lemma {:induction false} NoDeeperThanWalk(sc: Scope, links: Links, seed: Url, taken: seq<Item>, f: Front,
                                            p: seq<Url>, i: nat, k: nat)
    requires NoRepeat(taken + f.queue) && WithinCap(sc, taken + f.queue)
    requires Explored(sc, links, taken, taken + f.queue)
    requires (taken + f.queue) != [] && (taken + f.queue)[0] == Item(seed, 0)
    requires LinkWalk(sc, links, seed, p) && i < |p|
    requires k < |taken + f.queue| && (taken + f.queue)[k].url == p[i]
    ensures (taken + f.queue)[k].depth <= i
    decreases i
  {
    var all := taken + f.queue;
    if i == 0 {
      SameItem(all, 0, k);
    } else {
      assert HopAt(sc, links, p, i - 1);
      assert p[i - 1] in Urls(taken);
      var j :| 0 <= j < |taken| && taken[j].url == p[i - 1];
      assert all[j] == taken[j];
      NoDeeperThanWalk(sc, links, seed, taken, f, p, i - 1, j);
      assert SpreadFrom(sc, links[taken[j].url], taken[j].depth, all);
      if taken[j].depth + 1 <= sc.policy.maxDepth {
        assert ListedBy(all, p[i], taken[j].depth + 1);
        var m :| 0 <= m < |all| && all[m].url == p[i] && all[m].depth <= taken[j].depth + 1;
        SameItem(all, m, k);
      }
    }
  }

  /** So each listed page carries its exact link distance. */
  lemma DepthIsDistance(sc: Scope, links: Links, seed: Url, taken: seq<Item>, f: Front, k: nat)
    requires NoRepeat(taken + f.queue) && WithinCap(sc, taken + f.queue)
    requires Explored(sc, links, taken, taken + f.queue) && Reached(sc, links, seed, taken + f.queue)
    requires (taken + f.queue) != [] && (taken + f.queue)[0] == Item(seed, 0)
    requires k < |taken|
    ensures Distance(sc, links, seed, taken[k].url, taken[k].depth)
  {
    assert (taken + f.queue)[k] == taken[k];
    assert ReachedAt(sc, links, seed, (taken + f.queue)[k]);
    forall p | LinkWalk(sc, links, seed, p) && p[|p| - 1] == taken[k].url ensures |p| >= taken[k].depth + 1 {
      NoDeeperThanWalk(sc, links, seed, taken, f, p, |p| - 1, k);
    }
  }

  // ---------- One page processed ----------

  /** The frontier only grows, by admissible targets at the given depth. */
  ghost predicate GrownBy(sc: Scope, f: Front, f': Front, links: seq<string>, depth: nat) {
    && |f.queue| <= |f'.queue| && f'.queue[..|f.queue|] == f.queue && f.seen <= f'.seen
    && forall k :: |f.queue| <= k < |f'.queue| ==> f'.queue[k].depth == depth && f'.queue[k].url in Targets(sc, links)
  }

  lemma TargetsOfTail(sc: Scope, links: seq<string>)
    requires links != []
    ensures Targets(sc, links[1..]) <= Targets(sc, links)
    ensures var url := sc.web.normalize(links[0]);
            Targets(sc, links) == Targets(sc, links[1..]) + if sc.Admits(url) then {url} else {}
  {
    var url := sc.web.normalize(links[0]);
    forall u | u in Targets(sc, links[1..]) ensures u in Targets(sc, links) {
      var i :| 0 <= i < |links[1..]| && sc.Admits(sc.web.normalize(links[1..][i]))
        && sc.web.normalize(links[1..][i]) == u;
      assert links[i + 1] == links[1..][i];
    }
    forall u | u in Targets(sc, links) && u != url ensures u in Targets(sc, links[1..]) {
      var i :| 0 <= i < |links| && sc.Admits(sc.web.normalize(links[i])) && sc.web.normalize(links[i]) == u;
      assert links[1..][i - 1] == links[i];
    }
  }

  lemma {:induction false} EnqueueGrows(sc: Scope, f: Front, links: seq<string>, depth: nat, room: nat)
    ensures GrownBy(sc, f, Enqueued(sc, f, links, depth, room), links, depth)
    decreases |links|
  {
    if links != [] && room > 0 {
      TargetsOfTail(sc, links);
      var url := sc.web.normalize(links[0]);
      if sc.Admits(url) && url !in f.seen {
        var g := Front(f.queue + [Item(url, depth)], f.seen + {url});
        EnqueueGrows(sc, g, links[1..], depth, room - 1);
        var r := Enqueued(sc, f, links, depth, room);
        assert r.queue[..|f.queue|] == r.queue[..|g.queue|][..|f.queue|] == f.queue;
        assert r.queue[|f.queue|] == r.queue[..|g.queue|][|f.queue|];
      } else {
        EnqueueGrows(sc, f, links[1..], depth, room);
      }
    }
  }

  /** All of these pages end up listed exactly when the new ones among them fit the room. */
  ghost predicate Fits(all: set<Url>, seen: set<Url>, end: set<Url>, room: nat) {
    all <= end <==> |all - seen| <= room
  }

  /** One new target takes one place of the room. */
  lemma OneNewTarget(all: set<Url>, tail: set<Url>, seen: set<Url>, url: Url, end: set<Url>, room: nat)
    requires all == tail + {url} && url !in seen && seen + {url} <= end
    requires room > 0 && Fits(tail, seen + {url}, end, room - 1)
    ensures Fits(all, seen, end, room)
  {
    assert all - seen == (tail - (seen + {url})) + {url};
  }

  lemma NoOtherTarget(tail: set<Url>, all: set<Url>, seen: set<Url>, end: set<Url>, room: nat)
    requires tail <= all <= tail + seen && seen <= end && Fits(tail, seen, end, room)
    ensures Fits(all, seen, end, room)
  {
    assert all - seen == tail - seen;
  }

  lemma NoRoom(all: set<Url>, seen: set<Url>)
    ensures Fits(all, seen, seen, 0)
  {
    if x :| x in all && x !in seen {
      assert x in all - seen;
    } else {
      assert all - seen == {};
    }
  }

  lemma SeenGrows(sc: Scope, f: Front, links: seq<string>, depth: nat, room: nat)
    ensures f.seen <= Enqueued(sc, f, links, depth, room).seen
  {
    EnqueueGrows(sc, f, links, depth, room);
  }

  /** No target is cut exactly when the targets not yet seen fit the room, however often links repeat. */
  lemma {:induction false} NothingCutIffRoom(sc: Scope, f: Front, links: seq<string>, depth: nat, room: nat)
    ensures Fits(Targets(sc, links), f.seen, Enqueued(sc, f, links, depth, room).seen, room)
    decreases |links|
  {
    if links == [] {
      assert Targets(sc, links) - f.seen == {};
    } else if room == 0 {
      NoRoom(Targets(sc, links), f.seen);
    } else {
      var url := sc.web.normalize(links[0]);
      if sc.Admits(url) && url !in f.seen {
        var g := Front(f.queue + [Item(url, depth)], f.seen + {url});
        NothingCutIffRoom(sc, g, links[1..], depth, room - 1);
        SeenGrows(sc, g, links[1..], depth, room - 1);
        FitsWithNew(sc, links, f.seen, url, Enqueued(sc, g, links[1..], depth, room - 1).seen, room);
      } else {
        NothingCutIffRoom(sc, f, links[1..], depth, room);
        SeenGrows(sc, f, links[1..], depth, room);
        FitsWithOld(sc, links, f.seen, url, Enqueued(sc, f, links[1..], depth, room).seen, room);
      }
    }
  }

  lemma FitsWithNew(sc: Scope, links: seq<string>, seen: set<Url>, url: Url, end: set<Url>, room: nat)
    requires links != [] && url == sc.web.normalize(links[0]) && sc.Admits(url) && url !in seen && seen + {url} <= end
    requires room > 0 && Fits(Targets(sc, links[1..]), seen + {url}, end, room - 1)
    ensures Fits(Targets(sc, links), seen, end, room)
  {
    TargetsOfTail(sc, links);
    OneNewTarget(Targets(sc, links), Targets(sc, links[1..]), seen, url, end, room);
  }

  lemma FitsWithOld(sc: Scope, links: seq<string>, seen: set<Url>, url: Url, end: set<Url>, room: nat)
    requires links != [] && url == sc.web.normalize(links[0]) && (sc.Admits(url) ==> url in seen) && seen <= end
    requires Fits(Targets(sc, links[1..]), seen, end, room)
    ensures Fits(Targets(sc, links), seen, end, room)
  {
    TargetsOfTail(sc, links);
    NoOtherTarget(Targets(sc, links[1..]), Targets(sc, links), seen, end, room);
  }

  /** The fan-out cap cuts nothing off a page: the links it would add fit. */
  ghost predicate PageUncut(sc: Scope, f: Front, found: seq<string>, depth: nat) {
    depth + 1 <= sc.policy.maxDepth ==> |Targets(sc, found) - f.seen| <= sc.policy.maxFanout
  }

  /** Every page linked to is listed afterwards, unless the depth cap stops it. */
  ghost predicate NothingLost(sc: Scope, f: Front, found: seq<string>, depth: nat) {
    depth + 1 <= sc.policy.maxDepth ==> Targets(sc, found) <= PageEnqueued(sc, f, found, depth).seen
  }

  lemma UncutLosesNothing(sc: Scope, f: Front, found: seq<string>, depth: nat)
    ensures NothingLost(sc, f, found, depth) <==> PageUncut(sc, f, found, depth)
  {
    if depth + 1 <= sc.policy.maxDepth { NothingCutIffRoom(sc, f, found, depth + 1, sc.policy.maxFanout); }
  }

  lemma WalkWithMoreLinks(sc: Scope, links: Links, page: Url, found: seq<string>, seed: Url, p: seq<Url>)
    requires LinkWalk(sc, links, seed, p) && page !in links
    ensures LinkWalk(sc, links[page := found], seed, p)
  {
    var next := links[page := found];
    forall i | 0 <= i < |p| - 1 ensures HopAt(sc, next, p, i) { assert HopAt(sc, links, p, i); }
  }

  lemma ReachedStays(sc: Scope, links: Links, page: Url, found: seq<string>, seed: Url, item: Item)
    requires ReachedAt(sc, links, seed, item) && page !in links
    ensures ReachedAt(sc, links[page := found], seed, item)
  {
    var p :| LinkWalk(sc, links, seed, p) && |p| == item.depth + 1 && p[item.depth] == item.url;
    WalkWithMoreLinks(sc, links, page, found, seed, p);
  }

  lemma ReachedNext(sc: Scope, links: Links, seed: Url, item: Item, found: seq<string>, v: Url)
    requires ReachedAt(sc, links, seed, item) && item.url !in links && v in Targets(sc, found)
    ensures ReachedAt(sc, links[item.url := found], seed, Item(v, item.depth + 1))
  {
    var p :| LinkWalk(sc, links, seed, p) && |p| == item.depth + 1 && p[item.depth] == item.url;
    var next := links[item.url := found];
    WalkWithMoreLinks(sc, links, item.url, found, seed, p);
    var q := p + [v];
    forall i | 0 <= i < |q| - 1 ensures HopAt(sc, next, q, i) {
      if i < |p| - 1 { assert HopAt(sc, next, p, i); }
    }
    assert LinkWalk(sc, next, seed, q) && q[item.depth + 1] == v;
  }

  /** What holds between pages while the crawl explores without seeding and without a fan-out cut. */
  ghost predicate Exploring(sc: Scope, links: Links, seed: Url, taken: seq<Item>, f: Front) {
    var all := taken + f.queue;
    && all != [] && all[0] == Item(seed, 0)
    && WithinCap(sc, all) && Reached(sc, links, seed, all) && Explored(sc, links, taken, all)
  }

  lemma ListedStays(items: seq<Item>, more: seq<Item>, v: Url, d: nat)
    requires ListedBy(items, v, d)
    ensures ListedBy(items + more, v, d)
  {
    var k :| 0 <= k < |items| && items[k].url == v && items[k].depth <= d;
    assert (items + more)[k] == items[k];
  }

  lemma SpreadStays(sc: Scope, found: seq<string>, d: nat, all: seq<Item>, more: seq<Item>)
    requires SpreadFrom(sc, found, d, all)
    ensures SpreadFrom(sc, found, d, all + more)
  {
    if d + 1 <= sc.policy.maxDepth {
      forall v | v in Targets(sc, found) ensures ListedBy(all + more, v, d + 1) { ListedStays(all, more, v, d + 1); }
    }
  }

  lemma ProcessSpreads(sc: Scope, taken: seq<Item>, f: Front, item: Item, found: seq<string>)
    requires Breadth(taken, f, item.depth) && NothingLost(sc, f, found, item.depth)
    ensures SpreadFrom(sc, found, item.depth, taken + PageEnqueued(sc, f, found, item.depth).queue)
  {
    if item.depth + 1 <= sc.policy.maxDepth {
      EnqueueKeepsBreadth(sc, taken, f, item.depth, found, sc.policy.maxFanout);
      var f' := PageEnqueued(sc, f, found, item.depth);
      var all := taken + f'.queue;
      forall v | v in Targets(sc, found) ensures ListedBy(all, v, item.depth + 1) {
        assert v in Urls(all);
        var k :| 0 <= k < |all| && all[k].url == v;
        if k < |taken| { assert all[k] == taken[k]; } else { assert all[k] == f'.queue[k - |taken|]; }
      }
    }
  }

  lemma ExploredAfter(sc: Scope, links: Links, taken: seq<Item>, n: nat, queue: seq<Item>, found: seq<string>,
                      more: seq<Item>)
    requires n < |taken| && NoRepeat(taken + queue) && Explored(sc, links, taken, taken + queue)
    requires taken[n].url !in links && SpreadFrom(sc, found, taken[n].depth, taken + queue + more)
    ensures Explored(sc, links[taken[n].url := found], taken, taken + queue + more)
  {
    var links' := links[taken[n].url := found];
    forall k | 0 <= k < |taken| && taken[k].url in links'
      ensures SpreadFrom(sc, links'[taken[k].url], taken[k].depth, taken + queue + more)
    {
      assert (taken + queue)[k] == taken[k] && (taken + queue)[n] == taken[n];
      if taken[k].url == taken[n].url {
        SameItem(taken + queue, k, n);
      } else {
        SpreadStays(sc, links[taken[k].url], taken[k].depth, taken + queue, more);
      }
    }
  }

  /** The page's links enter the queue at its end, one level down and within the cap. */
  lemma PageGrows(sc: Scope, f: Front, found: seq<string>, depth: nat) returns (more: seq<Item>)
    ensures PageEnqueued(sc, f, found, depth).queue == f.queue + more
    ensures forall k :: 0 <= k < |more| ==>
            more[k].depth == depth + 1 <= sc.policy.maxDepth && more[k].url in Targets(sc, found)
  {
    more := [];
    if depth + 1 <= sc.policy.maxDepth {
      EnqueueGrows(sc, f, found, depth + 1, sc.policy.maxFanout);
      var f' := PageEnqueued(sc, f, found, depth);
      more := f'.queue[|f.queue|..];
      assert f'.queue == f'.queue[..|f.queue|] + more;
      assert forall k :: 0 <= k < |more| ==> more[k] == f'.queue[|f.queue| + k];
    }
  }

  /** Processing the page just taken keeps the exploration exact. */
  lemma ProcessKeeps(sc: Scope, links: Links, seed: Url, before: seq<Item>, item: Item, f: Front, found: seq<string>)
    requires Breadth(before + [item], f, item.depth) && Exploring(sc, links, seed, before + [item], f)
    requires item.url !in links && NothingLost(sc, f, found, item.depth)
    ensures Exploring(sc, links[item.url := found], seed, before + [item], PageEnqueued(sc, f, found, item.depth))
  {
    var taken, f' := before + [item], PageEnqueued(sc, f, found, item.depth);
    var all := taken + f.queue;
    var more := PageGrows(sc, f, found, item.depth);
    assert taken + f'.queue == all + more;
    ProcessSpreads(sc, taken, f, item, found);
    assert all[|before|] == item && taken[|before|] == item;
    ReachedAfter(sc, links, seed, all, |before|, found, more);
    ExploredAfter(sc, links, taken, |before|, f.queue, found, more);
    assert (all + more)[0] == all[0];
    assert WithinCap(sc, all + more);
  }

  lemma ReachedAfter(sc: Scope, links: Links, seed: Url, all: seq<Item>, n: nat, found: seq<string>, more: seq<Item>)
    requires Reached(sc, links, seed, all) && n < |all| && all[n].url !in links
    requires forall k :: 0 <= k < |more| ==> more[k].depth == all[n].depth + 1 && more[k].url in Targets(sc, found)
    ensures Reached(sc, links[all[n].url := found], seed, all + more)
  {
    var links' := links[all[n].url := found];
    assert ReachedAt(sc, links, seed, all[n]);
    forall k | 0 <= k < |all + more| ensures ReachedAt(sc, links', seed, (all + more)[k]) {
      if k < |all| {
        assert ReachedAt(sc, links, seed, all[k]);
        ReachedStays(sc, links, all[n].url, found, seed, all[k]);
      } else {
        ReachedNext(sc, links, seed, all[n], found, more[k - |all|].url);
        assert (all + more)[k] == Item(more[k - |all|].url, all[n].depth + 1);
      }
    }
  }

  // ---------- The driver ----------

  /** Everything the loop keeps; the exact exploration only when nothing alters the frontier. */
  ghost predicate Crawling(sc: Scope, links: Links, seed: Url, taken: seq<Item>, f: Front, level: nat, exact: bool) {
    && Breadth(taken, f, level) && links.Keys <= Urls(taken)
    && (exact ==> Exploring(sc, links, seed, taken, f))
  }

  lemma StartBreadth(seed: Url)
    ensures Breadth([], Front([Item(seed, 0)], {seed}), 0)
  {
    var all := [] + [Item(seed, 0)];
    assert |all| == 1 && all[0] == Item(seed, 0);
    assert Urls(all) == {seed};
  }

  lemma StartExploring(sc: Scope, seed: Url)
    ensures Exploring(sc, map[], seed, [], Front([Item(seed, 0)], {seed}))
  {
    var all := [] + [Item(seed, 0)];
    assert |all| == 1 && all[0] == Item(seed, 0);
    assert LinkWalk(sc, map[], seed, [seed]);
    assert ReachedAt(sc, map[], seed, all[0]);
  }

  lemma TakeKeeps(sc: Scope, links: Links, seed: Url, taken: seq<Item>, f: Front, item: Item, rest: seq<Item>)
    requires Exploring(sc, links, seed, taken, f) && f.queue == [item] + rest
    requires NoRepeat(taken + f.queue)
    ensures Exploring(sc, links, seed, taken + [item], Front(rest, f.seen)) && item.url !in links
  {
    var all := taken + f.queue;
    assert (taken + [item]) + rest == all && all[|taken|] == item;
    forall k | 0 <= k < |taken| ensures taken[k].url != item.url { assert all[k] == taken[k]; }
    assert item.url !in Urls(taken);
    assert Urls(taken) <= Urls(taken + [item]) by {
      assert forall k :: 0 <= k < |taken| ==> (taken + [item])[k] == taken[k];
    }
    forall k | 0 <= k < |taken + [item]| && (taken + [item])[k].url in links
      ensures SpreadFrom(sc, links[(taken + [item])[k].url], (taken + [item])[k].depth, all)
    {
      assert k < |taken|;
    }
  }

  lemma UnlinkedIsTaken(taken: seq<Item>, f: Front, item: Item, links: Links)
    requires links.Keys <= Urls(taken) && NoRepeat(taken + f.queue) && f.queue != [] && f.queue[0] == item
    ensures item.url !in links
  {
    var all := taken + f.queue;
    assert all[|taken|] == item;
    forall k | 0 <= k < |taken| ensures taken[k].url != item.url { assert all[k] == taken[k]; }
  }

  lemma UrlsGrow(taken: seq<Item>, item: Item)
    ensures Urls(taken + [item]) == Urls(taken) + {item.url}
  {
    var next := taken + [item];
    assert next[|taken|] == item && forall k :: 0 <= k < |taken| ==> next[k] == taken[k];
  }

  lemma TakeCrawling(sc: Scope, links: Links, seed: Url, taken: seq<Item>, f: Front, level: nat, exact: bool,
                     item: Item, rest: seq<Item>)
    requires Crawling(sc, links, seed, taken, f, level, exact) && f.queue == [item] + rest
    ensures Crawling(sc, links, seed, taken + [item], Front(rest, f.seen), item.depth, exact) && item.url !in links
  {
    NextKeepsBreadth(taken, f, level, item, rest);
    UnlinkedIsTaken(taken, f, item, links);
    UrlsGrow(taken, item);
    if exact { TakeKeeps(sc, links, seed, taken, f, item, rest); }
  }

  lemma ProcessCrawling(sc: Scope, links: Links, seed: Url, before: seq<Item>, item: Item, f: Front, exact: bool,
                        found: seq<string>)
    requires Crawling(sc, links, seed, before + [item], f, item.depth, exact) && item.url !in links
    requires exact ==> NothingLost(sc, f, found, item.depth)
    ensures Crawling(sc, links[item.url := found], seed, before + [item], PageEnqueued(sc, f, found, item.depth),
                     item.depth, exact)
  {
    EnqueueKeepsBreadth(sc, before + [item], f, item.depth, found, sc.policy.maxFanout);
    UrlsGrow(before, item);
    if exact { ProcessKeeps(sc, links, seed, before, item, f, found); }
  }

  lemma SeedsCrawling(sc: Scope, seed: Url, f: Front, urls: seq<string>)
    requires Crawling(sc, map[], seed, [], f, 0, false)
    ensures Crawling(sc, map[], seed, [], Enqueued(sc, f, urls, 1, |urls|), 0, false)
  {
    EnqueueKeepsBreadth(sc, [], f, 0, urls, |urls|);
  }

  /** What the crawl asks of the outside: the rules, the pages, and whether the host has cancelled by then. */
  datatype Site = Site(allows: Url -> bool, page: Url -> Option<seq<string>>, cancelled: nat -> bool)

  /** The crawl between two pages. */
  datatype Crawler = Crawler(taken: seq<Item>, front: Front, links: Links, stopped: bool)

  predicate CanTake(sc: Scope, s: Crawler) {
    !s.stopped && |s.taken| < sc.policy.maxPages && s.front.queue != []
  }

  /** The page now taken is processed: the host goes on, the rules allow it, and it could be fetched. */
  predicate Processes(site: Site, s: Crawler)
    requires s.front.queue != []
  {
    var url := s.front.queue[0].url;
    !site.cancelled(|s.taken| + 1) && site.allows(url) && site.page(url).Some?
  }

  /** One turn of the driving loop. */
  function Turn(sc: Scope, site: Site, s: Crawler): Crawler {
    if !CanTake(sc, s) then s.(stopped := true)
    else
      var item, rest := s.front.queue[0], Front(s.front.queue[1..], s.front.seen);
      var taken := s.taken + [item];
      if !Processes(site, s) then Crawler(taken, rest, s.links, site.cancelled(|taken|))
      else
        var found := site.page(item.url).value;
        Crawler(taken, PageEnqueued(sc, rest, found, item.depth), s.links[item.url := found], false)
  }

  /** The crawl from a state to its end. */
  function RunFrom(sc: Scope, site: Site, s: Crawler): Crawler
    decreases !s.stopped, sc.policy.maxPages - |s.taken|
  {
    if s.stopped then s else RunFrom(sc, site, Turn(sc, site, s))
  }

  /** From a state to the end, the fan-out cap cuts nothing off any page that is processed. */
  ghost predicate Uncut(sc: Scope, site: Site, s: Crawler)
    decreases !s.stopped, sc.policy.maxPages - |s.taken|
  {
    s.stopped ||
    (&& (CanTake(sc, s) && Processes(site, s) ==>
           var item := s.front.queue[0];
           PageUncut(sc, Front(s.front.queue[1..], s.front.seen), site.page(item.url).value, item.depth))
     && Uncut(sc, site, Turn(sc, site, s)))
  }

  /** The frontier a crawl begins with: the seed, and the sitemap's pages where the policy asks for them. */
  function Begin(web: Web, policy: Policy, seedUrl: string, sitemap: Option<seq<string>>): Crawler {
    var front := Start(web, seedUrl);
    var seeded := if policy.seedSitemap && sitemap.Some?
                  then Enqueued(ScopeFor(web, policy, seedUrl), front, sitemap.value, 1, |sitemap.value|)
                  else front;
    Crawler([], seeded, map[], false)
  }

  /** The crawl from this state ends where the whole crawl ends, and an exact one has nothing cut ahead of it. */
  ghost predicate OnCourse(sc: Scope, site: Site, s: Crawler, whole: Crawler, exact: bool) {
    RunFrom(sc, site, s) == whole && (exact ==> Uncut(sc, site, s))
  }

  lemma TurnStaysOnCourse(sc: Scope, site: Site, s: Crawler, whole: Crawler, exact: bool)
    requires OnCourse(sc, site, s, whole, exact) && !s.stopped
    ensures OnCourse(sc, site, Turn(sc, site, s), whole, exact)
    ensures exact && CanTake(sc, s) && Processes(site, s) ==>
              var item := s.front.queue[0];
              NothingLost(sc, Front(s.front.queue[1..], s.front.seen), site.page(item.url).value, item.depth)
  {
    if exact && CanTake(sc, s) && Processes(site, s) {
      var item := s.front.queue[0];
      UncutLosesNothing(sc, Front(s.front.queue[1..], s.front.seen), site.page(item.url).value, item.depth);
    }
  }

  /** No sitemap seeds the frontier, and no page processed is cut. */
  ghost predicate Unaltered(web: Web, policy: Policy, seedUrl: string, sitemap: Option<seq<string>>, site: Site) {
    && !(policy.seedSitemap && sitemap.Some?)
    && Uncut(ScopeFor(web, policy, seedUrl), site, Begin(web, policy, seedUrl, sitemap))
  }

  /** What the crawl found is what the processed pages gave. */
  ghost predicate FromPages(links: Links, site: Site) {
    forall u :: u in links ==> site.allows(u) && site.page(u) == Some(links[u])
  }

  /** Everything that holds between two turns. */
  ghost predicate Driving(sc: Scope, site: Site, seed: Url, s: Crawler, level: nat, whole: Crawler, exact: bool) {
    && Crawling(sc, s.links, seed, s.taken, s.front, level, exact) && FromPages(s.links, site)
    && |s.taken| <= sc.policy.maxPages && OnCourse(sc, site, s, whole, exact)
    && (s.stopped ==> |s.taken| == sc.policy.maxPages || s.front.queue == [] || site.cancelled(|s.taken|))
  }

  lemma TurnKeepsDriving(sc: Scope, site: Site, seed: Url, s: Crawler, level: nat, whole: Crawler, exact: bool)
      returns (next: nat)
    requires Driving(sc, site, seed, s, level, whole, exact) && !s.stopped
    ensures Driving(sc, site, seed, Turn(sc, site, s), next, whole, exact)
  {
    TurnStaysOnCourse(sc, site, s, whole, exact);
    next := level;
    if CanTake(sc, s) {
      var item, rest := s.front.queue[0], s.front.queue[1..];
      assert s.front.queue == [item] + rest;
      TakeCrawling(sc, s.links, seed, s.taken, s.front, level, exact, item, rest);
      next := item.depth;
      if Processes(site, s) {
        ProcessCrawling(sc, s.links, seed, s.taken, item, Front(rest, s.front.seen), exact, site.page(item.url).value);
      }
    }
  }

  /**
   Drive a crawl: take pages until the frontier or the page cap is spent or the host cancels, and
   enqueue the links of each page that the rules allow and that could be fetched.

   In every run depths never decrease, no page is taken twice, and at most `maxPages` are taken.
   When nothing alters the frontier, each page taken carries its exact link distance from the
   seed over the pages processed; and a run that ends on its own before the page cap has taken
   everything its processed pages link to within the depth cap.
   */
  method RunCrawl(web: Web, policy: Policy, seedUrl: string, sitemap: Option<seq<string>>, site: Site)
    returns (total: nat, taken: seq<Item>, ghost links: Links)
    ensures var end := RunFrom(ScopeFor(web, policy, seedUrl), site, Begin(web, policy, seedUrl, sitemap));
            taken == end.taken && links == end.links
    ensures total == |taken| <= policy.maxPages && DepthsRise(taken) && NoRepeat(taken)
    ensures links.Keys <= Urls(taken) && FromPages(links, site)
    ensures Unaltered(web, policy, seedUrl, sitemap, site) ==>
              forall k :: 0 <= k < |taken| ==>
                Distance(ScopeFor(web, policy, seedUrl), links, web.normalize(seedUrl), taken[k].url, taken[k].depth)
    ensures Unaltered(web, policy, seedUrl, sitemap, site) && total < policy.maxPages
            && (forall n: nat :: !site.cancelled(n)) ==>
              Explored(ScopeFor(web, policy, seedUrl), links, taken, taken)
  {
    var frontier := new Frontier(web, policy, seedUrl);
    ghost var sc, seed, exact := frontier.sc, web.normalize(seedUrl), Unaltered(web, policy, seedUrl, sitemap, site);
    ghost var level := 0;
    StartBreadth(seed);
    StartExploring(sc, seed);
    taken, links := [], map[];
    assert Crawling(sc, links, seed, taken, frontier.Contents(), level, exact);
    if policy.seedSitemap && sitemap.Some? {
      SeedsCrawling(sc, seed, frontier.Contents(), sitemap.value);
      var added := frontier.EnqueueSeeds(sitemap.value);
    }
    var stopped := false;
    ghost var whole := RunFrom(sc, site, Begin(web, policy, seedUrl, sitemap));
    while !stopped
      invariant frontier.sc == sc && fresh(frontier) && |taken| == frontier.fetched
      invariant Driving(sc, site, seed, Crawler(taken, frontier.Contents(), links, stopped), level, whole, exact)
      decreases !stopped, policy.maxPages - |taken|
    {
      ghost var s := Crawler(taken, frontier.Contents(), links, stopped);
      level := TurnKeepsDriving(sc, site, seed, s, level, whole, exact);
      var next := frontier.Next();
      if next.None? {
        stopped := true;
      } else {
        var item := next.value;
        assert s.front.queue[1..] == frontier.queue;
        taken := taken + [item];
        var found := site.page(item.url);
        if site.cancelled(|taken|) {
          stopped := true;
        } else if site.allows(item.url) && found.Some? {
          var added := frontier.Enqueue(found.value, item.depth);
          links := links[item.url := found.value];
        }
      }
      assert Crawler(taken, frontier.Contents(), links, stopped) == Turn(sc, site, s);
    }
    total := frontier.fetched;
    Finish(sc, links, seed, taken, frontier.Contents(), level, exact);
  }

  lemma Finish(sc: Scope, links: Links, seed: Url, taken: seq<Item>, f: Front, level: nat, exact: bool)
    requires Crawling(sc, links, seed, taken, f, level, exact)
    ensures DepthsRise(taken) && NoRepeat(taken)
    ensures exact ==> forall k :: 0 <= k < |taken| ==> Distance(sc, links, seed, taken[k].url, taken[k].depth)
    ensures exact && f.queue == [] ==> Explored(sc, links, taken, taken)
  {
    var all := taken + f.queue;
    assert forall k :: 0 <= k < |taken| ==> all[k] == taken[k];
    if exact {
      forall k | 0 <= k < |taken| ensures Distance(sc, links, seed, taken[k].url, taken[k].depth) {
        DepthIsDistance(sc, links, seed, taken, f, k);
      }
      if f.queue == [] { assert all == taken; }
    }
  }
}
