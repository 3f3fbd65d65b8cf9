/**
 The whole of `olsr_calculate_routing_table`: shortest paths, the routing table
 and the kernel, from the graph to the installed routes.
 */
module Routing {
  import opened Common
  import Election
  import Rib
  import Seeding
  import Spf

  type Prefixes = map<Addr, set<Rib.Prefix>>

  predicate Advertises(prefixes: Prefixes, v: Addr, p: Rib.Prefix) {
    v in prefixes && p in prefixes[v]
  }

  /** Some other node that can be reached advertises the prefix. */
  ghost predicate Routable(g: Spf.Graph, root: Addr, prefixes: Prefixes, p: Rib.Prefix, maxplen: nat) {
    p.len <= maxplen &&
    exists v, w :: v != root && Advertises(prefixes, v, p) && Spf.WalkTo(g, root, w, v)
  }

  /**
   `w` is a least-cost walk to an advertiser, the next hop is the link to its first node and the
   metric its length in an 8-bit count, or 2 if metrics are flat.
   */
  ghost predicate FollowsWalk(g: Spf.Graph, root: Addr, seed: map<Addr, Link>, prefixes: Prefixes, p: Rib.Prefix,
                              route: Rib.KernelRoute, correct: bool, v: Addr, w: seq<Spf.Edge>)
  {
    && v != root && Advertises(prefixes, v, p)
    && Spf.WalkTo(g, root, w, v) && w != [] && w[0].dest in seed
    && route.nexthop == Election.NextHop(seed[w[0].dest].gateway, seed[w[0].dest].ifIndex)
    && route.metric == (if correct then |w| % 256 else 2)
    && forall w' :: Spf.WalkTo(g, root, w', v) ==> Spf.Cost(w) <= Spf.Cost(w')
  }

  /** The cost that counts in an election: that of the present gateway is scaled. */
  function Weighed(v: Addr, cost: nat, gw: Option<Addr>, thresh: real): int {
    if gw == Some(v) then (cost as real * thresh).Floor else cost
  }

  /** No walk to any advertiser of the prefix weighs less. */
  ghost predicate CheapestOfAll(g: Spf.Graph, root: Addr, prefixes: Prefixes, p: Rib.Prefix, weight: int,
                                gw: Option<Addr>, thresh: real)
  {
    forall v, w :: v != root && Advertises(prefixes, v, p) && Spf.WalkTo(g, root, w, v) ==>
      weight <= Weighed(v, Spf.Cost(w), gw, thresh)
  }

  /** The installed next hop begins a walk to the prefix that is cheapest, up to the favour for the present gateway. */
  ghost predicate RoutedWell(g: Spf.Graph, root: Addr, seed: map<Addr, Link>, prefixes: Prefixes, p: Rib.Prefix,
                             route: Rib.KernelRoute, correct: bool, gw: Option<Addr>, thresh: real)
  {
    exists v, w :: FollowsWalk(g, root, seed, prefixes, p, route, correct, v, w) &&
                   CheapestOfAll(g, root, prefixes, p, Weighed(v, Spf.Cost(w), gw, thresh), gw, thresh)
  }

  /** No favour off the default route; on a lone default route the favour is for the gateway it had. */
  ghost predicate RoutedAt(g: Spf.Graph, root: Addr, seed: map<Addr, Link>, prefixes: Prefixes, p: Rib.Prefix,
                           route: Rib.KernelRoute, correct: bool, gw: Option<(Rib.Prefix, Addr)>, thresh: real, lone: bool)
  {
    var here := Rib.GwHere(gw, p);
    && (|| RoutedWell(g, root, seed, prefixes, p, route, correct, None, thresh)
        || RoutedWell(g, root, seed, prefixes, p, route, correct, here, thresh))
    && (p.len > 0 ==> RoutedWell(g, root, seed, prefixes, p, route, correct, None, thresh))
    && (lone ==> RoutedWell(g, root, seed, prefixes, p, route, correct, here, thresh))
  }

  /** No other default route is in the table or can be routed. */
  ghost predicate Lone(t: Rib.Table, g: Spf.Graph, root: Addr, prefixes: Prefixes, p: Rib.Prefix, maxplen: nat) {
    && Rib.OnlyDefault(t, p)
    && forall q :: Routable(g, root, prefixes, q, maxplen) && q.len == 0 ==> q == p
  }

  function PrefixesOf(prefixes: Prefixes, v: Addr): set<Rib.Prefix> {
    if v in prefixes then prefixes[v] else {}
  }

  /** The path list as the insertion walk reads it. */
  function ListOf(list: seq<Addr>, cost: map<Addr, nat>, hops: map<Addr, nat>, hop: map<Addr, Option<Link>>,
                  prefixes: Prefixes): (r: seq<Rib.Reached>)
    requires forall v :: v in list ==> v in cost && v in hops && v in hop
  {
    seq(|list|, i requires 0 <= i < |list| =>
      Rib.Reached(list[i], hop[list[i]], cost[list[i]], hops[list[i]], PrefixesOf(prefixes, list[i])))
  }

  /** What the finished shortest-path run says about a path list entry. */
  lemma EntryRoute(g: Spf.Graph, root: Addr, seed: map<Addr, Link>, s: Spf.State, v: Addr) returns (w: seq<Spf.Edge>)
    requires Spf.ShortestPaths(g, root, s.pathCost, s.pathList) && Spf.FirstHopAgreement(g, root, seed, s)
    requires v in s.pathList && v != root
    ensures v in g && Spf.RouteVia(g, root, seed, v, w, s.pathCost[v], s.hops[v], s.nextHop[v])
    ensures forall w' :: Spf.WalkTo(g, root, w', v) ==> Spf.Cost(w) <= Spf.Cost(w')
    ensures s.pathCost[v] < ROUTE_COST_BROKEN
  {
    hide Spf.WalkTo, Spf.Cost;
    w :| Spf.RouteVia(g, root, seed, v, w, s.pathCost[v], s.hops[v], s.nextHop[v]);
    assert Spf.LeastCost(g, root, v, s.pathCost[v]);
  }

  /** A node is on the path list exactly when a walk leads to it. */
  lemma OnListIff(g: Spf.Graph, root: Addr, cost: map<Addr, nat>, list: seq<Addr>, v: Addr)
    requires Spf.ShortestPaths(g, root, cost, list) && v in g
    ensures v in list <==> exists w :: Spf.WalkTo(g, root, w, v)
  {
    hide Spf.WalkTo;
    if v in list {
      assert Spf.LeastCost(g, root, v, cost[v]);
    }
  }

  lemma WalkEndsInGraph(g: Spf.Graph, root: Addr, w: seq<Spf.Edge>, v: Addr)
    requires Spf.WalkTo(g, root, w, v)
    ensures v in g
  {
  }

  /** A finished shortest-path run over well-formed addresses and links. */
  ghost predicate Ran(g: Spf.Graph, root: Addr, seed: map<Addr, Link>, s: Spf.State, alen: nat) {
    && Spf.ShortestPaths(g, root, s.pathCost, s.pathList) && Spf.HopsGiven(g, root, seed, s)
    && (forall v :: v in g ==> |v.bytes| == alen)
    && (forall v :: v in seed ==> seed[v].ifIndex > -1)
  }

  /** A run whose next hops are all right. */
  ghost predicate Finished(g: Spf.Graph, root: Addr, seed: map<Addr, Link>, s: Spf.State, alen: nat) {
    Ran(g, root, seed, s, alen) && Spf.FirstHopAgreement(g, root, seed, s)
  }

  lemma RanOnList(g: Spf.Graph, root: Addr, seed: map<Addr, Link>, s: Spf.State, alen: nat, v: Addr)
    requires Ran(g, root, seed, s, alen) && v in s.pathList
    ensures v in s.pathCost && v in s.hops && v in s.nextHop && v in g
  {
  }

  ghost function Reaching(g: Spf.Graph, root: Addr, seed: map<Addr, Link>, s: Spf.State, prefixes: Prefixes, alen: nat)
    : (r: seq<Rib.Reached>)
    requires Ran(g, root, seed, s, alen)
    ensures |r| == |s.pathList|
  {
    assert forall v :: v in s.pathList ==> v in s.pathCost;
    ListOf(s.pathList, s.pathCost, s.hops, s.nextHop, prefixes)
  }

  /** The entry of the i-th node: our own carries no link, any other the link of its walk. */
  lemma ReachingAt(g: Spf.Graph, root: Addr, seed: map<Addr, Link>, s: Spf.State, prefixes: Prefixes, alen: nat, i: nat)
    returns (w: seq<Spf.Edge>)
    requires Finished(g, root, seed, s, alen) && i < |s.pathList|
    ensures var r, v := Reaching(g, root, seed, s, prefixes, alen)[i], s.pathList[i];
      && r.addr == v && v in g && r.prefixes == PrefixesOf(prefixes, v) && (r.link.None? <==> v == root)
      && (v != root ==>
            && Spf.RouteVia(g, root, seed, v, w, r.cost, r.hops, r.link)
            && r.cost < ROUTE_COST_BROKEN
            && forall w' :: Spf.WalkTo(g, root, w', v) ==> Spf.Cost(w) <= Spf.Cost(w'))
  {
    hide Spf.WalkTo, Spf.Cost, Spf.ShortestPaths, Spf.HopsGiven;
    var v := s.pathList[i];
    RanOnList(g, root, seed, s, alen, v);
    w := [];
    if v != root {
      w := EntryRoute(g, root, seed, s, v);
    }
  }

  lemma ReachingOk(g: Spf.Graph, root: Addr, seed: map<Addr, Link>, s: Spf.State, prefixes: Prefixes, alen: nat)
    requires Ran(g, root, seed, s, alen)
    ensures Rib.ReachedOk(Reaching(g, root, seed, s, prefixes, alen), alen)
  {
    hide Spf.WalkTo, Spf.Cost, Spf.LeastCost, Spf.Beaten;
    var l := Reaching(g, root, seed, s, prefixes, alen);
    forall i | 0 <= i < |l|
      ensures |l[i].addr.bytes| == alen
      ensures l[i].link.Some? ==> l[i].cost < ROUTE_COST_BROKEN && l[i].hops < U8 && l[i].link.value.ifIndex > -1
    {
      RanOnList(g, root, seed, s, alen, s.pathList[i]);
      if l[i].link.Some? {
        assert Spf.WitnessedAt(g, root, s, s.pathList[i], |s.pathList|);
        var b :| b in seed && seed[b] == l[i].link.value;
      }
    }
  }

  /** Only routable prefixes are offered, whatever the next hops. */
  lemma OfferedRoutable(g: Spf.Graph, root: Addr, seed: map<Addr, Link>, s: Spf.State, prefixes: Prefixes, alen: nat,
                        p: Rib.Prefix, maxplen: nat)
    requires Ran(g, root, seed, s, alen) && Rib.WantedAny(Reaching(g, root, seed, s, prefixes, alen), p, maxplen)
    ensures Routable(g, root, prefixes, p, maxplen)
  {
    hide Spf.WalkTo, Spf.Cost, Spf.Beaten;
    var l := Reaching(g, root, seed, s, prefixes, alen);
    var i :| 0 <= i < |l| && Rib.Offers(l[i], p, l[i].addr, maxplen);
    var v := s.pathList[i];
    RanOnList(g, root, seed, s, alen, v);
    OnListIff(g, root, s.pathCost, s.pathList, v);
    assert Advertises(prefixes, v, p);
  }

  /** Our usable edge to `v`, a node without a seed, is the cheapest way to it. */
  ghost predicate Stranded(g: Spf.Graph, root: Addr, seed: map<Addr, Link>, v: Addr) {
    root in g && v != root && v !in seed &&
    exists e :: e in g[root] && Spf.Usable(e) && e.dest == v && !Spf.Beaten(g, root, e)
  }

  /** All advertisers of the prefix that can be reached are stranded. */
  ghost predicate OnlyStranded(g: Spf.Graph, root: Addr, seed: map<Addr, Link>, prefixes: Prefixes, p: Rib.Prefix) {
    forall v, w :: v != root && Advertises(prefixes, v, p) && Spf.WalkTo(g, root, w, v) ==> Stranded(g, root, seed, v)
  }

  lemma StrandedHop(g: Spf.Graph, root: Addr, seed: map<Addr, Link>, s: Spf.State, prefixes: Prefixes, alen: nat,
                    p: Rib.Prefix, v: Addr)
    requires Ran(g, root, seed, s, alen) && OnlyStranded(g, root, seed, prefixes, p)
    requires v in s.pathList && v != root && Advertises(prefixes, v, p)
    ensures v in s.nextHop && s.nextHop[v] == None
  {
    hide Spf.WalkTo, Spf.Cost, Spf.Beaten;
    RanOnList(g, root, seed, s, alen, v);
    OnListIff(g, root, s.pathCost, s.pathList, v);
    var w :| Spf.WalkTo(g, root, w, v);
    assert Stranded(g, root, seed, v);
  }

  /** What only stranded nodes advertise is not offered. */
  lemma StrandedNotOffered(g: Spf.Graph, root: Addr, seed: map<Addr, Link>, s: Spf.State, prefixes: Prefixes, alen: nat,
                           p: Rib.Prefix, maxplen: nat)
    requires Ran(g, root, seed, s, alen) && OnlyStranded(g, root, seed, prefixes, p)
    ensures !Rib.WantedAny(Reaching(g, root, seed, s, prefixes, alen), p, maxplen)
  {
    hide Spf.WalkTo, Spf.Cost, Spf.Beaten, OnlyStranded;
    var l := Reaching(g, root, seed, s, prefixes, alen);
    forall i | 0 <= i < |l| ensures !Rib.Offers(l[i], p, l[i].addr, maxplen) {
      var v := s.pathList[i];
      RanOnList(g, root, seed, s, alen, v);
      if v != root && Advertises(prefixes, v, p) {
        StrandedHop(g, root, seed, s, prefixes, alen, p, v);
      }
    }
  }

  /** An advertiser that a walk leads to is on the list and offers the prefix. */
  lemma WalkOffers(g: Spf.Graph, root: Addr, seed: map<Addr, Link>, s: Spf.State, prefixes: Prefixes, alen: nat,
                   p: Rib.Prefix, maxplen: nat, v: Addr, w: seq<Spf.Edge>)
    returns (i: nat)
    requires Finished(g, root, seed, s, alen) && p.len <= maxplen
    requires v != root && Advertises(prefixes, v, p) && Spf.WalkTo(g, root, w, v)
    ensures var l := Reaching(g, root, seed, s, prefixes, alen);
      i < |l| && Rib.Offers(l[i], p, v, maxplen) && l[i].cost <= Spf.Cost(w)
  {
    WalkEndsInGraph(g, root, w, v);
    hide Spf.WalkTo, Spf.Cost, Reaching;
    OnListIff(g, root, s.pathCost, s.pathList, v);
    assert exists w' :: Spf.WalkTo(g, root, w', v);
    i :| 0 <= i < |s.pathList| && s.pathList[i] == v;
    var w' := ReachingAt(g, root, seed, s, prefixes, alen, i);
    assert Spf.Cost(w') <= Spf.Cost(w);
  }

  /** A prefix gets a path exactly when it is routable. */
  lemma WantedIffRoutable(g: Spf.Graph, root: Addr, seed: map<Addr, Link>, s: Spf.State, prefixes: Prefixes, alen: nat,
                          p: Rib.Prefix, maxplen: nat)
    requires Finished(g, root, seed, s, alen)
    ensures Rib.WantedAny(Reaching(g, root, seed, s, prefixes, alen), p, maxplen) <==> Routable(g, root, prefixes, p, maxplen)
  {
    hide Spf.WalkTo, Reaching, Ran;
    var l := Reaching(g, root, seed, s, prefixes, alen);
    if Routable(g, root, prefixes, p, maxplen) {
      var v, w :| v != root && Advertises(prefixes, v, p) && Spf.WalkTo(g, root, w, v);
      var i := WalkOffers(g, root, seed, s, prefixes, alen, p, maxplen, v, w);
    }
    if Rib.WantedAny(l, p, maxplen) {
      OfferedRoutable(g, root, seed, s, prefixes, alen, p, maxplen);
    }
  }

  /** The elected path of a prefix begins a walk to it that weighs least. */
  lemma BestRoutesWell(g: Spf.Graph, root: Addr, seed: map<Addr, Link>, s: Spf.State, prefixes: Prefixes, alen: nat,
                       p: Rib.Prefix, maxplen: nat, version: nat, paths: Election.Paths, b: Addr,
                       route: Rib.KernelRoute, correct: bool, gw: Option<Addr>, thresh: real)
    requires Finished(g, root, seed, s, alen) && Election.Keyed(paths) && Election.IsBest(paths, b, gw, thresh)
    requires var l := Reaching(g, root, seed, s, prefixes, alen);
      forall o :: Rib.Wanted(l, p, o, maxplen, version) == if o in paths then Some(paths[o]) else None
    requires thresh >= 0.0
    requires b in paths && route.nexthop == paths[b].nexthop && route.metric == if correct then paths[b].metric.hops else 2
    ensures RoutedWell(g, root, seed, prefixes, p, route, correct, gw, thresh)
  {
    hide Spf.WalkTo, Spf.Cost, Reaching, Rib.Wanted, Spf.FirstHopAgreement, Spf.ShortestPaths, Spf.HopsGiven,
         Election.Keyed, Election.IsBest, Weighed;
    var l := Reaching(g, root, seed, s, prefixes, alen);
    assert Rib.Wanted(l, p, b, maxplen, version) == Some(paths[b]);
    Rib.WantedOffered(l, p, b, maxplen, version);
    var i :| 0 <= i < |l| && Rib.Offers(l[i], p, b, maxplen) && paths[b] == Rib.Fresh(l[i], version);
    var w := ReachingAt(g, root, seed, s, prefixes, alen, i);
    assert FollowsWalk(g, root, seed, prefixes, p, route, correct, b, w);
    forall v, w' | v != root && Advertises(prefixes, v, p) && Spf.WalkTo(g, root, w', v)
      ensures Weighed(b, Spf.Cost(w), gw, thresh) <= Weighed(v, Spf.Cost(w'), gw, thresh)
    {
      var j := WalkOffers(g, root, seed, s, prefixes, alen, p, maxplen, v, w');
      DistinctNodes(g, root, seed, s, prefixes, alen);
      Rib.WantedExact(l, p, v, maxplen, version, j);
      assert Rib.Wanted(l, p, v, maxplen, version) == Some(paths[v]);
      BestWeighs(paths, b, v, gw, thresh);
      WeighedGrows(v, paths[v].metric.cost, Spf.Cost(w'), gw, thresh);
    }
    assert CheapestOfAll(g, root, prefixes, p, Weighed(b, Spf.Cost(w), gw, thresh), gw, thresh);
  }

  lemma BestWeighs(paths: Election.Paths, b: Addr, v: Addr, gw: Option<Addr>, thresh: real)
    requires Election.Keyed(paths) && Election.IsBest(paths, b, gw, thresh) && v in paths
    ensures b in paths && Weighed(b, paths[b].metric.cost, gw, thresh) <= Weighed(v, paths[v].metric.cost, gw, thresh)
  {
  }

  lemma WeighedGrows(v: Addr, c: nat, d: nat, gw: Option<Addr>, thresh: real)
    requires c <= d && thresh >= 0.0
    ensures Weighed(v, c, gw, thresh) <= Weighed(v, d, gw, thresh)
  {
    var x, y := c as real, d as real;
    assert x * thresh <= y * thresh;
  }

  lemma DistinctNodes(g: Spf.Graph, root: Addr, seed: map<Addr, Link>, s: Spf.State, prefixes: Prefixes, alen: nat)
    requires Ran(g, root, seed, s, alen)
    ensures var l := Reaching(g, root, seed, s, prefixes, alen);
      forall j, k :: 0 <= j < k < |l| ==> l[j].addr != l[k].addr
  {
  }

  /** What one run leaves installed for a prefix. */
  lemma InstalledRoutesWell(g: Spf.Graph, root: Addr, seed: map<Addr, Link>, s: Spf.State, prefixes: Prefixes, alen: nat,
                            p: Rib.Prefix, maxplen: nat, version: nat, t: Rib.Table, k: map<Rib.Prefix, Rib.KernelRoute>,
                            lone: bool, gw: Option<(Rib.Prefix, Addr)>, thresh: real, correct: bool)
    requires Finished(g, root, seed, s, alen) && Rib.InstalledBest(t, k, p, correct) && thresh >= 0.0
    requires forall o :: Rib.PathAt(t, p, o) == Rib.Wanted(Reaching(g, root, seed, s, prefixes, alen), p, o, maxplen, version)
    requires Rib.ElectedIn(t, lone, gw, p, thresh) && (gw.Some? ==> gw.value.0.len == 0)
    ensures p in k && RoutedAt(g, root, seed, prefixes, p, k[p], correct, gw, thresh, lone)
  {
    hide Ran, Rib.Wanted, RoutedWell, Election.IsBest, Election.Keyed;
    var l := Reaching(g, root, seed, s, prefixes, alen);
    forall o ensures Rib.Wanted(l, p, o, maxplen, version) == if o in t[p].paths then Some(t[p].paths[o]) else None {
      assert Rib.PathAt(t, p, o) == Rib.Wanted(l, p, o, maxplen, version);
    }
    var paths, b, here := t[p].paths, t[p].best.value, Rib.GwHere(gw, p);
    if Election.IsBest(paths, b, None, thresh) {
      BestRoutesWell(g, root, seed, s, prefixes, alen, p, maxplen, version, paths, b, k[p], correct, None, thresh);
    }
    if Election.IsBest(paths, b, here, thresh) {
      BestRoutesWell(g, root, seed, s, prefixes, alen, p, maxplen, version, paths, b, k[p], correct, here, thresh);
    }
  }

  lemma LoneIs(t: Rib.Table, g: Spf.Graph, root: Addr, seed: map<Addr, Link>, s: Spf.State, prefixes: Prefixes, alen: nat,
               p: Rib.Prefix, maxplen: nat)
    requires Ran(g, root, seed, s, alen) && Lone(t, g, root, prefixes, p, maxplen)
    ensures Rib.LoneDefault(t, Reaching(g, root, seed, s, prefixes, alen), p, maxplen)
  {
    hide Ran, Reaching, Routable, Rib.WantedAny;
    var l := Reaching(g, root, seed, s, prefixes, alen);
    forall q | Rib.WantedAny(l, q, maxplen) && q.len == 0 ensures q == p {
      OfferedRoutable(g, root, seed, s, prefixes, alen, q, maxplen);
    }
  }

  /**
   `olsr_calculate_routing_table`, from the next hops of our neighbours to the kernel.
   The routes are right if no usable edge of ours to a node without a seed is the
   cheapest way to that node; what is not routable is gone in any case.
   */
  method CalculateRoutes(g: Spf.Graph, root: Addr, seed: map<Addr, Link>, prefixes: Prefixes,
                         table: Rib.RouteTable, addOk: set<Rib.Prefix>, delOk: set<Rib.Prefix>)
    requires Spf.InverseExact(g) && Spf.SumsFit(g, root) && root in g && root !in seed
    requires forall v :: v in g ==> |v.bytes| == table.alen
    requires forall v :: v in seed ==> seed[v].ifIndex > -1
    requires table.Valid() && table.chgList == [] && Rib.AllCurrent(table.rib, table.version) && table.thresh >= 0.0
    requires forall p :: Rib.RecordedAt(table.rib, table.kernel, p, table.correct)
    modifies table
    ensures table.Valid() && table.chgList == [] && Rib.AllCurrent(table.rib, table.version)
    ensures Spf.UnseededBeaten(g, root, seed) ==>
              forall p :: Routable(g, root, prefixes, p, table.maxplen) && p in addOk ==>
                p in table.kernel &&
                RoutedAt(g, root, seed, prefixes, p, table.kernel[p], table.correct, old(table.currentGw), table.thresh,
                         Lone(old(table.rib), g, root, prefixes, p, table.maxplen))
    ensures forall p :: !Routable(g, root, prefixes, p, table.maxplen) && (p in delOk || p !in old(table.rib)) ==>
              p !in table.kernel
    ensures forall p :: OnlyStranded(g, root, seed, prefixes, p) && (p in delOk || p !in old(table.rib)) ==>
              p !in table.kernel
    ensures forall p :: (table.deleteFirst ==> p in addOk) ==>
              Rib.RecordedAt(table.rib, table.kernel, p, table.correct)
    ensures Rib.GatewayOf(table.rib, {}, old(table.currentGw), table.currentGw)
  {
    hide Spf.InverseExact, Spf.SumsFit, Spf.UnseededBeaten, Spf.ShortestPaths, Spf.HopsGiven, Spf.FirstHopAgreement,
         Rib.TableOk, Rib.ReachedOk, Rib.AllCurrent, Rib.RecordedAt, Rib.WantedAny, Rib.Wanted, Rib.PathAt, Rib.InstalledBest,
         Rib.ElectedIn, Rib.LoneDefault, Rib.GatewayOf, Routable, RoutedAt, Reaching, Spf.Inv, Lone, OnlyStranded;
    var spf := new Spf.SpfRun(g, root, seed);
    spf.RunFull();
    ghost var s := spf.St();
    assert Ran(g, root, seed, s, table.alen);
    hide Ran;
    ReachingIs(g, root, seed, s, prefixes, table.alen);
    var l := ListOf(spf.pathList, spf.pathCost, spf.hops, spf.nextHop, prefixes);
    ReachingOk(g, root, seed, s, prefixes, table.alen);
    table.RoutingRun(l, addOk, delOk);
    forall p
      ensures Rib.WantedAny(l, p, table.maxplen) ==> Routable(g, root, prefixes, p, table.maxplen)
    {
      if Rib.WantedAny(l, p, table.maxplen) {
        OfferedRoutable(g, root, seed, s, prefixes, table.alen, p, table.maxplen);
      }
    }
    forall p | OnlyStranded(g, root, seed, prefixes, p) ensures !Rib.WantedAny(l, p, table.maxplen) {
      StrandedNotOffered(g, root, seed, s, prefixes, table.alen, p, table.maxplen);
    }
    if Spf.UnseededBeaten(g, root, seed) {
      forall p | Routable(g, root, prefixes, p, table.maxplen) && p in addOk
        ensures p in table.kernel &&
          RoutedAt(g, root, seed, prefixes, p, table.kernel[p], table.correct, old(table.currentGw), table.thresh,
                   Lone(old(table.rib), g, root, prefixes, p, table.maxplen))
      {
        WantedIffRoutable(g, root, seed, s, prefixes, table.alen, p, table.maxplen);
        ghost var lone := Rib.LoneDefault(old(table.rib), l, p, table.maxplen);
        InstalledRoutesWell(g, root, seed, s, prefixes, table.alen, p, table.maxplen, table.version, table.rib,
                            table.kernel, lone, old(table.currentGw), table.thresh, table.correct);
        if Lone(old(table.rib), g, root, prefixes, p, table.maxplen) {
          LoneIs(old(table.rib), g, root, seed, s, prefixes, table.alen, p, table.maxplen);
        }
        RoutedFewer(g, root, seed, prefixes, p, table.kernel[p], table.correct, old(table.currentGw), table.thresh, lone,
                    Lone(old(table.rib), g, root, prefixes, p, table.maxplen));
      }
    }
  }

  lemma RoutedFewer(g: Spf.Graph, root: Addr, seed: map<Addr, Link>, prefixes: Prefixes, p: Rib.Prefix,
                    route: Rib.KernelRoute, correct: bool, gw: Option<(Rib.Prefix, Addr)>, thresh: real, lone: bool, lone': bool)
    requires RoutedAt(g, root, seed, prefixes, p, route, correct, gw, thresh, lone) && (lone' ==> lone)
    ensures RoutedAt(g, root, seed, prefixes, p, route, correct, gw, thresh, lone')
  {
    hide RoutedWell;
  }

  lemma ReachingIs(g: Spf.Graph, root: Addr, seed: map<Addr, Link>, s: Spf.State, prefixes: Prefixes, alen: nat)
    requires Ran(g, root, seed, s, alen)
    ensures forall v :: v in s.pathList ==> v in s.pathCost && v in s.hops && v in s.nextHop
    ensures Reaching(g, root, seed, s, prefixes, alen) == ListOf(s.pathList, s.pathCost, s.hops, s.nextHop, prefixes)
  {
    hide Spf.ShortestPaths, Spf.HopsGiven;
    forall v | v in s.pathList ensures v in s.pathCost && v in s.hops && v in s.nextHop {
      RanOnList(g, root, seed, s, alen, v);
    }
  }

  /** All advertisers of the prefix that can be reached are orphans no walk beats. */
  ghost predicate OnlyOrphans(edges0: map<Addr, nat>, nbrs: map<Addr, Seeding.Nbr>, back: set<Addr>, g: Spf.Graph, root: Addr,
                              prefixes: Prefixes, p: Rib.Prefix)
  {
    forall v, w :: v != root && Advertises(prefixes, v, p) && Spf.WalkTo(g, root, w, v) ==>
      Seeding.Orphan(edges0, nbrs, back, root, v) && !Spf.Beaten(g, root, Spf.Edge(v, edges0[v], true))
  }

  lemma OrphansStranded(edges0: map<Addr, nat>, nbrs: map<Addr, Seeding.Nbr>, back: set<Addr>, g: Spf.Graph, root: Addr,
                        seed: map<Addr, Link>, prefixes: Prefixes, p: Rib.Prefix)
    requires OnlyOrphans(edges0, nbrs, back, g, root, prefixes, p) && root in g
    requires forall d :: Seeding.Orphan(edges0, nbrs, back, root, d) ==> Spf.Edge(d, edges0[d], true) in g[root] && d !in seed
    ensures OnlyStranded(g, root, seed, prefixes, p)
  {
    hide Spf.WalkTo, Spf.Beaten;
    forall v, w | v != root && Advertises(prefixes, v, p) && Spf.WalkTo(g, root, w, v) ensures Stranded(g, root, seed, v) {
      var e := Spf.Edge(v, edges0[v], true);
      assert e in g[root] && Spf.Usable(e);
    }
  }

  /**
   The same from the neighbour table on: `g` shows the database with our edges as the
   neighbour loop leaves them. The routes are right if a cheaper walk leads to each orphan;
   what only unbeaten orphans advertise has no route although it can be reached.
   */
  method Recalculate(own: Seeding.OwnEdges, back: set<Addr>, g: Spf.Graph, root: Addr, prefixes: Prefixes,
                     table: Rib.RouteTable, addOk: set<Rib.Prefix>, delOk: set<Rib.Prefix>)
    requires Seeding.ShowsOwn(g, root, Seeding.OwnAfter(own.edges, own.nbrs), back) && root !in own.nbrs
    requires Spf.InverseExact(g) && Spf.SumsFit(g, root)
    requires forall v :: v in g ==> |v.bytes| == table.alen
    requires forall n :: n in own.nbrs && own.nbrs[n].best.Some? ==> own.nbrs[n].best.value.link.ifIndex > -1
    requires table.Valid() && table.chgList == [] && Rib.AllCurrent(table.rib, table.version) && table.thresh >= 0.0
    requires forall p :: Rib.RecordedAt(table.rib, table.kernel, p, table.correct)
    modifies own`edges, table
    ensures own.edges == Seeding.OwnAfter(old(own.edges), own.nbrs)
    ensures table.Valid() && table.chgList == [] && Rib.AllCurrent(table.rib, table.version)
    ensures Seeding.OrphansBeaten(old(own.edges), own.nbrs, back, g, root) ==>
              forall p :: Routable(g, root, prefixes, p, table.maxplen) && p in addOk ==>
                p in table.kernel &&
                RoutedAt(g, root, Seeding.SeedAfter(own.nbrs, back), prefixes, p, table.kernel[p], table.correct,
                         old(table.currentGw), table.thresh, Lone(old(table.rib), g, root, prefixes, p, table.maxplen))
    ensures forall p :: !Routable(g, root, prefixes, p, table.maxplen) && (p in delOk || p !in old(table.rib)) ==>
              p !in table.kernel
    ensures var edges0 := old(own.edges);
      forall p :: (p in delOk || p !in old(table.rib)) && OnlyOrphans(edges0, own.nbrs, back, g, root, prefixes, p) ==>
        p !in table.kernel
    ensures Rib.GatewayOf(table.rib, {}, old(table.currentGw), table.currentGw)
  {
    hide Spf.InverseExact, Spf.SumsFit, Spf.UnseededBeaten, Rib.TableOk, Rib.AllCurrent, Rib.RecordedAt, Rib.GatewayOf,
         Routable, RoutedAt, Seeding.OrphansBeaten, Lone, Seeding.Prepared, Seeding.OwnAfter, OnlyOrphans, OnlyStranded,
         Seeding.Orphan;
    ghost var edges0 := own.edges;
    var seed := own.Seed(back);
    Seeding.PreparedIs(edges0, own.edges, seed, own.nbrs, back);
    Seeding.OrphansAreUnseeded(edges0, own.edges, seed, own.nbrs, back, g, root);
    forall p | OnlyOrphans(edges0, own.nbrs, back, g, root, prefixes, p) ensures OnlyStranded(g, root, seed, prefixes, p) {
      OrphansStranded(edges0, own.nbrs, back, g, root, seed, prefixes, p);
    }
    CalculateRoutes(g, root, seed, prefixes, table, addOk, delOk);
  }
}
