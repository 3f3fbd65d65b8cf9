/**
 The shortest-path run of Olsrd/src/olsr_spf.c: Dijkstra's algorithm over the
 link-state database, with a candidate tree keyed by the mutable path cost, the
 two-way edge test and the pull-up of next hop and hop count.
 */
module Spf {
  import opened Common

  /** An edge of a node's edge tree; `hasInverse` says that its `edge_inv` pointer is set. */
  datatype Edge = Edge(dest: Addr, cost: nat, hasInverse: bool)

  type Graph = map<Addr, seq<Edge>>

  /* ---------- what the run is meant to compute ---------- */

  /** The far node is in the database and stores an edge back to `u`. */
  ghost predicate TwoWay(g: Graph, u: Addr, e: Edge) {
    e.dest in g && exists f :: f in g[e.dest] && f.dest == u
  }

  /** The inverse pointers are exact; the link-state database keeps this (module TcSet). */
  ghost predicate InverseExact(g: Graph) {
    forall u, e :: u in g && e in g[u] ==> (e.hasInverse <==> TwoWay(g, u, e))
  }

  function End(root: Addr, w: seq<Edge>): Addr {
    if w == [] then root else w[|w| - 1].dest
  }

  function Cost(w: seq<Edge>): nat {
    if w == [] then 0 else Cost(w[..|w| - 1]) + w[|w| - 1].cost
  }

  /** `w` is a walk from `root` over stored, two-way edges that are not broken. */
  ghost predicate IsWalk(g: Graph, root: Addr, w: seq<Edge>) {
    root in g &&
    (w == [] ||
     var p, e := w[..|w| - 1], w[|w| - 1];
     && IsWalk(g, root, p)
     && End(root, p) in g
     && e in g[End(root, p)]
     && TwoWay(g, End(root, p), e)
     && e.cost != LINK_COST_BROKEN)
  }

  ghost predicate WalkTo(g: Graph, root: Addr, w: seq<Edge>, v: Addr) {
    IsWalk(g, root, w) && End(root, w) == v
  }

  /** No walk with at most as many edges as there are nodes reaches the 32-bit limit. */
  ghost predicate SumsFit(g: Graph, root: Addr) {
    forall w :: IsWalk(g, root, w) && |w| <= |g| ==> Cost(w) < ROUTE_COST_BROKEN
  }

  /** Extending a walk by a usable edge. */
  lemma WalkSnoc(g: Graph, root: Addr, w: seq<Edge>, e: Edge)
    requires IsWalk(g, root, w) && End(root, w) in g && e in g[End(root, w)]
    requires TwoWay(g, End(root, w), e) && e.cost != LINK_COST_BROKEN
    ensures WalkTo(g, root, w + [e], e.dest)
    ensures Cost(w + [e]) == Cost(w) + e.cost
    ensures w != [] ==> (w + [e])[0] == w[0]
  {
    assert (w + [e])[..|w + [e]| - 1] == w;
  }

  /** A bound on usable edge costs and on the node count keeps every sum below the limit. */
  lemma BoundedCostsFit(g: Graph, root: Addr, maxCost: nat)
    requires forall u, e :: u in g && e in g[u] && e.cost != LINK_COST_BROKEN ==> e.cost <= maxCost
    requires |g| * maxCost < ROUTE_COST_BROKEN
    ensures SumsFit(g, root)
  {
    forall w | IsWalk(g, root, w) && |w| <= |g| ensures Cost(w) < ROUTE_COST_BROKEN {
      WalkCostBound(g, root, w, maxCost);
      MulMonotone(|w|, |g|, maxCost);
    }
  }

  lemma {:induction false} WalkCostBound(g: Graph, root: Addr, w: seq<Edge>, maxCost: nat)
    requires forall u, e :: u in g && e in g[u] && e.cost != LINK_COST_BROKEN ==> e.cost <= maxCost
    requires IsWalk(g, root, w)
    ensures Cost(w) <= |w| * maxCost
    decreases |w|
  {
    if w != [] {
      WalkCostBound(g, root, w[..|w| - 1], maxCost);
      assert |w| * maxCost == (|w| - 1) * maxCost + maxCost;
    }
  }

  /* ---------- the candidate tree: nodes in key order, equal keys in insertion order ---------- */

  ghost predicate Keyed(s: seq<Addr>, key: map<Addr, nat>) {
    forall x :: x in s ==> x in key
  }

  ghost predicate Ordered(s: seq<Addr>, key: map<Addr, nat>)
    requires Keyed(s, key)
  {
    forall i, j :: 0 <= i < j < |s| ==> key[s[i]] <= key[s[j]]
  }

  /** The first position, from `p` on, whose key is greater than that of `v`. */
  function InsertPos(s: seq<Addr>, v: Addr, key: map<Addr, nat>, p: nat): (r: nat)
    requires Keyed(s, key) && v in key && p <= |s|
    requires forall k :: 0 <= k < p ==> key[s[k]] <= key[v]
    ensures r <= |s| && (r < |s| ==> key[v] < key[s[r]])
    ensures forall k :: 0 <= k < r ==> key[s[k]] <= key[v]
    decreases |s| - p
  {
    if p == |s| || key[v] < key[s[p]] then p else InsertPos(s, v, key, p + 1)
  }

  /** `avl_insert` with AVL_DUP: behind all nodes whose key is not greater. */
  function CandInsert(s: seq<Addr>, v: Addr, key: map<Addr, nat>): (r: seq<Addr>)
    requires Keyed(s, key) && v in key
    ensures forall x :: x in r <==> x in s || x == v
  {
    var p := InsertPos(s, v, key, 0);
    assert s == s[..p] + s[p..];
    s[..p] + [v] + s[p..]
  }

  /** `avl_delete`: the remaining nodes keep their order. */
  function CandDelete(s: seq<Addr>, v: Addr): (r: seq<Addr>)
    requires v in s
    ensures |r| == |s| - 1
  {
    s[..IndexOf(s, v)] + s[IndexOf(s, v) + 1..]
  }

  lemma CandInsertOrdered(s: seq<Addr>, v: Addr, key: map<Addr, nat>)
    requires Keyed(s, key) && v in key && Ordered(s, key) && NoDup(s) && v !in s
    ensures Ordered(CandInsert(s, v, key), key) && NoDup(CandInsert(s, v, key))
    ensures exists p :: 0 <= p <= |s| && CandInsert(s, v, key) == s[..p] + [v] + s[p..] && (p < |s| ==> key[v] < key[s[p]])
  {
    hide Ordered, NoDup;
    var p, r := InsertPos(s, v, key, 0), CandInsert(s, v, key);
    SplicedAt(s, v, p);
    hide CandInsert, InsertPos;
    SpliceOrdered(s, r, p, v, key);
  }

  lemma SplicedAt(s: seq<Addr>, v: Addr, p: nat)
    requires p <= |s|
    ensures var r := s[..p] + [v] + s[p..];
            |r| == |s| + 1 && r[p] == v && forall k :: 0 <= k < |r| && k != p ==> r[k] == s[Unskip(p, k)]
  {
  }

  lemma SpliceOrdered(s: seq<Addr>, r: seq<Addr>, p: nat, v: Addr, key: map<Addr, nat>)
    requires Keyed(s, key) && v in key && Ordered(s, key) && NoDup(s) && v !in s
    requires |r| == |s| + 1 && p <= |s| && r[p] == v
    requires forall k :: 0 <= k < |r| && k != p ==> r[k] == s[Unskip(p, k)]
    requires forall k :: 0 <= k < p ==> key[s[k]] <= key[v]
    requires p < |s| ==> key[v] < key[s[p]]
    ensures Keyed(r, key) && Ordered(r, key) && NoDup(r)
  {
  }

  lemma CandDeleteElems(s: seq<Addr>, v: Addr)
    requires v in s && NoDup(s)
    ensures forall x :: x in CandDelete(s, v) <==> x in s && x != v
  {
    var i := IndexOf(s, v);
    assert s == s[..i] + [v] + s[i + 1..];
  }

  lemma CandDeleteOrdered(s: seq<Addr>, v: Addr, key: map<Addr, nat>)
    requires Keyed(s, key) && v in s && Ordered(s, key) && NoDup(s)
    ensures forall x :: x in CandDelete(s, v) <==> x in s && x != v
    ensures Ordered(CandDelete(s, v), key) && NoDup(CandDelete(s, v))
  {
    CandDeleteElems(s, v);
    var i, r := IndexOf(s, v), CandDelete(s, v);
    assert forall k :: 0 <= k < |r| ==> r[k] == s[Skip(i, k)];
    hide *;
    SubsequenceOrdered(s, r, i, key);
  }

  function Unskip(i: nat, k: int): int {
    if k < i then k else k - 1
  }

  function Skip(i: nat, k: nat): nat {
    if k < i then k else k + 1
  }

  lemma SubsequenceOrdered(s: seq<Addr>, r: seq<Addr>, i: nat, key: map<Addr, nat>)
    requires Keyed(s, key) && Ordered(s, key) && NoDup(s) && |r| == |s| - 1
    requires forall k :: 0 <= k < |r| ==> r[k] == s[Skip(i, k)]
    ensures Keyed(r, key) && Ordered(r, key) && NoDup(r)
  {
  }

  lemma StaysOrdered(s: seq<Addr>, key: map<Addr, nat>, v: Addr, c: nat)
    requires Keyed(s, key) && Ordered(s, key) && v !in s
    ensures Ordered(s, key[v := c])
  {
  }

  /** Take `v` off the tree if it is on it, give it key `c`, insert it again. */
  function Rekey(s: seq<Addr>, v: Addr, key: map<Addr, nat>, c: nat): seq<Addr>
    requires Keyed(s, key)
  {
    var t := if v in s then CandDelete(s, v) else s;
    CandInsert(t, v, key[v := c])
  }

  lemma RekeyOrdered(s: seq<Addr>, v: Addr, key: map<Addr, nat>, c: nat)
    requires Keyed(s, key) && Ordered(s, key) && NoDup(s)
    ensures var r := Rekey(s, v, key, c);
            && Keyed(r, key[v := c]) && Ordered(r, key[v := c]) && NoDup(r)
            && forall x :: x in r <==> x in s || x == v
  {
    var t := s;
    if v in s {
      CandDeleteOrdered(s, v, key);
      t := CandDelete(s, v);
    }
    assert v !in t && Ordered(t, key) && NoDup(t);
    assert Keyed(t, key[v := c]) && Ordered(t, key[v := c]);
    CandInsertOrdered(t, v, key[v := c]);
  }

  /* ---------- the state of a run and its invariant ---------- */

  /** The fields an SPF run changes, and for each reached node a walk that has its cost. */
  datatype State = State(
    pathCost: map<Addr, nat>,
    nextHop: map<Addr, Option<Link>>,
    hops: map<Addr, nat>,               // uint8_t
    candTree: seq<Addr>,
    pathList: seq<Addr>,
    walks: map<Addr, seq<Edge>>)
  {
    ghost predicate Reached(v: Addr) {
      v in candTree || v in pathList
    }
  }

  /** Trees and fields agree; in particular the keys of the candidate tree are in order. */
  ghost predicate Shape(g: Graph, s: State) {
    && s.pathCost.Keys == g.Keys && s.nextHop.Keys == g.Keys && s.hops.Keys == g.Keys
    && Keyed(s.candTree, s.pathCost) && Ordered(s.candTree, s.pathCost) && NoDup(s.candTree)
    && Keyed(s.pathList, s.pathCost) && Ordered(s.pathList, s.pathCost) && NoDup(s.pathList)
    && (forall v :: v in s.pathList ==> v !in s.candTree)
    && (forall v :: v in g ==> s.pathCost[v] <= ROUTE_COST_BROKEN)
    && (forall v :: v in g ==> (s.Reached(v) <==> s.pathCost[v] < ROUTE_COST_BROKEN))
    && (forall v, x :: v in s.pathList && x in s.candTree ==> s.pathCost[v] <= s.pathCost[x])
  }

  /** Every finite cost belongs to a walk of at most `limit` edges, whose length is `hops`. */
  ghost predicate Witnessed(g: Graph, root: Addr, s: State, limit: nat) {
    forall v :: s.Reached(v) ==> WitnessedAt(g, root, s, v, limit)
  }

  ghost predicate WitnessedAt(g: Graph, root: Addr, s: State, v: Addr, limit: nat) {
    && v in s.walks && v in s.pathCost && v in s.hops
    && WalkTo(g, root, s.walks[v], v)
    && Cost(s.walks[v]) == s.pathCost[v]
    && |s.walks[v]| <= limit
    && s.hops[v] == |s.walks[v]| % U8
  }

  predicate Usable(e: Edge) {
    e.hasInverse && e.cost != LINK_COST_BROKEN
  }

  /** The first `k` edges of `u` offer no cheaper path. */
  ghost predicate Relaxed(g: Graph, s: State, u: Addr, k: nat) {
    && u in g && k <= |g[u]| && u in s.pathCost
    && forall i :: 0 <= i < k && Usable(g[u][i]) ==>
         && g[u][i].dest in s.pathCost && s.pathCost[g[u][i].dest] < ROUTE_COST_BROKEN
         && s.pathCost[g[u][i].dest] <= s.pathCost[u] + g[u][i].cost
  }

  ghost predicate Closed(g: Graph, s: State) {
    forall u :: u in s.pathList ==> u in g && Relaxed(g, s, u, |g[u]|)
  }

  /** Every usable edge of ours leads to a neighbour with a seeded next hop. */
  ghost predicate Seeded(g: Graph, root: Addr, seed: map<Addr, Link>) {
    && root in g && root !in seed
    && forall e :: e in g[root] && Usable(e) && e.dest != root ==> e.dest in seed
  }

  function SeedOf(seed: map<Addr, Link>, v: Addr): Option<Link> {
    if v in seed then Some(seed[v]) else None
  }

  /** A walk of `v` whose first hop is seeded gives `v` that link; one edge from us gives `v` its own seed. */
  ghost predicate HopAt(root: Addr, seed: map<Addr, Link>, s: State, v: Addr) {
    && v in s.walks && v in s.nextHop && s.walks[v] != [] && s.walks[v][0].dest != root
    && (s.walks[v][0].dest in seed ==> s.nextHop[v] == Some(seed[s.walks[v][0].dest]))
    && (|s.walks[v]| == 1 ==> s.nextHop[v] == SeedOf(seed, v))
  }

  /** Next hops come from seeds, and a seeded node never loses its own for nothing. */
  ghost predicate HopsFromSeeds(seed: map<Addr, Link>, s: State) {
    forall v :: v in s.nextHop ==>
      (v in seed ==> s.nextHop[v].Some?) && (s.nextHop[v].Some? ==> s.nextHop[v].value in seed.Values)
  }

  ghost predicate FirstHops(root: Addr, seed: map<Addr, Link>, s: State) {
    && root in s.nextHop && s.nextHop[root] == None
    && (root !in s.pathList ==>
          && (forall v :: v in s.nextHop ==> s.nextHop[v] == SeedOf(seed, v))
          && (forall v :: s.Reached(v) && v != root ==> v in s.walks && |s.walks[v]| == 1))
    && HopsFromSeeds(seed, s)
    && forall v :: s.Reached(v) && v != root ==> HopAt(root, seed, s, v)
  }

  /** The far node of each of our usable edges costs less than the edge, or is reached by one edge. */
  ghost predicate Direct(g: Graph, root: Addr, s: State) {
    root in g && forall e :: e in g[root] && Usable(e) && e.dest != root ==>
      && e.dest in s.pathCost && s.pathCost[e.dest] <= e.cost
      && (s.pathCost[e.dest] < e.cost || (e.dest in s.walks && |s.walks[e.dest]| == 1))
  }

  ghost predicate Hops(g: Graph, root: Addr, seed: map<Addr, Link>, s: State) {
    FirstHops(root, seed, s) && (root in s.pathList ==> Direct(g, root, s))
  }

  ghost predicate RootFixed(root: Addr, s: State) {
    s.Reached(root) && root in s.pathCost && s.pathCost[root] == 0 && root in s.walks && s.walks[root] == []
  }

  ghost predicate Cheapest(s: State, tc: Addr) {
    && tc in s.candTree && Keyed(s.candTree, s.pathCost)
    && forall x :: x in s.candTree ==> s.pathCost[tc] <= s.pathCost[x]
  }

  /** What holds while `tc`, a cheapest candidate, is being relaxed. */
  ghost predicate Relaxing(g: Graph, root: Addr, seed: map<Addr, Link>, s: State, tc: Addr) {
    && Shape(g, s) && Witnessed(g, root, s, |s.pathList| + 1) && Closed(g, s)
    && RootFixed(root, s) && Cheapest(s, tc)
    && tc in g && tc in s.walks && |s.walks[tc]| <= |s.pathList|
    && (root !in s.pathList ==> tc == root)
    && (root !in seed ==> Hops(g, root, seed, s))
  }

  /** What holds before and after each pass of the main loop. */
  ghost predicate Inv(g: Graph, root: Addr, seed: map<Addr, Link>, s: State) {
    && Shape(g, s) && Witnessed(g, root, s, |s.pathList|) && Closed(g, s)
    && RootFixed(root, s)
    && (root !in s.pathList ==> s.candTree == [root])
    && (root !in seed ==> Hops(g, root, seed, s))
  }

  /** A cheaper path to `v` over edge `e` of `tc`: re-key `v`, pull up the hop data. */
  ghost function Improved(s: State, tc: Addr, e: Edge, newCost: nat): State
    requires tc in s.walks && tc in s.hops && tc in s.nextHop && Keyed(s.candTree, s.pathCost)
  {
    var v := e.dest;
    s.(candTree := Rekey(s.candTree, v, s.pathCost, newCost),
       pathCost := s.pathCost[v := newCost],
       nextHop := if s.nextHop[tc].Some? then s.nextHop[v := s.nextHop[tc]] else s.nextHop,
       hops := s.hops[v := (s.hops[tc] + 1) % U8],
       walks := s.walks[v := s.walks[tc] + [e]])
  }

  lemma ImprovedShape(g: Graph, s: State, tc: Addr, e: Edge, newCost: nat)
    requires Shape(g, s) && Cheapest(s, tc) && tc in s.walks && tc in g && e.dest in g
    requires s.pathCost[tc] <= newCost < s.pathCost[e.dest]
    ensures e.dest !in s.pathList
    ensures Shape(g, Improved(s, tc, e, newCost)) && Cheapest(Improved(s, tc, e, newCost), tc)
    ensures forall x :: Improved(s, tc, e, newCost).Reached(x) <==> s.Reached(x) || x == e.dest
  {
    hide Rekey, Ordered, NoDup;
    RekeyOrdered(s.candTree, e.dest, s.pathCost, newCost);
    assert e.dest !in s.pathList;
    StaysOrdered(s.pathList, s.pathCost, e.dest, newCost);
  }

  lemma ImprovedWitnessed(g: Graph, root: Addr, s: State, tc: Addr, e: Edge, newCost: nat, limit: nat)
    requires InverseExact(g) && Witnessed(g, root, s, limit) && Keyed(s.candTree, s.pathCost)
    requires s.Reached(tc) && tc in g && tc in s.nextHop && |s.walks[tc]| < limit
    requires e in g[tc] && Usable(e) && newCost == s.pathCost[tc] + e.cost
    requires forall x :: Improved(s, tc, e, newCost).Reached(x) ==> s.Reached(x) || x == e.dest
    ensures Witnessed(g, root, Improved(s, tc, e, newCost), limit)
  {
    hide IsWalk, Rekey, Cost, End;
    assert WitnessedAt(g, root, s, tc, limit);
    WalkSnoc(g, root, s.walks[tc], e);
    var t := Improved(s, tc, e, newCost);
    forall v | t.Reached(v) ensures WitnessedAt(g, root, t, v, limit) {
      if v != e.dest {
        assert WitnessedAt(g, root, s, v, limit);
      }
    }
  }

  lemma ImprovedRelaxed(g: Graph, s: State, tc: Addr, e: Edge, newCost: nat, u: Addr, k: nat)
    requires tc in s.walks && tc in s.hops && tc in s.nextHop && Keyed(s.candTree, s.pathCost)
    requires Relaxed(g, s, u, k) && u != e.dest
    requires e.dest in s.pathCost && newCost < s.pathCost[e.dest]
    ensures Relaxed(g, Improved(s, tc, e, newCost), u, k)
  {
  }

  lemma ImprovedFirstHops(g: Graph, root: Addr, seed: map<Addr, Link>, s: State, tc: Addr, e: Edge, newCost: nat)
    requires FirstHops(root, seed, s) && root !in seed && Keyed(s.candTree, s.pathCost)
    requires s.nextHop.Keys == g.Keys && tc in s.hops
    requires s.Reached(tc) && tc in g && tc in s.walks && (tc == root ==> s.walks[root] == [])
    requires root !in s.pathList <==> tc == root
    requires e.dest != root && e.dest in g
    requires forall x :: Improved(s, tc, e, newCost).Reached(x) ==> s.Reached(x) || x == e.dest
    ensures FirstHops(root, seed, Improved(s, tc, e, newCost))
  {
    hide Rekey;
    var t := Improved(s, tc, e, newCost);
    assert tc != root ==> HopAt(root, seed, s, tc);
    forall v | t.Reached(v) && v != root ensures HopAt(root, seed, t, v) {
      assert v != e.dest ==> HopAt(root, seed, s, v);
    }
  }

  lemma ImprovedDirect(g: Graph, root: Addr, s: State, tc: Addr, e: Edge, newCost: nat)
    requires Direct(g, root, s) && tc in s.walks && tc in s.hops && tc in s.nextHop && Keyed(s.candTree, s.pathCost)
    requires e.dest in s.pathCost && newCost < s.pathCost[e.dest]
    ensures Direct(g, root, Improved(s, tc, e, newCost))
  {
    hide Rekey;
  }

  lemma ImprovedHops(g: Graph, root: Addr, seed: map<Addr, Link>, s: State, tc: Addr, e: Edge, newCost: nat)
    requires Hops(g, root, seed, s) && root !in seed && Shape(g, s) && Cheapest(s, tc) && RootFixed(root, s)
    requires tc in g && tc in s.walks && (root !in s.pathList ==> tc == root)
    requires e.dest in g && newCost < s.pathCost[e.dest]
    requires forall x :: Improved(s, tc, e, newCost).Reached(x) ==> s.Reached(x) || x == e.dest
    ensures Hops(g, root, seed, Improved(s, tc, e, newCost))
  {
    hide FirstHops, Direct, Improved, Ordered, NoDup;
    ImprovedFirstHops(g, root, seed, s, tc, e, newCost);
    if root in s.pathList {
      ImprovedDirect(g, root, s, tc, e, newCost);
    }
    assert Improved(s, tc, e, newCost).pathList == s.pathList by { ImprovedList(s, tc, e, newCost); }
  }

  lemma ImprovedList(s: State, tc: Addr, e: Edge, newCost: nat)
    requires tc in s.walks && tc in s.hops && tc in s.nextHop && Keyed(s.candTree, s.pathCost)
    ensures Improved(s, tc, e, newCost).pathList == s.pathList
  {
  }

  lemma ImprovedRelaxing(g: Graph, root: Addr, seed: map<Addr, Link>, s: State, tc: Addr, e: Edge, newCost: nat)
    requires InverseExact(g) && Relaxing(g, root, seed, s, tc)
    requires e in g[tc] && Usable(e)
    requires newCost == s.pathCost[tc] + e.cost < s.pathCost[e.dest]
    ensures Relaxing(g, root, seed, Improved(s, tc, e, newCost), tc)
    ensures e.dest != tc && e.dest !in s.pathList
  {
    hide IsWalk, Ordered, NoDup, Hops, Rekey, Relaxed, Cost, End, WitnessedAt;
    ImprovedShape(g, s, tc, e, newCost);
    ImprovedWitnessed(g, root, s, tc, e, newCost, |s.pathList| + 1);
    forall u | u in s.pathList ensures Relaxed(g, Improved(s, tc, e, newCost), u, |g[u]|) {
      ImprovedRelaxed(g, s, tc, e, newCost, u, |g[u]|);
    }
    if root !in seed {
      ImprovedHops(g, root, seed, s, tc, e, newCost);
    }
  }

  /** Moving a cheapest candidate to the path list. */
  ghost function Moved(s: State, tc: Addr): State
    requires tc in s.candTree
  {
    s.(candTree := CandDelete(s.candTree, tc), pathList := s.pathList + [tc])
  }

  lemma MovedShape(g: Graph, s: State, tc: Addr)
    requires Shape(g, s) && Cheapest(s, tc)
    ensures Shape(g, Moved(s, tc))
    ensures forall v :: Moved(s, tc).Reached(v) <==> s.Reached(v)
  {
    hide CandDelete;
    CandDeleteOrdered(s.candTree, tc, s.pathCost);
    var l := s.pathList + [tc];
    assert Keyed(l, s.pathCost) && Ordered(l, s.pathCost) && NoDup(l);
  }

  /** Once our own edges are explored, each was the cheapest way to its node or was beaten. */
  lemma MovedHops(g: Graph, root: Addr, seed: map<Addr, Link>, s: State, tc: Addr)
    requires Relaxing(g, root, seed, s, tc) && Relaxed(g, s, tc, |g[tc]|) && root !in seed
    ensures Hops(g, root, seed, Moved(s, tc))
  {
    MovedShape(g, s, tc);
    hide Moved, Shape, FirstHops, Direct, Witnessed, Closed, Relaxed;
    MovedFields(s, tc);
    MovedFirstHops(root, seed, s, Moved(s, tc));
    if root in s.pathList {
      MovedDirect(g, root, s, Moved(s, tc));
    } else {
      RootExplored(g, root, seed, s);
      MovedDirect(g, root, s, Moved(s, tc));
    }
  }

  lemma MovedFields(s: State, tc: Addr)
    requires tc in s.candTree
    ensures var t := Moved(s, tc);
            && t.pathCost == s.pathCost && t.nextHop == s.nextHop && t.walks == s.walks && t.pathList == s.pathList + [tc]
  {
  }

  lemma MovedFirstHops(root: Addr, seed: map<Addr, Link>, s: State, t: State)
    requires FirstHops(root, seed, s) && t.nextHop == s.nextHop && t.walks == s.walks && root in t.pathList
    requires forall v :: t.Reached(v) <==> s.Reached(v)
    ensures FirstHops(root, seed, t)
  {
    forall v | t.Reached(v) && v != root ensures HopAt(root, seed, t, v) {
      assert HopAt(root, seed, s, v);
    }
  }

  lemma MovedDirect(g: Graph, root: Addr, s: State, t: State)
    requires Direct(g, root, s) && t.pathCost == s.pathCost && t.walks == s.walks
    ensures Direct(g, root, t)
  {
  }

  lemma RootExplored(g: Graph, root: Addr, seed: map<Addr, Link>, s: State)
    requires Shape(g, s) && FirstHops(root, seed, s) && Relaxed(g, s, root, |g[root]|) && root !in s.pathList
    requires s.pathCost[root] == 0
    ensures Direct(g, root, s)
  {
    forall e | e in g[root] && Usable(e) && e.dest != root
      ensures e.dest in s.pathCost && s.pathCost[e.dest] <= e.cost && e.dest in s.walks && |s.walks[e.dest]| == 1
    {
      var i :| 0 <= i < |g[root]| && g[root][i] == e;
      assert s.Reached(e.dest);
    }
  }

  lemma MovedInv(g: Graph, root: Addr, seed: map<Addr, Link>, s: State, tc: Addr)
    requires Relaxing(g, root, seed, s, tc) && Relaxed(g, s, tc, |g[tc]|)
    ensures Inv(g, root, seed, Moved(s, tc))
  {
    hide IsWalk, CandDelete, Hops, Shape, Ordered, NoDup, Cost, End;
    MovedShape(g, s, tc);
    if root !in seed {
      MovedHops(g, root, seed, s, tc);
    }
    var t := Moved(s, tc);
    forall v | t.Reached(v) ensures WitnessedAt(g, root, t, v, |t.pathList|) {
      assert WitnessedAt(g, root, s, v, |t.pathList|);
    }
    forall u | u in t.pathList ensures u in g && Relaxed(g, t, u, |g[u]|) {
      assert Relaxed(g, s, u, |g[u]|);
    }
  }

  /** A cheapest candidate has room for one more edge before the 32-bit limit. */
  lemma SumFits(g: Graph, root: Addr, seed: map<Addr, Link>, s: State, tc: Addr, e: Edge)
    requires InverseExact(g) && SumsFit(g, root) && Relaxing(g, root, seed, s, tc)
    requires e in g[tc] && Usable(e)
    ensures s.pathCost[tc] + e.cost < ROUTE_COST_BROKEN && e.dest in g
  {
    hide IsWalk, Hops, Closed, Ordered, Cost, End;
    assert WitnessedAt(g, root, s, tc, |s.pathList| + 1);
    WalkSnoc(g, root, s.walks[tc], e);
    var l := s.pathList + [tc];
    assert NoDup(l) && Elems(l) <= g.Keys;
    NoDupFits(l, g.Keys);
  }

  lemma RelaxedZero(g: Graph, s: State, u: Addr)
    requires u in g && u in s.pathCost
    ensures Relaxed(g, s, u, 0)
  {
  }

  lemma RelaxedNext(g: Graph, s: State, u: Addr, i: nat)
    requires Relaxed(g, s, u, i) && i < |g[u]|
    requires var e := g[u][i];
             Usable(e) ==> && e.dest in s.pathCost && s.pathCost[e.dest] < ROUTE_COST_BROKEN
                           && s.pathCost[e.dest] <= s.pathCost[u] + e.cost
    ensures Relaxed(g, s, u, i + 1)
  {
  }

  /** Taking a cheaper path over edge `i` of `tc` keeps the invariant and relaxes that edge. */
  lemma ImprovedNext(g: Graph, root: Addr, seed: map<Addr, Link>, s: State, tc: Addr, i: nat, newCost: nat)
    requires InverseExact(g) && Relaxing(g, root, seed, s, tc) && newCost < ROUTE_COST_BROKEN
    requires Relaxed(g, s, tc, i) && i < |g[tc]| && Usable(g[tc][i]) && g[tc][i].dest in g
    requires newCost == s.pathCost[tc] + g[tc][i].cost < s.pathCost[g[tc][i].dest]
    ensures Relaxing(g, root, seed, Improved(s, tc, g[tc][i], newCost), tc)
    ensures Relaxed(g, Improved(s, tc, g[tc][i], newCost), tc, i + 1)
  {
    hide Relaxing, Relaxed, InverseExact, Rekey, NoDup;
    RelaxingDomains(g, root, seed, s, tc);
    var e := g[tc][i];
    ImprovedRelaxing(g, root, seed, s, tc, e, newCost);
    ImprovedRelaxed(g, s, tc, e, newCost, tc, i);
    RelaxedNext(g, Improved(s, tc, e, newCost), tc, i);
  }

  /** Vertices reset to infinite cost, next hops of neighbours seeded, ourselves on the tree. */
  ghost function Initial(g: Graph, root: Addr, seed: map<Addr, Link>): State {
    State((map v | v in g :: ROUTE_COST_BROKEN)[root := 0], map v | v in g :: SeedOf(seed, v),
          map v | v in g :: 0, [root], [], map[root := []])
  }

  lemma InitialInv(g: Graph, root: Addr, seed: map<Addr, Link>)
    requires root in g
    ensures Inv(g, root, seed, Initial(g, root, seed))
  {
    var s := Initial(g, root, seed);
    assert forall v :: s.Reached(v) <==> v == root;
    assert WitnessedAt(g, root, s, root, 0);
  }

  lemma HeadIsCheapest(g: Graph, root: Addr, seed: map<Addr, Link>, s: State)
    requires Inv(g, root, seed, s) && s.candTree != []
    ensures Relaxing(g, root, seed, s, s.candTree[0])
  {
    var tc := s.candTree[0];
    assert s.Reached(tc);
    assert WitnessedAt(g, root, s, tc, |s.pathList|);
    forall v | s.Reached(v) ensures WitnessedAt(g, root, s, v, |s.pathList| + 1) {
      assert WitnessedAt(g, root, s, v, |s.pathList|);
    }
  }

  lemma PathListFits(g: Graph, root: Addr, seed: map<Addr, Link>, s: State)
    requires Inv(g, root, seed, s)
    ensures |s.pathList| <= |g|
  {
    NoDupFits(s.pathList, g.Keys);
  }

  lemma RelaxingDomains(g: Graph, root: Addr, seed: map<Addr, Link>, s: State, tc: Addr)
    requires Relaxing(g, root, seed, s, tc)
    ensures s.pathCost.Keys == g.Keys == s.nextHop.Keys == s.hops.Keys
    ensures tc in g && tc in s.candTree && tc in s.walks && Keyed(s.candTree, s.pathCost) && NoDup(s.candTree)
    ensures forall v :: v in g && s.pathCost[tc] < s.pathCost[v] ==> v !in s.pathList
    ensures forall v :: v in g && v !in s.pathList ==>
              (v in s.candTree <==> s.pathCost[v] < ROUTE_COST_BROKEN)
  {
  }

  /* ---------- what a finished run means ---------- */

  /** `c` is the least cost of a walk to `v`. */
  ghost predicate LeastCost(g: Graph, root: Addr, v: Addr, c: nat) {
    && (exists w :: WalkTo(g, root, w, v) && Cost(w) == c)
    && (forall w :: WalkTo(g, root, w, v) ==> c <= Cost(w))
  }

  /**
   The path list holds each reachable node once, in order of cost; its cost is the
   least over all walks; the cost of any other node is ROUTE_COST_BROKEN.
   */
  ghost predicate ShortestPaths(g: Graph, root: Addr, cost: map<Addr, nat>, list: seq<Addr>) {
    && cost.Keys == g.Keys && NoDup(list) && Keyed(list, cost) && Ordered(list, cost)
    && (forall v :: v in list ==> LeastCost(g, root, v, cost[v]) && cost[v] < ROUTE_COST_BROKEN)
    && (forall v :: v in g && v !in list ==>
          cost[v] == ROUTE_COST_BROKEN && !exists w :: WalkTo(g, root, w, v))
  }

  /** `w` is a least-cost walk to `v` with the recorded hop count and first hop. */
  ghost predicate RouteVia(g: Graph, root: Addr, seed: map<Addr, Link>, v: Addr, w: seq<Edge>,
                           cost: nat, hops: nat, hop: Option<Link>)
  {
    && WalkTo(g, root, w, v) && Cost(w) == cost && hops == |w| % U8
    && w != [] && w[0].dest in seed && hop == Some(seed[w[0].dest])
  }

  /** One and the same least-cost walk explains a node's cost, hop count and next hop. */
  ghost predicate FirstHopAgreement(g: Graph, root: Addr, seed: map<Addr, Link>, s: State) {
    && s.nextHop.Keys == g.Keys && s.hops.Keys == g.Keys && s.pathCost.Keys == g.Keys
    && root in g && s.nextHop[root] == None
    && forall v :: v in s.pathList && v != root ==>
      && v in g
      && exists w :: RouteVia(g, root, seed, v, w, s.pathCost[v], s.hops[v], s.nextHop[v])
  }

  /** Closure under relaxation bounds every walk, whatever its length. */
  lemma {:induction false} ClosedBoundsWalks(g: Graph, root: Addr, s: State, w: seq<Edge>)
    requires InverseExact(g) && Closed(g, s) && IsWalk(g, root, w)
    requires s.pathCost.Keys == g.Keys && root in s.pathList && s.pathCost[root] == 0
    requires forall v :: v in g && s.pathCost[v] < ROUTE_COST_BROKEN ==> v in s.pathList
    ensures End(root, w) in g
    ensures End(root, w) in s.pathList && s.pathCost[End(root, w)] <= Cost(w)
    decreases |w|
  {
    if w != [] {
      var p, e := w[..|w| - 1], w[|w| - 1];
      ClosedBoundsWalks(g, root, s, p);
      var u := End(root, p);
      assert Relaxed(g, s, u, |g[u]|);
      var i :| 0 <= i < |g[u]| && g[u][i] == e;
    }
  }

  lemma FinishedIsShortest(g: Graph, root: Addr, seed: map<Addr, Link>, s: State)
    requires InverseExact(g) && Inv(g, root, seed, s) && s.candTree == []
    ensures ShortestPaths(g, root, s.pathCost, s.pathList)
  {
    hide IsWalk, Relaxed, InverseExact, Hops, Cost, End;
    forall w, v | WalkTo(g, root, w, v)
      ensures v in s.pathList && s.pathCost[v] <= Cost(w)
    {
      ClosedBoundsWalks(g, root, s, w);
    }
    forall v | v in s.pathList ensures LeastCost(g, root, v, s.pathCost[v]) {
      assert s.Reached(v);
      assert WitnessedAt(g, root, s, v, |s.pathList|);
    }
  }

  /** Every usable edge of ours to a node without a seed is beaten by a cheaper walk to that node. */
  ghost predicate UnseededBeaten(g: Graph, root: Addr, seed: map<Addr, Link>) {
    root in g && forall e :: e in g[root] && Usable(e) && e.dest != root && e.dest !in seed ==> Beaten(g, root, e)
  }

  ghost predicate Beaten(g: Graph, root: Addr, e: Edge) {
    exists w :: WalkTo(g, root, w, e.dest) && Cost(w) < e.cost
  }

  /** Exchanging the beginning of a walk. */
  lemma {:induction false} WalkExchange(g: Graph, root: Addr, p: seq<Edge>, w: seq<Edge>, k: nat)
    requires IsWalk(g, root, w) && IsWalk(g, root, p) && k <= |w| && End(root, w[..k]) == End(root, p)
    ensures WalkTo(g, root, p + w[k..], End(root, w))
    ensures Cost(p + w[k..]) + Cost(w[..k]) == Cost(p) + Cost(w)
    decreases |w|
  {
    var n := |w| - 1;
    if k == |w| {
      assert w[..k] == w && p + w[k..] == p;
    } else {
      WalkUnsnoc(g, root, w);
      hide IsWalk, Cost, End, TwoWay;
      assert w[..n][..k] == w[..k];
      WalkExchange(g, root, p, w[..n], k);
      var q := p + w[..n][k..];
      assert w[k..] == w[..n][k..] + [w[n]];
      Assoc(p, w[..n][k..], [w[n]]);
      WalkSnoc(g, root, q, w[n]);
    }
  }

  lemma WalkUnsnoc(g: Graph, root: Addr, w: seq<Edge>)
    requires IsWalk(g, root, w) && w != []
    ensures var p, e := w[..|w| - 1], w[|w| - 1];
            && WalkTo(g, root, p, End(root, p)) && End(root, p) in g && e in g[End(root, p)] && TwoWay(g, End(root, p), e)
            && e.cost != LINK_COST_BROKEN && Cost(w) == Cost(p) + e.cost && End(root, w) == e.dest
  {
  }

  lemma FirstEdge(g: Graph, root: Addr, w: seq<Edge>)
    requires InverseExact(g) && IsWalk(g, root, w) && w != []
    ensures root in g && w[0] in g[root] && Usable(w[0]) && WalkTo(g, root, [w[0]], w[0].dest) && Cost([w[0]]) == w[0].cost
    ensures Cost(w) >= w[0].cost
    decreases |w|
  {
    if |w| == 1 {
      assert w == [w[0]] && w[..0] == [];
    } else {
      FirstEdge(g, root, w[..|w| - 1]);
    }
  }

  /** If no edge without a seed is the cheapest way to its node, least-cost walks start with seeded nodes. */
  lemma BeatenSeeds(g: Graph, root: Addr, seed: map<Addr, Link>, v: Addr, w: seq<Edge>)
    requires InverseExact(g) && UnseededBeaten(g, root, seed) && WalkTo(g, root, w, v) && w != [] && w[0].dest != root
    requires forall x :: WalkTo(g, root, x, v) ==> Cost(w) <= Cost(x)
    ensures w[0].dest in seed
  {
    FirstEdge(g, root, w);
    if w[0].dest !in seed {
      assert Beaten(g, root, w[0]);
      var p :| WalkTo(g, root, p, w[0].dest) && Cost(p) < w[0].cost;
      assert w[..1] == [w[0]];
      WalkExchange(g, root, p, w, 1);
    }
  }

  /** What next hops a finished run leaves, whatever is seeded. */
  ghost predicate HopsGiven(g: Graph, root: Addr, seed: map<Addr, Link>, s: State) {
    && s.nextHop.Keys == g.Keys && s.hops.Keys == g.Keys && root in g && s.nextHop[root] == None
    && HopsFromSeeds(seed, s)
    && (forall v :: v in s.pathList && v != root ==> HopAt(root, seed, s, v) && WitnessedAt(g, root, s, v, |s.pathList|))
    && (forall e :: e in g[root] && Usable(e) && e.dest != root && e.dest !in seed && !Beaten(g, root, e) ==>
          e.dest in s.pathList && e.dest in s.nextHop && s.nextHop[e.dest] == None)
  }

  /** A node behind an edge without a seed that no walk beats is listed without a next hop. */
  lemma UnbeatenUnrouted(g: Graph, root: Addr, seed: map<Addr, Link>, s: State, e: Edge)
    requires InverseExact(g) && Inv(g, root, seed, s) && s.candTree == [] && root !in seed
    requires e in g[root] && Usable(e) && e.dest != root && e.dest !in seed && !Beaten(g, root, e)
    ensures e.dest in s.pathList && e.dest in s.nextHop && s.nextHop[e.dest] == None
  {
    hide IsWalk, Relaxed, InverseExact, Cost, End, Ordered, NoDup;
    FinishedIsShortest(g, root, seed, s);
    EdgeReaches(g, root, e);
    assert e.dest in s.pathList;
    assert s.Reached(e.dest);
    assert WitnessedAt(g, root, s, e.dest, |s.pathList|);
    assert HopAt(root, seed, s, e.dest);
  }

  lemma EdgeReaches(g: Graph, root: Addr, e: Edge)
    requires InverseExact(g) && root in g && e in g[root] && Usable(e)
    ensures WalkTo(g, root, [e], e.dest) && Cost([e]) == e.cost && e.dest in g
  {
    assert TwoWay(g, root, e);
    assert [e][..|[e]| - 1] == [] && [e][|[e]| - 1] == e;
    assert IsWalk(g, root, []) && End(root, []) == root && Cost([]) == 0;
  }

  lemma FinishedHops(g: Graph, root: Addr, seed: map<Addr, Link>, s: State)
    requires InverseExact(g) && Inv(g, root, seed, s) && s.candTree == [] && root !in seed
    ensures HopsGiven(g, root, seed, s)
  {
    forall e | e in g[root] && Usable(e) && e.dest != root && e.dest !in seed && !Beaten(g, root, e)
      ensures e.dest in s.pathList && e.dest in s.nextHop && s.nextHop[e.dest] == None
    {
      UnbeatenUnrouted(g, root, seed, s, e);
    }
    hide IsWalk, Relaxed, InverseExact, Cost, End, Ordered, NoDup, Beaten, Closed;
    forall v | v in s.pathList && v != root ensures HopAt(root, seed, s, v) && WitnessedAt(g, root, s, v, |s.pathList|) {
      assert s.Reached(v);
    }
  }

  /** All next hops are right if and only if each edge without a seed is beaten. */
  lemma FinishedAgrees(g: Graph, root: Addr, seed: map<Addr, Link>, s: State)
    requires InverseExact(g) && Inv(g, root, seed, s) && s.candTree == [] && root !in seed
    ensures FirstHopAgreement(g, root, seed, s) <==> UnseededBeaten(g, root, seed)
  {
    hide IsWalk, Relaxed, InverseExact, Cost, End, Ordered, NoDup, Closed;
    FinishedHops(g, root, seed, s);
    FinishedIsShortest(g, root, seed, s);
    if UnseededBeaten(g, root, seed) {
      forall v | v in s.pathList && v != root
        ensures v in g && RouteVia(g, root, seed, v, s.walks[v], s.pathCost[v], s.hops[v], s.nextHop[v])
      {
        assert HopAt(root, seed, s, v) && WitnessedAt(g, root, s, v, |s.pathList|);
        assert LeastCost(g, root, v, s.pathCost[v]);
        BeatenSeeds(g, root, seed, v, s.walks[v]);
      }
    }
  }

  /** In particular, if every usable edge of ours is seeded, all next hops are right. */
  lemma SeededAgrees(g: Graph, root: Addr, seed: map<Addr, Link>, s: State)
    requires InverseExact(g) && Inv(g, root, seed, s) && s.candTree == [] && Seeded(g, root, seed)
    ensures FirstHopAgreement(g, root, seed, s)
  {
    hide Inv, InverseExact, FirstHopAgreement, Beaten;
    FinishedAgrees(g, root, seed, s);
  }

  /* ---------- the run ---------- */

  class SpfRun {
    const graph: Graph
    const root: Addr                      // tc_myself
    const seed: map<Addr, Link>           // next hops set on our neighbours before the run
    var pathCost: map<Addr, nat>          // per tc_entry: path_cost
    var nextHop: map<Addr, Option<Link>>
    var hops: map<Addr, nat>
    var candTree: seq<Addr>
    var pathList: seq<Addr>
    var pathCount: nat
    ghost var walks: map<Addr, seq<Edge>>

    ghost function St(): State reads this {
      State(pathCost, nextHop, hops, candTree, pathList, walks)
    }

    ghost predicate Ready() {
      root in graph && InverseExact(graph) && SumsFit(graph, root)
    }

    constructor (g: Graph, r: Addr, s: map<Addr, Link>)
      requires r in g && InverseExact(g) && SumsFit(g, r)
      ensures graph == g && root == r && seed == s && Ready()
      ensures Inv(g, r, s, St()) && pathList == [] && pathCount == 0
    {
      hide Inv, InverseExact, SumsFit;
      graph, root, seed := g, r, s;
      pathCost := (map v | v in g :: ROUTE_COST_BROKEN)[r := 0];
      nextHop := map v | v in g :: SeedOf(s, v);
      hops := map v | v in g :: 0;
      candTree, pathList, pathCount := [r], [], 0;
      walks := map[r := []];
      InitialInv(g, r, s);
    }

    /** The cheaper-path branch of `olsr_spf_relax`. */
    method Improve(tc: Addr, e: Edge, newCost: nat)
      requires Keyed(candTree, pathCost) && NoDup(candTree) && tc in nextHop && tc in hops && tc in walks
      requires e.dest in pathCost && e.dest !in pathList
      requires pathCost[e.dest] < ROUTE_COST_BROKEN <==> e.dest in candTree
      modifies this`pathCost, this`nextHop, this`hops, this`candTree, this`walks
      ensures St() == Improved(old(St()), tc, e, newCost)
    {
      hide CandInsert, CandDelete;
      var v := e.dest;
      ghost var key := pathCost;
      if pathCost[v] < ROUTE_COST_BROKEN {
        CandDeleteElems(candTree, v);
        candTree := CandDelete(candTree, v);
        assert Keyed(candTree, key);
      }
      pathCost := pathCost[v := newCost];
      candTree := CandInsert(candTree, v, pathCost);
      if nextHop[tc].Some? {
        nextHop := nextHop[v := nextHop[tc]];
      }
      hops := hops[v := (hops[tc] + 1) % U8];
      walks := walks[v := walks[tc] + [e]];
    }

    /** `olsr_spf_relax`: explore all edges of the cheapest candidate. */
    method Relax(tc: Addr)
      requires Ready() && Relaxing(graph, root, seed, St(), tc)
      modifies this`pathCost, this`nextHop, this`hops, this`candTree, this`walks
      ensures Relaxing(graph, root, seed, St(), tc)
      ensures Relaxed(graph, St(), tc, |graph[tc]|)
    {
      hide Relaxing, Relaxed, InverseExact, SumsFit, Improved, NoDup;
      RelaxingDomains(graph, root, seed, St(), tc);
      RelaxedZero(graph, St(), tc);
      var edges := graph[tc];
      for i := 0 to |edges|
        invariant Relaxing(graph, root, seed, St(), tc)
        invariant Relaxed(graph, St(), tc, i)
      {
        RelaxingDomains(graph, root, seed, St(), tc);
        var e := edges[i];
        if e.hasInverse && e.cost != LINK_COST_BROKEN {
          SumFits(graph, root, seed, St(), tc, e);
          var newCost := (pathCost[tc] + e.cost) % U32;
          if newCost < pathCost[e.dest] {
            ImprovedNext(graph, root, seed, St(), tc, i, newCost);
            Improve(tc, e, newCost);
            continue;
          }
        }
        RelaxedNext(graph, St(), tc, i);
      }
    }

    /** `olsr_spf_run_full`: repeat until the candidate tree is empty. */
    method RunFull()
      requires Ready() && Inv(graph, root, seed, St()) && pathList == []
      modifies this
      ensures Inv(graph, root, seed, St()) && candTree == [] && pathCount == |pathList|
      ensures ShortestPaths(graph, root, pathCost, pathList)
      ensures root !in seed ==> HopsGiven(graph, root, seed, St())
      ensures root !in seed ==> (FirstHopAgreement(graph, root, seed, St()) <==> UnseededBeaten(graph, root, seed))
    {
      hide Inv, Relaxing, Relaxed, InverseExact, SumsFit, NoDup, UnseededBeaten, ShortestPaths, FirstHopAgreement, HopsGiven;
      pathCount := 0;
      PathListFits(graph, root, seed, St());
      while candTree != []
        invariant Inv(graph, root, seed, St())
        invariant pathCount == |pathList| <= |graph|
        decreases |graph| - |pathList|
      {
        var tc := candTree[0];
        HeadIsCheapest(graph, root, seed, St());
        Relax(tc);
        RelaxingDomains(graph, root, seed, St(), tc);
        MovedInv(graph, root, seed, St(), tc);
        candTree := CandDelete(candTree, tc);
        pathList := pathList + [tc];
        pathCount := pathCount + 1;
        PathListFits(graph, root, seed, St());
      }
      FinishedIsShortest(graph, root, seed, St());
      if root !in seed {
        FinishedHops(graph, root, seed, St());
        FinishedAgrees(graph, root, seed, St());
      }
    }
  }
}
