/**
 Our own edges and the next hops of our neighbours, set before each
 shortest-path run (Olsrd/src/olsr_spf.c), and their removal with a link
 (Olsrd/src/link_set.c).
 */
module Seeding {
  import opened Common
  import Spf

  /** The best link to a neighbour. */
  datatype BestLink = BestLink(link: Link, lost: bool, cost: nat)

  /** An entry of the neighbour table, under the neighbour's main address. */
  datatype Nbr = Nbr(sym: bool, best: Option<BestLink>, linkcount: int)

  /** The neighbour keeps an edge. */
  predicate Serves(n: Nbr) {
    n.sym && n.best.Some? && !n.best.value.lost
  }

  /** What the run is given: costs of our edges, and the link of every neighbour that has one. */
  ghost predicate Prepared(edges0: map<Addr, nat>, edges: map<Addr, nat>, seed: map<Addr, Link>,
                           nbrs: map<Addr, Nbr>, back: set<Addr>, done: set<Addr>)
  {
    && (forall d :: d !in done ==> (d in edges <==> d in edges0) && (d in edges0 ==> edges[d] == edges0[d]) && d !in seed)
    && (forall d :: d in done && d in nbrs && !Serves(nbrs[d]) ==> d !in edges && d !in seed)
    && (forall d :: d in done && d in nbrs && Serves(nbrs[d]) ==>
          && d in edges && edges[d] == (if d in edges0 then nbrs[d].best.value.cost else LINK_COST_BROKEN)
          && (d in seed <==> d in back) && (d in back ==> seed[d] == nbrs[d].best.value.link))
  }

  /** `g` shows our edges; an edge has an inverse exactly if the far node stores one back to us. */
  ghost predicate ShowsOwn(g: Spf.Graph, root: Addr, edges: map<Addr, nat>, back: set<Addr>) {
    && root in g
    && (forall e :: e in g[root] ==> e.dest in edges && e == Spf.Edge(e.dest, edges[e.dest], e.dest in back))
    && (forall d :: d in edges ==> Spf.Edge(d, edges[d], d in back) in g[root])
  }

  /** Our edge to a neighbour has the cost of its link exactly if it was there before; a new one is not used in its first run. */
  lemma OwnCostExactly(edges0: map<Addr, nat>, edges: map<Addr, nat>, seed: map<Addr, Link>, nbrs: map<Addr, Nbr>,
                       back: set<Addr>, g: Spf.Graph, root: Addr, d: Addr)
    requires Prepared(edges0, edges, seed, nbrs, back, nbrs.Keys) && ShowsOwn(g, root, edges, back)
    requires d in nbrs && Serves(nbrs[d])
    ensures d in edges &&
            (edges[d] == nbrs[d].best.value.cost <==> d in edges0 || nbrs[d].best.value.cost == LINK_COST_BROKEN)
    ensures d !in edges0 ==> forall e :: e in g[root] && e.dest == d ==> !Spf.Usable(e)
  {
  }

  /** An own edge that the run would use although its far node is no neighbour any more. */
  ghost predicate Orphan(edges0: map<Addr, nat>, nbrs: map<Addr, Nbr>, back: set<Addr>, root: Addr, d: Addr) {
    d in edges0 && d !in nbrs && d in back && d != root && edges0[d] != LINK_COST_BROKEN
  }

  /** Every usable edge of ours leads to a seeded node if and only if there is no orphan. */
  lemma SeededExactly(edges0: map<Addr, nat>, edges: map<Addr, nat>, seed: map<Addr, Link>, nbrs: map<Addr, Nbr>,
                      back: set<Addr>, g: Spf.Graph, root: Addr)
    requires Prepared(edges0, edges, seed, nbrs, back, nbrs.Keys) && ShowsOwn(g, root, edges, back) && root !in nbrs
    ensures Spf.Seeded(g, root, seed) <==> !exists d :: Orphan(edges0, nbrs, back, root, d)
  {
    if d :| Orphan(edges0, nbrs, back, root, d) {
      var e := Spf.Edge(d, edges[d], d in back);
      assert e in g[root] && Spf.Usable(e);
    }
    if !exists d :: Orphan(edges0, nbrs, back, root, d) {
      forall e | e in g[root] && Spf.Usable(e) && e.dest != root ensures e.dest in seed {
        assert !Orphan(edges0, nbrs, back, root, e.dest);
      }
    }
  }

  /** A cheaper walk leads to each orphan. */
  ghost predicate OrphansBeaten(edges0: map<Addr, nat>, nbrs: map<Addr, Nbr>, back: set<Addr>, g: Spf.Graph, root: Addr) {
    forall d :: Orphan(edges0, nbrs, back, root, d) ==> Spf.Beaten(g, root, Spf.Edge(d, edges0[d], true))
  }

  /** The orphans are our usable edges to nodes without a seed. */
  lemma OrphansAreUnseeded(edges0: map<Addr, nat>, edges: map<Addr, nat>, seed: map<Addr, Link>, nbrs: map<Addr, Nbr>,
                           back: set<Addr>, g: Spf.Graph, root: Addr)
    requires Prepared(edges0, edges, seed, nbrs, back, nbrs.Keys) && ShowsOwn(g, root, edges, back) && root !in nbrs
    ensures root !in seed
    ensures forall d :: Orphan(edges0, nbrs, back, root, d) ==> Spf.Edge(d, edges0[d], true) in g[root] && d !in seed
    ensures Spf.UnseededBeaten(g, root, seed) <==> OrphansBeaten(edges0, nbrs, back, g, root)
  {
    hide Spf.Beaten;
    forall d | Orphan(edges0, nbrs, back, root, d) ensures Spf.Edge(d, edges0[d], true) in g[root] && d !in seed {
      assert Spf.Edge(d, edges[d], d in back) in g[root];
    }
    forall e | e in g[root] && Spf.Usable(e) && e.dest != root && e.dest !in seed
      ensures Orphan(edges0, nbrs, back, root, e.dest) && e == Spf.Edge(e.dest, edges0[e.dest], true)
    {
    }
  }

  /** All next hops of a run are right if and only if a cheaper walk leads to each orphan; otherwise that node has none. */
  lemma NextHopsExactly(edges0: map<Addr, nat>, edges: map<Addr, nat>, seed: map<Addr, Link>, nbrs: map<Addr, Nbr>,
                        back: set<Addr>, g: Spf.Graph, root: Addr, s: Spf.State)
    requires Prepared(edges0, edges, seed, nbrs, back, nbrs.Keys) && ShowsOwn(g, root, edges, back) && root !in nbrs
    requires Spf.InverseExact(g) && Spf.Inv(g, root, seed, s) && s.candTree == []
    ensures Spf.FirstHopAgreement(g, root, seed, s) <==> OrphansBeaten(edges0, nbrs, back, g, root)
    ensures forall d :: Orphan(edges0, nbrs, back, root, d) && !Spf.Beaten(g, root, Spf.Edge(d, edges0[d], true)) ==>
              d in s.pathList && d in s.nextHop && s.nextHop[d] == None
  {
    hide Spf.Inv, Spf.InverseExact, Spf.FirstHopAgreement, Spf.Beaten, Spf.HopsFromSeeds, Spf.HopAt, Spf.WitnessedAt,
         Spf.UnseededBeaten, OrphansBeaten, Prepared;
    OrphansAreUnseeded(edges0, edges, seed, nbrs, back, g, root);
    Spf.FinishedAgrees(g, root, seed, s);
    Spf.FinishedHops(g, root, seed, s);
  }

  /** Our edges after the neighbour loop. */
  ghost function OwnAfter(edges0: map<Addr, nat>, nbrs: map<Addr, Nbr>): map<Addr, nat> {
    map d | d in edges0.Keys + nbrs.Keys && (d in nbrs ==> Serves(nbrs[d])) ::
      if d !in nbrs then edges0[d] else if d in edges0 then nbrs[d].best.value.cost else LINK_COST_BROKEN
  }

  /** The next hops it seeds. */
  ghost function SeedAfter(nbrs: map<Addr, Nbr>, back: set<Addr>): map<Addr, Link> {
    map d | d in nbrs && Serves(nbrs[d]) && d in back :: nbrs[d].best.value.link
  }

  lemma PreparedIs(edges0: map<Addr, nat>, edges: map<Addr, nat>, seed: map<Addr, Link>, nbrs: map<Addr, Nbr>, back: set<Addr>)
    requires Prepared(edges0, edges, seed, nbrs, back, nbrs.Keys)
    ensures edges == OwnAfter(edges0, nbrs) && seed == SeedAfter(nbrs, back)
  {
  }

  /** The tables behind the seeding: own edges with their costs, and the neighbour table. */
  class OwnEdges {
    var edges: map<Addr, nat>
    var nbrs: map<Addr, Nbr>

    constructor ()
      ensures edges == map[] && nbrs == map[]
    {
      edges, nbrs := map[], map[];
    }

    /** The neighbour loop of `olsr_calculate_routing_table`; `back` are the nodes with an edge to us. */
    method Seed(back: set<Addr>) returns (seed: map<Addr, Link>)
      modifies `edges
      ensures Prepared(old(edges), edges, seed, nbrs, back, nbrs.Keys)
      ensures forall d :: d in nbrs ==>
                && (d in edges <==> nbrs[d].sym && nbrs[d].best.Some? && !nbrs[d].best.value.lost)
                && (d in seed <==> d in edges && d in back)
                && (d in seed ==> seed[d] == nbrs[d].best.value.link)
                && (d in edges && d in old(edges) ==> edges[d] == nbrs[d].best.value.cost)
      ensures forall d :: d !in nbrs ==>
                d !in seed && (d in edges <==> d in old(edges)) && (d in edges ==> edges[d] == old(edges)[d])
    {
      ghost var edges0 := edges;
      seed := map[];
      var rest := nbrs.Keys;
      while rest != {}
        invariant rest <= nbrs.Keys
        invariant Prepared(edges0, edges, seed, nbrs, back, nbrs.Keys - rest)
        decreases rest
      {
        var n :| n in rest;
        rest := rest - {n};
        if !nbrs[n].sym {
          edges := edges - {n};
        } else if nbrs[n].best.None? || nbrs[n].best.value.lost {
          edges := edges - {n};
        } else {
          var l := nbrs[n].best.value;
          if n !in edges {
            edges := edges[n := LINK_COST_BROKEN];
          } else {
            edges := edges[n := l.cost];
          }
          if n in back {
            seed := seed[n := l.link];
          }
        }
      }
      assert nbrs.Keys - rest == nbrs.Keys;
    }

    /** Every own edge leads to an entry of the neighbour table. */
    ghost predicate Anchored()
      reads this
    {
      forall d :: d in edges ==> d in nbrs
    }

    /** `olsr_delete_link_entry` for a link to the interface `iface` of the neighbour `main`. */
    method DeleteLink(iface: Addr, main: Addr)
      requires main in nbrs
      modifies this
      ensures edges == old(edges) - {iface}
      ensures nbrs.Keys == if old(nbrs)[main].linkcount == 1 then old(nbrs.Keys) - {main} else old(nbrs.Keys)
      ensures forall a :: a in nbrs && a != main ==> nbrs[a] == old(nbrs)[a]
      ensures main in nbrs ==> nbrs[main] == old(nbrs)[main].(linkcount := old(nbrs)[main].linkcount - 1)
      ensures forall d :: d in edges && d !in nbrs <==>
                && d in old(edges) && d != iface
                && (d in old(nbrs) ==> d == main && old(nbrs)[main].linkcount == 1)
      ensures old(Anchored()) ==>
                (Anchored() <==> !(old(nbrs)[main].linkcount == 1 && iface != main && main in old(edges)))
    {
      edges := edges - {iface};
      if nbrs[main].linkcount == 1 {
        nbrs := nbrs - {main};
      } else {
        nbrs := nbrs[main := nbrs[main].(linkcount := nbrs[main].linkcount - 1)];
      }
    }
  }

  /** With all own edges anchored, the precondition of the next hop result holds. */
  lemma AnchoredSeeds(edges0: map<Addr, nat>, edges: map<Addr, nat>, seed: map<Addr, Link>, nbrs: map<Addr, Nbr>,
                      back: set<Addr>, g: Spf.Graph, root: Addr)
    requires forall d :: d in edges0 ==> d in nbrs
    requires Prepared(edges0, edges, seed, nbrs, back, nbrs.Keys) && ShowsOwn(g, root, edges, back) && root !in nbrs
    ensures Spf.Seeded(g, root, seed)
  {
    SeededExactly(edges0, edges, seed, nbrs, back, g, root);
  }

  /* ---- inputs ---- */

  /** Two nodes beside us, with an edge of cost `rb` to `b`, one of cost `rd` to `d`, and 1 between them. */
  function Triangle(r: Addr, b: Addr, d: Addr, rb: nat, rd: nat): Spf.Graph {
    map[r := [Spf.Edge(b, rb, true), Spf.Edge(d, rd, true)],
        b := [Spf.Edge(r, rb, true), Spf.Edge(d, 1, true)],
        d := [Spf.Edge(r, rd, true), Spf.Edge(b, 1, true)]]
  }

  lemma TriangleIs(r: Addr, b: Addr, d: Addr, rb: nat, rd: nat)
    requires r != b && r != d && b != d
    ensures var g := Triangle(r, b, d, rb, rd);
      && r in g && b in g && d in g && (forall u :: u in g ==> u == r || u == b || u == d)
      && g[r] == [Spf.Edge(b, rb, true), Spf.Edge(d, rd, true)]
      && g[b] == [Spf.Edge(r, rb, true), Spf.Edge(d, 1, true)]
      && g[d] == [Spf.Edge(r, rd, true), Spf.Edge(b, 1, true)]
  {
  }

  lemma TriangleExact(r: Addr, b: Addr, d: Addr, rb: nat, rd: nat)
    requires r != b && r != d && b != d
    ensures Spf.InverseExact(Triangle(r, b, d, rb, rd))
  {
    hide Triangle;
    TriangleIs(r, b, d, rb, rd);
    var g: map<Addr, seq<Spf.Edge>> := Triangle(r, b, d, rb, rd);
    forall u, e | u in g && e in g[u] ensures e.hasInverse && Spf.TwoWay(g, u, e) {
      assert g[e.dest][0].dest == u || g[e.dest][1].dest == u;
    }
  }

  /** A walk starts over one of our two edges and costs at least that much. */
  lemma TriangleFirst(r: Addr, b: Addr, d: Addr, rb: nat, rd: nat, w: seq<Spf.Edge>)
    requires r != b && r != d && b != d && Spf.IsWalk(Triangle(r, b, d, rb, rd), r, w) && w != []
    ensures w[0] == Spf.Edge(b, rb, true) || w[0] == Spf.Edge(d, rd, true)
    ensures Spf.Cost(w) >= w[0].cost
  {
    hide Triangle, Spf.IsWalk, Spf.Cost;
    TriangleIs(r, b, d, rb, rd);
    TriangleExact(r, b, d, rb, rd);
    Spf.FirstEdge(Triangle(r, b, d, rb, rd), r, w);
  }

  lemma TwoSteps(r: Addr, b: Addr, d: Addr, rb: nat, rd: nat)
    requires r != b && r != d && b != d && rb != LINK_COST_BROKEN && rd != LINK_COST_BROKEN
    ensures var g := Triangle(r, b, d, rb, rd);
      && Spf.WalkTo(g, r, [Spf.Edge(d, rd, true), Spf.Edge(b, 1, true)], b)
      && Spf.Cost([Spf.Edge(d, rd, true), Spf.Edge(b, 1, true)]) == rd + 1
      && Spf.WalkTo(g, r, [Spf.Edge(b, rb, true), Spf.Edge(d, 1, true)], d)
      && Spf.Cost([Spf.Edge(b, rb, true), Spf.Edge(d, 1, true)]) == rb + 1
  {
    hide Triangle, Spf.IsWalk, Spf.Cost;
    TriangleIs(r, b, d, rb, rd);
    TriangleExact(r, b, d, rb, rd);
    var g: map<Addr, seq<Spf.Edge>> := Triangle(r, b, d, rb, rd);
    assert g[b][1] in g[b] && g[d][1] in g[d] && g[r][0] in g[r] && g[r][1] in g[r];
    Spf.EdgeReaches(g, r, g[r][0]);
    Spf.EdgeReaches(g, r, g[r][1]);
    Spf.WalkSnoc(g, r, [g[r][0]], g[b][1]);
    Spf.WalkSnoc(g, r, [g[r][1]], g[d][1]);
    assert [g[r][0]] + [g[b][1]] == [Spf.Edge(b, rb, true), Spf.Edge(d, 1, true)];
    assert [g[r][1]] + [g[d][1]] == [Spf.Edge(d, rd, true), Spf.Edge(b, 1, true)];
  }

  /**
   An orphan edge of cost 1 to `d`, a neighbour `b` at cost 10: the run lists `d` without
   a next hop, and `b` at cost 2 with its own link, which no walk of cost 2 starts with.
   */
  lemma OrphanMisroutes(r: Addr, b: Addr, d: Addr, link: Link, s: Spf.State)
    requires r != b && r != d && b != d
    requires Spf.Inv(Triangle(r, b, d, 10, 1), r, map[b := link], s) && s.candTree == []
    ensures var g := Triangle(r, b, d, 10, 1);
      && d in s.pathList && d in s.nextHop && s.nextHop[d] == None
      && b in s.pathList && b in s.pathCost && s.pathCost[b] <= 2 && b in s.nextHop && s.nextHop[b] == Some(link)
      && (forall w: seq<Spf.Edge> :: Spf.IsWalk(g, r, w) && w != [] && w[0].dest == b ==> Spf.Cost(w) >= 10)
      && !Spf.FirstHopAgreement(g, r, map[b := link], s)
  {
    hide Triangle, Spf.IsWalk, Spf.WalkTo, Spf.Cost, Spf.Inv, Spf.InverseExact, Spf.ShortestPaths, Spf.HopsGiven,
         Spf.FirstHopAgreement, Spf.Beaten;
    var g: map<Addr, seq<Spf.Edge>>, seed := Triangle(r, b, d, 10, 1), map[b := link];
    TriangleIs(r, b, d, 10, 1);
    TriangleExact(r, b, d, 10, 1);
    assert g[r][1] in g[r];
    OrphanUnbeaten(r, b, d);
    Spf.UnbeatenUnrouted(g, r, seed, s, g[r][1]);
    UnroutedDisagrees(g, r, seed, s, d);
    forall w: seq<Spf.Edge> | Spf.IsWalk(g, r, w) && w != [] && w[0].dest == b ensures Spf.Cost(w) >= 10 {
      TriangleFirst(r, b, d, 10, 1, w);
    }
    TwoSteps(r, b, d, 10, 1);
    Spf.FinishedIsShortest(g, r, seed, s);
    ListedCheaply(g, r, seed, s, b, 2);
    Spf.FinishedHops(g, r, seed, s);
    OnlySeed(g, r, s, b, link);
  }

  lemma UnroutedDisagrees(g: Spf.Graph, r: Addr, seed: map<Addr, Link>, s: Spf.State, d: Addr)
    requires d in s.pathList && d != r && d in s.nextHop && s.nextHop[d] == None
    ensures !Spf.FirstHopAgreement(g, r, seed, s)
  {
    hide Spf.WalkTo, Spf.Cost;
  }

  lemma OnlySeed(g: Spf.Graph, r: Addr, s: Spf.State, b: Addr, link: Link)
    requires Spf.HopsGiven(g, r, map[b := link], s) && b in g
    ensures b in s.nextHop && s.nextHop[b] == Some(link)
  {
    hide Spf.Beaten, Spf.HopAt, Spf.WitnessedAt;
  }

  lemma OrphanUnbeaten(r: Addr, b: Addr, d: Addr)
    requires r != b && r != d && b != d
    ensures !Spf.Beaten(Triangle(r, b, d, 10, 1), r, Spf.Edge(d, 1, true))
  {
    hide Triangle, Spf.IsWalk, Spf.Cost;
    forall w | Spf.WalkTo(Triangle(r, b, d, 10, 1), r, w, d) ensures Spf.Cost(w) >= 1 {
      assert w != [];
      TriangleFirst(r, b, d, 10, 1, w);
    }
  }

  lemma ListedCheaply(g: Spf.Graph, r: Addr, seed: map<Addr, Link>, s: Spf.State, v: Addr, c: nat)
    requires Spf.ShortestPaths(g, r, s.pathCost, s.pathList) && v in g
    requires exists w :: Spf.WalkTo(g, r, w, v) && Spf.Cost(w) == c
    ensures v in s.pathList && v in s.pathCost && s.pathCost[v] <= c
  {
    hide Spf.WalkTo, Spf.Cost;
  }

  /** An orphan edge of cost 10 beside a neighbour at cost 1: not every edge is seeded, yet all next hops are right. */
  lemma OrphanHarmless(r: Addr, b: Addr, d: Addr, link: Link, s: Spf.State)
    requires r != b && r != d && b != d
    requires Spf.Inv(Triangle(r, b, d, 1, 10), r, map[b := link], s) && s.candTree == []
    ensures var g := Triangle(r, b, d, 1, 10);
      !Spf.Seeded(g, r, map[b := link]) && Spf.FirstHopAgreement(g, r, map[b := link], s)
  {
    hide Triangle, Spf.WalkTo, Spf.Cost, Spf.Inv, Spf.InverseExact, Spf.FirstHopAgreement;
    var g: map<Addr, seq<Spf.Edge>>, seed := Triangle(r, b, d, 1, 10), map[b := link];
    TriangleIs(r, b, d, 1, 10);
    TriangleExact(r, b, d, 1, 10);
    TwoSteps(r, b, d, 1, 10);
    assert g[r][1] in g[r] && Spf.Beaten(g, r, g[r][1]);
    Spf.FinishedAgrees(g, r, seed, s);
  }

  lemma TriangleFits(r: Addr, b: Addr, d: Addr, rb: nat, rd: nat)
    requires r != b && r != d && b != d && 1 <= rb <= 1000 && 1 <= rd <= 1000
    ensures r in Triangle(r, b, d, rb, rd) && Spf.SumsFit(Triangle(r, b, d, rb, rd), r)
  {
    TriangleIs(r, b, d, rb, rd);
    assert |Triangle(r, b, d, rb, rd)| == 3;
    hide Triangle, Spf.SumsFit;
    Spf.BoundedCostsFit(Triangle(r, b, d, rb, rd), r, 1000);
  }

  /**
   How the orphan comes about: of two neighbours, `d` loses its only link, which ends at another
   of its interfaces; then the neighbour loop and the run. `d` stays listed without a next hop,
   and `b` gets cost 2 over its own link of cost 10.
   */
  method OrphanRun(r: Addr, b: Addr, d: Addr, iface: Addr, link: Link)
    returns (pathCost: map<Addr, nat>, nextHop: map<Addr, Option<Link>>, pathList: seq<Addr>)
    requires r != b && r != d && b != d && iface != b && iface != d
    ensures d in pathList && d in nextHop && nextHop[d] == None
    ensures b in pathList && b in pathCost && pathCost[b] <= 2 && b in nextHop && nextHop[b] == Some(link)
    ensures forall w: seq<Spf.Edge> ::
              Spf.IsWalk(Triangle(r, b, d, 10, 1), r, w) && w != [] && w[0].dest == b ==> Spf.Cost(w) >= 10
  {
    hide Triangle, Spf.IsWalk, Spf.Cost, Spf.Inv, Spf.InverseExact, Spf.SumsFit, Spf.ShortestPaths, Spf.HopsGiven,
         Spf.FirstHopAgreement, Spf.UnseededBeaten, Prepared;
    var own := new OwnEdges();
    own.edges := map[b := 10, d := 1];
    own.nbrs := map[b := Nbr(true, Some(BestLink(link, false, 10)), 1),
                    d := Nbr(true, Some(BestLink(link, false, 1)), 1)];
    own.DeleteLink(iface, d);
    assert own.edges == map[b := 10, d := 1] && own.nbrs.Keys == {b};
    ghost var edges0 := own.edges;
    var seed := own.Seed({b, d});
    PreparedIs(edges0, own.edges, seed, own.nbrs, {b, d});
    assert own.edges == map[b := 10, d := 1] && seed == map[b := link];
    TriangleExact(r, b, d, 10, 1);
    TriangleFits(r, b, d, 10, 1);
    var spf := new Spf.SpfRun(Triangle(r, b, d, own.edges[b], own.edges[d]), r, seed);
    spf.RunFull();
    OrphanMisroutes(r, b, d, link, spf.St());
    return spf.pathCost, spf.nextHop, spf.pathList;
  }

  /** The same with the costs exchanged: an orphan is there, and the run's next hops are all right. */
  method HarmlessRun(r: Addr, b: Addr, d: Addr, link: Link) returns (spf: Spf.SpfRun)
    requires r != b && r != d && b != d
    ensures spf.graph == Triangle(r, b, d, 1, 10) && spf.root == r && spf.seed == map[b := link]
    ensures spf.candTree == [] && !Spf.Seeded(spf.graph, r, spf.seed)
    ensures Spf.FirstHopAgreement(spf.graph, r, spf.seed, spf.St())
  {
    hide Triangle, Spf.Inv, Spf.InverseExact, Spf.SumsFit, Spf.ShortestPaths, Spf.HopsGiven, Spf.FirstHopAgreement,
         Spf.UnseededBeaten, Spf.Seeded;
    TriangleExact(r, b, d, 1, 10);
    TriangleFits(r, b, d, 1, 10);
    spf := new Spf.SpfRun(Triangle(r, b, d, 1, 10), r, map[b := link]);
    spf.RunFull();
    OrphanHarmless(r, b, d, link, spf.St());
  }
}
