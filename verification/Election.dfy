/**
 Best-path election and the routing tables of Olsrd/src/routing_table.c and
 Olsrd/src/process_routes.c.
 */
module Election {
  import opened Common
  import opened IpOrder

  datatype NextHop = NextHop(gateway: Addr, iif: int)

  datatype Metric = Metric(cost: nat, hops: nat)

  /** A route to some prefix through its originator; `version` marks the last run that saw it. */
  datatype RtPath = RtPath(originator: Addr, nexthop: NextHop, metric: Metric, version: nat)

  type Paths = map<Addr, RtPath>

  /** Paths are keyed by their originators, whose addresses have one length. */
  ghost predicate Keyed(paths: Paths) {
    && (forall o :: o in paths ==> paths[o].originator == o)
    && (forall o, q :: o in paths && q in paths ==> |o.bytes| == |q.bytes|)
  }

  /** A cost scaled by the NAT threshold. */
  function Scale(cost: nat, thresh: real): int {
    (cost as real * thresh).Floor
  }

  function Etx(p: RtPath, gw: Option<Addr>, thresh: real): int {
    if gw == Some(p.originator) then Scale(p.metric.cost, thresh) else p.metric.cost
  }

  /** `olsr_cmp_rtp`: the first path is better than the second. */
  predicate Better(a: RtPath, b: RtPath, gw: Option<Addr>, thresh: real)
    requires |a.originator.bytes| == |b.originator.bytes|
  {
    var x, y := Etx(a, gw, thresh), Etx(b, gw, thresh);
    if x != y then x < y
    else if a.metric.hops != b.metric.hops then a.metric.hops < b.metric.hops
    else Less(a.originator.bytes, b.originator.bytes)
  }

  lemma BetterTotal(a: RtPath, b: RtPath, gw: Option<Addr>, thresh: real)
    requires |a.originator.bytes| == |b.originator.bytes|
    ensures !(Better(a, b, gw, thresh) && Better(b, a, gw, thresh))
    ensures !Better(a, a, gw, thresh)
    ensures a.originator != b.originator ==> Better(a, b, gw, thresh) || Better(b, a, gw, thresh)
  {
    hide Less, Etx;
    Trichotomy(a.originator.bytes, b.originator.bytes);
    LessIrreflexive(a.originator.bytes);
  }

  lemma BetterTransitive(a: RtPath, b: RtPath, c: RtPath, gw: Option<Addr>, thresh: real)
    requires |a.originator.bytes| == |b.originator.bytes| == |c.originator.bytes|
    requires Better(a, b, gw, thresh) && Better(b, c, gw, thresh)
    ensures Better(a, c, gw, thresh)
  {
    hide Less, Etx;
    if Less(a.originator.bytes, b.originator.bytes) && Less(b.originator.bytes, c.originator.bytes) {
      LessTransitive(a.originator.bytes, b.originator.bytes, c.originator.bytes);
    }
  }

  /** The weight in an election: the cost, scaled and rounded down for the gateway. */
  function Weight(o: Addr, cost: nat, gw: Option<Addr>, thresh: real): int {
    if gw == Some(o) then (cost as real * thresh).Floor else cost
  }

  /** The bytes come first in a dictionary. */
  ghost predicate Precedes(a: Bytes, b: Bytes)
    requires |a| == |b|
  {
    exists k :: 0 <= k < |a| && a[k] < b[k] && forall i :: 0 <= i < k ==> a[i] == b[i]
  }

  /** Lower weight; at equal weights fewer hops; at equal hops the smaller address. */
  ghost predicate Beats(a: RtPath, b: RtPath, gw: Option<Addr>, thresh: real)
    requires |a.originator.bytes| == |b.originator.bytes|
  {
    var x, y := Weight(a.originator, a.metric.cost, gw, thresh), Weight(b.originator, b.metric.cost, gw, thresh);
    || x < y
    || (x == y && a.metric.hops < b.metric.hops)
    || (x == y && a.metric.hops == b.metric.hops && Precedes(a.originator.bytes, b.originator.bytes))
  }

  lemma LessPrecedes(a: Bytes, b: Bytes)
    requires |a| == |b|
    ensures Less(a, b) <==> Precedes(a, b)
  {
    if k :| 0 <= k < |a| && a[k] < b[k] && forall i :: 0 <= i < k ==> a[i] == b[i] {
      LessAt(a, b, k);
    }
    if Less(a, b) {
      var p := FirstDiff(a, b);
      assert a[p] < b[p];
    }
  }

  /** The branches of the comparison mean that. */
  lemma BetterBeats(a: RtPath, b: RtPath, gw: Option<Addr>, thresh: real)
    requires |a.originator.bytes| == |b.originator.bytes|
    ensures Better(a, b, gw, thresh) <==> Beats(a, b, gw, thresh)
  {
    hide Less, Precedes;
    LessPrecedes(a.originator.bytes, b.originator.bytes);
  }

  /** `o` beats every other originator of the route. */
  ghost predicate IsBest(paths: Paths, o: Addr, gw: Option<Addr>, thresh: real)
    requires Keyed(paths)
  {
    o in paths && forall q :: q in paths && q != o ==> Beats(paths[o], paths[q], gw, thresh)
  }

  /** The best path does not depend on the order of the walk. */
  lemma BestUnique(paths: Paths, o: Addr, q: Addr, gw: Option<Addr>, thresh: real)
    requires Keyed(paths) && IsBest(paths, o, gw, thresh) && IsBest(paths, q, gw, thresh)
    ensures o == q
  {
    if o != q {
      hide Better, Beats;
      BetterBeats(paths[o], paths[q], gw, thresh);
      BetterBeats(paths[q], paths[o], gw, thresh);
      BetterTotal(paths[o], paths[q], gw, thresh);
    }
  }

  /** `olsr_rt_best`: walk all originators, in whatever order, keeping the better one. */
  method ElectBest(paths: Paths, gw: Option<Addr>, thresh: real) returns (best: Addr)
    requires Keyed(paths) && paths != map[]
    ensures IsBest(paths, best, gw, thresh)
  {
    hide Better, Beats;
    best :| best in paths;
    var rest := paths.Keys - {best};
    while rest != {}
      invariant best in paths && best !in rest && rest <= paths.Keys
      invariant forall q :: q in paths && q != best && q !in rest ==> Better(paths[best], paths[q], gw, thresh)
      decreases rest
    {
      var o :| o in rest;
      rest := rest - {o};
      BetterTotal(paths[o], paths[best], gw, thresh);
      if Better(paths[o], paths[best], gw, thresh) {
        forall q | q in paths && q != best && q != o && q !in rest ensures Better(paths[o], paths[q], gw, thresh) {
          BetterTransitive(paths[o], paths[best], paths[q], gw, thresh);
        }
        best := o;
      }
    }
    forall q | q in paths && q != best ensures Beats(paths[best], paths[q], gw, thresh) {
      BetterBeats(paths[best], paths[q], gw, thresh);
    }
  }

  /** A route leaves its present gateway only for one that costs no more than the scaled cost. */
  lemma GatewayHysteresis(paths: Paths, best: Addr, g: Addr, thresh: real)
    requires Keyed(paths) && IsBest(paths, best, Some(g), thresh) && g in paths && best != g
    ensures paths[best].metric.cost <= Scale(paths[g].metric.cost, thresh)
  {
    hide Precedes;
    assert Beats(paths[best], paths[g], Some(g), thresh);
  }

  /** A gateway is kept while every other path costs more than the scaled cost. */
  lemma GatewayKept(paths: Paths, best: Addr, g: Addr, thresh: real)
    requires Keyed(paths) && IsBest(paths, best, Some(g), thresh) && g in paths
    requires forall q :: q in paths && q != g ==> paths[q].metric.cost > Scale(paths[g].metric.cost, thresh)
    ensures best == g
  {
    if best != g {
      GatewayHysteresis(paths, best, g, thresh);
    }
  }

  /** A threshold of at most one never makes the gateway look worse. */
  lemma ScaleShrinks(cost: nat, thresh: real)
    requires 0.0 <= thresh <= 1.0
    ensures 0 <= Scale(cost, thresh) <= cost
  {
    var c := cost as real;
    assert 0.0 <= c * thresh <= c * 1.0;
  }
}
