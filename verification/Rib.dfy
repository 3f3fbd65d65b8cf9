/**
 The global routing table and its kernel copy: olsr_spf.c's insertion walk,
 routing_table.c's entries and process_routes.c's update of the kernel.
 */
module Rib {
  import opened Common
  import opened Election
  import TcSet

  type Prefix = TcSet.Prefix

  const RT_METRIC_DEFAULT := 2

  /** A route head: competing paths, the elected one, and what the kernel was last told. */
  datatype RtEntry = RtEntry(paths: Paths, best: Option<Addr>, nexthop: NextHop, metric: Metric)

  datatype KernelRoute = KernelRoute(nexthop: NextHop, metric: nat)

  /** A node of the finished path list with the prefixes it advertises. */
  datatype Reached = Reached(addr: Addr, link: Option<Link>, cost: nat, hops: nat, prefixes: set<Prefix>)

  type Table = map<Prefix, RtEntry>

  function FibMetric(m: Metric, correct: bool): nat {
    if correct then m.hops % U8 else RT_METRIC_DEFAULT
  }

  function RouteOf(b: RtPath, correct: bool): KernelRoute {
    KernelRoute(b.nexthop, FibMetric(b.metric, correct))
  }

  /** The best path differs from what the kernel was told. */
  predicate Differs(b: RtPath, e: RtEntry, correct: bool) {
    b.nexthop != e.nexthop || (correct && b.metric.hops != e.metric.hops)
  }

  /* ---- one kernel update ---- */

  /** What the entry records is what the kernel holds; -1 marks an entry never installed. */
  ghost predicate Recorded(e: RtEntry, route: Option<KernelRoute>, correct: bool) {
    && e.metric.hops < U8
    && route == if e.nexthop.iif > -1 then Some(KernelRoute(e.nexthop, FibMetric(e.metric, correct))) else None
  }

  ghost predicate PathOk(b: RtPath) {
    b.nexthop.iif > -1 && b.metric.hops < U8
  }

  /** The update of one queued route, given which kernel calls succeed. */
  function Apply(e: RtEntry, route: Option<KernelRoute>, b: RtPath, correct: bool,
                 deleteFirst: bool, delOk: bool, addOk: bool): (RtEntry, Option<KernelRoute>) {
    if !Differs(b, e, correct) then (e, route)
    else
      var left := if deleteFirst && e.nexthop.iif > -1 && delOk then None else route;
      if addOk then (e.(nexthop := b.nexthop, metric := b.metric), Some(RouteOf(b, correct))) else (e, left)
  }

  /** The record stays true unless the old route was deleted and the new one then refused. */
  lemma RecordKept(e: RtEntry, route: Option<KernelRoute>, b: RtPath, correct: bool,
                   deleteFirst: bool, delOk: bool, addOk: bool)
    requires Recorded(e, route, correct) && PathOk(b)
    ensures var (e', r') := Apply(e, route, b, correct, deleteFirst, delOk, addOk);
      Recorded(e', r', correct) <==>
      !(Differs(b, e, correct) && deleteFirst && e.nexthop.iif > -1 && delOk && !addOk)
  {
  }

  /** The kernel holds the best route exactly when nothing changed or the addition succeeded. */
  lemma InstalledExactly(e: RtEntry, route: Option<KernelRoute>, b: RtPath, correct: bool,
                         deleteFirst: bool, delOk: bool, addOk: bool)
    requires Recorded(e, route, correct) && PathOk(b)
    ensures Apply(e, route, b, correct, deleteFirst, delOk, addOk).1 == Some(RouteOf(b, correct)) <==>
      !Differs(b, e, correct) || addOk
  {
  }

  /** Once deleted and refused, a route that is elected again is never put back. */
  lemma RefusedRouteLost(e: RtEntry, b: RtPath, b': RtPath, correct: bool)
    requires PathOk(b) && PathOk(b') && e.metric.hops < U8
    requires Differs(b, e, correct) && !Differs(b', e, correct)
    ensures var route := Some(KernelRoute(e.nexthop, FibMetric(e.metric, correct)));
      var (e1, r1) := Apply(e, route, b, correct, true, true, false);
      Recorded(e, route, correct) && Apply(e1, r1, b', correct, true, true, true) == (e, None)
  {
  }

  /* ---- the table ---- */

  function PathAt(t: Table, p: Prefix, o: Addr): Option<RtPath> {
    if p in t && o in t[p].paths then Some(t[p].paths[o]) else None
  }

  function RouteAt(k: map<Prefix, KernelRoute>, p: Prefix): Option<KernelRoute> {
    if p in k then Some(k[p]) else None
  }

  /** Every path is keyed by its originator and carries an interface and an 8-bit hop count. */
  ghost predicate PathsOk(paths: Paths, alen: nat) {
    forall o :: o in paths ==> paths[o].originator == o && |o.bytes| == alen && PathOk(paths[o])
  }

  ghost predicate TableOk(t: Table, alen: nat) {
    forall p :: p in t ==> PathsOk(t[p].paths, alen)
  }

  /** Every path of the table was seen by the run numbered `version`. */
  ghost predicate AllCurrent(t: Table, version: nat) {
    forall p, o :: p in t && o in t[p].paths ==> t[p].paths[o].version == version
  }

  ghost predicate RecordedAt(t: Table, k: map<Prefix, KernelRoute>, p: Prefix, correct: bool) {
    if p in t then Recorded(t[p], RouteAt(k, p), correct) else p !in k
  }

  ghost predicate ReachedOk(reached: seq<Reached>, alen: nat) {
    forall i :: 0 <= i < |reached| ==>
      |reached[i].addr.bytes| == alen &&
      (reached[i].link.Some? ==>
         reached[i].cost < ROUTE_COST_BROKEN && reached[i].hops < U8 && reached[i].link.value.ifIndex > -1)
  }

  /** The node offers a route to the prefix. */
  predicate Offers(r: Reached, p: Prefix, o: Addr, maxplen: nat) {
    r.addr == o && r.link.Some? && p in r.prefixes && p.len <= maxplen
  }

  function Fresh(r: Reached, version: nat): RtPath
    requires r.link.Some?
  {
    RtPath(r.addr, NextHop(r.link.value.gateway, r.link.value.ifIndex), Metric(r.cost, r.hops), version)
  }

  ghost function Offer(r: Reached, p: Prefix, o: Addr, maxplen: nat, version: nat): Option<RtPath> {
    if Offers(r, p, o, maxplen) then Some(Fresh(r, version)) else None
  }

  ghost function OrElse(a: Option<RtPath>, b: Option<RtPath>): Option<RtPath> {
    if a.Some? then a else b
  }

  /** The path a run makes of its path list for one prefix and originator. */
  ghost function Wanted(reached: seq<Reached>, p: Prefix, o: Addr, maxplen: nat, version: nat): Option<RtPath> {
    if reached == [] then None
    else OrElse(Offer(reached[|reached| - 1], p, o, maxplen, version),
                Wanted(reached[..|reached| - 1], p, o, maxplen, version))
  }

  ghost predicate WantedAny(reached: seq<Reached>, p: Prefix, maxplen: nat) {
    exists i :: 0 <= i < |reached| && Offers(reached[i], p, reached[i].addr, maxplen)
  }

  /** With one list entry per node, the wanted path is that of the offering node. */
  lemma {:induction false} WantedExact(reached: seq<Reached>, p: Prefix, o: Addr, maxplen: nat, version: nat, i: nat)
    requires i < |reached| && Offers(reached[i], p, o, maxplen)
    requires forall j, k :: 0 <= j < k < |reached| ==> reached[j].addr != reached[k].addr
    ensures Wanted(reached, p, o, maxplen, version) == Some(Fresh(reached[i], version))
  {
    var n := |reached| - 1;
    if i < n {
      assert !Offers(reached[n], p, o, maxplen);
      assert reached[..n][i] == reached[i];
      WantedExact(reached[..n], p, o, maxplen, version, i);
    }
  }

  /** A path is wanted only if some node offers it, and then carries this run's version. */
  lemma {:induction false} WantedOffered(reached: seq<Reached>, p: Prefix, o: Addr, maxplen: nat, version: nat)
    ensures var w := Wanted(reached, p, o, maxplen, version);
      w.Some? ==> exists i :: 0 <= i < |reached| && Offers(reached[i], p, o, maxplen) && w.value == Fresh(reached[i], version)
  {
    if reached != [] {
      var n := |reached| - 1;
      if !Offers(reached[n], p, o, maxplen) {
        WantedOffered(reached[..n], p, o, maxplen, version);
        var w := Wanted(reached[..n], p, o, maxplen, version);
        if w.Some? {
          var i :| 0 <= i < n && Offers(reached[..n][i], p, o, maxplen) && w.value == Fresh(reached[..n][i], version);
          assert reached[i] == reached[..n][i];
        }
      }
    }
  }

  /* ---- refreshing and electing ---- */

  /** The paths seen by the current run. */
  function Survivors(paths: Paths, version: nat): Paths {
    map o | o in paths && paths[o].version == version :: paths[o]
  }

  /** The originator of the current Internet gateway, if it is a path of this prefix. */
  function GwHere(gw: Option<(Prefix, Addr)>, p: Prefix): Option<Addr> {
    if gw.Some? && gw.value.0 == p then Some(gw.value.1) else None
  }

  /** Old entries keep their heads; new ones are marked as never installed. */
  ghost predicate HeadsKept(t0: Table, t: Table) {
    && (forall p :: p in t0 ==> p in t && t[p] == t0[p].(paths := t[p].paths))
    && (forall p :: p in t && p !in t0 ==> t[p].nexthop.iif == -1 && t[p].metric.hops == 0)
  }

  /** The tables agree except at `p`. */
  ghost predicate SameElsewhere<V(!new)>(t0: map<Prefix, V>, t: map<Prefix, V>, p: Prefix) {
    forall q :: q != p ==> (q in t <==> q in t0) && (q in t0 ==> t[q] == t0[q])
  }

  /** Giving one prefix a well-formed set of paths keeps the table well-formed and the heads in place. */
  lemma EntryPut(t0: Table, p: Prefix, e: RtEntry, alen: nat)
    requires TableOk(t0, alen) && PathsOk(e.paths, alen)
    requires if p in t0 then e == t0[p].(paths := e.paths) else e.nexthop.iif == -1 && e.metric.hops == 0
    ensures TableOk(t0[p := e], alen) && HeadsKept(t0, t0[p := e]) && SameElsewhere(t0, t0[p := e], p)
    ensures forall o :: PathAt(t0[p := e], p, o) == if o in e.paths then Some(e.paths[o]) else None
    ensures forall q, o :: q != p ==> PathAt(t0[p := e], q, o) == PathAt(t0, q, o)
  {
    hide PathsOk;
  }

  lemma TableOkAt(t: Table, p: Prefix, alen: nat)
    requires TableOk(t, alen)
    ensures p in t ==> PathsOk(t[p].paths, alen)
  {
  }

  lemma HeadsSame(t: Table)
    ensures HeadsKept(t, t)
  {
  }

  ghost predicate OnlyDefault(t: Table, p: Prefix) {
    forall q :: q in t && q.len == 0 ==> q == p
  }

  /** The unique best path is elected; a lone default route favours the gateway it had. */
  ghost predicate ElectedIn(t: Table, lone: bool, gw: Option<(Prefix, Addr)>, p: Prefix, thresh: real) {
    p in t && t[p].paths != map[] ==>
      && Keyed(t[p].paths) && t[p].best.Some?
      && (IsBest(t[p].paths, t[p].best.value, None, thresh) || IsBest(t[p].paths, t[p].best.value, GwHere(gw, p), thresh))
      && (lone ==> IsBest(t[p].paths, t[p].best.value, GwHere(gw, p), thresh))
  }

  /** A default route with an elected path, among the prefixes outside `rest`. */
  ghost predicate ElectsGateway(t: Table, rest: set<Prefix>, p: Prefix) {
    p !in rest && p in t && p.len == 0 && t[p].paths != map[]
  }

  /** The gateway is the elected path of a default route of this run, if there is one, else the one before. */
  ghost predicate GatewayOf(t: Table, rest: set<Prefix>, gw0: Option<(Prefix, Addr)>, gw: Option<(Prefix, Addr)>) {
    if exists p :: ElectsGateway(t, rest, p)
    then gw.Some? && ElectsGateway(t, rest, gw.value.0) && t[gw.value.0].best == Some(gw.value.1)
    else gw == gw0
  }

  lemma GatewayNext(t1: Table, t: Table, rest: set<Prefix>, p: Prefix, gw0: Option<(Prefix, Addr)>,
                    gw1: Option<(Prefix, Addr)>, gw: Option<(Prefix, Addr)>)
    requires GatewayOf(t1, rest, gw0, gw1) && SameElsewhere(t1, t, p) && p in rest
    requires p in t && t[p].paths != map[] ==> t[p].best.Some?
    requires gw == if p.len == 0 && p in t && t[p].paths != map[] then Some((p, t[p].best.value)) else gw1
    ensures GatewayOf(t, rest - {p}, gw0, gw)
  {
    forall q ensures q != p ==> (ElectsGateway(t, rest - {p}, q) <==> ElectsGateway(t1, rest, q)) {
    }
    assert ElectsGateway(t, rest - {p}, p) <==> p in t && p.len == 0 && t[p].paths != map[];
    if !(p.len == 0 && p in t && t[p].paths != map[]) && exists q :: ElectsGateway(t1, rest, q) {
      assert ElectsGateway(t, rest - {p}, gw1.value.0);
    }
    if q :| ElectsGateway(t, rest - {p}, q) && q != p {
      assert ElectsGateway(t1, rest, q);
    }
  }

  lemma GatewayStart(t: Table, gw: Option<(Prefix, Addr)>)
    ensures GatewayOf(t, t.Keys, gw, gw)
  {
  }

  lemma GatewayFrame(t: Table, t': Table, gw0: Option<(Prefix, Addr)>, gw: Option<(Prefix, Addr)>)
    requires GatewayOf(t, {}, gw0, gw) && t'.Keys == t.Keys
    requires forall p :: p in t ==> t'[p].paths == t[p].paths && t'[p].best == t[p].best
    ensures GatewayOf(t', {}, gw0, gw)
  {
    forall q ensures ElectsGateway(t', {}, q) <==> ElectsGateway(t, {}, q) {
    }
  }

  /** The kernel route says what the path says; the metric is its hop count, or 2 if metrics are flat. */
  ghost predicate Says(r: KernelRoute, b: RtPath, correct: bool) {
    r.nexthop == b.nexthop && r.metric == if correct then b.metric.hops else 2
  }

  /** What the update of the table does to one prefix. */
  ghost predicate UpdatedAt(t0: Table, k0: map<Prefix, KernelRoute>, t: Table, k: map<Prefix, KernelRoute>,
                            chg: seq<Prefix>, p: Prefix, version: nat, correct: bool, delOk: bool)
  {
    if p !in t0 then p !in t && RouteAt(k, p) == RouteAt(k0, p) && p !in chg
    else
      var s := Survivors(t0[p].paths, version);
      if s == map[] then
        && p !in chg
        && if delOk then p !in t && p !in k
           else p in t && t[p] == t0[p].(paths := s, best := t[p].best) && RouteAt(k, p) == RouteAt(k0, p)
      else
        && p in t && t[p] == t0[p].(paths := s, best := t[p].best)
        && t[p].best.Some? && t[p].best.value in s
        && (p in chg <==> Differs(s[t[p].best.value], t0[p], correct))
        && RouteAt(k, p) == RouteAt(k0, p)
  }

  /** Next-hop routes are at the head of the queue. */
  ghost predicate NexthopsFirst(t: Table, chg: seq<Prefix>) {
    forall i, j :: 0 <= i < j < |chg| && IsNexthopRoute(t, chg[j]) ==> IsNexthopRoute(t, chg[i])
  }

  ghost predicate IsNexthopRoute(t: Table, p: Prefix) {
    p in t && t[p].best.Some? && t[p].best.value in t[p].paths &&
    p.addr == t[p].paths[t[p].best.value].nexthop.gateway
  }

  /** The outcome at one prefix depends on that prefix alone. */
  lemma UpdatedFrame(t0: Table, k0: map<Prefix, KernelRoute>, t: Table, k: map<Prefix, KernelRoute>, chg: seq<Prefix>,
                     t': Table, k': map<Prefix, KernelRoute>, chg': seq<Prefix>,
                     p: Prefix, version: nat, correct: bool, delOk: bool)
    requires UpdatedAt(t0, k0, t, k, chg, p, version, correct, delOk)
    requires (p in t' <==> p in t) && (p in t ==> t'[p] == t[p])
    requires RouteAt(k', p) == RouteAt(k, p) && (p in chg' <==> p in chg)
    ensures UpdatedAt(t0, k0, t', k', chg', p, version, correct, delOk)
  {
    hide Differs, Survivors;
  }

  lemma UpdatedFrom(t0: Table, k0: map<Prefix, KernelRoute>, t1: Table, k1: map<Prefix, KernelRoute>,
                    t: Table, k: map<Prefix, KernelRoute>, chg: seq<Prefix>,
                    p: Prefix, version: nat, correct: bool, delOk: bool)
    requires p in t0 && p in t1 && t1[p] == t0[p] && RouteAt(k1, p) == RouteAt(k0, p)
    requires UpdatedAt(t1, k1, t, k, chg, p, version, correct, delOk)
    ensures UpdatedAt(t0, k0, t, k, chg, p, version, correct, delOk)
  {
    hide Differs, Survivors;
  }

  /** The queue order looks only at queued routes. */
  lemma NexthopsFrame(t: Table, t': Table, chg: seq<Prefix>, p: Prefix)
    requires NexthopsFirst(t, chg) && SameElsewhere(t, t', p) && p !in chg
    ensures NexthopsFirst(t', chg)
  {
    forall q | q in chg ensures IsNexthopRoute(t', q) == IsNexthopRoute(t, q) {
    }
  }

  lemma SurvivorsKeyed(paths: Paths, version: nat, alen: nat)
    requires PathsOk(paths, alen)
    ensures PathsOk(Survivors(paths, version), alen) && Keyed(Survivors(paths, version))
  {
  }

  lemma BestIn(paths: Paths, b: Addr, gw: Option<Addr>, thresh: real)
    requires Keyed(paths) && IsBest(paths, b, gw, thresh)
    ensures b in paths
  {
  }

  /** A queued or settled route after the change list was worked off. */
  ghost predicate AppliedAt(t0: Table, k0: map<Prefix, KernelRoute>, t: Table, k: map<Prefix, KernelRoute>, p: Prefix,
                            correct: bool, deleteFirst: bool, delOk: bool, addOk: bool)
  {
    p in t0 && t0[p].best.Some? && t0[p].best.value in t0[p].paths &&
    p in t && (t[p], RouteAt(k, p)) ==
      Apply(t0[p], RouteAt(k0, p), t0[p].paths[t0[p].best.value], correct, deleteFirst, delOk, addOk)
  }

  ghost predicate Changed(t: Table, p: Prefix, correct: bool) {
    p in t && t[p].best.Some? && t[p].best.value in t[p].paths && Differs(t[p].paths[t[p].best.value], t[p], correct)
  }

  lemma UpdateStart(t: Table, k: map<Prefix, KernelRoute>, chg: seq<Prefix>, gw: Option<(Prefix, Addr)>,
                    version: nat, correct: bool, delOk: set<Prefix>, thresh: real)
    requires chg == []
    ensures NexthopsFirst(t, chg) && NoDup(chg)
    ensures forall p :: p !in t ==> UpdatedAt(t, k, t, k, chg, p, version, correct, p in delOk)
    ensures forall p :: p !in t ==> ElectedIn(t, OnlyDefault(t, p), gw, p, thresh)
  {
  }

  /** A default route that is alone meets the gateway of the run's start. */
  lemma ElectedNow(t0: Table, t: Table, gw0: Option<(Prefix, Addr)>, gw: Option<(Prefix, Addr)>, p: Prefix, thresh: real)
    requires p in t && t[p].paths != map[] ==>
               Keyed(t[p].paths) && t[p].best.Some? && IsBest(t[p].paths, t[p].best.value, GwHere(gw, p), thresh)
    requires gw == gw0 || (gw.Some? && gw.value.0 in t0 && gw.value.0 != p && gw.value.0.len == 0)
    ensures ElectedIn(t, OnlyDefault(t0, p), gw0, p, thresh)
  {
    hide IsBest, Keyed;
  }

  lemma ElectedFrame(t: Table, t': Table, lone: bool, lone': bool, gw: Option<(Prefix, Addr)>, p: Prefix, thresh: real)
    requires ElectedIn(t, lone, gw, p, thresh) && (lone' ==> lone)
    requires p in t' ==> p in t && t'[p].paths == t[p].paths && t'[p].best == t[p].best
    ensures ElectedIn(t', lone', gw, p, thresh)
  {
    hide IsBest, Keyed;
  }

  /** The prefix has the same route head and the same kernel route. */
  ghost predicate SameAt(t0: Table, k0: map<Prefix, KernelRoute>, t: Table, k: map<Prefix, KernelRoute>, p: Prefix) {
    (p in t <==> p in t0) && (p in t0 ==> t[p] == t0[p]) && RouteAt(k, p) == RouteAt(k0, p)
  }

  lemma SameAll(t: Table, k: map<Prefix, KernelRoute>)
    ensures forall p :: SameAt(t, k, t, k, p)
  {
  }

  lemma ChangedFrame(t0: Table, k0: map<Prefix, KernelRoute>, t: Table, k: map<Prefix, KernelRoute>, p: Prefix, correct: bool)
    requires SameAt(t0, k0, t, k, p) && Changed(t0, p, correct)
    ensures Changed(t, p, correct)
  {
  }

  lemma AppliedFrom(t0: Table, k0: map<Prefix, KernelRoute>, t1: Table, k1: map<Prefix, KernelRoute>,
                    t: Table, k: map<Prefix, KernelRoute>, p: Prefix,
                    correct: bool, deleteFirst: bool, delOk: bool, addOk: bool)
    requires SameAt(t0, k0, t1, k1, p)
    requires AppliedAt(t1, k1, t, k, p, correct, deleteFirst, delOk, addOk)
    ensures AppliedAt(t0, k0, t, k, p, correct, deleteFirst, delOk, addOk)
  {
    hide Apply;
  }

  lemma AppliedFrame(t0: Table, k0: map<Prefix, KernelRoute>, t1: Table, k1: map<Prefix, KernelRoute>,
                     t: Table, k: map<Prefix, KernelRoute>, p: Prefix, q: Prefix,
                     correct: bool, deleteFirst: bool, delOk: bool, addOk: bool)
    requires SameElsewhere(t1, t, p) && SameElsewhere(k1, k, p) && q != p
    requires AppliedAt(t0, k0, t1, k1, q, correct, deleteFirst, delOk, addOk)
    ensures AppliedAt(t0, k0, t, k, q, correct, deleteFirst, delOk, addOk)
  {
    hide Apply;
  }

  lemma SameFrame(t0: Table, k0: map<Prefix, KernelRoute>, t1: Table, k1: map<Prefix, KernelRoute>,
                  t: Table, k: map<Prefix, KernelRoute>, p: Prefix, q: Prefix)
    requires SameElsewhere(t1, t, p) && SameElsewhere(k1, k, p) && q != p
    requires SameAt(t0, k0, t1, k1, q)
    ensures SameAt(t0, k0, t, k, q)
  {
  }

  /* ---- a whole run, one prefix at a time ---- */

  ghost predicate InstalledBest(t: Table, k: map<Prefix, KernelRoute>, p: Prefix, correct: bool) {
    p in t && t[p].best.Some? && t[p].best.value in t[p].paths && p in k && Says(k[p], t[p].paths[t[p].best.value], correct)
  }

  /** A route that the kernel has already is not queued and not touched. */
  lemma SameRouteLeft(t0: Table, k0: map<Prefix, KernelRoute>, t1: Table, t2: Table, k2: map<Prefix, KernelRoute>,
                      chg: seq<Prefix>, t: Table, k: map<Prefix, KernelRoute>, p: Prefix, alen: nat, version: nat,
                      correct: bool, delOk: bool)
    requires RecordedAt(t0, k0, p, correct) && HeadsKept(t0, t1) && TableOk(t2, alen)
    requires UpdatedAt(t1, k0, t2, k2, chg, p, version, correct, delOk) && InstalledBest(t, k0, p, correct)
    requires (p in t <==> p in t2) && (p in t ==> t[p].paths == t2[p].paths && t[p].best == t2[p].best)
    requires p !in chg ==> SameAt(t2, k2, t, k, p)
    ensures RouteAt(k, p) == RouteAt(k0, p)
  {
    hide Survivors;
    TableOkAt(t2, p, alen);
  }

  /** The path if the current run saw it. */
  ghost function IfCurrent(x: Option<RtPath>, version: nat): Option<RtPath> {
    if x.Some? && x.value.version == version then x else None
  }

  /** No other default route is known or offered. */
  ghost predicate LoneDefault(t: Table, reached: seq<Reached>, p: Prefix, maxplen: nat) {
    OnlyDefault(t, p) && forall q :: WantedAny(reached, q, maxplen) && q.len == 0 ==> q == p
  }

  /** A route leaves the queue only installed or refused; the others were right already. */
  lemma QueuedChanged(t1: Table, k0: map<Prefix, KernelRoute>, t2: Table, k2: map<Prefix, KernelRoute>, chg: seq<Prefix>,
                      p: Prefix, version: nat, correct: bool, delOk: bool)
    requires UpdatedAt(t1, k0, t2, k2, chg, p, version, correct, delOk)
    ensures p in chg ==> Changed(t2, p, correct)
    ensures p !in chg && p in t2 && t2[p].paths != map[] ==>
              t2[p].best.Some? && t2[p].best.value in t2[p].paths &&
              !Differs(t2[p].paths[t2[p].best.value], t2[p], correct)
  {
    hide Survivors;
  }

  /** The sweep keeps exactly the paths this run has seen. */
  lemma SweepExact(t1: Table, k0: map<Prefix, KernelRoute>, t2: Table, k2: map<Prefix, KernelRoute>, chg: seq<Prefix>,
                   p: Prefix, o: Addr, version: nat, correct: bool, delOk: bool)
    requires UpdatedAt(t1, k0, t2, k2, chg, p, version, correct, delOk)
    ensures PathAt(t2, p, o) == IfCurrent(PathAt(t1, p, o), version)
  {
    hide Differs;
    assert p in t1 && Survivors(t1[p].paths, version) == map[] ==> o !in Survivors(t1[p].paths, version);
  }

  /** The sweep leaves the record true and removes what is not wanted from the kernel. */
  lemma SweepRecords(t0: Table, k0: map<Prefix, KernelRoute>, t1: Table, t2: Table, k2: map<Prefix, KernelRoute>,
                     chg: seq<Prefix>, p: Prefix, version: nat, correct: bool, delOk: bool)
    requires RecordedAt(t0, k0, p, correct) && HeadsKept(t0, t1)
    requires UpdatedAt(t1, k0, t2, k2, chg, p, version, correct, delOk)
    ensures RecordedAt(t2, k2, p, correct)
    ensures p !in t1 || (delOk && forall o :: IfCurrent(PathAt(t1, p, o), version).None?) ==> p !in t2 && p !in k2
  {
    hide Differs;
    if p in t1 && forall o :: IfCurrent(PathAt(t1, p, o), version).None? {
      forall o ensures o !in Survivors(t1[p].paths, version) {
        assert IfCurrent(PathAt(t1, p, o), version).None?;
      }
      assert Survivors(t1[p].paths, version) == map[];
    }
  }

  /** Working off the queue keeps paths and elections, and installs every route that is not refused. */
  lemma QueueSettles(t2: Table, k2: map<Prefix, KernelRoute>, chg: seq<Prefix>, t: Table, k: map<Prefix, KernelRoute>,
                     p: Prefix, alen: nat, correct: bool, deleteFirst: bool, delOk: bool, addOk: bool)
    requires RecordedAt(t2, k2, p, correct) && TableOk(t2, alen)
    requires p !in chg && p in t2 && t2[p].paths != map[] ==>
               t2[p].best.Some? && t2[p].best.value in t2[p].paths &&
               !Differs(t2[p].paths[t2[p].best.value], t2[p], correct)
    requires p in chg ==> AppliedAt(t2, k2, t, k, p, correct, deleteFirst, delOk, addOk)
    requires p !in chg ==> SameAt(t2, k2, t, k, p)
    ensures (p in t <==> p in t2) && (p in t ==> t[p].paths == t2[p].paths && t[p].best == t2[p].best)
    ensures (deleteFirst ==> addOk) ==> RecordedAt(t, k, p, correct)
    ensures p in t && t[p].paths != map[] && addOk ==> InstalledBest(t, k, p, correct)
    ensures p !in t2 && p !in k2 ==> p !in t && p !in k
  {
    TableOkAt(t2, p, alen);
    if p in chg {
      var b := t2[p].paths[t2[p].best.value];
      RecordKept(t2[p], RouteAt(k2, p), b, correct, deleteFirst, delOk, addOk);
      InstalledExactly(t2[p], RouteAt(k2, p), b, correct, deleteFirst, delOk, addOk);
    } else if p in t2 && t2[p].paths != map[] {
      var b := t2[p].paths[t2[p].best.value];
      InstalledExactly(t2[p], RouteAt(k2, p), b, correct, deleteFirst, delOk, addOk);
    }
  }

  ghost predicate AllStale(t: Table, version: nat) {
    forall p, o :: p in t && o in t[p].paths ==> t[p].paths[o].version != version
  }

  /** After the path list was taken in, the current paths are the wanted ones. */
  lemma CurrentIsWanted(t0: Table, t1: Table, reached: seq<Reached>, p: Prefix, o: Addr, maxplen: nat, version: nat)
    requires AllStale(t0, version)
    requires PathAt(t1, p, o) == OrElse(Wanted(reached, p, o, maxplen, version), PathAt(t0, p, o))
    ensures IfCurrent(PathAt(t1, p, o), version) == Wanted(reached, p, o, maxplen, version)
  {
    hide Wanted;
    WantedOffered(reached, p, o, maxplen, version);
  }

  /** A prefix that no reached node offers has no wanted path. */
  lemma UnwantedNone(reached: seq<Reached>, p: Prefix, o: Addr, maxplen: nat, version: nat)
    requires !WantedAny(reached, p, maxplen)
    ensures Wanted(reached, p, o, maxplen, version) == None
  {
    hide Wanted;
    WantedOffered(reached, p, o, maxplen, version);
  }

  lemma {:induction false} WantedSome(reached: seq<Reached>, p: Prefix, maxplen: nat, version: nat, i: nat)
    requires i < |reached| && Offers(reached[i], p, reached[i].addr, maxplen)
    ensures Wanted(reached, p, reached[i].addr, maxplen, version).Some?
  {
    var n := |reached| - 1;
    if i < n {
      assert reached[..n][i] == reached[i];
      WantedSome(reached[..n], p, maxplen, version, i);
    }
  }

  lemma WantedPresent(t: Table, reached: seq<Reached>, p: Prefix, maxplen: nat, version: nat)
    requires WantedAny(reached, p, maxplen)
    requires forall o :: PathAt(t, p, o) == Wanted(reached, p, o, maxplen, version)
    ensures p in t && t[p].paths != map[]
  {
    hide Wanted;
    var i :| 0 <= i < |reached| && Offers(reached[i], p, reached[i].addr, maxplen);
    WantedSome(reached, p, maxplen, version, i);
    assert PathAt(t, p, reached[i].addr).Some?;
  }

  lemma WantedCurrent(t: Table, reached: seq<Reached>, maxplen: nat, version: nat)
    requires forall p, o :: PathAt(t, p, o) == Wanted(reached, p, o, maxplen, version)
    ensures AllCurrent(t, version)
  {
    hide Wanted;
    forall p, o | p in t && o in t[p].paths ensures t[p].paths[o].version == version {
      assert PathAt(t, p, o) == Some(t[p].paths[o]);
      WantedOffered(reached, p, o, maxplen, version);
    }
  }

  lemma LoneMeansOnly(t0: Table, t1: Table, reached: seq<Reached>, p: Prefix, maxplen: nat)
    requires forall q :: q in t1 ==> q in t0 || WantedAny(reached, q, maxplen)
    ensures LoneDefault(t0, reached, p, maxplen) ==> OnlyDefault(t1, p)
  {
    hide WantedAny;
  }

  lemma SamePath(t: Table, t': Table, p: Prefix, o: Addr)
    requires (p in t' <==> p in t) && (p in t' ==> t'[p].paths == t[p].paths)
    ensures PathAt(t', p, o) == PathAt(t, p, o)
  {
  }

  lemma SameTableOk(t: Table, t': Table, alen: nat)
    requires TableOk(t, alen)
    requires forall p :: p in t' ==> p in t && t'[p].paths == t[p].paths
    ensures TableOk(t', alen)
  {
    hide PathsOk;
  }

  /** Over a whole run the default route leaves a present gateway only for a path below its scaled cost. */
  lemma DefaultRouteHysteresis(t: Table, gw: Option<(Prefix, Addr)>, p: Prefix, thresh: real)
    requires ElectedIn(t, true, gw, p, thresh) && p in t && gw.Some? && gw.value.0 == p && gw.value.1 in t[p].paths
    ensures t[p].best.Some? && t[p].best.value in t[p].paths
    ensures t[p].best.value != gw.value.1 ==>
              t[p].paths[t[p].best.value].metric.cost <= Scale(t[p].paths[gw.value.1].metric.cost, thresh)
  {
    if t[p].best.value != gw.value.1 {
      GatewayHysteresis(t[p].paths, t[p].best.value, gw.value.1, thresh);
    }
  }

  class RouteTable {
    const alen: nat
    const maxplen: nat
    const thresh: real
    const correct: bool
    const deleteFirst: bool
    var rib: Table
    var version: nat
    var currentGw: Option<(Prefix, Addr)>
    var chgList: seq<Prefix>
    var kernel: map<Prefix, KernelRoute>

    ghost predicate Valid()
      reads this
    {
      && version < U32
      && TableOk(rib, alen)
      && (forall p :: p in rib ==> p.len <= maxplen)
      && (currentGw.Some? ==> currentGw.value.0.len == 0)
    }

    /** An empty table. */
    constructor (alen: nat, maxplen: nat, thresh: real, correct: bool, deleteFirst: bool)
      ensures Valid() && AllCurrent(rib, version) && chgList == [] && rib == map[] && kernel == map[]
      ensures this.alen == alen && this.maxplen == maxplen && this.thresh == thresh
      ensures forall p :: RecordedAt(rib, kernel, p, correct)
    {
      this.alen, this.maxplen, this.thresh, this.correct, this.deleteFirst := alen, maxplen, thresh, correct, deleteFirst;
      rib, version, currentGw, chgList, kernel := map[], 0, None, [], map[];
    }

    /** `olsr_bump_routingtree_version`: no path of the table carries the new number. */
    method BumpVersion()
      requires Valid() && AllCurrent(rib, version)
      modifies `version
      ensures Valid()
      ensures version == (old(version) + 1) % U32 && AllStale(rib, version)
    {
      version := (version + 1) % U32;
    }

    /** `olsr_insert_rt_path` and `olsr_update_rt_path` for one advertised prefix. */
    method OfferPrefix(p: Prefix, r: Reached)
      requires Valid() && ReachedOk([r], alen) && r.link.Some? && p in r.prefixes
      modifies `rib
      ensures Valid() && HeadsKept(old(rib), rib)
      ensures forall o :: PathAt(rib, p, o) == OrElse(Offer(r, p, o, maxplen, version), PathAt(old(rib), p, o))
      ensures forall q, o :: q != p ==> PathAt(rib, q, o) == PathAt(old(rib), q, o)
      ensures forall q :: q in rib ==> q in old(rib) || q == p
    {
      hide TableOk, HeadsKept;
      assert [r][0] == r;
      TableOkAt(rib, p, alen);
      var e := if p in rib then rib[p] else RtEntry(map[], None, NextHop(Addr([]), -1), Metric(0, 0));
      if r.addr !in e.paths {
        if r.cost == ROUTE_COST_BROKEN || p.len > maxplen {
          HeadsSame(rib);
          return;
        }
      }
      e := e.(paths := e.paths[r.addr := Fresh(r, version)]);
      EntryPut(rib, p, e, alen);
      rib := rib[p := e];
    }

    /** Walk the prefixes of one reached node. */
    method OfferNode(r: Reached)
      requires Valid() && ReachedOk([r], alen)
      modifies `rib
      ensures Valid() && HeadsKept(old(rib), rib)
      ensures forall q, o :: PathAt(rib, q, o) == OrElse(Offer(r, q, o, maxplen, version), PathAt(old(rib), q, o))
      ensures forall q :: q in rib ==> q in old(rib) || Offers(r, q, r.addr, maxplen)
    {
      if r.link.None? {
        return;
      }
      var rest := r.prefixes;
      while rest != {}
        invariant rest <= r.prefixes
        invariant Valid() && HeadsKept(old(rib), rib)
        invariant forall q :: q in rib ==> q in old(rib) || Offers(r, q, r.addr, maxplen)
        invariant forall q, o :: q in rest ==> PathAt(rib, q, o) == PathAt(old(rib), q, o)
        invariant forall q, o :: q !in rest ==>
                    PathAt(rib, q, o) == OrElse(Offer(r, q, o, maxplen, version), PathAt(old(rib), q, o))
        decreases rest
      {
        var p :| p in rest;
        OfferPrefix(p, r);
        rest := rest - {p};
      }
    }

    /** Consume the path list. */
    method OfferAll(reached: seq<Reached>)
      requires Valid() && ReachedOk(reached, alen)
      modifies `rib
      ensures Valid() && HeadsKept(old(rib), rib)
      ensures forall q, o :: PathAt(rib, q, o) == OrElse(Wanted(reached, q, o, maxplen, version), PathAt(old(rib), q, o))
      ensures forall q :: q in rib ==> q in old(rib) || WantedAny(reached, q, maxplen)
    {
      var i := 0;
      while i < |reached|
        invariant 0 <= i <= |reached|
        invariant Valid() && HeadsKept(old(rib), rib)
        invariant forall q :: q in rib ==> q in old(rib) || WantedAny(reached, q, maxplen)
        invariant forall q, o :: PathAt(rib, q, o) ==
                                 OrElse(Wanted(reached[..i], q, o, maxplen, version), PathAt(old(rib), q, o))
      {
        assert reached[..i + 1][..i] == reached[..i];
        OfferNode(reached[i]);
        i := i + 1;
      }
      assert reached[..i] == reached;
    }

    /** `olsr_delete_rt_path`: the prefix is withdrawn by its originator between two runs. */
    method DeletePath(p: Prefix, o: Addr)
      requires Valid()
      modifies `rib, `currentGw
      ensures Valid()
      ensures rib.Keys == old(rib.Keys) && HeadsKept(old(rib), rib)
      ensures PathAt(rib, p, o) == None
      ensures forall q, a :: (q, a) != (p, o) ==> PathAt(rib, q, a) == PathAt(old(rib), q, a)
      ensures currentGw == if old(currentGw) == Some((p, o)) then None else old(currentGw)
      ensures old(AllCurrent(rib, version)) ==> AllCurrent(rib, version)
    {
      hide TableOk, HeadsKept;
      TableOkAt(rib, p, alen);
      HeadsSame(rib);
      if p in rib {
        var e := rib[p].(paths := rib[p].paths - {o});
        EntryPut(rib, p, e, alen);
        rib := rib[p := e];
      }
      if currentGw == Some((p, o)) {
        currentGw := None;
      }
    }

    /** `olsr_delete_outdated_routes`. */
    method DeleteOutdated(p: Prefix)
      requires p in rib
      modifies `rib
      ensures rib.Keys == old(rib.Keys)
      ensures forall q :: q in rib && q != p ==> rib[q] == old(rib)[q]
      ensures rib[p] == old(rib)[p].(paths := Survivors(old(rib)[p].paths, version), best := rib[p].best)
    {
      ghost var was := rib[p].paths;
      var rest := rib[p].paths.Keys;
      while rest != {}
        invariant p in rib && rib.Keys == old(rib.Keys) && rest <= rib[p].paths.Keys <= was.Keys
        invariant forall q :: q in rib && q != p ==> rib[q] == old(rib)[q]
        invariant rib[p] == old(rib)[p].(paths := rib[p].paths, best := rib[p].best)
        invariant forall o :: o in rib[p].paths ==> rib[p].paths[o] == was[o]
        invariant forall o :: o in was ==> (o in rib[p].paths <==> o in rest || was[o].version == version)
        decreases rest
      {
        var o :| o in rest;
        rest := rest - {o};
        var e := rib[p];
        if e.paths[o].version != version {
          rib := rib[p := e.(paths := e.paths - {o}, best := if e.best == Some(o) then None else e.best)];
        }
      }
      assert rib[p].paths == Survivors(was, version);
    }

    /** `olsr_enqueue_rt`. */
    method EnqueueRt(p: Prefix)
      requires p in rib && rib[p].best.Some? && rib[p].best.value in rib[p].paths
      requires NexthopsFirst(rib, chgList) && NoDup(chgList)
      modifies `chgList
      ensures NexthopsFirst(rib, chgList) && NoDup(chgList)
      ensures forall q :: q in chgList <==> q == p || q in old(chgList)
    {
      if p in chgList {
        return;
      }
      if p.addr == rib[p].paths[rib[p].best.value].nexthop.gateway {
        chgList := [p] + chgList;
      } else {
        chgList := chgList + [p];
      }
    }

    /** The loop body of `olsr_update_rib_routes`; `ok` says whether a kernel deletion succeeds. */
    method UpdateRoute(p: Prefix, ok: bool)
      requires Valid() && p in rib && p !in chgList && NexthopsFirst(rib, chgList) && NoDup(chgList)
      modifies `rib, `kernel, `currentGw, `chgList
      ensures Valid() && SameElsewhere(old(rib), rib, p) && SameElsewhere(old(kernel), kernel, p)
      ensures UpdatedAt(old(rib), old(kernel), rib, kernel, chgList, p, version, correct, ok)
      ensures NexthopsFirst(rib, chgList) && NoDup(chgList)
      ensures forall q :: q != p ==> (q in chgList <==> q in old(chgList))
      ensures p in rib && rib[p].paths != map[] ==>
                Keyed(rib[p].paths) && rib[p].best.Some? &&
                IsBest(rib[p].paths, rib[p].best.value, GwHere(old(currentGw), p), thresh)
      ensures currentGw ==
              if p.len == 0 && p in rib && rib[p].paths != map[] then Some((p, rib[p].best.value)) else old(currentGw)
    {
      hide PathsOk, Keyed, IsBest, Survivors, IsNexthopRoute, NexthopsFirst;
      SurvivorsKeyed(rib[p].paths, version, alen);
      DeleteOutdated(p);
      NexthopsFrame(old(rib), rib, chgList, p);
      if rib[p].paths == map[] {
        if ok {
          kernel := kernel - {p};
          rib := rib - {p};
          NexthopsFrame(old(rib), rib, chgList, p);
        }
        return;
      }
      var b := ElectBest(rib[p].paths, GwHere(currentGw, p), thresh);
      BestIn(rib[p].paths, b, GwHere(currentGw, p), thresh);
      rib := rib[p := rib[p].(best := Some(b))];
      NexthopsFrame(old(rib), rib, chgList, p);
      if p.len == 0 {
        currentGw := Some((p, b));
      }
      if Differs(rib[p].paths[b], rib[p], correct) {
        EnqueueRt(p);
      }
    }

    /** `olsr_update_rib_routes`: every route is swept, elected and, if it changed, queued. */
    method UpdateRib(delOk: set<Prefix>)
      requires Valid() && chgList == []
      modifies `rib, `kernel, `currentGw, `chgList
      ensures Valid() && NexthopsFirst(rib, chgList) && NoDup(chgList)
      ensures forall p :: UpdatedAt(old(rib), old(kernel), rib, kernel, chgList, p, version, correct, p in delOk)
      ensures forall p :: ElectedIn(rib, OnlyDefault(old(rib), p), old(currentGw), p, thresh)
      ensures GatewayOf(rib, {}, old(currentGw), currentGw)
    {
      hide Valid, UpdatedAt, ElectedIn, OnlyDefault, NexthopsFirst, NoDup, GatewayOf;
      assert GatewayOf(rib, rib.Keys, currentGw, currentGw) by { GatewayStart(rib, currentGw); }
      ghost var t0, k0, gw0 := rib, kernel, currentGw;
      var rest := rib.Keys;
      UpdateStart(t0, k0, chgList, gw0, version, correct, delOk, thresh);
      while rest != {}
        invariant Valid() && NexthopsFirst(rib, chgList) && NoDup(chgList)
        invariant rest <= t0.Keys
        invariant forall p :: p in rest ==> p in rib && rib[p] == t0[p] && RouteAt(kernel, p) == RouteAt(k0, p) && p !in chgList
        invariant forall p :: p !in rest ==> UpdatedAt(t0, k0, rib, kernel, chgList, p, version, correct, p in delOk)
        invariant forall p :: p !in rest ==> ElectedIn(rib, OnlyDefault(t0, p), gw0, p, thresh)
        invariant GatewayOf(rib, rest, gw0, currentGw)
        invariant currentGw == gw0 || (currentGw.Some? && currentGw.value.0 in t0.Keys - rest && currentGw.value.0.len == 0)
        decreases rest
      {
        var p :| p in rest;
        ghost var t1, k1, c1, gw1 := rib, kernel, chgList, currentGw;
        UpdateRoute(p, p in delOk);
        UpdatedFrom(t0, k0, t1, k1, rib, kernel, chgList, p, version, correct, p in delOk);
        ElectedNow(t0, rib, gw0, gw1, p, thresh);
        GatewayNext(t1, rib, rest, p, gw0, gw1, currentGw);
        forall q | q !in rest
          ensures UpdatedAt(t0, k0, rib, kernel, chgList, q, version, correct, q in delOk)
          ensures ElectedIn(rib, OnlyDefault(t0, q), gw0, q, thresh)
        {
          UpdatedFrame(t0, k0, t1, k1, c1, rib, kernel, chgList, q, version, correct, q in delOk);
          ElectedFrame(t1, rib, OnlyDefault(t0, q), OnlyDefault(t0, q), gw0, q, thresh);
        }
        rest := rest - {p};
      }
    }

    /** Change one queued route in the kernel. */
    method ChangeRoute(p: Prefix, delOk: bool, addOk: bool)
      requires Changed(rib, p, correct)
      modifies `rib, `kernel
      ensures AppliedAt(old(rib), old(kernel), rib, kernel, p, correct, deleteFirst, delOk, addOk)
      ensures SameElsewhere(old(rib), rib, p) && SameElsewhere(old(kernel), kernel, p)
    {
      var e := rib[p];
      var b := e.paths[e.best.value];
      if deleteFirst && e.nexthop.iif > -1 && delOk {
        kernel := kernel - {p};
      }
      if addOk {
        kernel := kernel[p := RouteOf(b, correct)];
        rib := rib[p := e.(nexthop := b.nexthop, metric := b.metric)];
      }
    }

    /** `olsr_chg_kernel_routes`: work off the queue from its head. */
    method ChangeKernel(addOk: set<Prefix>, delOk: set<Prefix>)
      requires NoDup(chgList) && forall p :: p in chgList ==> Changed(rib, p, correct)
      modifies `rib, `kernel, `chgList
      ensures chgList == []
      ensures forall p :: p in old(chgList) ==>
                AppliedAt(old(rib), old(kernel), rib, kernel, p, correct, deleteFirst, p in delOk, p in addOk)
      ensures forall p :: p !in old(chgList) ==> SameAt(old(rib), old(kernel), rib, kernel, p)
    {
      hide AppliedAt, Changed, SameElsewhere, SameAt;
      ghost var t0, k0, all, i := rib, kernel, chgList, 0;
      SameAll(t0, k0);
      while chgList != []
        invariant 0 <= i <= |all| && chgList == all[i..]
        invariant forall p :: p in all[..i] ==>
                    AppliedAt(t0, k0, rib, kernel, p, correct, deleteFirst, p in delOk, p in addOk)
        invariant forall p :: p !in all[..i] ==> SameAt(t0, k0, rib, kernel, p)
        decreases |chgList|
      {
        var p := chgList[0];
        assert p == all[i] && p in all && p !in all[..i];
        ghost var t1, k1 := rib, kernel;
        ChangedFrame(t0, k0, rib, kernel, p, correct);
        ChangeRoute(p, p in delOk, p in addOk);
        AppliedFrom(t0, k0, t1, k1, rib, kernel, p, correct, deleteFirst, p in delOk, p in addOk);
        chgList := chgList[1..];
        i := i + 1;
        assert all[..i] == all[..i - 1] + [p];
        forall q | q in all[..i - 1]
          ensures AppliedAt(t0, k0, rib, kernel, q, correct, deleteFirst, q in delOk, q in addOk)
        {
          AppliedFrame(t0, k0, t1, k1, rib, kernel, p, q, correct, deleteFirst, q in delOk, q in addOk);
        }
        forall q | q !in all[..i] ensures SameAt(t0, k0, rib, kernel, q) {
          SameFrame(t0, k0, t1, k1, rib, kernel, p, q);
        }
      }
      assert all[..i] == all;
    }

    /**
      One routing run: bump the version, take in the path list, sweep and elect,
      then change the kernel. `addOk` and `delOk` are the prefixes whose kernel
      calls succeed.
     */
    method RoutingRun(reached: seq<Reached>, addOk: set<Prefix>, delOk: set<Prefix>)
      requires Valid() && chgList == [] && AllCurrent(rib, version) && ReachedOk(reached, alen)
      requires forall p :: RecordedAt(rib, kernel, p, correct)
      modifies this
      ensures Valid() && chgList == [] && AllCurrent(rib, version) && version == (old(version) + 1) % U32
      ensures forall p, o :: PathAt(rib, p, o) == Wanted(reached, p, o, maxplen, version)
      ensures forall p :: WantedAny(reached, p, maxplen) && p in addOk ==> InstalledBest(rib, kernel, p, correct)
      ensures forall p :: !WantedAny(reached, p, maxplen) && (p in delOk || p !in old(rib)) ==> p !in rib && p !in kernel
      ensures forall p :: (deleteFirst ==> p in addOk) ==> RecordedAt(rib, kernel, p, correct)
      ensures forall p :: ElectedIn(rib, LoneDefault(old(rib), reached, p, maxplen), old(currentGw), p, thresh)
      ensures GatewayOf(rib, {}, old(currentGw), currentGw)
      ensures forall p :: InstalledBest(rib, old(kernel), p, correct) ==> RouteAt(kernel, p) == RouteAt(old(kernel), p)
    {
      hide GatewayOf, UpdatedAt, ElectedIn, HeadsKept, RecordedAt, AppliedAt, SameAt, NexthopsFirst, PathAt, Wanted, WantedAny,
           TableOk, InstalledBest, ReachedOk, Changed, NoDup, AllStale, AllCurrent, IfCurrent, OrElse, OnlyDefault, LoneDefault,
           PathsOk;
      ghost var t0, k0, gw0 := rib, kernel, currentGw;
      BumpVersion();
      OfferAll(reached);
      ghost var t1 := rib;
      UpdateRib(delOk);
      ghost var t2, k2, chg := rib, kernel, chgList;
      forall p ensures p in chg ==> Changed(t2, p, correct) {
        QueuedChanged(t1, k0, t2, k2, chg, p, version, correct, p in delOk);
      }
      ChangeKernel(addOk, delOk);
      forall p
        ensures (p in rib <==> p in t2) && (p in rib ==> rib[p].paths == t2[p].paths && rib[p].best == t2[p].best)
        ensures (deleteFirst ==> p in addOk) ==> RecordedAt(rib, kernel, p, correct)
        ensures p in rib && rib[p].paths != map[] && p in addOk ==> InstalledBest(rib, kernel, p, correct)
        ensures p !in t1 || (p in delOk && forall o :: IfCurrent(PathAt(t1, p, o), version).None?) ==> p !in rib && p !in kernel
        ensures ElectedIn(rib, LoneDefault(t0, reached, p, maxplen), gw0, p, thresh)
      {
        SweepRecords(t0, k0, t1, t2, k2, chg, p, version, correct, p in delOk);
        QueuedChanged(t1, k0, t2, k2, chg, p, version, correct, p in delOk);
        QueueSettles(t2, k2, chg, rib, kernel, p, alen, correct, deleteFirst, p in delOk, p in addOk);
        LoneMeansOnly(t0, t1, reached, p, maxplen);
        ElectedFrame(t2, rib, OnlyDefault(t1, p), LoneDefault(t0, reached, p, maxplen), gw0, p, thresh);
      }
      GatewayFrame(t2, rib, gw0, currentGw);
      forall p | InstalledBest(rib, k0, p, correct) ensures RouteAt(kernel, p) == RouteAt(k0, p) {
        SameRouteLeft(t0, k0, t1, t2, k2, chg, rib, kernel, p, alen, version, correct, p in delOk);
      }
      forall p, o ensures PathAt(rib, p, o) == Wanted(reached, p, o, maxplen, version)
                  ensures IfCurrent(PathAt(t1, p, o), version) == Wanted(reached, p, o, maxplen, version)
      {
        SweepExact(t1, k0, t2, k2, chg, p, o, version, correct, p in delOk);
        SamePath(t2, rib, p, o);
        CurrentIsWanted(t0, t1, reached, p, o, maxplen, version);
      }
      forall p
        ensures WantedAny(reached, p, maxplen) ==> p in rib && rib[p].paths != map[]
        ensures !WantedAny(reached, p, maxplen) && (p in delOk || p !in t0) ==> p !in rib && p !in kernel
      {
        if WantedAny(reached, p, maxplen) {
          WantedPresent(rib, reached, p, maxplen, version);
        } else {
          forall o ensures IfCurrent(PathAt(t1, p, o), version).None? {
            UnwantedNone(reached, p, o, maxplen, version);
          }
        }
      }
      WantedCurrent(rib, reached, maxplen, version);
      SameTableOk(t2, rib, alen);
    }

    /** `olsr_delete_all_kernel_routes`: a run over an empty path list empties table and kernel. */
    method DeleteAll(delOk: set<Prefix>)
      requires Valid() && chgList == [] && AllCurrent(rib, version)
      requires forall p :: RecordedAt(rib, kernel, p, correct)
      modifies this
      ensures rib.Keys <= old(rib.Keys) - delOk && kernel.Keys <= old(rib.Keys) - delOk
      ensures forall p, o :: PathAt(rib, p, o) == None
    {
      RoutingRun([], {}, delOk);
      forall p ensures p in rib || p in kernel ==> p in old(rib) && p !in delOk {
        assert !WantedAny([], p, maxplen);
      }
    }
  }
}
