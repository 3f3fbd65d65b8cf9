/**
 Selection of multipoint relays by link cost, Olsrd/src/lq_mpr.c: per two-hop
 neighbour the cheapest connecting neighbours become relays, up to the
 configured coverage.
 */
module LqMpr {
  import opened Common

  const WILL_ALWAYS := 7

  datatype Nbr = Nbr(sym: bool, willingness: nat, isMpr: bool, wasMpr: bool, skip: bool)

  /** An entry of a two-hop node's neighbour list: the connecting neighbour and the cost through it. */
  datatype Connector = Connector(nbr: Addr, cost: nat)

  datatype TwoHopNode = TwoHopNode(addr: Addr, conns: seq<Connector>)

  type Nbrs = map<Addr, Nbr>

  /** Each connecting neighbour is in the table and is listed once. */
  ghost predicate NodeOk(nbrs: Nbrs, n: TwoHopNode) {
    && (forall i :: 0 <= i < |n.conns| ==> n.conns[i].nbr in nbrs)
    && (forall i, j :: 0 <= i < j < |n.conns| ==> n.conns[i].nbr != n.conns[j].nbr)
  }

  /* ---- what is to be selected ---- */

  ghost predicate Eligible(nbrs: Nbrs, n: TwoHopNode, bound: nat, i: int) {
    0 <= i < |n.conns| && n.conns[i].nbr in nbrs && nbrs[n.conns[i].nbr].sym
    && n.conns[i].cost < bound && n.conns[i].cost < LINK_COST_BROKEN
  }

  ghost function EligibleSet(nbrs: Nbrs, n: TwoHopNode, bound: nat): set<int> {
    set i | 0 <= i < |n.conns| && Eligible(nbrs, n, bound, i)
  }

  /**
   The connector is a symmetric neighbour with an unbroken path that is cheaper than our direct
   link if the node is a symmetric neighbour itself; `links` holds the costs of best links.
   */
  ghost predicate Useful(nbrs: Nbrs, links: map<Addr, nat>, n: TwoHopNode, i: int) {
    && 0 <= i < |n.conns| && n.conns[i].nbr in nbrs && nbrs[n.conns[i].nbr].sym && n.conns[i].cost < LINK_COST_BROKEN
    && (n.addr in nbrs && nbrs[n.addr].sym ==> n.addr in links && n.conns[i].cost < links[n.addr])
  }

  ghost function UsefulSet(nbrs: Nbrs, links: map<Addr, nat>, n: TwoHopNode): set<int> {
    set i | 0 <= i < |n.conns| && Useful(nbrs, links, n, i)
  }

  /** With the direct link as bound, the eligible connectors are the useful ones. */
  lemma EligibleUseful(nbrs: Nbrs, links: map<Addr, nat>, n: TwoHopNode, bound: nat)
    requires if n.addr in nbrs && nbrs[n.addr].sym then n.addr in links && bound == links[n.addr] else bound == LINK_COST_BROKEN
    ensures EligibleSet(nbrs, n, bound) == UsefulSet(nbrs, links, n)
  {
  }

  /** Cheaper, or as cheap and earlier in the list. */
  predicate Before(n: TwoHopNode, i: int, j: int)
    requires 0 <= i < |n.conns| && 0 <= j < |n.conns|
  {
    n.conns[i].cost < n.conns[j].cost || (n.conns[i].cost == n.conns[j].cost && i < j)
  }

  /** `s` is a set of `k` elements of `e`, or all of them, that come before the others. */
  ghost predicate IsCheapest(n: TwoHopNode, s: set<int>, e: set<int>, k: nat)
    requires forall i :: i in e ==> 0 <= i < |n.conns|
  {
    && s <= e && |s| == (if |e| < k then |e| else k)
    && forall i, j :: i in s && j in e && j !in s ==> Before(n, i, j)
  }

  lemma CheapestWithin(n: TwoHopNode, s: set<int>, t: set<int>, e: set<int>, k: nat)
    requires forall i :: i in e ==> 0 <= i < |n.conns|
    requires IsCheapest(n, s, e, k) && IsCheapest(n, t, e, k)
    ensures s <= t
  {
    forall i | i in s ensures i in t {
      if i !in t {
        if t <= s {
          SubsetSize(t, s - {i});
        } else {
          var j := Pick(t - s);
        }
      }
    }
  }

  /** There is only one such set. */
  lemma CheapestUnique(n: TwoHopNode, s: set<int>, t: set<int>, e: set<int>, k: nat)
    requires forall i :: i in e ==> 0 <= i < |n.conns|
    requires IsCheapest(n, s, e, k) && IsCheapest(n, t, e, k)
    ensures s == t
  {
    CheapestWithin(n, s, t, e, k);
    CheapestWithin(n, t, s, e, k);
  }

  /** If a two-hop node has any eligible connector, its cheapest one is selected. */
  lemma CheapestIsSelected(n: TwoHopNode, s: set<int>, e: set<int>, k: nat, c: int)
    requires forall i :: i in e ==> 0 <= i < |n.conns|
    requires IsCheapest(n, s, e, k) && k > 0 && c in e
    requires forall i :: i in e && i != c ==> Before(n, c, i)
    ensures c in s
  {
    if c !in s {
      assert e != {} && s != {};
      var i := Pick(s);
    }
  }

  ghost predicate InRange(n: TwoHopNode, s: set<int>) {
    forall i :: i in s ==> 0 <= i < |n.conns|
  }

  ghost function Relays(n: TwoHopNode, s: set<int>): set<Addr>
    requires InRange(n, s)
  {
    set i | i in s :: n.conns[i].nbr
  }

  ghost predicate NewMpr(nbrs: Nbrs) {
    exists a :: a in nbrs && nbrs[a].isMpr && !nbrs[a].wasMpr
  }

  /** Only the relay flags and the scratch flags differ. */
  ghost predicate SameNbrs(a: Nbrs, b: Nbrs) {
    a.Keys == b.Keys && forall x :: x in a ==>
      a[x].sym == b[x].sym && a[x].willingness == b[x].willingness && a[x].wasMpr == b[x].wasMpr
  }

  /** A connector that may still be picked. */
  ghost predicate Open(nbrs: Nbrs, n: TwoHopNode, i: int) {
    0 <= i < |n.conns| && n.conns[i].nbr in nbrs && nbrs[n.conns[i].nbr].sym && !nbrs[n.conns[i].nbr].skip
    && n.conns[i].cost < LINK_COST_BROKEN
  }

  lemma NewMprSame(a: Nbrs, b: Nbrs)
    requires SameNbrs(a, b) && forall x :: x in a ==> a[x].isMpr == b[x].isMpr
    ensures NewMpr(a) <==> NewMpr(b)
  {
  }

  lemma RelaysPut(n: TwoHopNode, s: set<int>, b: int)
    requires 0 <= b < |n.conns| && InRange(n, s)
    ensures forall a :: a in Relays(n, s + {b}) <==> a in Relays(n, s) || a == n.conns[b].nbr
  {
  }

  /** The connectors in `s` were picked, in the order of their costs. */
  ghost predicate Picked(t0: Nbrs, nbrs: Nbrs, n: TwoHopNode, bound: nat, s: set<int>) {
    var e := EligibleSet(t0, n, bound);
    && s <= e && SameNbrs(t0, nbrs)
    && (forall i :: 0 <= i < |n.conns| && n.conns[i].nbr in nbrs ==> (nbrs[n.conns[i].nbr].skip <==> i in s))
    && (forall i, x :: i in s && x in e && x !in s ==> Before(n, i, x))
  }

  /** `b` is the result of a search for the best open connector. */
  ghost predicate BestOpen(nbrs: Nbrs, n: TwoHopNode, b: int) {
    if b == -1 then forall i :: !Open(nbrs, n, i)
    else Open(nbrs, n, b) && forall i :: Open(nbrs, n, i) && i != b ==> Before(n, b, i)
  }

  lemma PickedNext(t0: Nbrs, nbrs: Nbrs, nbrs': Nbrs, n: TwoHopNode, bound: nat, s: set<int>, b: int)
    requires NodeOk(nbrs, n) && Picked(t0, nbrs, n, bound, s)
    requires b != -1 && BestOpen(nbrs, n, b) && n.conns[b].cost < bound && SameNbrs(nbrs, nbrs')
    requires forall a :: a in nbrs' ==> nbrs'[a].skip == (nbrs[a].skip || a == n.conns[b].nbr)
    ensures Picked(t0, nbrs', n, bound, s + {b}) && b !in s
  {
    forall x | x in EligibleSet(t0, n, bound) && x !in s && x != b ensures Before(n, b, x) {
      assert Open(nbrs, n, x);
    }
  }

  /** When no open connector is good enough, all eligible ones are picked. */
  lemma PickedAll(t0: Nbrs, nbrs: Nbrs, n: TwoHopNode, bound: nat, s: set<int>, b: int)
    requires NodeOk(nbrs, n) && Picked(t0, nbrs, n, bound, s)
    requires BestOpen(nbrs, n, b) && (b != -1 ==> n.conns[b].cost >= bound)
    ensures s == EligibleSet(t0, n, bound)
  {
    forall x | x in EligibleSet(t0, n, bound) ensures x in s {
      assert x !in s ==> Open(nbrs, n, x);
    }
  }

  lemma PickedNone(t0: Nbrs, nbrs: Nbrs, n: TwoHopNode, bound: nat)
    requires SameNbrs(t0, nbrs)
    requires forall i :: 0 <= i < |n.conns| && n.conns[i].nbr in nbrs ==> !nbrs[n.conns[i].nbr].skip
    ensures Picked(t0, nbrs, n, bound, {})
  {
  }

  lemma BestOpenIndex(nbrs: Nbrs, n: TwoHopNode, b: int)
    requires BestOpen(nbrs, n, b)
    ensures b != -1 ==> 0 <= b < |n.conns|
  {
  }

  lemma PickedCheapest(t0: Nbrs, nbrs: Nbrs, n: TwoHopNode, bound: nat, s: set<int>, k: nat)
    requires Picked(t0, nbrs, n, bound, s) && |s| <= k && (|s| == k || s == EligibleSet(t0, n, bound))
    ensures EligibleInRange(t0, n, bound) && IsCheapest(n, s, EligibleSet(t0, n, bound), k)
  {
    SubsetSize(s, EligibleSet(t0, n, bound));
  }

  ghost predicate EligibleInRange(nbrs: Nbrs, n: TwoHopNode, bound: nat) {
    forall i :: i in EligibleSet(nbrs, n, bound) ==> 0 <= i < |n.conns|
  }

  /** `s` are the connectors of `n` to be selected. */
  ghost predicate Selection(nbrs: Nbrs, links: map<Addr, nat>, n: TwoHopNode, s: set<int>, k: nat) {
    IsCheapest(n, s, UsefulSet(nbrs, links, n), k)
  }

  /** Eligibility does not look at relay flags. */
  lemma SelectionSame(a: Nbrs, b: Nbrs, links: map<Addr, nat>, n: TwoHopNode, s: set<int>, k: nat)
    requires SameNbrs(a, b) && Selection(a, links, n, s, k)
    ensures Selection(b, links, n, s, k)
  {
    assert forall i :: Useful(a, links, n, i) <==> Useful(b, links, n, i);
    assert UsefulSet(a, links, n) == UsefulSet(b, links, n);
  }

  ghost predicate Chosen(nodes: seq<TwoHopNode>, picks: seq<set<int>>, a: Addr) {
    exists j :: 0 <= j < |nodes| && j < |picks| && InRange(nodes[j], picks[j]) && a in Relays(nodes[j], picks[j])
  }

  /** The selected connectors that are relays number the coverage, or all eligible ones. */
  lemma CoverageMet(nbrs: Nbrs, links: map<Addr, nat>, n: TwoHopNode, s: set<int>, k: nat)
    requires Selection(nbrs, links, n, s, k)
    requires forall a :: a in nbrs && a in Relays(n, s) ==> nbrs[a].isMpr
    ensures var e := UsefulSet(nbrs, links, n);
      var covering := set i | i in e && nbrs[n.conns[i].nbr].isMpr;
      |covering| >= k || covering == e
  {
    var e := UsefulSet(nbrs, links, n);
    var covering := set i | i in e && nbrs[n.conns[i].nbr].isMpr;
    forall i | i in s ensures i in covering {
      assert n.conns[i].nbr in Relays(n, s);
    }
    SubsetSize(s, covering);
    if |e| < k {
      SameSize(s, e);
    }
  }

  lemma NothingUseful(nbrs: Nbrs, links: map<Addr, nat>, n: TwoHopNode, k: nat)
    requires n.addr in nbrs && nbrs[n.addr].sym
    requires n.addr in links ==> forall j :: 0 <= j < |n.conns| ==> n.conns[j].cost >= links[n.addr]
    ensures Selection(nbrs, links, n, {}, k)
  {
    assert UsefulSet(nbrs, links, n) == {};
  }

  lemma CheapestInRange(nbrs: Nbrs, n: TwoHopNode, s: set<int>, bound: nat, k: nat)
    requires IsCheapest(n, s, EligibleSet(nbrs, n, bound), k)
    ensures InRange(n, s)
  {
  }

  lemma NodesSame(a: Nbrs, b: Nbrs, nodes: seq<TwoHopNode>)
    requires a.Keys == b.Keys
    requires forall j :: 0 <= j < |nodes| ==> NodeOk(a, nodes[j])
    ensures forall j :: 0 <= j < |nodes| ==> NodeOk(b, nodes[j])
  {
  }

  lemma SameNbrsBack(a: Nbrs, b: Nbrs, c: Nbrs)
    requires SameNbrs(a, b) && SameNbrs(b, c)
    ensures SameNbrs(a, c) && SameNbrs(b, a) && a.Keys == b.Keys == c.Keys
  {
  }

  lemma ChosenStart(nodes: seq<TwoHopNode>)
    ensures forall a :: !Chosen(nodes, [], a)
  {
  }

  lemma ChosenNext(nodes: seq<TwoHopNode>, picks: seq<set<int>>, s: set<int>, a: Addr)
    requires |picks| < |nodes| && InRange(nodes[|picks|], s)
    ensures Chosen(nodes, picks + [s], a) <==> Chosen(nodes, picks, a) || a in Relays(nodes[|picks|], s)
  {
    hide Relays, InRange;
    var all := picks + [s];
    assert forall j :: 0 <= j < |picks| ==> all[j] == picks[j];
    assert all[|picks|] == s;
    if Chosen(nodes, picks, a) {
      var j :| 0 <= j < |nodes| && j < |picks| && InRange(nodes[j], picks[j]) && a in Relays(nodes[j], picks[j]);
      assert all[j] == picks[j];
    }
  }

  class MprSet {
    var nbrs: Nbrs

    constructor (table: Nbrs)
      ensures nbrs == table
    {
      nbrs := table;
    }

    /** First pass: remember the old flags, keep only the neighbours that always relay. */
    method Reset() returns (changes: bool)
      modifies this
      ensures nbrs.Keys == old(nbrs.Keys)
      ensures forall a :: a in nbrs ==>
                nbrs[a].sym == old(nbrs)[a].sym && nbrs[a].willingness == old(nbrs)[a].willingness
                && nbrs[a].wasMpr == old(nbrs)[a].isMpr
                && nbrs[a].isMpr == (nbrs[a].sym && nbrs[a].willingness == WILL_ALWAYS)
      ensures changes <==> NewMpr(nbrs)
    {
      ghost var t0 := nbrs;
      var rest := nbrs.Keys;
      changes := false;
      while rest != {}
        invariant nbrs.Keys == t0.Keys && rest <= t0.Keys
        invariant forall a :: a in rest ==> nbrs[a] == t0[a]
        invariant forall a :: a in nbrs && a !in rest ==>
                    nbrs[a].sym == t0[a].sym && nbrs[a].willingness == t0[a].willingness && nbrs[a].wasMpr == t0[a].isMpr
                    && nbrs[a].isMpr == (nbrs[a].sym && nbrs[a].willingness == WILL_ALWAYS)
        invariant changes <==> exists a :: a in nbrs && a !in rest && nbrs[a].isMpr && !nbrs[a].wasMpr
        decreases rest
      {
        var a :| a in rest;
        rest := rest - {a};
        var x := nbrs[a];
        x := x.(wasMpr := x.isMpr, isMpr := false);
        if x.sym && x.willingness == WILL_ALWAYS {
          x := x.(isMpr := true);
          if x.isMpr != x.wasMpr {
            changes := true;
          }
        }
        nbrs := nbrs[a := x];
      }
    }

    /** Mark all connectors of a two-hop node as not selected. */
    method ClearSkips(n: TwoHopNode)
      requires NodeOk(nbrs, n)
      modifies this
      ensures SameNbrs(old(nbrs), nbrs)
      ensures forall a :: a in nbrs ==> nbrs[a].isMpr == old(nbrs)[a].isMpr
      ensures forall i :: 0 <= i < |n.conns| ==> !nbrs[n.conns[i].nbr].skip
    {
      var i := 0;
      while i < |n.conns|
        invariant 0 <= i <= |n.conns| && SameNbrs(old(nbrs), nbrs)
        invariant forall a :: a in nbrs ==> nbrs[a].isMpr == old(nbrs)[a].isMpr
        invariant forall j :: 0 <= j < i ==> !nbrs[n.conns[j].nbr].skip
      {
        var a := n.conns[i].nbr;
        nbrs := nbrs[a := nbrs[a].(skip := false)];
        i := i + 1;
      }
    }

    /** The first of the cheapest connectors that are symmetric and not yet picked; -1 if there is none. */
    method FindBest(n: TwoHopNode) returns (b: int)
      requires NodeOk(nbrs, n)
      ensures BestOpen(nbrs, n, b)
    {
      b := -1;
      var best := LINK_COST_BROKEN;
      var i := 0;
      while i < |n.conns|
        invariant 0 <= i <= |n.conns|
        invariant b == -1 ==> best == LINK_COST_BROKEN && forall j :: j < i ==> !Open(nbrs, n, j)
        invariant b != -1 ==> Open(nbrs, n, b) && b < i && best == n.conns[b].cost
        invariant b != -1 ==> forall j :: Open(nbrs, n, j) && j < i && j != b ==> Before(n, b, j)
      {
        var c := n.conns[i];
        if nbrs[c.nbr].sym && !nbrs[c.nbr].skip && c.cost < best {
          b, best := i, c.cost;
        }
        i := i + 1;
      }
    }

    /** Make one connector a relay. */
    method Select(n: TwoHopNode, b: int, changes0: bool) returns (changes: bool)
      requires NodeOk(nbrs, n) && 0 <= b < |n.conns| && (changes0 <==> NewMpr(nbrs))
      modifies this
      ensures SameNbrs(old(nbrs), nbrs) && (changes <==> NewMpr(nbrs))
      ensures forall a :: a in nbrs ==> nbrs[a].isMpr == (old(nbrs)[a].isMpr || a == n.conns[b].nbr)
      ensures forall a :: a in nbrs ==> nbrs[a].skip == (old(nbrs)[a].skip || a == n.conns[b].nbr)
    {
      var a := n.conns[b].nbr;
      ghost var was := nbrs;
      nbrs := nbrs[a := nbrs[a].(isMpr := true, skip := true)];
      changes := changes0;
      if nbrs[a].isMpr != nbrs[a].wasMpr {
        changes := true;
      }
      assert forall x :: x in was && x != a ==> nbrs[x] == was[x];
      if NewMpr(was) {
        var x :| x in was && was[x].isMpr && !was[x].wasMpr;
        assert nbrs[x].isMpr && !nbrs[x].wasMpr;
      }
    }

    /** Pick the cheapest connectors of one two-hop node, up to the coverage. */
    method CoverNode(n: TwoHopNode, bound: nat, k: nat, changes0: bool) returns (changes: bool, ghost s: set<int>)
      requires NodeOk(nbrs, n) && (changes0 <==> NewMpr(nbrs))
      modifies this
      ensures SameNbrs(old(nbrs), nbrs) && (changes <==> NewMpr(nbrs))
      ensures IsCheapest(n, s, EligibleSet(old(nbrs), n, bound), k)
      ensures forall a :: a in nbrs ==> nbrs[a].isMpr == (old(nbrs)[a].isMpr || a in Relays(n, s))
    {
      hide NewMpr, Picked, BestOpen, EligibleSet;
      changes, s := changes0, {};
      ghost var t0 := nbrs;
      ClearSkips(n);
      NewMprSame(t0, nbrs);
      assert Picked(t0, nbrs, n, bound, s) by { PickedNone(t0, nbrs, n, bound); }
      var j := 0;
      while j < k
        invariant 0 <= j <= k && |s| == j && SameNbrs(t0, nbrs) && Picked(t0, nbrs, n, bound, s)
        invariant changes <==> NewMpr(nbrs)
        invariant forall i :: i in s ==> 0 <= i < |n.conns|
        invariant forall a :: a in nbrs ==> nbrs[a].isMpr == (t0[a].isMpr || a in Relays(n, s))
      {
        var b := FindBest(n);
        BestOpenIndex(nbrs, n, b);
        if b != -1 && n.conns[b].cost < bound {
          ghost var was := nbrs;
          changes := Select(n, b, changes);
          PickedNext(t0, was, nbrs, n, bound, s, b);
          RelaysPut(n, s, b);
          s := s + {b};
        } else {
          PickedAll(t0, nbrs, n, bound, s, b);
          PickedCheapest(t0, nbrs, n, bound, s, k);
          return;
        }
        j := j + 1;
      }
      PickedCheapest(t0, nbrs, n, bound, s, k);
    }

    /** Handle one two-hop node: a direct link that no relay undercuts makes it need none. */
    method ServeNode(n: TwoHopNode, links: map<Addr, nat>, k: nat, changes0: bool)
      returns (changes: bool, ghost s: set<int>)
      requires NodeOk(nbrs, n) && (changes0 <==> NewMpr(nbrs))
      modifies this
      ensures SameNbrs(old(nbrs), nbrs) && (changes <==> NewMpr(nbrs))
      ensures Selection(old(nbrs), links, n, s, k) && InRange(n, s)
      ensures forall a :: a in nbrs ==> nbrs[a].isMpr == (old(nbrs)[a].isMpr || a in Relays(n, s))
    {
      hide NewMpr;
      changes, s := changes0, {};
      var best1hop := LINK_COST_BROKEN;
      if n.addr in nbrs && nbrs[n.addr].sym {
        if n.addr !in links {
          NothingUseful(nbrs, links, n, k);
          return;
        }
        best1hop := links[n.addr];
        var w := 0;
        while w < |n.conns| && n.conns[w].cost >= best1hop
          invariant 0 <= w <= |n.conns|
          invariant forall j :: 0 <= j < w ==> n.conns[j].cost >= best1hop
        {
          w := w + 1;
        }
        if w == |n.conns| {
          NothingUseful(nbrs, links, n, k);
          return;
        }
      }
      hide IsCheapest, EligibleSet, UsefulSet;
      EligibleUseful(nbrs, links, n, best1hop);
      changes, s := CoverNode(n, best1hop, k, changes0);
      assert InRange(n, s) by { CheapestInRange(old(nbrs), n, s, best1hop, k); }
    }

    /** `olsr_calculate_lq_mpr`. */
    method Calculate(nodes: seq<TwoHopNode>, links: map<Addr, nat>, k: nat)
      returns (changes: bool, ghost picks: seq<set<int>>)
      requires forall j :: 0 <= j < |nodes| ==> NodeOk(nbrs, nodes[j])
      modifies this
      ensures nbrs.Keys == old(nbrs.Keys) && |picks| == |nodes|
      ensures forall j :: 0 <= j < |nodes| ==> Selection(nbrs, links, nodes[j], picks[j], k)
      ensures forall a :: a in nbrs ==>
                && nbrs[a].sym == old(nbrs)[a].sym && nbrs[a].willingness == old(nbrs)[a].willingness
                && nbrs[a].wasMpr == old(nbrs)[a].isMpr
                && nbrs[a].isMpr == ((nbrs[a].sym && nbrs[a].willingness == WILL_ALWAYS) || Chosen(nodes, picks, a))
      ensures changes <==> exists a :: a in nbrs && nbrs[a].isMpr && !old(nbrs)[a].isMpr
    {
      hide Selection, Chosen, InRange, NodeOk;
      ghost var t0 := nbrs;
      changes := Reset();
      picks := [];
      ghost var t1 := nbrs;
      NodesSame(t0, t1, nodes);
      ChosenStart(nodes);
      var j := 0;
      while j < |nodes|
        invariant 0 <= j <= |nodes| && |picks| == j && SameNbrs(t1, nbrs) && (changes <==> NewMpr(nbrs))
        invariant forall i :: 0 <= i < j ==> Selection(t1, links, nodes[i], picks[i], k)
        invariant forall a :: a in nbrs ==> nbrs[a].isMpr == (t1[a].isMpr || Chosen(nodes, picks, a))
      {
        hide SameNbrs, NewMpr;
        ghost var t2 := nbrs;
        NodesSame(t1, t2, nodes);
        ghost var s;
        changes, s := ServeNode(nodes[j], links, k, changes);
        SameNbrsBack(t1, t2, nbrs);
        SelectionSame(t2, t1, links, nodes[j], s, k);
        forall a ensures Chosen(nodes, picks + [s], a) <==> Chosen(nodes, picks, a) || a in Relays(nodes[j], s) {
          ChosenNext(nodes, picks, s, a);
        }
        picks := picks + [s];
        j := j + 1;
      }
      forall i | 0 <= i < |nodes| ensures Selection(nbrs, links, nodes[i], picks[i], k) {
        SelectionSame(t1, nbrs, links, nodes[i], picks[i], k);
      }
    }
  }

  /** A relay that is lost, and no new one: no change is reported. */
  method LossUnreported(a: Addr) returns (m: MprSet, changes: bool)
    ensures !changes && a in m.nbrs && m.nbrs[a].wasMpr && !m.nbrs[a].isMpr
  {
    m := new MprSet(map[a := Nbr(true, 3, true, false, false)]);
    ghost var picks;
    changes, picks := m.Calculate([], map[], 1);
    assert !Chosen([], picks, a);
  }
}
