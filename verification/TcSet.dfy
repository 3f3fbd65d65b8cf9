/**
 The link-state database of Olsrd/src/tc_set.c. C pointers are handles into the memory
 pools of entries and edges, so that a dangling or doubly freed pointer is visible.
 */
module TcSet {
  import opened Common
  import Spf

  type Ptr = nat

  datatype Prefix = Prefix(addr: Addr, len: nat)

  /** `struct tc_entry`: edge tree by destination, prefix tree, reference count. */
  datatype TcEntry = TcEntry(addr: Addr, edgeTree: map<Addr, Ptr>, prefixTree: set<Prefix>, refcount: int)

  /** `struct tc_edge_entry`. */
  datatype TcEdge = TcEdge(dest: Addr, inv: Option<Ptr>, tc: Ptr, cost: nat)

  /** The database: the vertex tree and the live blocks of both memory pools. */
  datatype Db = Db(tcTree: map<Addr, Ptr>, entries: map<Ptr, TcEntry>, edges: map<Ptr, TcEdge>)

  /* ---------- invariant ---------- */

  /** The vertex tree holds exactly the live entries, under their own addresses. */
  ghost predicate TreeOk(s: Db) {
    && (forall a :: a in s.tcTree ==> s.tcTree[a] in s.entries && s.entries[s.tcTree[a]].addr == a)
    && (forall p :: p in s.entries ==> s.entries[p].addr in s.tcTree && s.tcTree[s.entries[p].addr] == p)
  }

  /** Edge trees hold exactly the live edges. */
  ghost predicate EdgesOk(s: Db) {
    && (forall p, d :: p in s.entries && d in s.entries[p].edgeTree ==>
          var e := s.entries[p].edgeTree[d];
          e in s.edges && s.edges[e].tc == p && s.edges[e].dest == d)
    && (forall e :: e in s.edges ==>
          && s.edges[e].tc in s.entries
          && s.edges[e].dest in s.entries[s.edges[e].tc].edgeTree
          && s.entries[s.edges[e].tc].edgeTree[s.edges[e].dest] == e)
  }

  /** The stored edge from `u` to `v`, if there is one. */
  function Lookup(s: Db, u: Addr, v: Addr): Option<Ptr> {
    if u in s.tcTree && s.tcTree[u] in s.entries && v in s.entries[s.tcTree[u]].edgeTree
    then Some(s.entries[s.tcTree[u]].edgeTree[v]) else None
  }

  /** The inverse pointer of every edge is the stored edge in the other direction. */
  ghost predicate InversesOk(s: Db) {
    forall e :: e in s.edges ==>
      s.edges[e].tc in s.entries && s.edges[e].inv == Lookup(s, s.edges[e].dest, s.entries[s.edges[e].tc].addr)
  }

  /** One reference for the vertex tree, one per edge, one per prefix. */
  ghost predicate CountsOk(s: Db) {
    forall p :: p in s.entries ==>
      s.entries[p].refcount == 1 + |s.entries[p].edgeTree| + |s.entries[p].prefixTree|
  }

  ghost predicate Good(s: Db) {
    TreeOk(s) && EdgesOk(s) && InversesOk(s) && CountsOk(s)
  }

  /* ---------- what it gives ---------- */

  /** Inverse pointers are mutual, and set exactly when both directions are stored. */
  lemma InverseMutual(s: Db, e: Ptr)
    requires Good(s) && e in s.edges
    ensures var u := s.entries[s.edges[e].tc].addr;
            s.edges[e].inv.Some? <==> Lookup(s, s.edges[e].dest, u).Some?
    ensures s.edges[e].inv.Some? ==>
              var f := s.edges[e].inv.value;
              && f in s.edges && s.edges[f].inv == Some(e)
              && s.edges[f].dest == s.entries[s.edges[e].tc].addr
              && s.entries[s.edges[f].tc].addr == s.edges[e].dest
  {
  }

  /** `g` shows the database to the shortest-path run: same nodes, same edges. */
  ghost predicate Shows(s: Db, g: Spf.Graph) {
    && g.Keys == s.tcTree.Keys
    && (forall u, e :: u in g && e in g[u] ==>
          && Lookup(s, u, e.dest).Some? && Lookup(s, u, e.dest).value in s.edges
          && var k := s.edges[Lookup(s, u, e.dest).value];
             e == Spf.Edge(k.dest, k.cost, k.inv.Some?))
    && (forall u, v :: u in g && Lookup(s, u, v).Some? ==> exists e :: e in g[u] && e.dest == v)
  }

  /** A shown database has exact inverse flags, which is what the shortest-path run relies on. */
  lemma ShownInverseExact(s: Db, g: Spf.Graph)
    requires Good(s) && Shows(s, g)
    ensures Spf.InverseExact(g)
  {
    forall u, e | u in g && e in g[u] ensures e.hasInverse <==> Spf.TwoWay(g, u, e) {
      var p := Lookup(s, u, e.dest).value;
      InverseMutual(s, p);
      assert s.entries[s.edges[p].tc].addr == u;
      if Lookup(s, e.dest, u).Some? {
        assert e.dest in g;
        var f :| f in g[e.dest] && f.dest == u;
      }
      if Spf.TwoWay(g, u, e) {
        var f :| f in g[e.dest] && f.dest == u;
        assert Lookup(s, e.dest, f.dest).Some?;
      }
    }
  }

  /* ---------- the effect of the operations ---------- */

  /** `olsr_add_tc_edge_entry`: insert, lock the owner, connect to the inverse edge if stored. */
  ghost function WithEdge(s: Db, tc: Ptr, dest: Addr, cost: nat, p: Ptr): Db
    requires tc in s.entries
  {
    var t := s.entries[tc];
    var s1 := s.(entries := s.entries[tc := t.(edgeTree := t.edgeTree[dest := p], refcount := t.refcount + 1)]);
    s1.(edges := Connect(s.edges[p := TcEdge(dest, None, tc, cost)], p, Lookup(s1, dest, t.addr)))
  }

  /** Connect edge `p` and its inverse mutually, if there is one. */
  function Connect(edges: map<Ptr, TcEdge>, p: Ptr, q: Option<Ptr>): map<Ptr, TcEdge>
    requires p in edges
  {
    if q.Some? && q.value in edges then
      var e := edges[q.value := edges[q.value].(inv := Some(p))];
      e[p := e[p].(inv := q)]
    else edges
  }

  /** `olsr_delete_tc_edge_entry`: remove, unlock the owner, clear the inverse's pointer, free. */
  ghost function WithoutEdge(s: Db, p: Ptr): Db
    requires p in s.edges && s.edges[p].tc in s.entries
  {
    var e := s.edges[p];
    var t := s.entries[e.tc];
    var cleared := if e.inv.Some? && e.inv.value in s.edges
                   then s.edges[e.inv.value := s.edges[e.inv.value].(inv := None)] else s.edges;
    s.(entries := s.entries[e.tc := t.(edgeTree := t.edgeTree - {e.dest}, refcount := t.refcount - 1)],
       edges := cleared - {p})
  }

  predicate StoredAs(e: TcEdge, tc: Ptr, dest: Addr, cost: nat) {
    e.tc == tc && e.dest == dest && e.cost == cost
  }

  /** `e` and `f` belong to the same owner and destination. */
  predicate SamePlace(e: TcEdge, f: TcEdge) {
    e.tc == f.tc && e.dest == f.dest && e.cost == f.cost
  }

  lemma WithEdgeEffect(s: Db, tc: Ptr, dest: Addr, cost: nat, p: Ptr)
    requires tc in s.entries && p !in s.edges
    ensures var r, t := WithEdge(s, tc, dest, cost, p), s.entries[tc];
            && r.tcTree == s.tcTree
            && r.entries == s.entries[tc := t.(edgeTree := t.edgeTree[dest := p], refcount := t.refcount + 1)]
            && r.edges.Keys == s.edges.Keys + {p}
            && SamePlace(r.edges[p], TcEdge(dest, None, tc, cost))
            && (forall e :: e in s.edges ==> SamePlace(r.edges[e], s.edges[e]))
  {
  }

  lemma WithoutEdgeEffect(s: Db, p: Ptr)
    requires p in s.edges && s.edges[p].tc in s.entries
    ensures var r, e := WithoutEdge(s, p), s.edges[p];
            var t := s.entries[e.tc];
            && r.tcTree == s.tcTree
            && r.entries == s.entries[e.tc := t.(edgeTree := t.edgeTree - {e.dest}, refcount := t.refcount - 1)]
            && r.edges.Keys == s.edges.Keys - {p}
            && (forall x :: x in r.edges ==> SamePlace(r.edges[x], s.edges[x]))
            && (forall x :: x in r.edges ==>
                  r.edges[x].inv == if e.inv == Some(x) then None else s.edges[x].inv)
  {
  }

  /** The inverse pointers after an insertion. */
  lemma WithEdgeInverses(s: Db, tc: Ptr, dest: Addr, cost: nat, p: Ptr)
    requires TreeOk(s) && EdgesOk(s) && tc in s.entries && p !in s.edges && dest !in s.entries[tc].edgeTree
    ensures var r, q := WithEdge(s, tc, dest, cost, p), Lookup(s, dest, s.entries[tc].addr);
            && p in r.edges
            && r.edges[p].inv == (if dest == s.entries[tc].addr then Some(p) else q)
            && forall e :: e in s.edges ==>
                 && e in r.edges
                 && r.edges[e].inv == if dest != s.entries[tc].addr && q == Some(e) then Some(p) else s.edges[e].inv
  {
    hide Lookup, TreeOk, EdgesOk, Connect;
    var a, t := s.entries[tc].addr, s.entries[tc];
    var s1 := s.(entries := s.entries[tc := t.(edgeTree := t.edgeTree[dest := p], refcount := t.refcount + 1)]);
    LookupWithEdge(s, tc, dest, cost, p, dest, a);
    LookupIgnoresEdges(s1, WithEdge(s, tc, dest, cost, p), dest, a);
    StoredLive(s, dest, a);
    ConnectEffect(s.edges[p := TcEdge(dest, None, tc, cost)], p, Lookup(s1, dest, a));
  }

  lemma StoredLive(s: Db, x: Addr, y: Addr)
    requires EdgesOk(s)
    ensures Lookup(s, x, y).Some? ==> Lookup(s, x, y).value in s.edges
  {
  }

  lemma ConnectEffect(edges: map<Ptr, TcEdge>, p: Ptr, q: Option<Ptr>)
    requires p in edges && (q.Some? ==> q.value in edges)
    ensures var r := Connect(edges, p, q);
      && r.Keys == edges.Keys && r[p].inv == (if q.Some? then q else edges[p].inv)
      && (forall e :: e in edges && e != p ==> r[e].inv == if q == Some(e) then Some(p) else edges[e].inv)
  {
  }

  lemma LookupWithEdge(s: Db, tc: Ptr, dest: Addr, cost: nat, p: Ptr, x: Addr, y: Addr)
    requires TreeOk(s) && tc in s.entries
    ensures Lookup(WithEdge(s, tc, dest, cost, p), x, y) ==
            if x == s.entries[tc].addr && y == dest then Some(p) else Lookup(s, x, y)
  {
  }

  lemma LookupWithoutEdge(s: Db, p: Ptr, x: Addr, y: Addr)
    requires TreeOk(s) && p in s.edges && s.edges[p].tc in s.entries
    ensures Lookup(WithoutEdge(s, p), x, y) ==
            if x == s.entries[s.edges[p].tc].addr && y == s.edges[p].dest then None else Lookup(s, x, y)
  {
  }

  lemma AddEdgeTree(s: Db, tc: Ptr, dest: Addr, cost: nat, p: Ptr)
    requires TreeOk(s) && tc in s.entries && p !in s.edges
    ensures TreeOk(WithEdge(s, tc, dest, cost, p))
  {
    hide WithEdge;
    WithEdgeEffect(s, tc, dest, cost, p);
  }

  lemma AddEdgeEdges(s: Db, tc: Ptr, dest: Addr, cost: nat, p: Ptr)
    requires EdgesOk(s) && tc in s.entries && dest !in s.entries[tc].edgeTree && p !in s.edges
    ensures EdgesOk(WithEdge(s, tc, dest, cost, p))
  {
    hide WithEdge;
    WithEdgeEffect(s, tc, dest, cost, p);
  }

  lemma AddEdgeCounts(s: Db, tc: Ptr, dest: Addr, cost: nat, p: Ptr)
    requires CountsOk(s) && tc in s.entries && dest !in s.entries[tc].edgeTree && p !in s.edges
    ensures CountsOk(WithEdge(s, tc, dest, cost, p))
  {
    hide WithEdge;
    WithEdgeEffect(s, tc, dest, cost, p);
    PutSize(s.entries[tc].edgeTree, dest, p);
  }

  lemma AddEdgeGood(s: Db, tc: Ptr, dest: Addr, cost: nat, p: Ptr)
    requires Good(s) && tc in s.entries && dest !in s.entries[tc].edgeTree && p !in s.edges
    ensures Good(WithEdge(s, tc, dest, cost, p))
  {
    hide WithEdge, CountsOk;
    AddEdgeTree(s, tc, dest, cost, p);
    AddEdgeEdges(s, tc, dest, cost, p);
    AddEdgeCounts(s, tc, dest, cost, p);
    WithEdgeEffect(s, tc, dest, cost, p);
    WithEdgeInverses(s, tc, dest, cost, p);
    var r, u := WithEdge(s, tc, dest, cost, p), s.entries[tc].addr;
    forall e | e in r.edges
      ensures r.edges[e].tc in r.entries
      ensures r.edges[e].inv == Lookup(r, r.edges[e].dest, r.entries[r.edges[e].tc].addr)
    {
      LookupWithEdge(s, tc, dest, cost, p, r.edges[e].dest, r.entries[r.edges[e].tc].addr);
    }
  }

  lemma DeleteEdgeTree(s: Db, p: Ptr)
    requires TreeOk(s) && p in s.edges && s.edges[p].tc in s.entries
    ensures TreeOk(WithoutEdge(s, p))
  {
    hide WithoutEdge;
    WithoutEdgeEffect(s, p);
  }

  lemma DeleteEdgeEdges(s: Db, p: Ptr)
    requires EdgesOk(s) && p in s.edges
    ensures EdgesOk(WithoutEdge(s, p))
  {
    hide WithoutEdge;
    WithoutEdgeEffect(s, p);
    var r, k := WithoutEdge(s, p), s.edges[p];
    forall e | e in r.edges
      ensures r.edges[e].tc in r.entries
      ensures r.edges[e].dest in r.entries[r.edges[e].tc].edgeTree
      ensures r.entries[r.edges[e].tc].edgeTree[r.edges[e].dest] == e
    {
      assert SamePlace(r.edges[e], s.edges[e]);
    }
    forall x, d | x in r.entries && d in r.entries[x].edgeTree
      ensures var e := r.entries[x].edgeTree[d];
              e in r.edges && r.edges[e].tc == x && r.edges[e].dest == d
    {
      assert d in s.entries[x].edgeTree;
    }
  }

  lemma DeleteEdgeCounts(s: Db, p: Ptr)
    requires EdgesOk(s) && CountsOk(s) && p in s.edges
    ensures CountsOk(WithoutEdge(s, p))
  {
    hide WithoutEdge;
    WithoutEdgeEffect(s, p);
    DropSize(s.entries[s.edges[p].tc].edgeTree, s.edges[p].dest);
  }

  lemma DeleteEdgeGood(s: Db, p: Ptr)
    requires Good(s) && p in s.edges
    ensures Good(WithoutEdge(s, p))
  {
    hide WithoutEdge, CountsOk;
    DeleteEdgeTree(s, p);
    DeleteEdgeEdges(s, p);
    DeleteEdgeCounts(s, p);
    WithoutEdgeEffect(s, p);
    var r := WithoutEdge(s, p);
    InverseMutual(s, p);
    forall e | e in r.edges
      ensures r.edges[e].tc in r.entries
      ensures r.edges[e].inv == Lookup(r, r.edges[e].dest, r.entries[r.edges[e].tc].addr)
    {
      LookupWithoutEdge(s, p, r.edges[e].dest, r.entries[r.edges[e].tc].addr);
    }
  }

  /** Inverse pointers stay exact when no edge and no lookup changes. */
  lemma SameLookups(s: Db, r: Db)
    requires InversesOk(s) && r.edges == s.edges
    requires forall e :: e in s.edges ==>
               s.edges[e].tc in r.entries && r.entries[s.edges[e].tc].addr == s.entries[s.edges[e].tc].addr
    requires forall x, y :: Lookup(r, x, y) == Lookup(s, x, y)
    ensures InversesOk(r)
  {
    hide Lookup;
  }

  lemma NewEntryShape(s: Db, r: Db, a: Addr, p: Ptr)
    requires TreeOk(s) && EdgesOk(s) && a !in s.tcTree && p !in s.entries
    requires r == Db(s.tcTree[a := p], s.entries[p := TcEntry(a, map[], {}, 1)], s.edges)
    ensures TreeOk(r) && EdgesOk(r)
    ensures forall x, y :: Lookup(r, x, y) == Lookup(s, x, y)
  {
    hide TreeOk, EdgesOk, Lookup;
    NewEntryTree(s, r, a, p);
    NewEntryEdges(s, r, a, p);
    forall x, y ensures Lookup(r, x, y) == Lookup(s, x, y) {
      NewEntryLookup(s, r, a, p, x, y);
    }
  }

  lemma NewEntryTree(s: Db, r: Db, a: Addr, p: Ptr)
    requires TreeOk(s) && a !in s.tcTree && p !in s.entries
    requires r == Db(s.tcTree[a := p], s.entries[p := TcEntry(a, map[], {}, 1)], s.edges)
    ensures TreeOk(r)
  {
  }

  lemma NewEntryEdges(s: Db, r: Db, a: Addr, p: Ptr)
    requires EdgesOk(s) && p !in s.entries
    requires r == Db(s.tcTree[a := p], s.entries[p := TcEntry(a, map[], {}, 1)], s.edges)
    ensures EdgesOk(r)
  {
  }

  lemma NewEntryLookup(s: Db, r: Db, a: Addr, p: Ptr, x: Addr, y: Addr)
    requires TreeOk(s) && a !in s.tcTree && p !in s.entries
    requires r == Db(s.tcTree[a := p], s.entries[p := TcEntry(a, map[], {}, 1)], s.edges)
    ensures Lookup(r, x, y) == Lookup(s, x, y)
  {
  }

  lemma NewEntryGood(s: Db, r: Db, a: Addr, p: Ptr)
    requires Good(s) && a !in s.tcTree && p !in s.entries
    requires r == Db(s.tcTree[a := p], s.entries[p := TcEntry(a, map[], {}, 1)], s.edges)
    ensures Good(r)
  {
    hide TreeOk, Lookup;
    NewEntryShape(s, r, a, p);
    SameLookups(s, r);
  }

  lemma DropEntryShape(s: Db, r: Db, tc: Ptr)
    requires TreeOk(s) && EdgesOk(s) && tc in s.entries && s.entries[tc].edgeTree == map[]
    requires r == Db(s.tcTree - {s.entries[tc].addr}, s.entries - {tc}, s.edges)
    ensures TreeOk(r) && EdgesOk(r)
    ensures forall x, y :: Lookup(r, x, y) == Lookup(s, x, y)
  {
  }

  /** An entry without edges can leave the tree and the pool. */
  lemma DropEntryGood(s: Db, r: Db, tc: Ptr)
    requires Good(s) && tc in s.entries && s.entries[tc].edgeTree == map[]
    requires r == Db(s.tcTree - {s.entries[tc].addr}, s.entries - {tc}, s.edges)
    ensures Good(r)
  {
    hide TreeOk, Lookup;
    DropEntryShape(s, r, tc);
    SameLookups(s, r);
  }

  lemma PrefixShape(s: Db, r: Db, tc: Ptr, t: TcEntry)
    requires TreeOk(s) && EdgesOk(s) && tc in s.entries && r == s.(entries := s.entries[tc := t])
    requires t.addr == s.entries[tc].addr && t.edgeTree == s.entries[tc].edgeTree
    ensures TreeOk(r) && EdgesOk(r)
    ensures forall x, y :: Lookup(r, x, y) == Lookup(s, x, y)
  {
  }

  /** Adding or removing a prefix together with its reference. */
  lemma PrefixGood(s: Db, r: Db, tc: Ptr, t: TcEntry)
    requires Good(s) && tc in s.entries && r == s.(entries := s.entries[tc := t])
    requires t.addr == s.entries[tc].addr && t.edgeTree == s.entries[tc].edgeTree
    requires t.refcount == 1 + |t.edgeTree| + |t.prefixTree|
    ensures Good(r)
  {
    hide TreeOk, Lookup;
    PrefixShape(s, r, tc, t);
    SameLookups(s, r);
  }

  /* ---------- the operations ---------- */

  /** Live blocks were handed out and not given back; entry and edge blocks are distinct. */
  ghost predicate PoolsOk(entries: set<Ptr>, edges: set<Ptr>, freed: set<Ptr>, nextPtr: Ptr) {
    && (forall p :: p in entries ==> p < nextPtr && p !in edges && p !in freed)
    && (forall p :: p in edges ==> p < nextPtr && p !in freed)
    && (forall p :: p in freed ==> p < nextPtr)
  }

  lemma PoolsAfter(entries: set<Ptr>, edges: set<Ptr>, freed: set<Ptr>, nextPtr: Ptr, p: Ptr)
    requires PoolsOk(entries, edges, freed, nextPtr)
    ensures nextPtr !in entries && nextPtr !in edges
    ensures PoolsOk(entries + {nextPtr}, edges, freed, nextPtr + 1)
    ensures PoolsOk(entries, edges + {nextPtr}, freed, nextPtr + 1)
    ensures p in entries ==> p !in freed && PoolsOk(entries - {p}, edges, freed + {p}, nextPtr)
    ensures p in edges ==> p !in freed && PoolsOk(entries, edges - {p}, freed + {p}, nextPtr)
  {
  }

  /** Only edges of `tc` are gone; the others keep owner, destination and cost. */
  ghost predicate EdgesKept(before: map<Ptr, TcEdge>, after: map<Ptr, TcEdge>, tc: Ptr) {
    && (forall x :: x in after ==> x in before && SamePlace(after[x], before[x]))
    && (forall x :: x in before && before[x].tc != tc ==> x in after)
  }

  lemma NoEdgeLeft(s: Db, tc: Ptr)
    requires Good(s) && tc in s.entries && s.entries[tc].edgeTree == map[]
    ensures forall x :: x in s.edges ==> s.edges[x].tc != tc
  {
  }

  class Lsdb {
    var tcTree: map<Addr, Ptr>
    var entries: map<Ptr, TcEntry>
    var edges: map<Ptr, TcEdge>
    var nextPtr: Ptr
    ghost var freed: set<Ptr>       // blocks given back

    ghost function St(): Db reads this {
      Db(tcTree, entries, edges)
    }

    ghost predicate Memory() reads this {
      PoolsOk(entries.Keys, edges.Keys, freed, nextPtr)
    }

    ghost predicate Valid() reads this {
      Good(St()) && Memory()
    }

    constructor ()
      ensures Valid() && tcTree == map[]
    {
      tcTree, entries, edges, nextPtr, freed := map[], map[], map[], 0, {};
    }

    /** `olsr_lock_tc_entry`. */
    method LockEntry(tc: Ptr)
      requires tc in entries
      modifies this`entries
      ensures entries == old(entries)[tc := old(entries[tc]).(refcount := old(entries[tc].refcount) + 1)]
    {
      entries := entries[tc := entries[tc].(refcount := entries[tc].refcount + 1)];
    }

    /**
     `olsr_unlock_tc_entry`: the last reference may only go when the entry has left the
     vertex tree and both of its subtrees are empty; then the block is given back, once.
     */
    method UnlockEntry(tc: Ptr)
      requires Memory() && tc in entries && entries[tc].refcount >= 1
      requires entries[tc].refcount == 1 ==>
                 && (forall a :: a in tcTree ==> tcTree[a] != tc)
                 && entries[tc].edgeTree == map[] && entries[tc].prefixTree == {}
      modifies this`entries, this`freed
      ensures Memory()
      ensures old(entries[tc].refcount) == 1 ==>
                tc !in old(freed) && entries == old(entries) - {tc} && freed == old(freed) + {tc}
      ensures old(entries[tc].refcount) != 1 ==>
                && freed == old(freed)
                && entries == old(entries)[tc := old(entries[tc]).(refcount := old(entries[tc].refcount) - 1)]
    {
      hide PoolsOk;
      PoolsAfter(entries.Keys, edges.Keys, freed, nextPtr, tc);
      assert entries[tc := entries[tc].(refcount := entries[tc].refcount - 1)].Keys == entries.Keys;
      entries := entries[tc := entries[tc].(refcount := entries[tc].refcount - 1)];
      if entries[tc].refcount != 0 {
        return;
      }
      assert (entries - {tc}).Keys == entries.Keys - {tc};
      entries := entries - {tc};
      freed := freed + {tc};
    }

    /** `olsr_add_tc_edge_entry`. */
    method AddEdge(tc: Ptr, dest: Addr, cost: nat) returns (p: Ptr)
      requires Valid() && tc in entries && dest !in entries[tc].edgeTree
      modifies this
      ensures Valid() && p !in old(edges) && St() == WithEdge(old(St()), tc, dest, cost, p)
      ensures edges.Keys == old(edges.Keys) + {p} && StoredAs(edges[p], tc, dest, cost)
      ensures forall x :: x in old(edges) ==> StoredAs(edges[x], old(edges)[x].tc, old(edges)[x].dest, old(edges)[x].cost)
      ensures tcTree == old(tcTree) && freed == old(freed)
      ensures entries == old(entries)[tc := TcEntry(old(entries[tc].addr), old(entries[tc].edgeTree)[dest := p],
                                                    old(entries[tc].prefixTree), old(entries[tc].refcount) + 1)]
    {
      hide Good, PoolsOk, Lookup, Connect, WithEdge;
      PoolsAfter(entries.Keys, edges.Keys, freed, nextPtr, nextPtr);
      WithEdgeEffect(St(), tc, dest, cost, nextPtr);
      p := nextPtr;
      nextPtr := nextPtr + 1;
      AddEdgeGood(St(), tc, dest, cost, p);
      ghost var s := St();
      edges := edges[p := TcEdge(dest, None, tc, cost)];
      entries := entries[tc := entries[tc].(edgeTree := entries[tc].edgeTree[dest := p])];
      LockEntry(tc);
      assert entries.Keys == s.entries.Keys && edges.Keys == s.edges.Keys + {p};
      InsertedIs(s, St(), tc, dest, cost, p);
      ConnectInverse(p, Lookup(Db(tcTree, entries, edges), dest, entries[tc].addr));
    }

    /** The short cuts between an edge and its inverse, where both are stored. */
    method ConnectInverse(p: Ptr, inverse: Option<Ptr>)
      requires p in edges && (inverse.Some? ==> inverse.value in edges)
      modifies this`edges
      ensures edges == Connect(old(edges), p, inverse) && edges.Keys == old(edges.Keys)
    {
      if inverse.Some? {
        edges := edges[inverse.value := edges[inverse.value].(inv := Some(p))];
        edges := edges[p := edges[p].(inv := inverse)];
      }
    }

    /** `olsr_delete_tc_edge_entry`. */
    method DeleteEdge(p: Ptr)
      requires Valid() && p in edges
      modifies this`entries, this`edges, this`freed
      ensures Valid() && St() == WithoutEdge(old(St()), p)
      ensures freed == old(freed) + {p} && p !in old(freed) && edges.Keys == old(edges.Keys) - {p}
      ensures forall x :: x in edges ==> StoredAs(edges[x], old(edges)[x].tc, old(edges)[x].dest, old(edges)[x].cost)
      ensures entries.Keys == old(entries.Keys)
      ensures forall t :: t in entries && t != old(edges)[p].tc ==> entries[t] == old(entries)[t]
      ensures var t := old(edges)[p].tc;
        t in entries && entries[t].edgeTree == old(entries)[t].edgeTree - {old(edges)[p].dest}
    {
      hide Good, Lookup, PoolsOk;
      ghost var s := St();
      PoolsAfter(entries.Keys, edges.Keys, freed, nextPtr, p);
      DeleteEdgeGood(s, p);
      EdgeIsCounted(s, p);
      WithoutEdgeEffect(s, p);
      var e := edges[p];
      entries := entries[e.tc := entries[e.tc].(edgeTree := entries[e.tc].edgeTree - {e.dest})];
      assert entries.Keys == s.entries.Keys;
      UnlockEntry(e.tc);
      if e.inv.Some? {
        edges := edges[e.inv.value := edges[e.inv.value].(inv := None)];
      }
      edges := edges - {p};
      freed := freed + {p};
      assert entries.Keys == s.entries.Keys && edges.Keys == s.edges.Keys - {p};
      assert St() == WithoutEdge(s, p);
    }

    /** `olsr_insert_routing_table` on an entry: a new prefix of legal length takes a reference. */
    method InsertPrefix(tc: Ptr, pfx: Prefix, maxplen: nat)
      requires Valid() && tc in entries
      modifies this`entries
      ensures Valid() && entries.Keys == old(entries.Keys)
      ensures entries[tc].addr == old(entries[tc].addr) && entries[tc].edgeTree == old(entries[tc].edgeTree)
      ensures pfx.len > maxplen ==> entries == old(entries)
      ensures pfx.len <= maxplen ==> entries[tc].prefixTree == old(entries[tc].prefixTree) + {pfx}
      ensures forall p :: p in entries && p != tc ==> entries[p] == old(entries)[p]
    {
      hide Good, PoolsOk;
      if pfx.len > maxplen {
        return;
      }
      if pfx !in entries[tc].prefixTree {
        ghost var s := St();
        entries := entries[tc := entries[tc].(prefixTree := entries[tc].prefixTree + {pfx})];
        LockEntry(tc);
        GoodCounts(s, tc);
        assert entries.Keys == s.entries.Keys;
        PrefixGood(s, St(), tc, entries[tc]);
      }
    }

    /** The link-state part of `olsr_delete_rt_path`: the prefix gives its reference back. */
    method DeletePrefix(tc: Ptr, pfx: Prefix)
      requires Valid() && tc in entries && pfx in entries[tc].prefixTree
      modifies this`entries, this`freed
      ensures Valid() && entries.Keys == old(entries.Keys) && freed == old(freed)
      ensures entries[tc].addr == old(entries[tc].addr) && entries[tc].edgeTree == old(entries[tc].edgeTree)
      ensures entries[tc].prefixTree == old(entries[tc].prefixTree) - {pfx}
      ensures forall p :: p in entries && p != tc ==> entries[p] == old(entries)[p]
    {
      hide Good, PoolsOk;
      ghost var s := St();
      GoodCounts(s, tc);
      entries := entries[tc := entries[tc].(prefixTree := entries[tc].prefixTree - {pfx})];
      assert entries.Keys == s.entries.Keys;
      UnlockEntry(tc);
      assert entries.Keys == s.entries.Keys;
      PrefixGood(s, St(), tc, entries[tc]);
    }

    /** `olsr_add_tc_entry`; refused while we have no main address. */
    method AddEntry(a: Addr, maxplen: nat, haveMainAddr: bool) returns (r: Option<Ptr>)
      requires Valid() && a !in tcTree
      modifies this
      ensures Valid() && (r.Some? <==> haveMainAddr) && freed == old(freed)
      ensures r.None? ==> St() == old(St()) && nextPtr == old(nextPtr)
      ensures r.Some? ==>
                && tcTree == old(tcTree)[a := r.value] && r.value !in old(entries) && edges == old(edges)
                && entries.Keys == old(entries.Keys) + {r.value}
                && entries[r.value] == TcEntry(a, map[], {Prefix(a, maxplen)}, 2)
                && forall p :: p in old(entries) ==> entries[p] == old(entries)[p]
    {
      hide Good, PoolsOk;
      if !haveMainAddr {
        return None;
      }
      ghost var s := St();
      PoolsAfter(entries.Keys, edges.Keys, freed, nextPtr, nextPtr);
      var tc := nextPtr;
      nextPtr := nextPtr + 1;
      entries := entries[tc := TcEntry(a, map[], {}, 0)];
      tcTree := tcTree[a := tc];
      LockEntry(tc);
      assert entries.Keys == s.entries.Keys + {tc};
      NewEntryGood(s, St(), a, tc);
      InsertPrefix(tc, Prefix(a, maxplen), maxplen);
      GoodCounts(St(), tc);
      r := Some(tc);
    }

    /** Everything but the subtrees of `tc` is as in `all`. */
    ghost predicate OthersAs(all: map<Ptr, TcEntry>, tc: Ptr) reads this {
      && entries.Keys == all.Keys && tc in entries && entries[tc].addr == all[tc].addr
      && forall p :: p in entries && p != tc ==> entries[p] == all[p]
    }

    method DeleteAllEdges(tc: Ptr)
      requires Valid() && tc in entries
      modifies this`entries, this`edges, this`freed
      ensures Valid() && OthersAs(old(entries), tc)
      ensures entries[tc].edgeTree == map[] && EdgesKept(old(edges), edges, tc)
      ensures freed == old(freed) + (old(edges.Keys) - edges.Keys)
    {
      hide Good, WithoutEdge, PoolsOk;
      ghost var all := entries;
      while entries[tc].edgeTree != map[]
        invariant Valid() && OthersAs(all, tc) && nextPtr == old(nextPtr) && tcTree == old(tcTree)
        invariant EdgesKept(old(edges), edges, tc)
        invariant freed == old(freed) + (old(edges.Keys) - edges.Keys)
        decreases |entries[tc].edgeTree|
      {
        var d :| d in entries[tc].edgeTree;
        var e := entries[tc].edgeTree[d];
        TreeEdgeLive(St(), tc, d);
        WithoutEdgeEffect(St(), e);
        DropSize(entries[tc].edgeTree, d);
        DeleteEdge(e);
      }
    }

    method DeleteAllPrefixes(tc: Ptr)
      requires Valid() && tc in entries && entries[tc].edgeTree == map[]
      modifies this`entries, this`freed
      ensures Valid() && OthersAs(old(entries), tc) && freed == old(freed)
      ensures entries[tc].edgeTree == map[] && entries[tc].prefixTree == {}
    {
      hide Good, PoolsOk;
      ghost var all := entries;
      while entries[tc].prefixTree != {}
        invariant Valid() && OthersAs(all, tc) && freed == old(freed)
        invariant entries[tc].edgeTree == map[]
        decreases |entries[tc].prefixTree|
      {
        var pfx :| pfx in entries[tc].prefixTree;
        DeletePrefix(tc, pfx);
      }
    }

    method EmptySubtrees(tc: Ptr, maxplen: nat)
      requires Valid() && tc in entries
      modifies this`entries, this`edges, this`freed
      ensures Valid() && OthersAs(old(entries), tc)
      ensures entries[tc].edgeTree == map[] && entries[tc].prefixTree == {} && EdgesKept(old(edges), edges, tc)
      ensures freed == old(freed) + (old(edges.Keys) - edges.Keys)
    {
      hide Good, PoolsOk;
      if Prefix(entries[tc].addr, maxplen) in entries[tc].prefixTree {
        DeletePrefix(tc, Prefix(entries[tc].addr, maxplen));
      }
      DeleteAllEdges(tc);
      DeleteAllPrefixes(tc);
    }

    /** Leaving the vertex tree and dropping the last reference gives the block back. */
    method DropEntry(tc: Ptr)
      requires Valid() && tc in entries && entries[tc].edgeTree == map[] && entries[tc].prefixTree == {}
      modifies this`tcTree, this`entries, this`freed
      ensures Valid() && tcTree == old(tcTree) - {old(entries[tc].addr)}
      ensures entries == old(entries) - {tc} && freed == old(freed) + {tc} && tc !in old(freed)
    {
      hide Good, PoolsOk;
      ghost var s := St();
      GoodCounts(s, tc);
      OnlyOwnAddress(s, tc);
      tcTree := tcTree - {entries[tc].addr};
      UnlockEntry(tc);
      DropEntryGood(s, St(), tc);
    }

    /** `olsr_delete_tc_entry`: empty both subtrees, leave the vertex tree, drop the last reference. */
    method DeleteEntry(tc: Ptr, maxplen: nat)
      requires Valid() && tc in entries
      modifies this`tcTree, this`entries, this`edges, this`freed
      ensures Valid() && tc !in old(freed) && freed == old(freed) + (old(edges.Keys) - edges.Keys) + {tc}
      ensures tcTree == old(tcTree) - {old(entries[tc].addr)}
      ensures entries == old(entries) - {tc}
      ensures EdgesKept(old(edges), edges, tc) && forall x :: x in edges ==> edges[x].tc != tc
    {
      hide Good, PoolsOk;
      PoolsAfter(entries.Keys, edges.Keys, freed, nextPtr, tc);
      ghost var all := entries;
      EmptySubtrees(tc, maxplen);
      NoEdgeLeft(St(), tc);
      DropEntry(tc);
      assert entries == all - {tc};
    }
  }

  lemma GoodCounts(s: Db, tc: Ptr)
    requires Good(s) && tc in s.entries
    ensures s.entries[tc].refcount == 1 + |s.entries[tc].edgeTree| + |s.entries[tc].prefixTree|
  {
  }

  lemma TreeEdgeLive(s: Db, tc: Ptr, d: Addr)
    requires Good(s) && tc in s.entries && d in s.entries[tc].edgeTree
    ensures var e := s.entries[tc].edgeTree[d];
            e in s.edges && s.edges[e].tc == tc && s.edges[e].dest == d
  {
  }

  lemma OnlyOwnAddress(s: Db, tc: Ptr)
    requires Good(s) && tc in s.entries
    ensures forall a :: a in s.tcTree && s.tcTree[a] == tc ==> a == s.entries[tc].addr
  {
  }

  /** Insertion and lock done, `r` lacks only the connection to the inverse. */
  lemma InsertedIs(s: Db, r: Db, tc: Ptr, dest: Addr, cost: nat, p: Ptr)
    requires Good(s) && tc in s.entries && p !in s.edges && r.tcTree == s.tcTree
    requires r.edges == s.edges[p := TcEdge(dest, None, tc, cost)]
    requires var t := s.entries[tc];
             r.entries == s.entries[tc := t.(edgeTree := t.edgeTree[dest := p], refcount := t.refcount + 1)]
    ensures var q := Lookup(r, dest, r.entries[tc].addr);
            && (q.Some? ==> q.value in r.edges)
            && r.(edges := Connect(r.edges, p, q)) == WithEdge(s, tc, dest, cost, p)
  {
    hide Connect, Lookup, Good, WithEdge;
    InsertedEqual(s, r, tc, dest, cost, p);
    InsertedLive(s, r, tc, dest, cost, p);
  }

  lemma InsertedEqual(s: Db, r: Db, tc: Ptr, dest: Addr, cost: nat, p: Ptr)
    requires tc in s.entries && r.tcTree == s.tcTree && r.edges == s.edges[p := TcEdge(dest, None, tc, cost)]
    requires var t := s.entries[tc];
             r.entries == s.entries[tc := t.(edgeTree := t.edgeTree[dest := p], refcount := t.refcount + 1)]
    ensures r.(edges := Connect(r.edges, p, Lookup(r, dest, s.entries[tc].addr))) == WithEdge(s, tc, dest, cost, p)
  {
    hide Connect, Lookup;
    LookupIgnoresEdges(s.(entries := r.entries), r, dest, s.entries[tc].addr);
  }

  lemma InsertedLive(s: Db, r: Db, tc: Ptr, dest: Addr, cost: nat, p: Ptr)
    requires Good(s) && tc in s.entries && p !in s.edges && r.tcTree == s.tcTree
    requires r.edges == s.edges[p := TcEdge(dest, None, tc, cost)]
    requires var t := s.entries[tc];
             r.entries == s.entries[tc := t.(edgeTree := t.edgeTree[dest := p], refcount := t.refcount + 1)]
    ensures var q := Lookup(r, dest, s.entries[tc].addr); q.Some? ==> q.value in r.edges
  {
    hide Connect, Lookup, Good, WithEdge;
    var a := s.entries[tc].addr;
    GoodTree(s);
    WithEdgeEffect(s, tc, dest, cost, p);
    LookupWithEdge(s, tc, dest, cost, p, dest, a);
    LookupIgnoresEdges(r, WithEdge(s, tc, dest, cost, p), dest, a);
    LookupLive(s, dest, a);
  }

  lemma GoodTree(s: Db)
    requires Good(s)
    ensures TreeOk(s)
  {
  }

  lemma LookupIgnoresEdges(s: Db, r: Db, x: Addr, y: Addr)
    requires r.tcTree == s.tcTree && r.entries == s.entries
    ensures Lookup(r, x, y) == Lookup(s, x, y)
  {
  }

  lemma LookupLive(s: Db, x: Addr, y: Addr)
    requires Good(s)
    ensures Lookup(s, x, y).Some? ==> Lookup(s, x, y).value in s.edges
  {
  }

  /** The owner of an edge has a reference for it beside that of the vertex tree. */
  lemma EdgeIsCounted(s: Db, p: Ptr)
    requires Good(s) && p in s.edges
    ensures s.edges[p].tc in s.entries && s.entries[s.edges[p].tc].refcount >= 2
    ensures s.edges[p].inv.Some? ==> s.edges[p].inv.value in s.edges
  {
    var t := s.entries[s.edges[p].tc].edgeTree;
    DropSize(t, s.edges[p].dest);
  }
}
