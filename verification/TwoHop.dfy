/**
 The one-hop and two-hop neighbour tables and the lists that join them:
 Olsrd/src/neighbor_table.c, Olsrd/src/two_hop_neighbor_table.c and the HELLO
 processing of Olsrd/src/process_package.c.
 */
module TwoHop {
  import opened Common
  import LqMpr

  /** An entry of a two-hop node's list of connecting neighbours. */
  datatype Conn = Conn(nbr: Addr, path: nat)

  /** A two-hop node; `pointer` is its hand-kept count of connecting neighbours. */
  datatype Node = Node(conns: seq<Conn>, pointer: int)

  /** `nbrs` holds each neighbour's list of two-hop nodes, `twos` the two-hop table. */
  datatype Tables = Tables(nbrs: map<Addr, seq<Addr>>, twos: map<Addr, Node>)

  /* ---- lists of connecting neighbours ---- */

  function PathOf(c: seq<Conn>, n: Addr): Option<nat> {
    if c == [] then None else if c[0].nbr == n then Some(c[0].path) else PathOf(c[1..], n)
  }

  predicate Distinct(c: seq<Conn>) {
    c == [] || (PathOf(c[1..], c[0].nbr).None? && Distinct(c[1..]))
  }

  /** `olsr_delete_neighbor_pointer`: every entry of the neighbour is unlinked. */
  function DropNbr(c: seq<Conn>, n: Addr): seq<Conn> {
    if c == [] then [] else if c[0].nbr == n then DropNbr(c[1..], n) else [c[0]] + DropNbr(c[1..], n)
  }

  /** Apply `f` to the entries of one neighbour. */
  function SetPath(c: seq<Conn>, n: Addr, f: Conn -> Conn): seq<Conn> {
    if c == [] then [] else [if c[0].nbr == n then f(c[0]) else c[0]] + SetPath(c[1..], n, f)
  }

  lemma {:induction false} DropEffect(c: seq<Conn>, n: Addr)
    ensures PathOf(DropNbr(c, n), n) == None
    ensures forall m :: m != n ==> PathOf(DropNbr(c, n), m) == PathOf(c, m)
    ensures Distinct(c) ==> Distinct(DropNbr(c, n))
    ensures Distinct(c) ==> |DropNbr(c, n)| == |c| - if PathOf(c, n).Some? then 1 else 0
  {
    if c != [] {
      DropEffect(c[1..], n);
      var d := DropNbr(c[1..], n);
      assert ([c[0]] + d)[1..] == d;
    }
  }

  lemma ConsEffect(x: Conn, c: seq<Conn>)
    ensures PathOf([x] + c, x.nbr) == Some(x.path)
    ensures forall m :: m != x.nbr ==> PathOf([x] + c, m) == PathOf(c, m)
    ensures Distinct([x] + c) <==> PathOf(c, x.nbr).None? && Distinct(c)
    ensures c == [] ==> Distinct(c) && forall m :: PathOf(c, m) == None
  {
    assert ([x] + c)[1..] == c;
  }

  ghost predicate KeepsNbr(f: Conn -> Conn) {
    forall x :: f(x).nbr == x.nbr
  }

  lemma {:induction false} SetEffect(c: seq<Conn>, n: Addr, f: Conn -> Conn)
    requires KeepsNbr(f)
    ensures |SetPath(c, n, f)| == |c|
    ensures forall m :: PathOf(SetPath(c, n, f), m).Some? <==> PathOf(c, m).Some?
    ensures forall m :: m != n ==> PathOf(SetPath(c, n, f), m) == PathOf(c, m)
    ensures Distinct(c) ==> Distinct(SetPath(c, n, f))
  {
    if c != [] {
      SetEffect(c[1..], n, f);
      assert SetPath(c, n, f)[1..] == SetPath(c[1..], n, f);
    }
  }

  /** Distinct connectors, read by position. */
  lemma {:induction false} DistinctAt(c: seq<Conn>, i: nat, j: nat)
    requires Distinct(c) && i < j < |c|
    ensures c[i].nbr != c[j].nbr && PathOf(c, c[j].nbr).Some?
  {
    if i == 0 {
      PathAt(c[1..], j - 1);
      assert c[1..][j - 1] == c[j];
    } else {
      DistinctAt(c[1..], i - 1, j - 1);
      assert c[1..][j - 1] == c[j] && c[1..][i - 1] == c[i];
    }
  }

  lemma {:induction false} PathAt(c: seq<Conn>, i: nat)
    requires i < |c|
    ensures PathOf(c, c[i].nbr).Some?
  {
    if i > 0 {
      PathAt(c[1..], i - 1);
      assert c[1..][i - 1] == c[i];
    }
  }

  /* ---- the invariant ---- */

  predicate Linked(s: Tables, n: Addr, t: Addr) {
    n in s.nbrs && t in s.nbrs[n]
  }

  function Path(s: Tables, n: Addr, t: Addr): Option<nat> {
    if t in s.twos then PathOf(s.twos[t].conns, n) else None
  }

  /** The lists are mirror images of each other. */
  ghost predicate Mirrored(s: Tables) {
    forall n, t :: Linked(s, n, t) <==> Path(s, n, t).Some?
  }

  ghost predicate ListsOk(s: Tables) {
    forall n :: n in s.nbrs ==> NoDup(s.nbrs[n])
  }

  /** The hand-kept count is the length of the list, and no node without connectors is kept. */
  ghost predicate CountsOk(s: Tables) {
    forall t :: t in s.twos ==> Distinct(s.twos[t].conns) && s.twos[t].pointer == |s.twos[t].conns| && s.twos[t].pointer > 0
  }

  ghost predicate Good(s: Tables) {
    Mirrored(s) && ListsOk(s) && CountsOk(s)
  }

  /** A two-hop node is in the table exactly while some neighbour's list names it. */
  lemma InTableIffLinked(s: Tables, t: Addr)
    requires Good(s)
    ensures t in s.twos <==> exists n :: Linked(s, n, t)
  {
    if t in s.twos {
      var n := s.twos[t].conns[0].nbr;
      assert Path(s, n, t).Some?;
      assert Linked(s, n, t);
    }
    if n :| Linked(s, n, t) {
      assert Path(s, n, t).Some?;
    }
  }

  /** The relay selection finds each connecting neighbour in the table, and only once per node. */
  lemma RelayListsOk(s: Tables, nbrs: LqMpr.Nbrs, t: Addr, n: LqMpr.TwoHopNode)
    requires Good(s) && s.nbrs.Keys <= nbrs.Keys && t in s.twos && |n.conns| == |s.twos[t].conns|
    requires forall i :: 0 <= i < |n.conns| ==> n.conns[i].nbr == s.twos[t].conns[i].nbr
    ensures LqMpr.NodeOk(nbrs, n)
  {
    var c := s.twos[t].conns;
    forall i | 0 <= i < |n.conns| ensures n.conns[i].nbr in nbrs {
      PathAt(c, i);
      assert Path(s, c[i].nbr, t).Some?;
      assert Linked(s, c[i].nbr, t);
    }
    forall i, j | 0 <= i < j < |n.conns| ensures n.conns[i].nbr != n.conns[j].nbr {
      DistinctAt(c, i, j);
    }
  }

  /* ---- linking and unlinking one pair ---- */

  const NEW_COST := LINK_COST_BROKEN

  /** `linking_this_2_entries`, creating the two-hop node first if need be. */
  function Join(s: Tables, n: Addr, t: Addr): Tables
    requires n in s.nbrs
  {
    var node := if t in s.twos then s.twos[t] else Node([], 0);
    Tables(s.nbrs[n := [t] + s.nbrs[n]],
           s.twos[t := Node([Conn(n, NEW_COST)] + node.conns, node.pointer + 1)])
  }

  /** Taking one pair apart; the two-hop node goes when its count reaches zero. */
  function Part(s: Tables, n: Addr, t: Addr): Tables
    requires Linked(s, n, t) && t in s.twos
  {
    var node := Node(DropNbr(s.twos[t].conns, n), s.twos[t].pointer - 1);
    Tables(s.nbrs[n := Remove(s.nbrs[n], t)], if node.pointer < 1 then s.twos - {t} else s.twos[t := node])
  }

  lemma JoinMirrored(s: Tables, n: Addr, t: Addr)
    requires Good(s) && n in s.nbrs && !Linked(s, n, t)
    ensures Mirrored(Join(s, n, t))
    ensures forall a, b :: Linked(Join(s, n, t), a, b) <==> Linked(s, a, b) || (a, b) == (n, t)
    ensures Path(Join(s, n, t), n, t) == Some(NEW_COST)
    ensures forall a, b :: (a, b) != (n, t) ==> Path(Join(s, n, t), a, b) == Path(s, a, b)
  {
    hide CountsOk, ListsOk, Distinct, PathOf;
    var j := Join(s, n, t);
    var c := if t in s.twos then s.twos[t].conns else [];
    ConsEffect(Conn(n, NEW_COST), c);
    forall a, b ensures Linked(j, a, b) <==> Linked(s, a, b) || (a, b) == (n, t) {
    }
    forall a, b | (a, b) != (n, t) ensures Path(j, a, b) == Path(s, a, b) {
    }
  }

  lemma JoinGood(s: Tables, n: Addr, t: Addr)
    requires Good(s) && n in s.nbrs && !Linked(s, n, t)
    ensures Good(Join(s, n, t))
  {
    hide PathOf, Distinct, NoDup, Mirrored;
    JoinMirrored(s, n, t);
    MirroredAt(s, n, t);
    var j := Join(s, n, t);
    var c := if t in s.twos then s.twos[t].conns else [];
    ConsEffect(Conn(n, NEW_COST), c);
    NoDupCons(t, s.nbrs[n]);
    assert ListsOk(j);
    assert CountsOk(j);
  }

  lemma PartEffect(s: Tables, n: Addr, t: Addr)
    requires Good(s) && Linked(s, n, t) && t in s.twos
    ensures forall a, b :: Linked(Part(s, n, t), a, b) <==> Linked(s, a, b) && (a, b) != (n, t)
    ensures forall a, b :: (a, b) != (n, t) ==> Path(Part(s, n, t), a, b) == Path(s, a, b)
    ensures Path(Part(s, n, t), n, t) == None
  {
    hide Mirrored, Distinct, NoDup;
    DropEffect(s.twos[t].conns, n);
    RemoveElems(s.nbrs[n], t);
    assert Linked(s, n, t) ==> Path(s, n, t).Some? by { MirroredAt(s, n, t); }
    hide DropNbr, Remove;
    var p := Part(s, n, t);
    if p.twos.Keys != s.twos.Keys {
      assert DropNbr(s.twos[t].conns, n) == [];
    }
  }

  lemma MirroredAt(s: Tables, n: Addr, t: Addr)
    requires Mirrored(s)
    ensures Linked(s, n, t) <==> Path(s, n, t).Some?
  {
  }

  lemma PartGood(s: Tables, n: Addr, t: Addr)
    requires Good(s) && Linked(s, n, t)
    ensures t in s.twos && Good(Part(s, n, t))
  {
    MirroredAt(s, n, t);
    PartEffect(s, n, t);
    DropEffect(s.twos[t].conns, n);
    RemoveElems(s.nbrs[n], t);
    hide DropNbr, Remove, Distinct, PathOf, NoDup;
    var p := Part(s, n, t);
    assert ListsOk(p);
    assert CountsOk(p);
    assert Mirrored(p);
  }

  /* ---- costs ---- */

  function Min(a: nat, b: nat): nat {
    if b < a then b else a
  }

  function PathSum(first: nat, cost: nat): nat {
    (first + cost) % U32
  }

  function Cleared(x: Conn): Conn {
    x.(path := LINK_COST_BROKEN)
  }

  function Lowered(x: Conn, first: nat, cost: nat): Conn {
    var sum := PathSum(first, cost);
    if sum < x.path then x.(path := sum) else x
  }

  /** Changing the entries of one neighbour, seen through its path cost. */
  lemma {:induction false} SetOwn(c: seq<Conn>, n: Addr, f: Conn -> Conn, g: nat -> nat)
    requires forall x :: f(x).path == g(x.path) && f(x).nbr == x.nbr
    requires PathOf(c, n).Some?
    ensures PathOf(SetPath(c, n, f), n) == Some(g(PathOf(c, n).value))
  {
    if c[0].nbr != n {
      SetOwn(c[1..], n, f, g);
      assert SetPath(c, n, f)[1..] == SetPath(c[1..], n, f);
    }
  }

  /** The tables after changing one pair's cost. */
  function Recost(s: Tables, n: Addr, t: Addr, f: Conn -> Conn): Tables
    requires t in s.twos
  {
    s.(twos := s.twos[t := s.twos[t].(conns := SetPath(s.twos[t].conns, n, f))])
  }

  lemma RecostGood(s: Tables, n: Addr, t: Addr, f: Conn -> Conn, g: nat -> nat)
    requires Good(s) && Linked(s, n, t)
    requires forall x :: f(x).path == g(x.path) && f(x).nbr == x.nbr
    ensures t in s.twos && Path(s, n, t).Some? && Good(Recost(s, n, t, f))
    ensures Path(Recost(s, n, t, f), n, t) == Some(g(Path(s, n, t).value))
    ensures forall a, b :: (a, b) != (n, t) ==> Path(Recost(s, n, t, f), a, b) == Path(s, a, b)
  {
    hide PathOf, Distinct, NoDup, SetPath;
    MirroredAt(s, n, t);
    var c := s.twos[t].conns;
    SetOwn(c, n, f, g);
    SetEffect(c, n, f);
    var r := Recost(s, n, t, f);
    forall a, b | (a, b) != (n, t) ensures Path(r, a, b) == Path(s, a, b) {
    }
    forall a, b ensures Linked(r, a, b) <==> Path(r, a, b).Some? {
      MirroredAt(s, a, b);
    }
    assert CountsOk(r);
  }

  /* ---- HELLO messages ---- */

  /** A neighbour listed in a HELLO; `sym` for symmetric and relay neighbours. */
  datatype Listing = Listing(addr: Addr, sym: bool, cost: nat)

  ghost predicate Counts(m: Listing, own: set<Addr>, t: Addr) {
    m.addr == t && m.sym && t !in own
  }

  ghost predicate Listed(msg: seq<Listing>, own: set<Addr>, t: Addr) {
    exists i :: 0 <= i < |msg| && Counts(msg[i], own, t)
  }

  /** The best path cost a message offers to `t`. */
  ghost function Least(msg: seq<Listing>, own: set<Addr>, first: nat, t: Addr): nat {
    if msg == [] then LINK_COST_BROKEN
    else
      var m, rest := msg[|msg| - 1], Least(msg[..|msg| - 1], own, first, t);
      if Counts(m, own, t) then Min(rest, PathSum(first, m.cost)) else rest
  }

  /** It is a lower bound of all offers and one of them, or the cost of a broken link. */
  lemma {:induction false} LeastExact(msg: seq<Listing>, own: set<Addr>, first: nat, t: Addr)
    ensures var l := Least(msg, own, first, t);
      && l <= LINK_COST_BROKEN
      && (forall i :: 0 <= i < |msg| && Counts(msg[i], own, t) ==> l <= (first + msg[i].cost) % 0x1_0000_0000)
      && (l == LINK_COST_BROKEN
          || exists i :: 0 <= i < |msg| && Counts(msg[i], own, t) && l == (first + msg[i].cost) % 0x1_0000_0000)
  {
    if msg != [] {
      var k := |msg| - 1;
      LeastExact(msg[..k], own, first, t);
      var l := Least(msg[..k], own, first, t);
      forall i | 0 <= i < k && Counts(msg[i], own, t) ensures l <= PathSum(first, msg[i].cost) {
        assert msg[..k][i] == msg[i];
      }
      if i :| 0 <= i < k && Counts(msg[..k][i], own, t) && l == PathSum(first, msg[..k][i].cost) {
        assert msg[..k][i] == msg[i];
      }
    }
  }

  /** While no sum wraps, `c` is the least sum of first and second hop offered for `t`, or the cost of a broken link. */
  ghost predicate CheapestOffer(msg: seq<Listing>, own: set<Addr>, first: nat, t: Addr, c: nat) {
    && c <= LINK_COST_BROKEN
    && (forall i :: 0 <= i < |msg| && msg[i].addr == t && msg[i].sym && t !in own ==> c <= first + msg[i].cost)
    && (c == LINK_COST_BROKEN
        || exists i :: 0 <= i < |msg| && msg[i].addr == t && msg[i].sym && t !in own && c == first + msg[i].cost)
  }

  /** No sum of the first hop and an offered cost leaves 32 bits. */
  ghost predicate NoWrap(msg: seq<Listing>, first: nat) {
    forall i :: 0 <= i < |msg| ==> first + msg[i].cost < 0x1_0000_0000
  }

  lemma LeastIsCheapest(msg: seq<Listing>, own: set<Addr>, first: nat, t: Addr)
    requires NoWrap(msg, first)
    ensures CheapestOffer(msg, own, first, t, Least(msg, own, first, t))
  {
    LeastExact(msg, own, first, t);
    hide Least;
    var l := Least(msg, own, first, t);
    forall i | 0 <= i < |msg| && msg[i].addr == t && msg[i].sym && t !in own ensures l <= first + msg[i].cost {
      assert Counts(msg[i], own, t);
    }
  }

  lemma ListedNext(msg: seq<Listing>, own: set<Addr>, k: nat)
    requires k < |msg|
    ensures forall t :: Listed(msg[..k + 1], own, t) <==> Listed(msg[..k], own, t) || Counts(msg[k], own, t)
    ensures forall t, first :: Least(msg[..k + 1], own, first, t) ==
              if Counts(msg[k], own, t) then Min(Least(msg[..k], own, first, t), PathSum(first, msg[k].cost))
              else Least(msg[..k], own, first, t)
  {
    assert msg[..k + 1][..k] == msg[..k] && msg[..k + 1][k] == msg[k];
    forall t ensures Listed(msg[..k + 1], own, t) <==> Listed(msg[..k], own, t) || Counts(msg[k], own, t) {
      if i :| 0 <= i < k && Counts(msg[..k][i], own, t) {
        assert msg[..k + 1][i] == msg[..k][i];
      }
      var m := msg[..k + 1];
      if i :| 0 <= i < |m| && Counts(m[i], own, t) {
        assert i < k ==> msg[..k][i] == m[i];
      }
    }
  }

  /* ---- the tables, updated in place ---- */

  /** After the first pass over `msg` the listed nodes are linked and their cost is cleared. */
  ghost predicate FirstPass(s0: Tables, s: Tables, n: Addr, msg: seq<Listing>, own: set<Addr>) {
    && s.nbrs.Keys == s0.nbrs.Keys
    && (forall a, b :: Linked(s, a, b) <==> Linked(s0, a, b) || (a == n && Listed(msg, own, b)))
    && (forall b :: Listed(msg, own, b) ==> Path(s, n, b) == Some(LINK_COST_BROKEN))
    && (forall a, b :: a != n || !Listed(msg, own, b) ==> Path(s, a, b) == Path(s0, a, b))
  }

  ghost predicate SecondPass(s1: Tables, s: Tables, n: Addr, msg: seq<Listing>, done: seq<Listing>, own: set<Addr>, first: nat) {
    && s.nbrs == s1.nbrs
    && (forall b :: Listed(msg, own, b) ==> Path(s, n, b) == Some(Least(done, own, first, b)))
    && (forall a, b :: a != n || !Listed(msg, own, b) ==> Path(s, a, b) == Path(s1, a, b))
  }

  lemma FirstNothing(s0: Tables, n: Addr, own: set<Addr>)
    ensures FirstPass(s0, s0, n, [], own)
  {
    hide Linked, Path;
    NothingListed(own);
  }

  lemma FirstHas(s0: Tables, s: Tables, n: Addr, msg: seq<Listing>, own: set<Addr>)
    requires FirstPass(s0, s, n, msg, own)
    ensures s.nbrs.Keys == s0.nbrs.Keys
  {
  }

  lemma FirstNext(s0: Tables, s1: Tables, s: Tables, n: Addr, msg: seq<Listing>, k: nat, own: set<Addr>)
    requires k < |msg| && FirstPass(s0, s1, n, msg[..k], own) && Counts(msg[k], own, msg[k].addr)
    requires s.nbrs.Keys == s1.nbrs.Keys && Path(s, n, msg[k].addr) == Some(LINK_COST_BROKEN)
    requires forall a, b :: Linked(s, a, b) <==> Linked(s1, a, b) || (a, b) == (n, msg[k].addr)
    requires forall a, b :: (a, b) != (n, msg[k].addr) ==> Path(s, a, b) == Path(s1, a, b)
    ensures FirstPass(s0, s, n, msg[..k + 1], own)
  {
    hide Linked, Path, Listed;
    ListedNext(msg, own, k);
  }

  lemma FirstSkip(s0: Tables, s: Tables, n: Addr, msg: seq<Listing>, k: nat, own: set<Addr>)
    requires k < |msg| && FirstPass(s0, s, n, msg[..k], own) && !Counts(msg[k], own, msg[k].addr)
    ensures FirstPass(s0, s, n, msg[..k + 1], own)
  {
    hide Linked, Path, Listed;
    ListedNext(msg, own, k);
  }

  lemma LinkedIn(s: Tables, n: Addr, t: Addr)
    requires Linked(s, n, t)
    ensures n in s.nbrs && t in s.nbrs[n]
  {
  }

  lemma HeadRemoved(l: seq<Addr>)
    requires l != []
    ensures |Remove(l, l[0])| == |l| - 1
  {
  }

  /** A neighbour whose list is empty can be dropped. */
  lemma EmptyDropped(s: Tables, n: Addr)
    requires Good(s) && n in s.nbrs && s.nbrs[n] == []
    ensures Good(s.(nbrs := s.nbrs - {n}))
    ensures forall a, b :: Linked(s.(nbrs := s.nbrs - {n}), a, b) <==> Linked(s, a, b) && a != n
    ensures forall a, b :: Path(s.(nbrs := s.nbrs - {n}), a, b) == Path(s, a, b)
  {
    hide PathOf, NoDup, Distinct;
    var d := s.(nbrs := s.nbrs - {n});
    forall a, b ensures Linked(d, a, b) <==> Path(d, a, b).Some? {
      MirroredAt(s, a, b);
    }
  }

  ghost function Names(c: seq<Conn>): set<Addr> {
    set i | 0 <= i < |c| :: c[i].nbr
  }

  lemma NamesNext(c: seq<Conn>, i: nat)
    requires i < |c|
    ensures Names(c[..i + 1]) == Names(c[..i]) + {c[i].nbr}
  {
    var a, b := c[..i + 1], c[..i];
    assert a == b + [c[i]];
    forall x | x in Names(b) ensures x in Names(a) {
      var k :| 0 <= k < |b| && b[k].nbr == x;
      assert a[k].nbr == x;
    }
    assert a[i].nbr == c[i].nbr;
  }

  lemma ConnectorLinked(s: Tables, t: Addr, i: nat)
    requires Good(s) && t in s.twos && i < |s.twos[t].conns|
    ensures s.twos[t].conns[i].nbr in s.nbrs
  {
    PathAt(s.twos[t].conns, i);
    MirroredAt(s, s.twos[t].conns[i].nbr, t);
  }

  lemma CountPositive(s: Tables, t: Addr)
    requires Good(s) && t in s.twos
    ensures s.twos[t].pointer > 0
  {
  }

  /** Removing a node from one neighbour's list, if it is there, removes that link alone. */
  lemma RemovedLink(s: Tables, n: Addr, t: Addr)
    requires ListsOk(s) && n in s.nbrs
    ensures var r := if t in s.nbrs[n] then s.(nbrs := s.nbrs[n := Remove(s.nbrs[n], t)]) else s;
      ListsOk(r) && forall a, b :: Linked(r, a, b) <==> Linked(s, a, b) && (a, b) != (n, t)
  {
    hide NoDup, Remove;
    if t in s.nbrs[n] {
      RemoveElems(s.nbrs[n], t);
    }
  }

  lemma {:induction false} PathIndex(c: seq<Conn>, n: Addr) returns (i: nat)
    requires PathOf(c, n).Some?
    ensures i < |c| && c[i].nbr == n
  {
    if c[0].nbr == n {
      i := 0;
    } else {
      i := PathIndex(c[1..], n);
      i := i + 1;
    }
  }

  /** Once no list names a node, dropping it keeps the tables good. */
  lemma NodeDropped(s0: Tables, s: Tables, t: Addr)
    requires Good(s0) && t in s0.twos && ListsOk(s) && s.twos == s0.twos - {t}
    requires forall a, b :: Linked(s, a, b) <==> Linked(s0, a, b) && !(b == t && a in Names(s0.twos[t].conns))
    ensures Good(s)
    ensures forall a, b :: Linked(s, a, b) <==> Linked(s0, a, b) && b != t
  {
    hide NoDup, Distinct;
    forall a | Linked(s0, a, t) ensures a in Names(s0.twos[t].conns) {
      MirroredAt(s0, a, t);
      var i := PathIndex(s0.twos[t].conns, a);
    }
    hide PathOf;
    forall a, b ensures Linked(s, a, b) <==> Path(s, a, b).Some? {
      MirroredAt(s0, a, b);
    }
  }

  lemma NothingListed(own: set<Addr>)
    ensures forall t :: !Listed([], own, t)
  {
  }

  lemma NothingLeast(own: set<Addr>, first: nat)
    ensures forall t :: Least([], own, first, t) == LINK_COST_BROKEN
  {
  }

  lemma ListedAt(msg: seq<Listing>, own: set<Addr>, k: nat)
    requires k < |msg| && msg[k].sym && msg[k].addr !in own
    ensures Listed(msg, own, msg[k].addr)
  {
    assert Counts(msg[k], own, msg[k].addr);
  }

  /* ---- expiry timers ---- */

  /** Only linked pairs have a running timer. */
  ghost predicate TimersOk(s: Tables, timers: set<(Addr, Addr)>) {
    forall a, b :: (a, b) in timers ==> Linked(s, a, b)
  }

  /** The message lists `t` more than once. */
  ghost predicate Twice(msg: seq<Listing>, own: set<Addr>, t: Addr) {
    exists i, j :: 0 <= i < j < |msg| && Counts(msg[i], own, t) && Counts(msg[j], own, t)
  }

  lemma TwiceNext(msg: seq<Listing>, own: set<Addr>, k: nat, t: Addr)
    requires k < |msg|
    ensures Twice(msg[..k + 1], own, t) <==> Twice(msg[..k], own, t) || (Listed(msg[..k], own, t) && Counts(msg[k], own, t))
    ensures Twice(msg[..k], own, t) ==> Listed(msg[..k], own, t)
  {
    hide Counts;
    var a, b := msg[..k], msg[..k + 1];
    assert b[k] == msg[k] && forall i :: 0 <= i < k ==> a[i] == b[i];
  }

  /**
   Over a message, the timer of a listed pair is set only if the pair was linked before or is listed
   twice: linking alone starts none.
   */
  ghost predicate TimersAfter(s0: Tables, t0: set<(Addr, Addr)>, t1: set<(Addr, Addr)>, n: Addr, msg: seq<Listing>,
                              own: set<Addr>, vtime: nat)
  {
    forall a, b :: (a, b) in t1 <==>
      if a == n && Listed(msg, own, b) && (Linked(s0, n, b) || Twice(msg, own, b)) then vtime > 0 else (a, b) in t0
  }

  lemma TimersNothing(s0: Tables, t0: set<(Addr, Addr)>, n: Addr, own: set<Addr>, vtime: nat)
    ensures TimersAfter(s0, t0, t0, n, [], own, vtime)
  {
    hide Linked;
    NothingListed(own);
  }

  /** One listing of the first pass: a linked pair gets a timer, a pair that is new does not. */
  lemma TimersNext(s0: Tables, s: Tables, t0: set<(Addr, Addr)>, t1: set<(Addr, Addr)>, t2: set<(Addr, Addr)>, n: Addr,
                   msg: seq<Listing>, k: nat, own: set<Addr>, vtime: nat)
    requires k < |msg| && FirstPass(s0, s, n, msg[..k], own) && TimersAfter(s0, t0, t1, n, msg[..k], own, vtime)
    requires Counts(msg[k], own, msg[k].addr)
    requires forall a, b :: (a, b) in t2 <==>
      if (a, b) == (n, msg[k].addr) && Linked(s, n, b) then vtime > 0 else (a, b) in t1
    ensures TimersAfter(s0, t0, t2, n, msg[..k + 1], own, vtime)
  {
    hide Linked, Path, Twice, Listed;
    ListedNext(msg, own, k);
    forall a, b ensures (a, b) in t2 <==>
      if a == n && Listed(msg[..k + 1], own, b) && (Linked(s0, n, b) || Twice(msg[..k + 1], own, b)) then vtime > 0
      else (a, b) in t0
    {
      TwiceNext(msg, own, k, b);
    }
  }

  lemma TimersSkip(s0: Tables, t0: set<(Addr, Addr)>, t1: set<(Addr, Addr)>, n: Addr, msg: seq<Listing>, k: nat,
                   own: set<Addr>, vtime: nat)
    requires k < |msg| && TimersAfter(s0, t0, t1, n, msg[..k], own, vtime) && !Counts(msg[k], own, msg[k].addr)
    ensures TimersAfter(s0, t0, t1, n, msg[..k + 1], own, vtime)
  {
    hide Linked, Path, Twice, Listed;
    ListedNext(msg, own, k);
    forall b ensures Twice(msg[..k + 1], own, b) <==> Twice(msg[..k], own, b) {
      TwiceNext(msg, own, k, b);
    }
  }

  /** How often the message lists `t`. */
  ghost function Times(msg: seq<Listing>, own: set<Addr>, t: Addr): nat {
    if msg == [] then 0 else Times(msg[..|msg| - 1], own, t) + if Counts(msg[|msg| - 1], own, t) then 1 else 0
  }

  lemma {:induction false} TimesExact(msg: seq<Listing>, own: set<Addr>, t: Addr)
    ensures Listed(msg, own, t) <==> Times(msg, own, t) >= 1
    ensures Twice(msg, own, t) <==> Times(msg, own, t) >= 2
  {
    if msg != [] {
      hide Counts;
      var k := |msg| - 1;
      TimesExact(msg[..k], own, t);
      ListedNext(msg, own, k);
      TwiceNext(msg, own, k, t);
      assert msg[..k + 1] == msg;
    }
  }

  ghost function TimesAll(msgs: seq<seq<Listing>>, own: set<Addr>, t: Addr): nat {
    if msgs == [] then 0 else TimesAll(msgs[..|msgs| - 1], own, t) + Times(msgs[|msgs| - 1], own, t)
  }

  /** Message `i` of a run takes the tables and timers from `i` to the next. */
  ghost predicate HelloAt(ss: seq<Tables>, ts: seq<set<(Addr, Addr)>>, n: Addr, msgs: seq<seq<Listing>>, own: set<Addr>,
                          vtimes: seq<nat>, i: nat)
    requires |ss| == |ts| == |msgs| + 1 && |vtimes| == |msgs| && i < |msgs|
  {
    && vtimes[i] > 0 && TimersAfter(ss[i], ts[i], ts[i + 1], n, msgs[i], own, vtimes[i])
    && forall b :: Linked(ss[i + 1], n, b) <==> Linked(ss[i], n, b) || Listed(msgs[i], own, b)
  }

  /**
   Over any run of HELLOs of a neighbour, a node it did not reach before is linked from its first
   listing on, and its pair has a running timer exactly from the second listing on.
   */
  lemma {:induction false} TimerRun(ss: seq<Tables>, ts: seq<set<(Addr, Addr)>>, n: Addr, msgs: seq<seq<Listing>>,
                                    own: set<Addr>, vtimes: seq<nat>, t: Addr, k: nat)
    requires |ss| == |ts| == |msgs| + 1 && |vtimes| == |msgs| && k <= |msgs|
    requires forall i :: 0 <= i < |msgs| ==> HelloAt(ss, ts, n, msgs, own, vtimes, i)
    requires !Linked(ss[0], n, t) && (n, t) !in ts[0]
    ensures Linked(ss[k], n, t) <==> TimesAll(msgs[..k], own, t) >= 1
    ensures (n, t) in ts[k] <==> TimesAll(msgs[..k], own, t) >= 2
    decreases k
  {
    hide Linked, Listed, Twice, Times;
    if k == 0 {
      assert msgs[..0] == [];
    } else {
      var i := k - 1;
      TimerRun(ss, ts, n, msgs, own, vtimes, t, i);
      assert HelloAt(ss, ts, n, msgs, own, vtimes, i);
      assert msgs[..k][..i] == msgs[..i];
      TimesExact(msgs[i], own, t);
    }
  }

  class NeighborTables {
    var nbrs: map<Addr, seq<Addr>>
    var twos: map<Addr, Node>
    var timers: set<(Addr, Addr)>         // pairs of neighbour and two-hop node whose expiry timer runs

    ghost function S(): Tables
      reads this
    {
      Tables(nbrs, twos)
    }

    ghost predicate Valid()
      reads this
    {
      Good(S()) && TimersOk(S(), timers)
    }

    /** `olsr_init_neighbor_table` and `olsr_init_two_hop_table`: both tables are empty. */
    constructor ()
      ensures Valid() && nbrs == map[] && twos == map[] && timers == {}
    {
      nbrs, twos, timers := map[], map[], {};
    }

    /** `olsr_insert_neighbor_table`: a new neighbour has no two-hop nodes, a known one keeps its own. */
    method InsertNeighbour(n: Addr)
      requires Valid()
      modifies `nbrs
      ensures Valid() && nbrs.Keys == old(nbrs.Keys) + {n}
      ensures forall a, b :: Linked(S(), a, b) <==> Linked(old(S()), a, b)
      ensures forall a, b :: Path(S(), a, b) == Path(old(S()), a, b)
    {
      hide PathOf, Distinct;
      ghost var s0 := S();
      if n !in nbrs {
        nbrs := nbrs[n := []];
        forall a, b ensures Linked(S(), a, b) <==> Path(S(), a, b).Some? {
          MirroredAt(s0, a, b);
        }
      }
    }

    /** `olsr_delete_neighbor_pointer`. */
    method DeleteNeighborPointer(t: Addr, n: Addr)
      requires t in twos
      modifies `twos
      ensures twos == old(twos)[t := old(twos)[t].(conns := DropNbr(old(twos)[t].conns, n))]
    {
      var left, rest := [], twos[t].conns;
      while rest != []
        invariant left + DropNbr(rest, n) == DropNbr(twos[t].conns, n)
        decreases |rest|
      {
        if rest[0].nbr != n {
          left := left + [rest[0]];
        }
        rest := rest[1..];
      }
      assert left + [] == left;
      twos := twos[t := twos[t].(conns := left)];
    }

    /** `olsr_del_nbr2_list`: the two-hop node is freed when nothing counts on it any more. */
    method DelNbr2List(n: Addr, t: Addr)
      requires n in nbrs && t in nbrs[n] && t in twos
      modifies this
      ensures nbrs == old(nbrs)[n := Remove(old(nbrs)[n], t)]
      ensures twos == if old(twos)[t].pointer < 1 then old(twos) - {t} else old(twos)
      ensures timers == old(timers) - {(n, t)}
    {
      if twos[t].pointer < 1 {
        twos := twos - {t};
      }
      timers := timers - {(n, t)};
      nbrs := nbrs[n := Remove(nbrs[n], t)];
    }

    /** `olsr_expire_nbr2_list`, also the body of the loop in `olsr_delete_neighbor_table`. */
    method Expire(n: Addr, t: Addr)
      requires Valid() && Linked(S(), n, t)
      modifies this
      ensures Valid() && nbrs.Keys == old(nbrs.Keys) && nbrs[n] == Remove(old(nbrs)[n], t)
      ensures forall a, b :: Linked(S(), a, b) <==> Linked(old(S()), a, b) && (a, b) != (n, t)
      ensures forall a, b :: (a, b) != (n, t) ==> Path(S(), a, b) == Path(old(S()), a, b)
      ensures timers == old(timers) - {(n, t)}
    {
      hide Good, Linked, DropNbr, Remove, PathOf;
      PartGood(S(), n, t);
      PartEffect(S(), n, t);
      LinkedIn(S(), n, t);
      ghost var s0 := S();
      twos := twos[t := twos[t].(pointer := twos[t].pointer - 1)];
      DeleteNeighborPointer(t, n);
      DelNbr2List(n, t);
      assert twos == Part(s0, n, t).twos;
      assert S() == Part(s0, n, t);
    }

    /** `olsr_delete_neighbor_table`: the neighbour goes with all its links and nothing else. */
    method DeleteNeighbour(n: Addr) returns (found: bool)
      requires Valid()
      modifies this
      ensures Valid() && found == (n in old(nbrs)) && nbrs.Keys == old(nbrs.Keys) - {n}
      ensures forall a, b :: Linked(S(), a, b) <==> Linked(old(S()), a, b) && a != n
      ensures forall a, b :: a != n ==> Path(S(), a, b) == Path(old(S()), a, b)
      ensures forall a, b :: (a, b) in timers <==> (a, b) in old(timers) && a != n
    {
      if n !in nbrs {
        return false;
      }
      ghost var s0 := S();
      while nbrs[n] != []
        invariant Valid() && nbrs.Keys == s0.nbrs.Keys
        invariant forall a, b :: a != n ==> (Linked(S(), a, b) <==> Linked(s0, a, b))
        invariant forall a, b :: a != n ==> Path(S(), a, b) == Path(s0, a, b)
        invariant forall a, b :: a != n ==> ((a, b) in timers <==> (a, b) in old(timers))
        decreases |nbrs[n]|
      {
        hide Good, Remove, PathOf, Path;
        var t := nbrs[n][0];
        HeadRemoved(nbrs[n]);
        Expire(n, t);
      }
      ghost var s1 := S();
      nbrs := nbrs - {n};
      EmptyDropped(s1, n);
      return true;
    }

    /** `olsr_delete_neighbor_2_pointer`. */
    method DeleteNeighbor2Pointer(n: Addr, t: Addr)
      requires n in nbrs && t in twos && twos[t].pointer > 0
      modifies this
      ensures nbrs == if t in old(nbrs)[n] then old(nbrs)[n := Remove(old(nbrs)[n], t)] else old(nbrs)
      ensures twos == old(twos)
      ensures timers == if t in old(nbrs)[n] then old(timers) - {(n, t)} else old(timers)
    {
      if t in nbrs[n] {
        DelNbr2List(n, t);
      }
    }

    /** `olsr_delete_two_hop_neighbor_table`: the node goes with all its links and nothing else. */
    method DeleteTwoHop(t: Addr)
      requires Valid() && t in twos
      modifies this
      ensures Valid() && nbrs.Keys == old(nbrs.Keys) && twos == old(twos) - {t}
      ensures forall a, b :: Linked(S(), a, b) <==> Linked(old(S()), a, b) && b != t
      ensures forall a, b :: (a, b) in timers <==> (a, b) in old(timers) && b != t
    {
      ghost var s0 := S();
      var c, i := twos[t].conns, 0;
      while i < |c|
        invariant 0 <= i <= |c| && twos == s0.twos && nbrs.Keys == s0.nbrs.Keys && ListsOk(S())
        invariant forall a, b :: Linked(S(), a, b) <==> Linked(s0, a, b) && !(b == t && a in Names(c[..i]))
        invariant TimersOk(S(), timers) && forall a, b :: b != t ==> ((a, b) in timers <==> (a, b) in old(timers))
      {
        hide Good, Linked, Names, ListsOk, Remove, CountsOk;
        ghost var s1 := S();
        ConnectorLinked(s0, t, i);
        CountPositive(s0, t);
        NamesNext(c, i);
        RemovedLink(s1, c[i].nbr, t);
        DeleteNeighbor2Pointer(c[i].nbr, t);
        i := i + 1;
      }
      assert c[..i] == c;
      twos := twos - {t};
      NodeDropped(s0, S(), t);
    }

    /** One listed neighbour of the first pass; `linking_this_2_entries` finds no timer to change. */
    method Take(n: Addr, t: Addr, vtime: nat)
      requires Valid() && n in nbrs
      modifies this
      ensures Valid() && nbrs.Keys == old(nbrs.Keys)
      ensures forall a, b :: Linked(S(), a, b) <==> Linked(old(S()), a, b) || (a, b) == (n, t)
      ensures Path(S(), n, t) == Some(LINK_COST_BROKEN)
      ensures forall a, b :: (a, b) != (n, t) ==> Path(S(), a, b) == Path(old(S()), a, b)
      ensures forall a, b :: (a, b) in timers <==>
        if (a, b) == (n, t) && Linked(old(S()), n, t) then vtime > 0 else (a, b) in old(timers)
    {
      hide Good, PathOf, SetPath;
      ghost var s0 := S();
      if t in nbrs[n] {
        timers := if vtime == 0 then timers - {(n, t)} else timers + {(n, t)};
        RecostGood(s0, n, t, x => Cleared(x), p => LINK_COST_BROKEN);
        twos := twos[t := twos[t].(conns := SetPath(twos[t].conns, n, x => Cleared(x)))];
        assert S() == Recost(s0, n, t, x => Cleared(x));
      } else {
        JoinGood(s0, n, t);
        JoinMirrored(s0, n, t);
        if t !in twos {
          twos := twos[t := Node([], 0)];
        }
        nbrs := nbrs[n := [t] + nbrs[n]];
        twos := twos[t := Node([Conn(n, NEW_COST)] + twos[t].conns, twos[t].pointer + 1)];
        assert S() == Join(s0, n, t);
      }
    }

    /** One listed neighbour of the second pass. */
    method Improve(n: Addr, t: Addr, first: nat, cost: nat)
      requires Valid() && Linked(S(), n, t)
      modifies `twos
      ensures Valid() && Path(old(S()), n, t).Some?
      ensures Path(S(), n, t) == Some(Min(Path(old(S()), n, t).value, PathSum(first, cost)))
      ensures forall a, b :: (a, b) != (n, t) ==> Path(S(), a, b) == Path(old(S()), a, b)
    {
      hide Good, PathOf, SetPath;
      ghost var s0 := S();
      RecostGood(s0, n, t, x => Lowered(x, first, cost), p => Min(p, PathSum(first, cost)));
      twos := twos[t := twos[t].(conns := SetPath(twos[t].conns, n, x => Lowered(x, first, cost)))];
      assert S() == Recost(s0, n, t, x => Lowered(x, first, cost));
    }

    /** First pass of `process_message_neighbors`. */
    method LinkListed(n: Addr, msg: seq<Listing>, own: set<Addr>, vtime: nat)
      requires Valid() && n in nbrs
      modifies this
      ensures Valid() && FirstPass(old(S()), S(), n, msg, own)
      ensures TimersAfter(old(S()), old(timers), timers, n, msg, own, vtime)
    {
      hide Good, Linked, Path, Listed, TimersAfter, TimersOk, FirstPass;
      ghost var s0, t0 := S(), timers;
      FirstNothing(s0, n, own);
      TimersNothing(s0, t0, n, own, vtime);
      var k := 0;
      assert msg[..k] == [];
      while k < |msg|
        invariant 0 <= k <= |msg| && Valid() && FirstPass(s0, S(), n, msg[..k], own)
        invariant TimersAfter(s0, t0, timers, n, msg[..k], own, vtime)
      {
        ghost var s1, t1 := S(), timers;
        if msg[k].addr !in own && msg[k].sym {
          FirstHas(s0, s1, n, msg[..k], own);
          Take(n, msg[k].addr, vtime);
          FirstNext(s0, s1, S(), n, msg, k, own);
          TimersNext(s0, s1, t0, t1, timers, n, msg, k, own, vtime);
        } else {
          FirstSkip(s0, s1, n, msg, k, own);
          TimersSkip(s0, t0, t1, n, msg, k, own, vtime);
        }
        k := k + 1;
      }
      assert msg[..k] == msg;
    }

    /** Second pass of `process_message_neighbors`, with the cost of the best link to the sender. */
    method CostListed(n: Addr, msg: seq<Listing>, own: set<Addr>, first: nat)
      requires Valid() && n in nbrs
      requires forall b :: Listed(msg, own, b) ==> Linked(S(), n, b) && Path(S(), n, b) == Some(LINK_COST_BROKEN)
      modifies `twos
      ensures Valid() && SecondPass(old(S()), S(), n, msg, msg, own, first)
    {
      hide Good, Path, Listed, Least;
      ghost var s1 := S();
      NothingLeast(own, first);
      var k := 0;
      assert msg[..k] == [];
      while k < |msg|
        invariant 0 <= k <= |msg| && Valid() && SecondPass(s1, S(), n, msg, msg[..k], own, first)
      {
        ListedNext(msg, own, k);
        if msg[k].addr !in own && msg[k].sym {
          ListedAt(msg, own, k);
          if msg[k].addr in nbrs[n] {
            Improve(n, msg[k].addr, first, msg[k].cost);
          }
        }
        k := k + 1;
      }
      assert msg[..k] == msg;
    }

    /** `process_message_neighbors`; `first` is the cost of the best link to the sender, if there is one. */
    method ProcessHello(n: Addr, msg: seq<Listing>, own: set<Addr>, first: Option<nat>, vtime: nat)
      requires Valid() && n in nbrs
      modifies this
      ensures Valid() && nbrs.Keys == old(nbrs.Keys)
      ensures forall a, b :: Linked(S(), a, b) <==> Linked(old(S()), a, b) || (a == n && Listed(msg, own, b))
      ensures forall b :: Listed(msg, own, b) ==>
                Path(S(), n, b) == Some(if first.Some? then Least(msg, own, first.value, b) else LINK_COST_BROKEN)
      ensures first.Some? && NoWrap(msg, first.value) ==>
                forall b :: Listed(msg, own, b) ==>
                  Path(S(), n, b).Some? && CheapestOffer(msg, own, first.value, b, Path(S(), n, b).value)
      ensures forall a, b :: a != n || !Listed(msg, own, b) ==> Path(S(), a, b) == Path(old(S()), a, b)
      ensures TimersAfter(old(S()), old(timers), timers, n, msg, own, vtime)
    {
      hide Good, Path, Listed, Least, TimersAfter, CheapestOffer;
      LinkListed(n, msg, own, vtime);
      if first.Some? {
        CostListed(n, msg, own, first.value);
        if NoWrap(msg, first.value) {
          forall b ensures CheapestOffer(msg, own, first.value, b, Least(msg, own, first.value, b)) {
            LeastIsCheapest(msg, own, first.value, b);
          }
        }
      }
    }
  }
}

