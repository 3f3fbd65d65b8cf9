/**
 A whole fragmented advertisement on a little-endian IPv4 host, where lists, edge trees and
 revocation ranges follow the raw order of addresses while borders are rebuilt bytewise.
 */
module RawTc {
  import opened Common
  import opened IpOrder
  import opened LqTc
  import opened RawOrder
  import opened TcBorder
  import opened TcInput
  import opened TcWindow
  import LinkCost

  const N := 4

  /* ---- the raw order ---- */

  lemma RawTotal(a: Bytes, b: Bytes)
    requires |a| == |b|
    ensures a == b || RawLess(a, b) || RawLess(b, a)
    ensures !RawLess(a, a) && !(RawLess(a, b) && RawLess(b, a))
  {
    hide Below;
    RawIrreflexive(a);
    if a != b {
      var q := LastDiff(a, b);
      BelowFacts(a[q], b[q]);
    }
    if RawLess(a, b) && RawLess(b, a) {
      RawTransitive(a, b, a);
    }
  }

  lemma RawIrreflexive(a: Bytes)
    ensures !RawLess(a, a)
  {
    hide Below;
    if q :| 0 <= q < |a| && Below(a[q], a[q]) && forall i :: q < i < |a| ==> a[i] == a[i] {
      BelowFacts(a[q], a[q]);
    }
  }

  lemma LastDiff(a: Bytes, b: Bytes) returns (q: nat)
    requires |a| == |b| && a != b
    ensures q < |a| && a[q] != b[q] && forall i :: q < i < |a| ==> a[i] == b[i]
  {
    var k := |a|;
    while k > 0 && a[k - 1] == b[k - 1]
      invariant 0 <= k <= |a| && forall i :: k <= i < |a| ==> a[i] == b[i]
    {
      k := k - 1;
    }
    q := k - 1;
  }

  lemma RawTransitive(a: Bytes, b: Bytes, c: Bytes)
    requires |a| == |b| == |c| && RawLess(a, b) && RawLess(b, c)
    ensures RawLess(a, c)
  {
    hide Below;
    var p :| 0 <= p < |a| && Below(a[p], b[p]) && forall i :: p < i < |a| ==> a[i] == b[i];
    var q :| 0 <= q < |a| && Below(b[q], c[q]) && forall i :: q < i < |a| ==> b[i] == c[i];
    if p == q {
      BelowTransitive(a[p], b[p], c[p]);
    }
    var m := if p < q then q else p;
    assert Below(a[m], c[m]);
  }

  lemma BelowTransitive(x: bv8, y: bv8, z: bv8)
    requires Below(x, y) && Below(y, z)
    ensures Below(x, z)
  {
  }

  lemma RawEnds(x: Bytes)
    requires |x| == N
    ensures !RawLess(x, Fill(N, 0)) && (RawLess(x, Fill(N, 0xff)) <==> x != Fill(N, 0xff))
  {
    hide Below;
    if q :| 0 <= q < N && Below(x[q], Fill(N, 0)[q]) {
      BelowFacts(x[q], 0);
    }
    RawIrreflexive(x);
    if x != Fill(N, 0xff) {
      var q := LastDiff(x, Fill(N, 0xff));
      BelowAll(x[q]);
    }
  }

  lemma BelowAll(x: bv8)
    ensures x != 0xff ==> Below(x, 0xff)
  {
  }

  /* ---- fragments and ranges ---- */

  type Frags = seq<seq<Advert>>

  /** Non-empty fragments of a list that is strictly increasing in raw order. */
  ghost predicate RawSent(frags: Frags) {
    && frags != []
    && (forall i :: 0 <= i < |frags| ==> frags[i] != [])
    && (forall i, a :: 0 <= i < |frags| && 0 <= a < |frags[i]| ==> |frags[i][a].addr| == N)
    && (forall i, a, b :: 0 <= i < |frags| && 0 <= a < b < |frags[i]| ==> RawLess(frags[i][a].addr, frags[i][b].addr))
    && (forall i, j, a, b :: 0 <= i < j < |frags| && 0 <= a < |frags[i]| && 0 <= b < |frags[j]| ==>
          RawLess(frags[i][a].addr, frags[j][b].addr))
  }

  function LastOf(f: seq<Advert>): Bytes
    requires f != []
  {
    f[|f| - 1].addr
  }

  lemma CutDiffers(frags: Frags, i: nat)
    requires RawSent(frags) && 0 < i < |frags|
    ensures |LastOf(frags[i - 1])| == |frags[i][0].addr| == N && LastOf(frags[i - 1]) != frags[i][0].addr
    ensures ValidFlag(BorderFlag(LastOf(frags[i - 1]), frags[i][0].addr), N)
  {
    var a, b := LastOf(frags[i - 1]), frags[i][0].addr;
    assert RawLess(a, b);
    RawIrreflexive(a);
    RawCutSeparates(a, b);
  }

  /** Border `i` lies before fragment `i`; the outer ones are the ends of the space. */
  ghost function Border(frags: Frags, i: nat): (r: Bytes)
    requires RawSent(frags) && i <= |frags|
    ensures |r| == N
  {
    if i == 0 then Fill(N, 0)
    else if i == |frags| then Fill(N, 0xff)
    else
      CutDiffers(frags, i);
      Rebuild(LastOf(frags[i - 1]), BorderFlag(LastOf(frags[i - 1]), frags[i][0].addr))
  }

  lemma BorderEnds(frags: Frags)
    requires RawSent(frags)
    ensures Border(frags, 0) == Fill(N, 0) && Border(frags, |frags|) == Fill(N, 0xff)
  {
  }

  /** Both fragments at a cut rebuild the same border. */
  lemma BorderFromBoth(frags: Frags, i: nat)
    requires RawSent(frags) && 0 < i < |frags|
    ensures |frags[i][0].addr| == N && ValidFlag(BorderFlag(LastOf(frags[i - 1]), frags[i][0].addr), N)
    ensures Border(frags, i) == Rebuild(frags[i][0].addr, BorderFlag(LastOf(frags[i - 1]), frags[i][0].addr))
  {
    CutDiffers(frags, i);
    RawCutSeparates(LastOf(frags[i - 1]), frags[i][0].addr);
  }

  predicate RawBetween(x: Bytes, lo: Bytes, hi: Bytes)
    requires |lo| == |hi| == N
  {
    |x| == N && !RawLess(x, lo) && RawLess(x, hi)
  }

  ghost predicate RawIn(frags: Frags, i: nat, x: Bytes)
    requires RawSent(frags) && i < |frags|
  {
    RawBetween(x, Border(frags, i), Border(frags, i + 1))
  }

  /** Every address but the all-one address is in some range, whether or not the cuts separate. */
  lemma {:induction false} RawRangesCover(frags: Frags, k: nat, x: Bytes) returns (i: nat)
    requires RawSent(frags) && 0 < k <= |frags| && |x| == N && RawLess(x, Border(frags, k))
    ensures i < k && RawIn(frags, i, x)
    decreases k
  {
    hide RawSent, RawLess, Border;
    RawEnds(x);
    BorderEnds(frags);
    if RawLess(x, Border(frags, k - 1)) {
      i := RawRangesCover(frags, k - 1, x);
    } else {
      i := k - 1;
    }
  }

  /** The condition on one cut: the earlier address is zero behind the first differing byte and below in it. */
  predicate CutOk(a: Bytes, b: Bytes)
    requires |a| == |b| && FirstDiff(a, b) < |a|
  {
    var p := FirstDiff(a, b);
    (forall i :: p < i < |a| ==> a[i] == 0) && Below(a[p], b[p])
  }

  ghost predicate CutAt(frags: Frags, i: nat)
    requires RawSent(frags) && 0 < i < |frags|
  {
    var a, b := LastOf(frags[i - 1]), frags[i][0].addr;
    |a| == |b| && FirstDiff(a, b) < |a| && CutOk(a, b)
  }

  /** The first address of fragment `i` is not below its border. */
  ghost predicate LowOk(frags: Frags, i: nat)
    requires RawSent(frags) && i < |frags|
  {
    !RawLess(frags[i][0].addr, Border(frags, i))
  }

  /** The last address of fragment `i` is below the next border. */
  ghost predicate HighOk(frags: Frags, i: nat)
    requires RawSent(frags) && i < |frags|
  {
    RawLess(LastOf(frags[i]), Border(frags, i + 1))
  }

  /** No border is above the address that follows it. */
  lemma LowAlways(frags: Frags, i: nat)
    requires RawSent(frags) && i < |frags|
    ensures LowOk(frags, i)
  {
    if i == 0 {
      EndsOk(frags);
    } else {
      CutDiffers(frags, i);
      BorderFromBoth(frags, i);
      RawCutNotAbove(LastOf(frags[i - 1]), frags[i][0].addr);
    }
  }

  lemma CutAtExactly(frags: Frags, i: nat)
    requires RawSent(frags) && 0 < i < |frags|
    ensures CutAt(frags, i) <==> HighOk(frags, i - 1)
  {
    hide RawLess, Rebuild, BorderFlag, FirstDiff, Below;
    CutDiffers(frags, i);
    LowAlways(frags, i);
    RawCutSeparates(LastOf(frags[i - 1]), frags[i][0].addr);
  }

  lemma EndsOk(frags: Frags)
    requires RawSent(frags)
    ensures LowOk(frags, 0) && (HighOk(frags, |frags| - 1) <==> LastOf(frags[|frags| - 1]) != Fill(N, 0xff))
  {
    hide RawLess, Border;
    BorderEnds(frags);
    RawEnds(frags[0][0].addr);
    RawEnds(LastOf(frags[|frags| - 1]));
  }

  ghost predicate HoldsOwn(frags: Frags, i: nat)
    requires RawSent(frags) && i < |frags|
  {
    forall a :: 0 <= a < |frags[i]| ==> RawIn(frags, i, frags[i][a].addr)
  }

  /** A range holds its own fragment exactly if it holds its first and last address. */
  lemma HoldsOwnExactly(frags: Frags, i: nat)
    requires RawSent(frags) && i < |frags|
    ensures HoldsOwn(frags, i) <==> LowOk(frags, i) && HighOk(frags, i)
  {
    hide RawLess, Border;
    var f, lo, hi := frags[i], Border(frags, i), Border(frags, i + 1);
    if LowOk(frags, i) && HighOk(frags, i) {
      forall a | 0 <= a < |f| ensures RawIn(frags, i, f[a].addr) {
        if a < |f| - 1 {
          RawTransitive(f[a].addr, LastOf(f), hi);
        }
        if a > 0 && RawLess(f[a].addr, lo) {
          RawTransitive(f[0].addr, f[a].addr, lo);
        }
      }
    }
    if HoldsOwn(frags, i) {
      assert RawIn(frags, i, f[0].addr) && RawIn(frags, i, f[|f| - 1].addr);
    }
  }

  /**
   All ranges hold their own addresses if and only if every cut meets the condition and
   the list does not end with the all-one address.
   */
  lemma AllHoldOwnExactly(frags: Frags)
    requires RawSent(frags)
    ensures (forall i :: 0 <= i < |frags| ==> HoldsOwn(frags, i)) <==>
            (forall i :: 0 < i < |frags| ==> CutAt(frags, i)) && LastOf(frags[|frags| - 1]) != Fill(N, 0xff)
  {
    hide RawSent, HoldsOwn, CutAt, LowOk, HighOk, LastOf, Fill;
    NotEmpty(frags);
    EndsOk(frags);
    var k := |frags|;
    forall i | 0 <= i < k ensures HoldsOwn(frags, i) <==> HighOk(frags, i) {
      HoldsOwnExactly(frags, i);
      LowAlways(frags, i);
    }
    if forall i :: 0 <= i < k ==> HoldsOwn(frags, i) {
      forall i | 0 < i < k ensures CutAt(frags, i) {
        CutAtExactly(frags, i);
        assert HoldsOwn(frags, i - 1);
      }
      assert HoldsOwn(frags, k - 1);
    }
    if (forall i :: 0 < i < k ==> CutAt(frags, i)) && HighOk(frags, k - 1) {
      forall i | 0 <= i < k ensures HoldsOwn(frags, i) {
        if i + 1 < k {
          assert CutAt(frags, i + 1);
          CutAtExactly(frags, i + 1);
        }
      }
    }
  }

  lemma NotEmpty(frags: Frags)
    requires RawSent(frags)
    ensures |frags| > 0 && frags[|frags| - 1] != []
  {
  }

  /* ---- the originator's edges over a whole advertisement ---- */

  ghost predicate Stale(e: TcEdge, ansn: nat) {
    SeqGreater(ansn, e.ansn)
  }

  /** The edges without the older ones between the two borders. */
  ghost function RawRevoke(e: Edges, ansn: nat, lo: Bytes, hi: Bytes): Edges
    requires |lo| == |hi| == N
  {
    map d | d in e && !(RawBetween(d, lo, hi) && Stale(e[d], ansn)) :: e[d]
  }

  lemma RawLeastKey(keys: set<Bytes>) returns (d: Bytes)
    requires keys != {} && forall x :: x in keys ==> |x| == N
    ensures d in keys && forall x :: x in keys ==> !RawLess(x, d)
    decreases |keys|
  {
    hide RawLess;
    d :| d in keys;
    RawIrreflexive(d);
    if keys != {d} {
      var e := RawLeastKey(keys - {d});
      RawTotal(d, e);
      RawIrreflexive(e);
      forall x | x in keys ensures !RawLess(x, if RawLess(e, d) then e else d) {
        if x != d && RawLess(x, d) && !RawLess(e, d) {
          RawTransitive(x, d, e);
        }
      }
      if RawLess(e, d) {
        d := e;
      }
    }
  }

  /** What is not below `d` is not below anything `d` is not below. */
  lemma RawNotBelow(b: Bytes, d: Bytes, x: Bytes)
    requires |b| == |d| == |x| && !RawLess(d, b) && !RawLess(x, d)
    ensures !RawLess(x, b)
  {
    hide RawLess;
    RawTotal(d, x);
    if RawLess(x, b) && d != x {
      RawTransitive(d, x, b);
    }
  }

  /** `olsr_delete_revoked_tc_edges` over an edge tree in raw order; the walk stops at the upper border. */
  method RawDeleteRevoked(edges: Edges, ansn: nat, lo: Bytes, hi: Bytes) returns (r: Edges, changed: bool)
    requires |lo| == |hi| == N && KeysSized(edges, N)
    ensures r == RawRevoke(edges, ansn, lo, hi) && (changed <==> r != edges)
  {
    hide RawLess, SeqGreater;
    r, changed := edges, false;
    var rest := edges.Keys;
    var passedLowerBorder := false;
    while rest != {}
      invariant rest <= edges.Keys
      invariant forall d :: d in r <==> d in edges && (d in rest || !(RawBetween(d, lo, hi) && Stale(edges[d], ansn)))
      invariant forall d :: d in r ==> r[d] == edges[d]
      invariant passedLowerBorder ==> forall d :: d in rest ==> !RawLess(d, lo)
      invariant changed <==> r != edges
      decreases rest
    {
      ghost var least := RawLeastKey(rest);
      var d :| d in rest && forall x :: x in rest ==> !RawLess(x, d);
      rest := rest - {d};
      if !passedLowerBorder {
        if !RawLess(d, lo) {
          passedLowerBorder := true;
          forall x | x in rest ensures !RawLess(x, lo) {
            RawNotBelow(lo, d, x);
          }
        } else {
          continue;
        }
      }
      if !RawLess(d, hi) {
        forall x | x in rest ensures !RawLess(x, hi) {
          RawNotBelow(hi, d, x);
        }
        break;
      }
      if SeqGreater(ansn, edges[d].ansn) {
        r := r - {d};
        changed := true;
      }
    }
  }

  /** One fragment: refresh what it lists, then drop the older edges in its raw range. */
  ghost function RawProcess(e: Edges, frags: Frags, i: nat, ansn: nat): Edges
    requires RawSent(frags) && i < |frags|
  {
    RawRevoke(RefreshAll(e, frags[i], ansn), ansn, Border(frags, i), Border(frags, i + 1))
  }

  ghost function RawProcessAll(e: Edges, frags: Frags, k: nat, ansn: nat): Edges
    requires RawSent(frags) && k <= |frags|
  {
    if k == 0 then e else RawProcess(RawProcessAll(e, frags, k - 1, ansn), frags, k - 1, ansn)
  }

  ghost predicate RawListed(frags: Frags, k: nat, d: Bytes) {
    exists i, a :: 0 <= i < k && i < |frags| && 0 <= a < |frags[i]| && frags[i][a].addr == d
  }

  ghost predicate RawSwept(frags: Frags, k: nat, d: Bytes)
    requires RawSent(frags) && k <= |frags|
  {
    exists i :: 0 <= i < k && RawIn(frags, i, d)
  }

  /** No listed address lies in the range of an earlier fragment, whether or not the cuts separate. */
  lemma ListedNotSwept(frags: Frags, j: nat, a: nat)
    requires RawSent(frags) && j < |frags| && a < |frags[j]|
    ensures !RawSwept(frags, j, frags[j][a].addr)
  {
    hide RawLess, Border;
    var x := frags[j][a].addr;
    forall i | 0 <= i < j ensures !RawIn(frags, i, x) {
      var first := frags[i + 1][0].addr;
      LowAlways(frags, i + 1);
      RawTotal(first, x);
      if i + 1 < j || a > 0 {
        assert RawLess(first, x);
      }
      RawNotBelow(Border(frags, i + 1), first, x);
    }
  }

  /** The cost a listed neighbour ends with: that of the cleared quality if it had no edge before. */
  function EndCost(e0: Edges, d: Bytes, lq: Lq): nat {
    if d in e0 then CostOf(lq) else LinkCost.CalcCost(0, 0)
  }

  ghost predicate StoredAt(e0: Edges, e: Edges, frags: Frags, j: nat, a: nat, ansn: nat)
    requires RawSent(frags) && j < |frags| && a < |frags[j]|
  {
    var x := frags[j][a];
    x.addr in e && e[x.addr] == TcEdge(ansn, x.lq, EndCost(e0, x.addr, x.lq))
  }

  /** Other edges are there, as they were, unless they are in a range. */
  ghost predicate OtherAt(e0: Edges, e: Edges, frags: Frags, k: nat, d: Bytes)
    requires RawSent(frags) && k <= |frags|
  {
    !RawListed(frags, k, d) ==>
      (d in e <==> d in e0 && !RawSwept(frags, k, d)) && (d in e ==> d in e0 && e[d] == e0[d])
  }

  lemma RawDistinct(frags: Frags, i: nat, a: nat, j: nat, b: nat)
    requires RawSent(frags) && i < |frags| && j < |frags| && a < |frags[i]| && b < |frags[j]| && (i, a) != (j, b)
    ensures frags[i][a].addr != frags[j][b].addr
  {
    hide RawLess;
    RawIrreflexive(frags[i][a].addr);
  }

  lemma ListedNotBefore(frags: Frags, j: nat, a: nat)
    requires RawSent(frags) && j < |frags| && a < |frags[j]|
    ensures !RawListed(frags, j, frags[j][a].addr)
  {
    hide RawSent;
    if i, b :| 0 <= i < j && 0 <= b < |frags[i]| && frags[i][b].addr == frags[j][a].addr {
      RawDistinct(frags, i, b, j, a);
    }
  }

  /** The refresh of fragment `k`, address by address. */
  lemma RefreshAt(e: Edges, frags: Frags, k: nat, ansn: nat)
    requires RawSent(frags) && k < |frags|
    ensures var r, f := RefreshAll(e, frags[k], ansn), frags[k];
      && (forall a :: 0 <= a < |f| ==> f[a].addr in r && r[f[a].addr] == Refresh(e, f[a].addr, f[a].lq, ansn)[f[a].addr])
      && (forall d :: d in e ==> d in r)
      && (forall d :: d in r && (forall a :: 0 <= a < |f| ==> f[a].addr != d) ==> d in e && r[d] == e[d])
  {
    hide RefreshAll, Refresh, RawSent;
    forall i, j | 0 <= i < j < |frags[k]| ensures frags[k][i].addr != frags[k][j].addr {
      RawDistinct(frags, k, i, k, j);
    }
    RefreshAllEffect(e, frags[k], ansn);
  }

  lemma SweptNextRaw(frags: Frags, k: nat, d: Bytes)
    requires RawSent(frags) && k < |frags|
    ensures RawSwept(frags, k + 1, d) <==> RawSwept(frags, k, d) || RawIn(frags, k, d)
  {
    hide RawIn, RawSent;
  }

  lemma OtherNext(e0: Edges, e: Edges, frags: Frags, k: nat, ansn: nat, d: Bytes)
    requires RawSent(frags) && k < |frags| && OtherAt(e0, e, frags, k, d)
    requires d in e0 ==> Stale(e0[d], ansn)
    ensures OtherAt(e0, RawProcess(e, frags, k, ansn), frags, k + 1, d)
  {
    RefreshAt(e, frags, k, ansn);
    SweptNextRaw(frags, k, d);
    if !RawListed(frags, k + 1, d) {
      forall a | 0 <= a < |frags[k]| ensures frags[k][a].addr != d {
      }
      assert !RawListed(frags, k, d);
    }
  }

  lemma StoredNew(e0: Edges, e: Edges, frags: Frags, k: nat, a: nat, ansn: nat)
    requires RawSent(frags) && k < |frags| && a < |frags[k]| && OtherAt(e0, e, frags, k, frags[k][a].addr)
    ensures StoredAt(e0, RawProcess(e, frags, k, ansn), frags, k, a, ansn)
  {
    RefreshAt(e, frags, k, ansn);
    ListedNotBefore(frags, k, a);
    ListedNotSwept(frags, k, a);
    SeqIrreflexive(ansn);
    hide RefreshAll, RawSent, RawIn, RawSwept, RawListed, SeqGreater;
  }

  lemma StoredStays(e0: Edges, e: Edges, frags: Frags, j: nat, a: nat, k: nat, ansn: nat)
    requires RawSent(frags) && j < k < |frags| && a < |frags[j]| && StoredAt(e0, e, frags, j, a, ansn)
    ensures StoredAt(e0, RawProcess(e, frags, k, ansn), frags, j, a, ansn)
  {
    RefreshAt(e, frags, k, ansn);
    SeqIrreflexive(ansn);
    hide RefreshAll, Refresh, RawSent, RawIn, RawSwept, SeqGreater, EndCost;
    forall b | 0 <= b < |frags[k]| ensures frags[k][b].addr != frags[j][a].addr {
      RawDistinct(frags, j, a, k, b);
    }
  }

  ghost predicate AllStoredRaw(e0: Edges, e: Edges, frags: Frags, k: nat, ansn: nat)
    requires RawSent(frags) && k <= |frags|
  {
    forall j, a :: 0 <= j < k && 0 <= a < |frags[j]| ==> StoredAt(e0, e, frags, j, a, ansn)
  }

  ghost predicate AllOtherRaw(e0: Edges, e: Edges, frags: Frags, k: nat)
    requires RawSent(frags) && k <= |frags|
  {
    forall d :: OtherAt(e0, e, frags, k, d)
  }

  lemma EffectNext(e0: Edges, e: Edges, frags: Frags, k: nat, ansn: nat)
    requires RawSent(frags) && k < |frags| && AllStoredRaw(e0, e, frags, k, ansn) && AllOtherRaw(e0, e, frags, k)
    requires forall d :: d in e0 ==> Stale(e0[d], ansn)
    ensures var e' := RawProcess(e, frags, k, ansn); AllStoredRaw(e0, e', frags, k + 1, ansn) && AllOtherRaw(e0, e', frags, k + 1)
  {
    hide RawSent, RawProcess, StoredAt, RawIn, Stale, OtherAt;
    var e', m := RawProcess(e, frags, k, ansn), k + 1;
    forall d ensures OtherAt(e0, e', frags, m, d) {
      OtherNext(e0, e, frags, k, ansn, d);
    }
    forall j, a | 0 <= j < m && 0 <= a < |frags[j]| ensures StoredAt(e0, e', frags, j, a, ansn) {
      if j == k {
        StoredNew(e0, e, frags, j, a, ansn);
      } else {
        StoredStays(e0, e, frags, j, a, k, ansn);
      }
    }
  }

  /** The edges after `k` fragments of an advertisement newer than all edges. */
  lemma {:induction false} RawProcessEffect(e0: Edges, frags: Frags, k: nat, ansn: nat)
    requires RawSent(frags) && k <= |frags| && forall d :: d in e0 ==> Stale(e0[d], ansn)
    ensures var e := RawProcessAll(e0, frags, k, ansn);
      AllStoredRaw(e0, e, frags, k, ansn) && AllOtherRaw(e0, e, frags, k)
    decreases k
  {
    hide RawSent, RawProcess, StoredAt, RawIn, Stale;
    if k > 0 {
      hide AllStoredRaw, AllOtherRaw;
      RawProcessEffect(e0, frags, k - 1, ansn);
      EffectNext(e0, RawProcessAll(e0, frags, k - 1, ansn), frags, k - 1, ansn);
    }
  }

  lemma SweptExactlyRaw(frags: Frags, d: Bytes)
    requires RawSent(frags) && |d| == N
    ensures RawSwept(frags, |frags|, d) <==> d != Fill(N, 0xff)
  {
    hide RawSent, RawLess, Border;
    RawEnds(d);
    BorderEnds(frags);
    NotEmpty(frags);
    if d != Fill(N, 0xff) {
      var i := RawRangesCover(frags, |frags|, d);
    } else {
      forall i | 0 <= i < |frags| ensures !RawIn(frags, i, d) {
        NothingAbove(Border(frags, i + 1));
      }
    }
  }

  lemma NothingAbove(x: Bytes)
    requires |x| == N
    ensures !RawLess(Fill(N, 0xff), x)
  {
    RawTotal(x, Fill(N, 0xff));
    RawEnds(x);
  }

  /**
   In raw order too the edges of a whole advertisement are the advertised ones, unless a stale edge to the
   all-one address is left, and each carries its advertised cost if it was there before, whether or not the
   cuts separate.
   */
  lemma RawAdvertisementExact(e0: Edges, frags: Frags, ansn: nat)
    requires RawSent(frags) && KeysSized(e0, N) && forall d :: d in e0 ==> Stale(e0[d], ansn)
    ensures var e := RawProcessAll(e0, frags, |frags|, ansn);
      && ((forall d :: d in e <==> RawListed(frags, |frags|, d)) <==>
          (Fill(N, 0xff) in e0 ==> RawListed(frags, |frags|, Fill(N, 0xff))))
      && AllStoredRaw(e0, e, frags, |frags|, ansn)
  {
    var k := |frags|;
    var e := RawProcessAll(e0, frags, k, ansn);
    RawProcessEffect(e0, frags, k, ansn);
    hide RawSent, RawProcessAll, Stale, RawSwept, EndCost;
    forall d ensures d in e <==> RawListed(frags, k, d) || (d in e0 && d == Fill(N, 0xff)) {
      assert OtherAt(e0, e, frags, k, d);
      if d in e0 {
        SweptExactlyRaw(frags, d);
      }
      if j, a :| 0 <= j < k && 0 <= a < |frags[j]| && frags[j][a].addr == d {
        assert StoredAt(e0, e, frags, j, a, ansn);
      }
    }
  }
}
