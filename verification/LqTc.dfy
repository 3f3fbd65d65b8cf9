/**
 The LQ_TC writer of Olsrd/src/lq_packet.c: building the sorted neighbour list and
 cutting it into fragments whose border flags let the receiver tile the address space.
 */
module LqTc {
  import opened Common
  import opened IpOrder
  import opened TcBorder
  import opened NetOut

  /** Link quality bytes of an advertised neighbour. */
  datatype Lq = Lq(lq: bv8, nlq: bv8)

  datatype Advert = Advert(addr: Bytes, lq: Lq)

  /** One LQ_TC message: border flags and the neighbours it lists. */
  datatype Fragment = Fragment(lower: nat, upper: nat, adverts: seq<Advert>) {
    function First(): Bytes requires adverts != [] { adverts[0].addr }
    function Last(): Bytes requires adverts != [] { adverts[|adverts| - 1].addr }
  }

  ghost predicate Sized(list: seq<Advert>, n: nat) {
    forall i :: 0 <= i < |list| ==> |list[i].addr| == n
  }

  ghost predicate Increasing(list: seq<Advert>, n: nat) {
    && Sized(list, n)
    && forall i, j :: 0 <= i < j < |list| ==> Less(list[i].addr, list[j].addr)
  }

  /* ---------- cutting a list into fragments ---------- */

  ghost function Flatten(frags: seq<Fragment>): seq<Advert> {
    if frags == [] then [] else Flatten(frags[..|frags| - 1]) + frags[|frags| - 1].adverts
  }

  ghost predicate IsCut(list: seq<Advert>, frags: seq<Fragment>) {
    && frags != [] && Flatten(frags) == list
    && forall i :: 0 <= i < |frags| ==> frags[i].adverts != []
  }

  /** The sender's flags: both ends open, neighbouring fragments share the flag of their cut. */
  ghost predicate Flagged(frags: seq<Fragment>, n: nat) {
    && frags != []
    && (forall i :: 0 <= i < |frags| ==> frags[i].adverts != [] && Sized(frags[i].adverts, n))
    && frags[0].lower == END_BORDER && frags[|frags| - 1].upper == END_BORDER
    && forall i :: 0 <= i < |frags| - 1 ==>
         frags[i].upper == frags[i + 1].lower == BorderFlag(frags[i].Last(), frags[i + 1].First())
  }

  /** Fragments of an increasing list are increasing and follow each other. */
  ghost predicate Chained(frags: seq<Fragment>, n: nat) {
    && (forall i :: 0 <= i < |frags| ==> frags[i].adverts != [] && Increasing(frags[i].adverts, n))
    && forall i :: 0 <= i < |frags| - 1 ==> Less(frags[i].Last(), frags[i + 1].First())
  }

  lemma SplitIncreasing(front: seq<Advert>, last: seq<Advert>, n: nat)
    requires Increasing(front + last, n)
    ensures Increasing(front, n) && Increasing(last, n)
    ensures front != [] && last != [] ==>
              |front[|front| - 1].addr| == |last[0].addr| && Less(front[|front| - 1].addr, last[0].addr)
  {
    hide Less;
    var list := front + last;
    assert forall i :: 0 <= i < |front| ==> front[i] == list[i];
    assert forall i :: 0 <= i < |last| ==> last[i] == list[|front| + i];
    if front != [] && last != [] {
      assert front[|front| - 1] == list[|front| - 1];
    }
  }

  lemma {:induction false} CutIsChained(list: seq<Advert>, frags: seq<Fragment>, n: nat)
    requires IsCut(list, frags) && Increasing(list, n)
    ensures Chained(frags, n)
    decreases |frags|
  {
    hide Less, Increasing;
    var m := |frags| - 1;
    var front, last := frags[..m], frags[m].adverts;
    SplitIncreasing(Flatten(front), last, n);
    if m > 0 {
      CutIsChained(Flatten(front), front, n);
      var f := frags[m - 1].adverts;
      assert Flatten(front) == Flatten(front[..m - 1]) + f;
      assert frags[m - 1].Last() == Flatten(front)[|Flatten(front)| - 1].addr;
    }
    hide Flatten;
    assert frags == front + [frags[m]];
    assert forall i :: 0 <= i < m ==> front[i] == frags[i];
  }

  /* ---------- the receiver's ranges tile the space ---------- */

  predicate FlagsFit(f: Fragment, n: nat) {
    && (f.lower == END_BORDER || ValidFlag(f.lower, n))
    && (f.upper == END_BORDER || ValidFlag(f.upper, n))
  }

  /** A non-empty fragment the receiver can expand. */
  ghost predicate Expandable(f: Fragment, n: nat) {
    f.adverts != [] && Sized(f.adverts, n) && FlagsFit(f, n)
  }

  ghost function Lo(f: Fragment, n: nat, ptrSize: nat): (r: Bytes)
    requires Expandable(f, n)
    ensures |r| == n
  {
    LowerBorder(f.First(), f.lower, ptrSize)
  }

  ghost function Hi(f: Fragment, n: nat, ptrSize: nat): (r: Bytes)
    requires Expandable(f, n)
    ensures |r| == n
  {
    UpperBorder(f.Last(), f.upper, ptrSize)
  }

  /** The half-open revocation range of a fragment. */
  ghost predicate InRange(f: Fragment, n: nat, ptrSize: nat, x: Bytes)
    requires Expandable(f, n)
  {
    |x| == n && Le(Lo(f, n, ptrSize), x) && Less(x, Hi(f, n, ptrSize))
  }

  /** Some byte that the upper end border overwrites is not 0xff in the last address. */
  ghost predicate RoomAbove(last: Bytes, ptrSize: nat) {
    exists i :: 0 <= i < ptrSize && i < |last| && last[i] != 0xff
  }

  /** What the sender guarantees about the fragments of one advertisement. */
  ghost predicate Sent(frags: seq<Fragment>, n: nat) {
    n <= 16 && Flagged(frags, n) && Chained(frags, n)
  }

  lemma FlagsOk(frags: seq<Fragment>, n: nat, i: nat)
    requires Sent(frags, n) && i < |frags|
    ensures Expandable(frags[i], n)
  {
    hide Less, BorderFlag, Rebuild;
    if i > 0 {
      assert Less(frags[i - 1].Last(), frags[i].First());
      CutMeets(frags[i - 1].Last(), frags[i].First());
    }
    if i < |frags| - 1 {
      CutMeets(frags[i].Last(), frags[i + 1].First());
    }
  }

  /** The upper border of a fragment is the lower border of the next. */
  lemma BordersMeet(frags: seq<Fragment>, n: nat, ptrSize: nat, i: nat)
    requires Sent(frags, n) && i + 1 < |frags|
    ensures Expandable(frags[i], n) && Expandable(frags[i + 1], n)
    ensures Hi(frags[i], n, ptrSize) == Lo(frags[i + 1], n, ptrSize)
    ensures Less(frags[i].Last(), Hi(frags[i], n, ptrSize))
    ensures Le(Lo(frags[i + 1], n, ptrSize), frags[i + 1].First())
  {
    hide Less, BorderFlag, Rebuild;
    FlagsOk(frags, n, i);
    FlagsOk(frags, n, i + 1);
    CutMeets(frags[i].Last(), frags[i + 1].First());
  }

  /** Lower border, first, last and upper border of every fragment are in order. */
  lemma FragmentBracketed(frags: seq<Fragment>, n: nat, ptrSize: nat, i: nat)
    requires Sent(frags, n) && i < |frags|
    ensures Expandable(frags[i], n)
    ensures Le(Lo(frags[i], n, ptrSize), frags[i].First())
    ensures Less(frags[i].Last(), Hi(frags[i], n, ptrSize)) <==>
            i < |frags| - 1 || RoomAbove(frags[i].Last(), ptrSize)
  {
    hide Less, BorderFlag, Rebuild, EndBorder;
    FlagsOk(frags, n, i);
    if i == 0 {
      EndLowerBelow(frags[0].First(), ptrSize);
    } else {
      BordersMeet(frags, n, ptrSize, i - 1);
    }
    if i < |frags| - 1 {
      BordersMeet(frags, n, ptrSize, i);
    } else {
      EndUpperAbove(frags[i].Last(), ptrSize);
    }
  }

  /** Each fragment's range holds the fragment's own addresses. */
  lemma RangeHoldsOwn(frags: seq<Fragment>, n: nat, ptrSize: nat, i: nat, k: nat)
    requires Sent(frags, n) && i < |frags| && k < |frags[i].adverts|
    requires i < |frags| - 1 || RoomAbove(frags[i].Last(), ptrSize)
    ensures Expandable(frags[i], n) && InRange(frags[i], n, ptrSize, frags[i].adverts[k].addr)
  {
    hide Less;
    FragmentBracketed(frags, n, ptrSize, i);
    var f := frags[i];
    var x := f.adverts[k].addr;
    LeLess(Lo(f, n, ptrSize), f.First(), x);
    LeLess(x, f.Last(), Hi(f, n, ptrSize));
  }

  /** Later ranges start where or after earlier ranges end. */
  lemma {:induction false} RangesAscend(frags: seq<Fragment>, n: nat, ptrSize: nat, i: nat, j: nat)
    requires Sent(frags, n) && i < j < |frags|
    ensures Expandable(frags[i], n) && Expandable(frags[j], n)
    ensures Le(Hi(frags[i], n, ptrSize), Lo(frags[j], n, ptrSize))
    decreases j - i
  {
    hide Less;
    BordersMeet(frags, n, ptrSize, i);
    if i + 1 < j {
      RangesAscend(frags, n, ptrSize, i + 1, j);
      FragmentBracketed(frags, n, ptrSize, i + 1);
      var f := frags[i + 1];
      LeLess(f.First(), f.Last(), Hi(f, n, ptrSize));
      LeLess(Lo(f, n, ptrSize), f.First(), Hi(f, n, ptrSize));
      LeLess(Hi(frags[i], n, ptrSize), Hi(f, n, ptrSize), Lo(frags[j], n, ptrSize));
    } else {
      FlagsOk(frags, n, j);
    }
  }

  lemma RangesDisjoint(frags: seq<Fragment>, n: nat, ptrSize: nat, i: nat, j: nat, x: Bytes)
    requires Sent(frags, n) && i < |frags| && j < |frags|
    requires Expandable(frags[i], n) && Expandable(frags[j], n)
    requires InRange(frags[i], n, ptrSize, x) && InRange(frags[j], n, ptrSize, x)
    ensures i == j
  {
    if i < j {
      RangeBefore(frags, n, ptrSize, i, j, x);
    } else if j < i {
      RangeBefore(frags, n, ptrSize, j, i, x);
    }
  }

  lemma RangeBefore(frags: seq<Fragment>, n: nat, ptrSize: nat, i: nat, j: nat, x: Bytes)
    requires Sent(frags, n) && i < j < |frags|
    requires Expandable(frags[i], n) && Expandable(frags[j], n)
    requires InRange(frags[i], n, ptrSize, x)
    ensures !InRange(frags[j], n, ptrSize, x)
  {
    hide Less;
    RangesAscend(frags, n, ptrSize, i, j);
    LeLess(x, Hi(frags[i], n, ptrSize), Lo(frags[j], n, ptrSize));
    Trichotomy(x, Lo(frags[j], n, ptrSize));
    LessIrreflexive(x);
  }

  /** Nothing between the outer borders is missed. */
  lemma {:induction false} RangesCover(frags: seq<Fragment>, n: nat, ptrSize: nat, m: nat, x: Bytes)
    returns (i: nat)
    requires Sent(frags, n) && m < |frags| && |x| == n
    requires Expandable(frags[0], n) && Expandable(frags[m], n)
    requires Le(Lo(frags[0], n, ptrSize), x) && Less(x, Hi(frags[m], n, ptrSize))
    ensures i <= m && Expandable(frags[i], n) && InRange(frags[i], n, ptrSize, x)
    decreases m
  {
    hide Less;
    var lo := Lo(frags[m], n, ptrSize);
    if Le(lo, x) {
      return m;
    }
    Trichotomy(lo, x);
    if m == 0 {
      assert false;
    }
    BordersMeet(frags, n, ptrSize, m - 1);
    i := RangesCover(frags, n, ptrSize, m - 1, x);
  }

  /* ---------- building the list: create_lq_tc ---------- */

  /** A neighbour table entry with its best link, if there is one. */
  datatype Nbr = Nbr(addr: Bytes, sym: bool, isMpr: bool, isSelector: bool, link: Option<BestLink>)

  datatype BestLink = BestLink(cost: nat, lq: Lq)

  predicate Eligible(x: Nbr, tcRedundancy: int) {
    && x.sym
    && (tcRedundancy == 1 ==> x.isMpr || x.isSelector)
    && (tcRedundancy == 0 ==> x.isSelector)
    && x.link.Some? && x.link.value.cost < LINK_COST_BROKEN
  }

  ghost predicate Distinct(nbrs: seq<Nbr>, n: nat) {
    && (forall i :: 0 <= i < |nbrs| ==> |nbrs[i].addr| == n)
    && forall i, j :: 0 <= i < j < |nbrs| ==> nbrs[i].addr != nbrs[j].addr
  }

  /** The list holds the advertisement of each eligible neighbour and nothing else. */
  ghost predicate Advertises(list: seq<Advert>, nbrs: seq<Nbr>, tcRedundancy: int) {
    && (forall i :: 0 <= i < |nbrs| && Eligible(nbrs[i], tcRedundancy) ==>
          Advert(nbrs[i].addr, nbrs[i].link.value.lq) in list)
    && forall a :: a in list ==>
         exists i :: 0 <= i < |nbrs| && Eligible(nbrs[i], tcRedundancy) &&
                     a == Advert(nbrs[i].addr, nbrs[i].link.value.lq)
  }

  /** The insertion of `create_lq_tc`: before the first entry with a greater address. */
  method InsertSorted(list: seq<Advert>, a: Advert, n: nat) returns (r: seq<Advert>)
    requires Increasing(list, n) && |a.addr| == n
    requires forall i :: 0 <= i < |list| ==> list[i].addr != a.addr
    ensures Increasing(r, n)
    ensures forall x :: x in r <==> x in list || x == a
  {
    hide Less;
    if list == [] || Less(a.addr, list[0].addr) {
      r := [a] + list;
      SpliceIncreasing(list, 0, a, n);
      assert r == list[..0] + [a] + list[0..];
    } else {
      var i := 1;
      Trichotomy(a.addr, list[0].addr);
      while i < |list|
        invariant 1 <= i <= |list|
        invariant Less(list[i - 1].addr, a.addr)
      {
        if Less(a.addr, list[i].addr) {
          break;
        }
        Trichotomy(a.addr, list[i].addr);
        i := i + 1;
      }
      SpliceIncreasing(list, i, a, n);
      r := list[..i] + [a] + list[i..];
      assert list == list[..i] + list[i..];
    }
  }

  lemma SpliceIncreasing(list: seq<Advert>, k: nat, a: Advert, n: nat)
    requires Increasing(list, n) && |a.addr| == n && k <= |list|
    requires k > 0 ==> Less(list[k - 1].addr, a.addr)
    requires k < |list| ==> Less(a.addr, list[k].addr)
    ensures Increasing(list[..k] + [a] + list[k..], n)
  {
    hide Less;
    var r := list[..k] + [a] + list[k..];
    assert forall i :: 0 <= i < |r| ==> r[i] == if i < k then list[i] else if i == k then a else list[i - 1];
    forall i | 0 <= i < k ensures Less(list[i].addr, a.addr) {
      if i < k - 1 {
        LessTransitive(list[i].addr, list[k - 1].addr, a.addr);
      }
    }
    forall i | k <= i < |list| ensures Less(a.addr, list[i].addr) {
      if k < i {
        LessTransitive(a.addr, list[k].addr, list[i].addr);
      }
    }
  }

  method CreateLqTc(nbrs: seq<Nbr>, tcRedundancy: int, n: nat) returns (list: seq<Advert>)
    requires Distinct(nbrs, n)
    ensures Increasing(list, n) && Advertises(list, nbrs, tcRedundancy)
    ensures forall i :: 0 <= i < |nbrs| ==>
              var x := nbrs[i];
              (exists a :: a in list && a.addr == x.addr) <==>
              && x.sym && x.link.Some? && x.link.value.cost < LINK_COST_BROKEN
              && (tcRedundancy == 0 ==> x.isSelector) && (tcRedundancy == 1 ==> x.isSelector || x.isMpr)
  {
    hide Less;
    list := [];
    for k := 0 to |nbrs|
      invariant Increasing(list, n) && Advertises(list, nbrs[..k], tcRedundancy)
    {
      var x := nbrs[k];
      assert nbrs[..k + 1] == nbrs[..k] + [x];
      if !x.sym {
        continue;
      }
      if tcRedundancy == 1 && !x.isMpr && !x.isSelector {
        continue;
      }
      if tcRedundancy == 0 && !x.isSelector {
        continue;
      }
      if x.link.None? || x.link.value.cost >= LINK_COST_BROKEN {
        continue;
      }
      forall i | 0 <= i < |list| ensures list[i].addr != x.addr {
        assert list[i] in list;
      }
      ghost var before := list;
      list := InsertSorted(list, Advert(x.addr, x.link.value.lq), n);
      assert forall a :: a in before ==> a in list;
    }
    assert nbrs[..|nbrs|] == nbrs;
    forall i | 0 <= i < |nbrs|
      ensures (exists a :: a in list && a.addr == nbrs[i].addr) <==> Eligible(nbrs[i], tcRedundancy)
    {
      if Eligible(nbrs[i], tcRedundancy) {
        assert Advert(nbrs[i].addr, nbrs[i].link.value.lq) in list;
      }
    }
  }

  /* ---------- writing the fragments: serialize_lq_tc ---------- */

  const LQ_SIZE: nat := 4

  /** The fragments already closed, when `cur` is being filled and `left` is its lower flag. */
  ghost predicate Closed(done: seq<Fragment>, cur: seq<Advert>, left: nat, n: nat) {
    && (forall i :: 0 <= i < |done| ==> done[i].adverts != [] && Sized(done[i].adverts, n))
    && Sized(cur, n)
    && (done == [] ==> left == END_BORDER)
    && (done != [] ==> cur != [] && done[0].lower == END_BORDER && left == done[|done| - 1].upper
                       == BorderFlag(done[|done| - 1].Last(), cur[0].addr))
    && forall i :: 0 <= i < |done| - 1 ==>
         done[i].upper == done[i + 1].lower == BorderFlag(done[i].Last(), done[i + 1].First())
  }

  lemma Extend(done: seq<Fragment>, cur: seq<Advert>, left: nat, next: Advert, n: nat)
    requires Closed(done, cur, left, n) && |next.addr| == n
    ensures Closed(done, cur + [next], left, n)
  {
    hide BorderFlag;
  }

  lemma CloseOne(done: seq<Fragment>, cur: seq<Advert>, left: nat, next: Advert, n: nat)
    requires Closed(done, cur, left, n) && cur != [] && |next.addr| == n
    requires |cur[|cur| - 1].addr| == n
    ensures var flag := BorderFlag(cur[|cur| - 1].addr, next.addr);
            Closed(done + [Fragment(left, flag, cur)], [next], flag, n)
  {
    hide BorderFlag;
  }

  /** Closing the last fragment with the end flag completes a flagged cut. */
  lemma CloseLast(done: seq<Fragment>, cur: seq<Advert>, left: nat, n: nat, list: seq<Advert>)
    requires n <= 16 && Closed(done, cur, left, n) && cur != []
    requires Flatten(done) + cur == list && Increasing(list, n)
    ensures IsCut(list, done + [Fragment(left, END_BORDER, cur)])
    ensures Sent(done + [Fragment(left, END_BORDER, cur)], n)
  {
    hide BorderFlag, Less, Flatten, Increasing;
    FlattenSnoc(done, Fragment(left, END_BORDER, cur));
    CutIsChained(list, done + [Fragment(left, END_BORDER, cur)], n);
    hide Chained;
  }

  lemma FlattenSnoc(done: seq<Fragment>, f: Fragment)
    ensures Flatten(done + [f]) == Flatten(done) + f.adverts
  {
    assert (done + [f])[..|done|] == done;
  }

  lemma FlattenEmpty()
    ensures Flatten([]) == []
  {
  }

  /** Bytes taken by `k` entries. */
  function EntryBytes(k: nat, n: nat): nat {
    k * (n + LQ_SIZE)
  }

  lemma EntryBytesGrow(k: nat, m: nat, n: nat)
    requires k < m
    ensures EntryBytes(0, n) == 0
    ensures EntryBytes(k + 1, n) == EntryBytes(k, n) + n + LQ_SIZE <= EntryBytes(m, n)
  {
    MulMonotone(k + 1, m, n + LQ_SIZE);
  }

  /** Every fragment, with its headers, fits the output buffer. */
  ghost predicate AllFit(frags: seq<Fragment>, off: nat, maxsize: nat, n: nat) {
    forall f :: f in frags ==> off + EntryBytes(|f.adverts|, n) <= maxsize
  }

  lemma AllFitSnoc(frags: seq<Fragment>, f: Fragment, off: nat, maxsize: nat, n: nat)
    ensures AllFit([], off, maxsize, n)
    ensures AllFit(frags, off, maxsize, n) && off + EntryBytes(|f.adverts|, n) <= maxsize
            ==> AllFit(frags + [f], off, maxsize, n)
  {
  }

  lemma SizedList(list: seq<Advert>, n: nat)
    requires Increasing(list, n)
    ensures Sized(list, n)
  {
  }

  /** Push a message that fits and send the buffer. */
  method PushAndSend(out: NetBuf<Fragment>, f: Fragment, size: nat)
    requires out.Valid() && 0 < size && out.pending + size <= out.maxsize
    modifies out
    ensures out.Valid() && out.pending == 0 && out.Trace() == old(out.Trace()) + [f]
  {
    var pushed := out.Push(f, size);
    out.Output();
  }

  /** After `i` entries: the fragments closed so far and the one at hand, which ends with the last entry. */
  ghost predicate Progress(frags: seq<Fragment>, cur: seq<Advert>, left: nat, list: seq<Advert>, i: nat, n: nat, off: nat,
                           maxsize: nat)
  {
    && i <= |list| && Closed(frags, cur, left, n) && Flatten(frags) + cur == list[..i]
    && AllFit(frags, off, maxsize, n) && (i > 0 ==> cur != [] && cur[|cur| - 1] == list[i - 1])
  }

  lemma ProgressStart(list: seq<Advert>, n: nat, off: nat, maxsize: nat)
    ensures Progress([], [], END_BORDER, list, 0, n, off, maxsize) && EntryBytes(0, n) == 0
  {
    FlattenEmpty();
    ClosedStart(n);
    AllFitSnoc([], Fragment(0, 0, []), off, maxsize, n);
  }

  lemma ProgressLast(frags: seq<Fragment>, cur: seq<Advert>, left: nat, list: seq<Advert>, i: nat, n: nat, off: nat,
                     maxsize: nat)
    requires Progress(frags, cur, left, list, i, n, off, maxsize) && 0 < i && Sized(list, n)
    ensures cur != [] && |cur[|cur| - 1].addr| == n
  {
  }

  /** Cutting before entry `i` closes the fragment at hand and starts one with that entry. */
  lemma ProgressCut(frags: seq<Fragment>, cur: seq<Advert>, left: nat, list: seq<Advert>, i: nat, n: nat, off: nat,
                    maxsize: nat)
    requires Progress(frags, cur, left, list, i, n, off, maxsize) && 0 < i < |list| && Sized(list, n)
    requires off + EntryBytes(|cur|, n) <= maxsize && cur != [] && |cur[|cur| - 1].addr| == n
    ensures var flag := BorderFlag(cur[|cur| - 1].addr, list[i].addr);
      Progress(frags + [Fragment(left, flag, cur)], [list[i]], flag, list, i + 1, n, off, maxsize)
  {
    hide BorderFlag, Flatten, EntryBytes, Closed, AllFit;
    var f := Fragment(left, BorderFlag(cur[|cur| - 1].addr, list[i].addr), cur);
    CloseOne(frags, cur, left, list[i], n);
    FlattenSnoc(frags, f);
    AllFitSnoc(frags, f, off, maxsize, n);
    assert list[..i + 1] == list[..i] + [list[i]];
  }

  lemma ProgressExtend(frags: seq<Fragment>, cur: seq<Advert>, left: nat, list: seq<Advert>, i: nat, n: nat, off: nat,
                       maxsize: nat)
    requires Progress(frags, cur, left, list, i, n, off, maxsize) && i < |list| && Sized(list, n)
    ensures Progress(frags, cur + [list[i]], left, list, i + 1, n, off, maxsize)
  {
    hide Closed, Flatten, AllFit;
    Extend(frags, cur, left, list[i], n);
    assert list[..i + 1] == list[..i] + [list[i]];
    assert Flatten(frags) + (cur + [list[i]]) == (Flatten(frags) + cur) + [list[i]];
  }

  lemma ProgressEnd(frags: seq<Fragment>, cur: seq<Advert>, left: nat, list: seq<Advert>, n: nat, off: nat, maxsize: nat)
    requires Progress(frags, cur, left, list, |list|, n, off, maxsize) && n <= 16 && Increasing(list, n)
    requires off + EntryBytes(|cur|, n) <= maxsize
    ensures var all := frags + [Fragment(left, END_BORDER, cur)];
      (list != [] ==> IsCut(list, all) && Sent(all, n)) && AllFit(all, off, maxsize, n)
  {
    hide Flatten, EntryBytes, Closed, AllFit, Increasing, IsCut, Sent;
    assert list[..|list|] == list;
    if list != [] {
      CloseLast(frags, cur, left, n, list);
    }
    AllFitSnoc(frags, Fragment(left, END_BORDER, cur), off, maxsize, n);
  }

  /** `serialize_lq_tc`: the list, cut into fragments that fit the buffer. */
  method SerializeLqTc(out: NetBuf<Fragment>, list: seq<Advert>, off: nat, n: nat)
    returns (ghost frags: seq<Fragment>)
    requires out.Valid() && n <= 16 && Increasing(list, n)
    requires 0 < off && off + n + LQ_SIZE <= out.maxsize
    modifies out
    ensures out.Valid() && out.Trace() == old(out.Trace()) + frags
    ensures list == [] ==> frags == [Fragment(END_BORDER, END_BORDER, [])]
    ensures list != [] ==> IsCut(list, frags) && Sent(frags, n)
    ensures AllFit(frags, off, out.maxsize, n)
    ensures forall f :: f in frags ==> off + |f.adverts| * (n + 4) <= out.maxsize
  {
    hide Less, BorderFlag, EntryBytes, Progress, Sent, IsCut, AllFit, Increasing, NetBuf.Trace;
    ghost var before := out.Trace();
    SizedList(list, n);
    var entry := n + LQ_SIZE;
    var size := 0;
    var rem := out.BytesLeft() - off;
    var expectedSize := if out.pending > 0 then EntryBytes(|list|, n) else 0;
    if rem < expectedSize {
      out.Output();
      rem := out.BytesLeft() - off;
    }
    var left, cur := END_BORDER, [];
    frags := [];
    ProgressStart(list, n, off, out.maxsize);
    for i := 0 to |list|
      invariant out.Valid() && out.Trace() == before + frags
      invariant rem == out.BytesLeft() - off && size == EntryBytes(|cur|, n) <= rem
      invariant i == 0 ==> frags == [] && cur == [] && left == END_BORDER && (out.pending == 0 || EntryBytes(|list|, n) <= rem)
      invariant Progress(frags, cur, left, list, i, n, off, out.maxsize)
    {
      EntryBytesGrow(0, |list|, n);
      if size + entry > rem {
        ProgressLast(frags, cur, left, list, i, n, off, out.maxsize);
        var upper := CalculateBorderFlag(cur[|cur| - 1].addr, list[i].addr);
        ProgressCut(frags, cur, left, list, i, n, off, out.maxsize);
        PushAndSend(out, Fragment(left, upper, cur), size + off);
        frags := frags + [Fragment(left, upper, cur)];
        left := upper;
        size := 0;
        rem := out.BytesLeft() - off;
        cur := [];
        assert cur + [list[i]] == [list[i]];
      } else {
        ProgressExtend(frags, cur, left, list, i, n, off, out.maxsize);
      }
      EntryBytesGrow(|cur|, |cur| + 1, n);
      cur := cur + [list[i]];
      size := size + entry;
    }
    ProgressEnd(frags, cur, left, list, n, off, out.maxsize);
    frags := frags + [Fragment(left, END_BORDER, cur)];
    AllFitBytes(frags, off, out.maxsize, n);
    var pushed := out.Push(Fragment(left, END_BORDER, cur), size + off);
  }

  lemma AllFitBytes(frags: seq<Fragment>, off: nat, maxsize: nat, n: nat)
    requires AllFit(frags, off, maxsize, n)
    ensures forall f :: f in frags ==> off + |f.adverts| * (n + 4) <= maxsize
  {
  }

  lemma ClosedStart(n: nat)
    ensures Closed([], [], END_BORDER, n)
    ensures EntryBytes(0, n) == 0
  {
  }
}
