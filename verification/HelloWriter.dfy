/**
 `serialize_lq_hello` of Olsrd/src/lq_packet.c: neighbours are grouped by type,
 written into a message buffer with info headers that are sized when they are
 closed, and split over several messages when the output buffer is full.
 */
module HelloWriter {
  import opened Common
  import opened HelloCodec
  import NetOut

  datatype Neigh = Neigh(entry: Entry, neighType: nat, linkType: nat)

  /** One message: its header and its info blocks. */
  datatype Frag = Frag(h: Header, bs: seq<Block>)

  /* ---- the order of the neighbours ---- */

  /** Neighbour types 0..2 and, for each, the link types in LINK_ORDER: SYM, UNSPEC, ASYM, LOST. */
  function Groups(): (gs: seq<(nat, nat)>)
    ensures forall i :: 0 <= i < |gs| ==> gs[i].0 < 3 && gs[i].1 < 4
  {
    [(0, 2), (0, 0), (0, 1), (0, 3), (1, 2), (1, 0), (1, 1), (1, 3), (2, 2), (2, 0), (2, 1), (2, 3)]
  }

  predicate InGroup(n: Neigh, g: (nat, nat)) {
    (n.neighType, n.linkType) == g
  }

  function AsNoted(n: Neigh): Neighbor {
    Neighbor(n.linkType, n.neighType, n.entry)
  }

  /** The neighbours of a group, last first. */
  ghost function OfGroup(ns: seq<Neigh>, g: (nat, nat)): seq<Neighbor> {
    if ns == [] then []
    else
      var n, front := ns[|ns| - 1], OfGroup(ns[..|ns| - 1], g);
      if InGroup(n, g) then [AsNoted(n)] + front else front
  }

  /** The neighbours of some groups, last first. */
  ghost function OfGroups(ns: seq<Neigh>, gs: seq<(nat, nat)>): seq<Neighbor> {
    if gs == [] then [] else OfGroup(ns, gs[|gs| - 1]) + OfGroups(ns, gs[..|gs| - 1])
  }

  /** The neighbours that have a place in the message. */
  ghost function Kept(ns: seq<Neigh>): seq<Neighbor> {
    if ns == [] then []
    else
      var n, front := ns[|ns| - 1], Kept(ns[..|ns| - 1]);
      if n.neighType < 3 && n.linkType < 4 then front + [Neighbor(n.linkType, n.neighType, n.entry)] else front
  }

  lemma {:induction false} GroupsNext(ns: seq<Neigh>, n: Neigh, gs: seq<(nat, nat)>)
    requires NoDup(gs)
    ensures multiset(OfGroups(ns + [n], gs)) ==
            multiset(OfGroups(ns, gs)) + if (n.neighType, n.linkType) in gs then multiset{AsNoted(n)} else multiset{}
  {
    hide OfGroup;
    if gs != [] {
      var k := |gs| - 1;
      GroupsNext(ns, n, gs[..k]);
      OfGroupSnoc(ns, n, gs[k]);
      assert gs == gs[..k] + [gs[k]];
      assert gs[k] !in gs[..k];
    }
  }

  lemma OfGroupSnoc(ns: seq<Neigh>, n: Neigh, g: (nat, nat))
    ensures OfGroup(ns + [n], g) == if InGroup(n, g) then [AsNoted(n)] + OfGroup(ns, g) else OfGroup(ns, g)
  {
    assert (ns + [n])[..|ns|] == ns;
  }

  /** Grouping loses no neighbour and repeats none, apart from those with no place in the message. */
  lemma {:induction false} GroupingKeeps(ns: seq<Neigh>)
    ensures multiset(OfGroups(ns, Groups())) == multiset(Kept(ns))
  {
    if ns == [] {
      NoneGrouped(Groups());
    } else {
      hide Groups, OfGroups;
      var k := |ns| - 1;
      GroupingKeeps(ns[..k]);
      assert ns == ns[..k] + [ns[k]];
      GroupsDistinct();
      GroupsNext(ns[..k], ns[k], Groups());
      AllGroups(ns[k].neighType, ns[k].linkType);
    }
  }

  lemma GroupsDistinct()
    ensures NoDup(Groups())
  {
  }

  lemma {:induction false} NoneGrouped(gs: seq<(nat, nat)>)
    ensures OfGroups([], gs) == []
  {
    if gs != [] {
      NoneGrouped(gs[..|gs| - 1]);
    }
  }

  lemma AllGroups(t: nat, l: nat)
    ensures (t, l) in Groups() <==> t < 3 && l < 4
  {
    var gs := Groups();
    if t < 3 && l < 4 {
      var j := if l == 2 then 0 else if l == 0 then 1 else if l == 1 then 2 else 3;
      assert gs[4 * t + j] == (t, l);
    }
  }

  /* ---- an info block being written ---- */

  /** `body` ends with an info block whose header is at `head` and whose size bytes may still be wrong. */
  ghost predicate Open(body: seq<Byte>, head: int, bs: seq<Block>) {
    && bs != [] && BlocksFit(bs)
    && head == |BlocksBytes(bs[..|bs| - 1])| && head + INFO <= |body|
    && body[..head] == BlocksBytes(bs[..|bs| - 1])
    && body[head] == bs[|bs| - 1].code && body[head + 1] == 0
    && body[head + INFO..] == EntriesBytes(bs[|bs| - 1].entries)
  }

  lemma OpenSize(body: seq<Byte>, head: int, bs: seq<Block>)
    requires Open(body, head, bs)
    ensures |body| == |BlocksBytes(bs)| && 0 <= head && |body| - head == BlockSize(bs[|bs| - 1]) < U16
  {
  }

  lemma Patch(body: seq<Byte>, head: nat, hi: Byte, lo: Byte)
    requires head + INFO <= |body|
    ensures body[head + 2 := hi][head + 3 := lo] ==
            body[..head] + ([body[head], body[head + 1], hi, lo] + body[head + INFO..])
  {
  }

  /** The layout of a finished block is an open one. */
  lemma FinishedOpen(bs: seq<Block>)
    requires bs != [] && BlocksFit(bs)
    ensures Open(BlocksBytes(bs), |BlocksBytes(bs[..|bs| - 1])|, bs)
  {
    var pre, b, all := BlocksBytes(bs[..|bs| - 1]), bs[|bs| - 1], BlocksBytes(bs);
    hide BlocksBytes;
    assert all == pre + BlockBytes(b);
    assert all[..|pre|] == pre;
    assert all[|pre|..] == BlockBytes(b);
    assert all[|pre| + INFO..] == BlockBytes(b)[INFO..] == EntriesBytes(b.entries);
  }

  /** Writing the size finishes the block. */
  lemma Closing(body: seq<Byte>, head: int, bs: seq<Block>, size: nat)
    requires Open(body, head, bs) && size == |body| - head && size < U16
    ensures body[head + 2 := size / 256][head + 3 := size % 256] == BlocksBytes(bs)
    ensures Open(BlocksBytes(bs), head, bs)
  {
    OpenSize(body, head, bs);
    FinishedOpen(bs);
    var b := bs[|bs| - 1];
    Patch(body, head, size / 256, size % 256);
    hide EntriesBytes;
    assert BlockBytes(b) == [b.code, 0, size / 256, size % 256] + EntriesBytes(b.entries);
  }

  lemma Opening(body: seq<Byte>, bs: seq<Block>, code: Byte)
    requires BlocksFit(bs) && body == BlocksBytes(bs)
    ensures Open(body + [code, 0, 0, 0], |body|, bs + [Block(code, [])])
  {
    var all := bs + [Block(code, [])];
    assert all[..|all| - 1] == bs;
    var r := body + [code, 0, 0, 0];
    assert r[..|body|] == body && r[|body| + INFO..] == [];
  }

  function Extend(bs: seq<Block>, e: Entry): seq<Block>
    requires bs != []
  {
    var b := bs[|bs| - 1];
    bs[..|bs| - 1] + [Block(b.code, b.entries + [e])]
  }

  lemma Extending(body: seq<Byte>, head: int, bs: seq<Block>, e: Entry)
    requires Open(body, head, bs) && |body| + |EntryBytes(e)| < U16
    ensures Open(body + EntryBytes(e), head, Extend(bs, e))
  {
    OpenSize(body, head, bs);
    hide EntryBytes;
    var b, x, r := bs[|bs| - 1], Extend(bs, e), body + EntryBytes(e);
    var es := b.entries + [e];
    assert es[..|es| - 1] == b.entries;
    assert x[..|x| - 1] == bs[..|bs| - 1];
    assert r[..head] == body[..head];
    assert r[head + INFO..] == body[head + INFO..] + EntryBytes(e);
  }

  lemma NotedSnoc(code: Byte, es: seq<Entry>, e: Entry)
    ensures Noted(code, es + [e]) == [Neighbor(ExtractLink(code), ExtractStatus(code), e)] + Noted(code, es)
  {
    assert (es + [e])[..|es|] == es;
  }

  lemma NotedAllSnoc(bs: seq<Block>, b: Block)
    ensures NotedAll(bs + [b]) == Noted(b.code, b.entries) + NotedAll(bs)
  {
    hide Noted;
    assert (bs + [b])[..|bs|] == bs;
  }

  lemma ExtendNoted(bs: seq<Block>, e: Entry)
    requires bs != []
    ensures var c := bs[|bs| - 1].code;
      NotedAll(Extend(bs, e)) == [Neighbor(ExtractLink(c), ExtractStatus(c), e)] + NotedAll(bs)
  {
    hide ExtractLink, ExtractStatus, Noted, NotedAll;
    var b, front := bs[|bs| - 1], bs[..|bs| - 1];
    assert bs == front + [b];
    NotedSnoc(b.code, b.entries, e);
    NotedAllSnoc(front, Block(b.code, b.entries + [e]));
    NotedAllSnoc(front, b);
    Assoc([Neighbor(ExtractLink(b.code), ExtractStatus(b.code), e)], Noted(b.code, b.entries), NotedAll(front));
  }

  lemma OpenNoted(bs: seq<Block>, code: Byte)
    ensures NotedAll(bs + [Block(code, [])]) == NotedAll(bs)
  {
    hide NotedAll;
    NotedAllSnoc(bs, Block(code, []));
  }

  /* ---- finished messages ---- */

  /** A message of at most `max` bytes. */
  ghost predicate FragOk(f: Frag, ipsize: nat, max: nat) {
    && |f.h.orig| == ipsize && f.h.seqno < U16 && BlocksFit(f.bs) && AllAddrsFit(f.bs, ipsize)
    && Off(ipsize) + |BlocksBytes(f.bs)| <= max < U16
  }

  ghost function FragBytes(f: Frag, ipsize: nat, max: nat): seq<Byte>
    requires FragOk(f, ipsize, max)
  {
    MessageBytes(f.h, f.bs)
  }

  ghost predicate FragsOk(fs: seq<Frag>, ipsize: nat, max: nat) {
    forall i :: 0 <= i < |fs| ==> FragOk(fs[i], ipsize, max)
  }

  ghost function AllBytes(fs: seq<Frag>, ipsize: nat, max: nat): seq<seq<Byte>>
    requires FragsOk(fs, ipsize, max)
  {
    if fs == [] then [] else AllBytes(fs[..|fs| - 1], ipsize, max) + [FragBytes(fs[|fs| - 1], ipsize, max)]
  }

  /** All neighbours of the messages, last first. */
  ghost function Seen(fs: seq<Frag>): seq<Neighbor> {
    if fs == [] then [] else NotedAll(fs[|fs| - 1].bs) + Seen(fs[..|fs| - 1])
  }

  lemma FragSnoc(fs: seq<Frag>, f: Frag, ipsize: nat, max: nat)
    requires FragsOk(fs, ipsize, max) && FragOk(f, ipsize, max)
    ensures FragsOk(fs + [f], ipsize, max)
    ensures AllBytes(fs + [f], ipsize, max) == AllBytes(fs, ipsize, max) + [FragBytes(f, ipsize, max)]
    ensures Seen(fs + [f]) == NotedAll(f.bs) + Seen(fs)
  {
    hide FragOk, FragBytes, NotedAll;
    assert (fs + [f])[..|fs|] == fs;
  }

  /** A message is read back whole. */
  lemma FragReads(f: Frag, ipsize: nat, max: nat)
    requires FragOk(f, ipsize, max) && ipsize > 0
    ensures var b := FragBytes(f, ipsize, max);
      |b| <= max && ReadHello(b, ipsize) == Hello(|b|, f.h, NotedAll(f.bs))
  {
    hide ReadHello, BlocksBytes, BlocksFit, NotedAll, AllAddrsFit;
    HeaderRead(f.h, Off(ipsize) + |BlocksBytes(f.bs)|, []);
    HelloRoundTrip(f.h, f.bs, []);
    var b := FragBytes(f, ipsize, max);
    assert b + [] == b;
  }

  /** What a receiver makes of several messages, last neighbour first. */
  ghost function ReadAll(msgs: seq<seq<Byte>>, ipsize: nat): seq<Neighbor>
    requires ipsize > 0
  {
    if msgs == [] then []
    else
      var r := ReadHello(msgs[|msgs| - 1], ipsize);
      (if r.Hello? then r.neighbors else []) + ReadAll(msgs[..|msgs| - 1], ipsize)
  }

  lemma {:induction false} ReadsSeen(fs: seq<Frag>, ipsize: nat, max: nat)
    requires FragsOk(fs, ipsize, max) && ipsize > 0
    ensures ReadAll(AllBytes(fs, ipsize, max), ipsize) == Seen(fs)
  {
    hide FragOk, FragBytes, ReadHello, NotedAll;
    if fs != [] {
      var k := |fs| - 1;
      ReadsSeen(fs[..k], ipsize, max);
      FragReads(fs[k], ipsize, max);
      var all := AllBytes(fs, ipsize, max);
      assert all[..|all| - 1] == AllBytes(fs[..k], ipsize, max);
    }
  }

  /** The receiver of all messages gets every neighbour that has a place in them, once. */
  lemma HelloDelivered(ns: seq<Neigh>, fs: seq<Frag>, ipsize: nat, max: nat)
    requires FragsOk(fs, ipsize, max) && ipsize > 0 && Seen(fs) == OfGroups(ns, Groups())
    ensures multiset(ReadAll(AllBytes(fs, ipsize, max), ipsize)) == multiset(Kept(ns))
  {
    ReadsSeen(fs, ipsize, max);
    GroupingKeeps(ns);
  }

  /* ---- sizes ---- */

  /** Body bytes of a group of `m` neighbours. */
  function Need(m: nat, ipsize: nat): nat {
    if m == 0 then 0 else INFO + Entries(m, ipsize)
  }

  function Entries(m: nat, ipsize: nat): nat {
    m * (ipsize + LQ)
  }

  lemma NeedNext(m: nat, ipsize: nat)
    ensures Need(m + 1, ipsize) == Need(m, ipsize) + ipsize + LQ + if m == 0 then INFO else 0
    ensures Entries(m + 1, ipsize) == Entries(m, ipsize) + ipsize + LQ
  {
  }

  ghost function TotalNeed(ns: seq<Neigh>, gs: seq<(nat, nat)>, ipsize: nat): nat {
    if gs == [] then 0
    else TotalNeed(ns, gs[..|gs| - 1], ipsize) + Need(|OfGroup(ns, gs[|gs| - 1])|, ipsize)
  }

  /** The number of groups that have a neighbour. */
  ghost function NonEmpty(ns: seq<Neigh>, gs: seq<(nat, nat)>): nat {
    if gs == [] then 0
    else NonEmpty(ns, gs[..|gs| - 1]) + if OfGroup(ns, gs[|gs| - 1]) == [] then 0 else 1
  }

  lemma EntriesAdd(a: nat, b: nat, ipsize: nat)
    ensures Entries(a + b, ipsize) == Entries(a, ipsize) + Entries(b, ipsize)
  {
  }

  lemma {:induction false} TotalIs(ns: seq<Neigh>, gs: seq<(nat, nat)>, ipsize: nat)
    ensures TotalNeed(ns, gs, ipsize) == Entries(|OfGroups(ns, gs)|, ipsize) + INFO * NonEmpty(ns, gs)
  {
    hide Entries;
    if gs == [] {
      assert Entries(0, ipsize) == 0 by { EntriesAdd(0, 0, ipsize); }
    } else {
      TotalIs(ns, gs[..|gs| - 1], ipsize);
      EntriesAdd(|OfGroup(ns, gs[|gs| - 1])|, |OfGroups(ns, gs[..|gs| - 1])|, ipsize);
      EntriesAdd(0, 0, ipsize);
    }
  }

  lemma {:induction false} KeptFits(ns: seq<Neigh>)
    ensures |Kept(ns)| <= |ns|
  {
    if ns != [] {
      KeptFits(ns[..|ns| - 1]);
    }
  }

  lemma {:induction false} SomeGroup(ns: seq<Neigh>, gs: seq<(nat, nat)>)
    ensures OfGroups(ns, gs) != [] ==> NonEmpty(ns, gs) > 0
  {
    if gs != [] {
      SomeGroup(ns, gs[..|gs| - 1]);
    }
  }

  /** The estimate covers what is written, and one entry with its header if there is anything to write. */
  lemma EstimateCovers(ns: seq<Neigh>, ipsize: nat)
    ensures var estimate := Entries(|ns|, ipsize) + INFO * NonEmpty(ns, Groups());
      && TotalNeed(ns, Groups(), ipsize) <= estimate
      && (OfGroups(ns, Groups()) != [] ==> INFO + ipsize + LQ <= estimate)
  {
    hide OfGroups, TotalNeed, NonEmpty;
    TotalIs(ns, Groups(), ipsize);
    GroupingKeeps(ns);
    KeptFits(ns);
    SomeGroup(ns, Groups());
    var kept := OfGroups(ns, Groups());
    assert |kept| == |multiset(kept)| == |multiset(Kept(ns))| == |Kept(ns)|;
    MulMonotone(|kept|, |ns|, ipsize + LQ);
    if kept != [] {
      MulMonotone(1, |ns|, ipsize + LQ);
    }
  }

  lemma OfGroupNext(ns: seq<Neigh>, k: nat, g: (nat, nat))
    requires k < |ns|
    ensures OfGroup(ns[..k + 1], g) == if InGroup(ns[k], g) then [AsNoted(ns[k])] + OfGroup(ns[..k], g) else OfGroup(ns[..k], g)
  {
    assert ns[..k + 1][..k] == ns[..k];
  }

  lemma GroupsStep(ns: seq<Neigh>, i: nat, ipsize: nat)
    requires i < |Groups()|
    ensures var gs, g := Groups(), Groups()[i];
      && OfGroups(ns, gs[..i + 1]) == OfGroup(ns, g) + OfGroups(ns, gs[..i])
      && TotalNeed(ns, gs[..i + 1], ipsize) == TotalNeed(ns, gs[..i], ipsize) + Need(|OfGroup(ns, g)|, ipsize)
      && NonEmpty(ns, gs[..i + 1]) == NonEmpty(ns, gs[..i]) + if OfGroup(ns, g) == [] then 0 else 1
  {
    var gs := Groups();
    hide Groups;
    assert gs[..i + 1][..i] == gs[..i];
  }

  /** A longer prefix of the groups needs no less. */
  lemma {:induction false} TotalGrows(ns: seq<Neigh>, i: nat, j: nat, ipsize: nat)
    requires i <= j <= |Groups()|
    ensures TotalNeed(ns, Groups()[..i], ipsize) <= TotalNeed(ns, Groups()[..j], ipsize)
    ensures |OfGroups(ns, Groups()[..i])| <= |OfGroups(ns, Groups()[..j])|
    decreases j
  {
    if i < j {
      TotalGrows(ns, i, j - 1, ipsize);
      GroupsStep(ns, j - 1, ipsize);
    }
  }

  /** The estimate that decides whether the output buffer is emptied first. */
  method ExpectedSize(ns: seq<Neigh>, ipsize: nat) returns (size: nat)
    ensures size == Entries(|ns|, ipsize) + INFO * NonEmpty(ns, Groups())
  {
    hide Entries, OfGroup, NonEmpty, TotalNeed, OfGroups, Groups, Need;
    size := 0;
    var gs := Groups();
    ghost var m := 0;
    var i := 0;
    assert gs[..i] == [];
    EntriesAdd(0, 0, ipsize);
    assert NonEmpty(ns, gs[..i]) == 0 by { NonEmptyNone(ns); }
    while i < |gs|
      invariant 0 <= i <= |gs|
      invariant m == if i == 0 then 0 else |ns|
      invariant size == Entries(m, ipsize) + INFO * NonEmpty(ns, gs[..i])
    {
      var isFirst := true;
      var k := 0;
      ghost var start := size;
      OfGroupNone(ns, gs[i]);
      while k < |ns|
        invariant 0 <= k <= |ns|
        invariant m == if i == 0 then k else |ns|
        invariant isFirst <==> OfGroup(ns[..k], gs[i]) == []
        invariant size == Entries(m, ipsize) + INFO * NonEmpty(ns, gs[..i]) + if isFirst then 0 else INFO
      {
        OfGroupNext(ns, k, gs[i]);
        if i == 0 {
          EntriesAdd(m, 1, ipsize);
          EntriesOne(ipsize);
          size := size + ipsize + LQ;
          m := m + 1;
        }
        if InGroup(ns[k], gs[i]) && isFirst {
          size := size + INFO;
          isFirst := false;
        }
        k := k + 1;
      }
      assert ns[..k] == ns;
      GroupsStep(ns, i, ipsize);
      i := i + 1;
    }
    assert gs[..i] == gs;
    assert |gs| == 12 by { GroupCount(); }
  }

  lemma GroupCount()
    ensures |Groups()| == 12
  {
  }

  lemma NonEmptyNone(ns: seq<Neigh>)
    ensures NonEmpty(ns, []) == 0
  {
  }

  lemma OfGroupNone(ns: seq<Neigh>, g: (nat, nat))
    ensures OfGroup(ns[..0], g) == []
  {
  }

  lemma EntriesOne(ipsize: nat)
    ensures Entries(1, ipsize) == ipsize + LQ
  {
  }

  ghost predicate AddrsOk(ns: seq<Neigh>, ipsize: nat) {
    forall k :: 0 <= k < |ns| ==> |ns[k].entry.addr| == ipsize
  }

  lemma {:induction false} GroupMember(ns: seq<Neigh>, k: nat, g: (nat, nat))
    requires k < |ns| && InGroup(ns[k], g)
    ensures OfGroup(ns, g) != []
  {
    if k < |ns| - 1 {
      GroupMember(ns[..|ns| - 1], k, g);
    }
  }

  lemma NeedNone(ipsize: nat)
    ensures Need(0, ipsize) == 0
  {
  }

  lemma NothingYet(ns: seq<Neigh>, ipsize: nat)
    ensures OfGroups(ns, []) == [] && TotalNeed(ns, [], ipsize) == 0 && NotedAll([]) == [] && Seen([]) == []
  {
  }

  lemma NoFrags(ipsize: nat, max: nat)
    ensures FragsOk([], ipsize, max) && AllBytes([], ipsize, max) == []
  {
  }

  class HelloBuffer {
    const ipsize: nat
    const comm: Header
    const out: NetOut.NetBuf<seq<Byte>>
    var body: seq<Byte>               // what follows the two headers in the message buffer
    var head: int                     // where the open info header is
    var rem: int                      // bytes the message body may take
    var seqno: nat
    ghost var blocks: seq<Block>
    ghost var frags: seq<Frag>
    ghost var base: seq<seq<Byte>>    // what the output buffer had seen before

    constructor (out: NetOut.NetBuf<seq<Byte>>, comm: Header, seqno: nat)
      requires out.Valid() && seqno < U16
      ensures this.out == out && this.comm == comm && this.seqno == seqno && ipsize == |comm.orig|
      ensures body == [] && blocks == [] && frags == [] && base == out.Trace() && rem == out.BytesLeft() - Off(ipsize)
    {
      this.out, this.comm, this.seqno, ipsize := out, comm, seqno, |comm.orig|;
      body, head, rem := [], -1, out.BytesLeft() - Off(|comm.orig|);
      blocks, frags, base := [], [], out.Trace();
    }

    ghost predicate Valid()
      reads this, out
    {
      && out.Valid() && ipsize > 0 && |comm.orig| == ipsize && seqno < U16
      && Off(ipsize) + INFO + ipsize + LQ <= out.maxsize < U16
      && FragsOk(frags, ipsize, out.maxsize) && out.Trace() == base + AllBytes(frags, ipsize, out.maxsize)
      && BlocksFit(blocks) && AllAddrsFit(blocks, ipsize)
      && (if blocks == [] then body == [] else Open(body, head, blocks))
      && |body| <= rem == out.BytesLeft() - Off(ipsize)
    }

    /** The last info header has its size. */
    ghost predicate Closed()
      reads this
    {
      BlocksFit(blocks) && body == BlocksBytes(blocks)
    }

    /** All neighbours written so far, last first. */
    ghost function Written(): seq<Neighbor>
      reads `blocks, `frags
    {
      NotedAll(blocks) + Seen(frags)
    }

    /** Finalize the info header. */
    method CloseInfo()
      requires Valid() && blocks != []
      modifies `body
      ensures Valid() && Closed() && |body| == old(|body|) && Written() == old(Written())
    {
      hide BlocksFit, BlocksBytes, AllAddrsFit, FragsOk, AllBytes, Open;
      OpenSize(body, head, blocks);
      OpenIndex(body, head, blocks);
      var size := |body| - head;
      Closing(body, head, blocks, size);
      body := body[head + 2 := size / 256][head + 3 := size % 256];
    }

    /** Finalize the message and push it; it always fits. */
    method PushMessage()
      requires Valid() && Closed()
      modifies `seqno, `frags, out
      ensures out.Valid() && seqno < U16
      ensures frags == old(frags) + [Frag(comm.(seqno := old(seqno)), blocks)] && Seen(frags) == old(Written())
      ensures FragsOk(frags, ipsize, out.maxsize) && out.Trace() == base + AllBytes(frags, ipsize, out.maxsize)
    {
      hide BlocksBytes, BlocksFit, AllAddrsFit, FragsOk, AllBytes, Open, HeaderBytes, FragOk, FragBytes;
      var size := |body| + Off(ipsize);
      ghost var f := Frag(comm.(seqno := seqno), blocks);
      FragMade(f, body, ipsize, out.maxsize);
      var msg := HeaderBytes(comm.(seqno := seqno), size) + body;
      seqno := (seqno + 1) % U16;
      FragSnoc(frags, f, ipsize, out.maxsize);
      var pushed := out.Push(msg, size);
      frags := frags + [f];
    }

    /** The buffer is full: send what it holds and start again at its beginning. */
    method Flush()
      requires Valid() && blocks != []
      modifies this, out
      ensures Valid() && Closed() && blocks == [] && rem == out.maxsize - Off(ipsize) && base == old(base)
      ensures Written() == old(Written()) && |frags| == |old(frags)| + 1
    {
      hide BlocksBytes, BlocksFit, AllAddrsFit, FragsOk, AllBytes, Open, NotedAll, Seen;
      CloseInfo();
      PushMessage();
      out.Output();
      body, blocks := [], [];
      rem := out.BytesLeft() - Off(ipsize);
      NoBlocks(ipsize);
      assert [] + Seen(frags) == Seen(frags);
    }

    /** Start an info block. */
    method OpenInfo(code: Byte)
      requires Valid() && Closed() && |body| + INFO <= rem
      modifies `body, `head, `blocks
      ensures Valid() && |body| == old(|body|) + INFO
      ensures blocks != [] && blocks[|blocks| - 1].code == code && Written() == old(Written())
    {
      hide BlocksBytes, BlocksFit, AllAddrsFit, FragsOk, AllBytes, Open, NotedAll, Seen;
      Opening(body, blocks, code);
      OpenNoted(blocks, code);
      OpenFits(body + [code, 0, 0, 0], |body|, blocks, code, ipsize);
      head := |body|;
      body := body + [code, 0, 0, 0];
      blocks := blocks + [Block(code, [])];
    }

    /** Write an entry into the open block. */
    method AppendEntry(e: Entry)
      requires Valid() && blocks != [] && |e.addr| == ipsize && |body| + ipsize + LQ <= rem
      modifies `body, `blocks
      ensures Valid() && blocks != [] && |body| == old(|body|) + ipsize + LQ
      ensures blocks[|blocks| - 1].code == old(blocks[|blocks| - 1].code)
      ensures var c := blocks[|blocks| - 1].code;
        Written() == [Neighbor(ExtractLink(c), ExtractStatus(c), e)] + old(Written())
    {
      hide BlocksBytes, BlocksFit, AllAddrsFit, FragsOk, AllBytes, Open, NotedAll, Seen, EntryBytes, ExtractLink, ExtractStatus;
      EntryLength(e);
      Extending(body, head, blocks, e);
      ExtendFits(body + EntryBytes(e), head, blocks, e, ipsize);
      ExtendNoted(blocks, e);
      ghost var c := blocks[|blocks| - 1].code;
      Assoc([Neighbor(ExtractLink(c), ExtractStatus(c), e)], NotedAll(blocks), Seen(frags));
      body := body + EntryBytes(e);
      blocks := Extend(blocks, e);
    }

    /** Write one neighbour, flushing before it if the message is full. */
    method AddEntry(e: Entry, code: Byte, isFirst: bool)
      requires Valid() && |e.addr| == ipsize
      requires if isFirst then Closed() else blocks != [] && blocks[|blocks| - 1].code == code
      requires blocks == [] ==> rem >= INFO + ipsize + LQ
      modifies this, out
      ensures Valid() && blocks != [] && blocks[|blocks| - 1].code == code && base == old(base)
      ensures Written() == [Neighbor(ExtractLink(code), ExtractStatus(code), e)] + old(Written())
      ensures var req := ipsize + LQ + if isFirst then INFO else 0;
        old(|body|) + req <= old(rem) ==> frags == old(frags) && |body| == old(|body|) + req && rem == old(rem)
    {
      hide BlocksBytes, BlocksFit, AllAddrsFit, FragsOk, AllBytes, Open, NotedAll, Seen, ExtractLink, ExtractStatus;
      var req := ipsize + LQ;
      if isFirst {
        req := req + INFO;
      }
      var first := isFirst;
      if |body| + req > rem {
        Flush();
        first := true;
      }
      if first {
        OpenInfo(code);
      }
      AppendEntry(e);
    }

    /** Write the neighbours of one neighbour type and link type. */
    method WriteGroup(ns: seq<Neigh>, g: (nat, nat))
      requires Valid() && Closed() && g.0 < 3 && g.1 < 4 && AddrsOk(ns, ipsize)
      requires blocks == [] && OfGroup(ns, g) != [] ==> rem >= INFO + ipsize + LQ
      modifies this, out
      ensures Valid() && Closed() && base == old(base) && (blocks == [] ==> old(blocks) == [] && rem == old(rem))
      ensures Written() == OfGroup(ns, g) + old(Written())
      ensures var need := Need(|OfGroup(ns, g)|, ipsize);
        old(|body|) + need <= old(rem) ==> frags == old(frags) && |body| == old(|body|) + need && rem == old(rem)
    {
      hide Valid, Closed, Written, OfGroup, ExtractLink, ExtractStatus, Need;
      var code := CreateLinkCode(g.0, g.1);
      var isFirst, k := true, 0;
      ghost var written0 := Written();
      OfGroupNone(ns, g);
      NeedNone(ipsize);
      assert [] + written0 == written0;
      while k < |ns|
        invariant 0 <= k <= |ns| && Valid() && base == old(base)
        invariant isFirst <==> OfGroup(ns[..k], g) == []
        invariant if isFirst then Closed() && rem == old(rem) && blocks == old(blocks)
                  else blocks != [] && blocks[|blocks| - 1].code == code
        invariant Written() == OfGroup(ns[..k], g) + written0
        invariant var need := Need(|OfGroup(ns[..k], g)|, ipsize);
          old(|body|) + need <= old(rem) ==> frags == old(frags) && |body| == old(|body|) + need && rem == old(rem)
      {
        OfGroupNext(ns, k, g);
        if InGroup(ns[k], g) {
          GroupMember(ns, k, g);
          NeedNext(|OfGroup(ns[..k], g)|, ipsize);
          Assoc([AsNoted(ns[k])], OfGroup(ns[..k], g), written0);
          AddEntry(ns[k].entry, code, isFirst);
          isFirst := false;
        }
        k := k + 1;
      }
      assert ns[..k] == ns;
      if !isFirst {
        CloseInfo();
      }
    }

    /** `serialize_lq_hello`. */
    method Serialize(ns: seq<Neigh>)
      requires body == [] && blocks == [] && frags == [] && base == out.Trace() && rem == out.BytesLeft() - Off(ipsize)
      requires out.Valid() && ipsize > 0 && |comm.orig| == ipsize && seqno < U16 && AddrsOk(ns, ipsize)
      requires Off(ipsize) + INFO + ipsize + LQ <= out.maxsize < U16
      modifies this, out
      ensures FragsOk(frags, ipsize, out.maxsize) && out.Trace() == old(out.Trace()) + AllBytes(frags, ipsize, out.maxsize)
      ensures Seen(frags) == OfGroups(ns, Groups())
      ensures Off(ipsize) + TotalNeed(ns, Groups(), ipsize) <= out.maxsize ==> |frags| == 1
    {
      hide OfGroups, TotalNeed, Groups, NotedAll, Seen, FragsOk, AllBytes, BlocksBytes, BlocksFit, AllAddrsFit, Open, AddrsOk;
      MakeRoom(ns);
      NoBlocks(ipsize);
      NoFrags(ipsize, out.maxsize);
      assert out.Trace() == base + [];
      assert Valid() && Closed();
      WriteAll(ns, Groups());
      PushMessage();
    }

    /** Empty the output buffer first if the message might not fit behind what it holds. */
    method MakeRoom(ns: seq<Neigh>)
      requires out.Valid() && ipsize > 0 && rem == out.BytesLeft() - Off(ipsize)
      requires Off(ipsize) + INFO + ipsize + LQ <= out.maxsize
      modifies `rem, out
      ensures out.Valid() && out.Trace() == old(out.Trace()) && 0 <= rem == out.BytesLeft() - Off(ipsize)
      ensures Off(ipsize) + TotalNeed(ns, Groups(), ipsize) <= out.maxsize ==> TotalNeed(ns, Groups(), ipsize) <= rem
      ensures OfGroups(ns, Groups()) != [] ==> INFO + ipsize + LQ <= rem
    {
      hide OfGroups, TotalNeed, NonEmpty, Groups, Entries;
      EstimateCovers(ns, ipsize);
      var expected := 0;
      if out.pending > 0 {
        expected := ExpectedSize(ns, ipsize);
      }
      if rem < expected {
        out.Output();
        rem := out.BytesLeft() - Off(ipsize);
      }
    }

    lemma EmptyBody()
      requires Valid() && blocks == []
      ensures body == []
    {
    }

    /** The loops over neighbour types and link types. */
    method WriteAll(ns: seq<Neigh>, gs: seq<(nat, nat)>)
      requires Valid() && Closed() && AddrsOk(ns, ipsize) && gs == Groups() && blocks == [] && frags == []
      requires OfGroups(ns, gs) != [] ==> INFO + ipsize + LQ <= rem
      modifies this, out
      ensures Valid() && Closed() && base == old(base) && Written() == OfGroups(ns, gs)
      ensures TotalNeed(ns, gs, ipsize) <= old(rem) ==> frags == []
    {
      hide OfGroups, OfGroup, TotalNeed, Groups, Valid, Closed, Need, NotedAll, Seen, FragsOk, AllBytes, Open,
           BlocksBytes, BlocksFit, AllAddrsFit, AddrsOk;
      ghost var rem0 := rem;
      var i := 0;
      NothingYet(ns, ipsize);
      assert body == [] by { EmptyBody(); }
      assert gs[..i] == [];
      assert gs[..|gs|] == gs;
      assert Written() == [];
      hide Written;
      while i < |gs|
        invariant 0 <= i <= |gs| && Valid() && Closed() && base == old(base) && (blocks == [] ==> rem == rem0)
        invariant Written() == OfGroups(ns, gs[..i])
        invariant TotalNeed(ns, gs[..i], ipsize) <= rem0 ==>
                    frags == [] && |body| == TotalNeed(ns, gs[..i], ipsize) && rem == rem0
      {
        GroupsStep(ns, i, ipsize);
        TotalGrows(ns, i + 1, |gs|, ipsize);
        WriteGroup(ns, gs[i]);
        i := i + 1;
      }
    }
  }

  lemma NoBlocks(ipsize: nat)
    ensures BlocksFit([]) && BlocksBytes([]) == [] && AllAddrsFit([], ipsize) && NotedAll([]) == []
  {
  }

  lemma OpenFits(body: seq<Byte>, head: int, bs: seq<Block>, code: Byte, ipsize: nat)
    requires Open(body, head, bs + [Block(code, [])]) && AllAddrsFit(bs, ipsize)
    ensures BlocksFit(bs + [Block(code, [])]) && AllAddrsFit(bs + [Block(code, [])], ipsize)
  {
  }

  lemma ExtendFits(body: seq<Byte>, head: int, bs: seq<Block>, e: Entry, ipsize: nat)
    requires bs != [] && Open(body, head, Extend(bs, e)) && AllAddrsFit(bs, ipsize) && |e.addr| == ipsize
    ensures BlocksFit(Extend(bs, e)) && AllAddrsFit(Extend(bs, e), ipsize)
  {
    hide BlocksBytes;
    assert AddrsFit(bs[|bs| - 1].entries, ipsize);
  }

  lemma FragMade(f: Frag, body: seq<Byte>, ipsize: nat, max: nat)
    requires |f.h.orig| == ipsize && f.h.seqno < U16 && BlocksFit(f.bs) && AllAddrsFit(f.bs, ipsize)
    requires body == BlocksBytes(f.bs) && Off(ipsize) + |body| <= max < U16
    ensures FragOk(f, ipsize, max) && FragBytes(f, ipsize, max) == HeaderBytes(f.h, |body| + Off(ipsize)) + body
  {
  }

  lemma OpenIndex(body: seq<Byte>, head: int, bs: seq<Block>)
    requires Open(body, head, bs)
    ensures 0 <= head && head + INFO <= |body|
  {
  }
}
