/**
 The bytes of an LQ_HELLO message: the layout that Olsrd/src/lq_packet.c writes
 and the reader `deserialize_hello` of Olsrd/src/process_package.c.
 */
module HelloCodec {
  import opened Common

  type Byte = x: int | 0 <= x < 256

  const HELLO_MESSAGE: Byte := 1
  const LQ_HELLO_MESSAGE: Byte := 201

  /** Bytes of an info header and of the link quality behind an address. */
  const INFO := 4
  const LQ := 4

  /** A neighbour with its link code, which packs neighbour type and link type. */
  datatype Entry = Entry(addr: seq<Byte>, lq: Byte, nlq: Byte)

  datatype Block = Block(code: Byte, entries: seq<Entry>)

  datatype Header = Header(vtime: Byte, orig: seq<Byte>, ttl: Byte, hops: Byte, seqno: nat, htime: Byte, will: Byte)

  /** A neighbour as the reader stores it. */
  datatype Neighbor = Neighbor(link: int, status: int, entry: Entry)

  datatype Outcome = Hello(size: nat, header: Header, neighbors: seq<Neighbor>) | NotHello | Overrun

  function CreateLinkCode(status: nat, link: nat): (c: Byte)
    requires status < 4 && link < 4
    ensures ExtractStatus(c) == status && ExtractLink(c) == link
  {
    status * 4 + link
  }

  function ExtractStatus(code: Byte): int {
    code % 16 / 4
  }

  function ExtractLink(code: Byte): int {
    code % 4
  }

  /** The link type is the last digit of the code to base 4 and the neighbour type the one before it. */
  lemma LinkCodeDigits(code: Byte)
    ensures 0 <= ExtractLink(code) < 4 && 0 <= ExtractStatus(code) < 4
    ensures exists high: nat :: code == 16 * high + 4 * ExtractStatus(code) + ExtractLink(code)
  {
    assert code == 16 * (code / 16) + 4 * ExtractStatus(code) + ExtractLink(code);
  }

  /** Network byte order. */
  function U16Bytes(n: nat): seq<Byte>
    requires n < U16
  {
    [n / 256, n % 256]
  }

  function ReadU16(hi: Byte, lo: Byte): nat {
    hi * 256 + lo
  }

  /* ---- the layout ---- */

  function EntryBytes(e: Entry): seq<Byte> {
    e.addr + [e.lq, e.nlq, 0, 0]
  }

  function EntriesBytes(es: seq<Entry>): seq<Byte> {
    if es == [] then [] else EntriesBytes(es[..|es| - 1]) + EntryBytes(es[|es| - 1])
  }

  ghost predicate AddrsFit(es: seq<Entry>, ipsize: nat) {
    forall i :: 0 <= i < |es| ==> |es[i].addr| == ipsize
  }

  lemma {:induction false} EntriesSize(es: seq<Entry>, ipsize: nat)
    requires AddrsFit(es, ipsize)
    ensures |EntriesBytes(es)| == |es| * (ipsize + LQ)
  {
    if es != [] {
      EntriesSize(es[..|es| - 1], ipsize);
      assert |es| * (ipsize + LQ) == (|es| - 1) * (ipsize + LQ) + (ipsize + LQ);
    }
  }

  function BlockSize(b: Block): nat {
    INFO + |EntriesBytes(b.entries)|
  }

  function BlockBytes(b: Block): seq<Byte>
    requires BlockSize(b) < U16
  {
    [b.code, 0] + U16Bytes(BlockSize(b)) + EntriesBytes(b.entries)
  }

  predicate BlocksFit(bs: seq<Block>) {
    forall i :: 0 <= i < |bs| ==> BlockSize(bs[i]) < U16
  }

  function BlocksBytes(bs: seq<Block>): seq<Byte>
    requires BlocksFit(bs)
  {
    if bs == [] then [] else BlocksBytes(bs[..|bs| - 1]) + BlockBytes(bs[|bs| - 1])
  }

  function HeaderBytes(h: Header, size: nat): seq<Byte>
    requires size < U16 && h.seqno < U16
  {
    [LQ_HELLO_MESSAGE, h.vtime] + U16Bytes(size) + h.orig + [h.ttl, h.hops] + U16Bytes(h.seqno) + [0, 0, h.htime, h.will]
  }

  /** Header bytes in front of the info blocks. */
  function Off(ipsize: nat): nat {
    12 + ipsize
  }

  function MessageBytes(h: Header, bs: seq<Block>): seq<Byte>
    requires BlocksFit(bs) && h.seqno < U16 && Off(|h.orig|) + |BlocksBytes(bs)| < U16
  {
    HeaderBytes(h, Off(|h.orig|) + |BlocksBytes(bs)|) + BlocksBytes(bs)
  }

  /** Entry `i` of a block lies at `i` times the entry size: the address, then both qualities and two zeros. */
  lemma {:induction false} EntryAt(es: seq<Entry>, ipsize: nat, i: nat) returns (front: seq<Byte>, back: seq<Byte>)
    requires AddrsFit(es, ipsize) && i < |es|
    ensures EntriesBytes(es) == front + (es[i].addr + [es[i].lq, es[i].nlq, 0, 0]) + back
    ensures |front| == i * (ipsize + 4) && |back| == (|es| - 1 - i) * (ipsize + 4)
    decreases |es|
  {
    var k := |es| - 1;
    if i < k {
      front, back := EntryAt(es[..k], ipsize, i);
      EntrySteps(k - 1 - i, ipsize + 4);
      Regroup(front, es[i].addr + [es[i].lq, es[i].nlq, 0, 0], back, EntryBytes(es[k]));
      back := back + EntryBytes(es[k]);
    } else {
      EntriesSize(es[..k], ipsize);
      front, back := EntriesBytes(es[..k]), [];
      assert front + EntryBytes(es[k]) + back == front + EntryBytes(es[k]);
    }
  }

  lemma EntrySteps(k: nat, n: nat)
    ensures (k + 1) * n == k * n + n
  {
  }

  lemma Regroup(a: seq<Byte>, b: seq<Byte>, c: seq<Byte>, d: seq<Byte>)
    ensures a + b + c + d == a + b + (c + d)
  {
  }

  /** A block by byte position, with its size in network order. */
  function BlockLayout(code: Byte, es: seq<Byte>): seq<Byte>
    requires |es| + 4 < U16
  {
    [code, 0, (|es| + 4) / 256, (|es| + 4) % 256] + es
  }

  lemma BlockIs(b: Block)
    requires BlockSize(b) < U16
    ensures |EntriesBytes(b.entries)| + 4 < U16 && BlockBytes(b) == BlockLayout(b.code, EntriesBytes(b.entries))
  {
    hide EntriesBytes;
  }

  /** A block lies behind the blocks before it: its link code, a zero, its size, and its entries. */
  lemma {:induction false} BlockAt(bs: seq<Block>, j: nat) returns (front: seq<Byte>, back: seq<Byte>)
    requires BlocksFit(bs) && j < |bs|
    ensures var es := EntriesBytes(bs[j].entries);
      |es| + 4 < U16 && BlocksBytes(bs) == front + BlockLayout(bs[j].code, es) + back
    ensures front == BlocksBytes(bs[..j])
    decreases |bs|
  {
    hide EntriesBytes, BlockBytes, BlockLayout, BlockSize;
    var k := |bs| - 1;
    if j < k {
      front, back := BlockAt(bs[..k], j);
      assert bs[..k][..j] == bs[..j];
      Regroup(front, BlockLayout(bs[j].code, EntriesBytes(bs[j].entries)), back, BlockBytes(bs[k]));
      back := back + BlockBytes(bs[k]);
    } else {
      BlockIs(bs[k]);
      front, back := BlocksBytes(bs[..k]), [];
      assert bs[..j] == bs[..k];
      assert front + BlockBytes(bs[k]) + back == front + BlockBytes(bs[k]);
    }
  }

  /** The message header by byte position; its size field is the length of the message. */
  lemma MessageLayout(h: Header, bs: seq<Block>)
    requires BlocksFit(bs) && h.seqno < U16 && Off(|h.orig|) + |BlocksBytes(bs)| < U16
    ensures var b, o := MessageBytes(h, bs), 4 + |h.orig|;
      && |b| >= o + 8 && b[0] == 201 && b[1] == h.vtime && b[2] == |b| / 256 && b[3] == |b| % 256 && b[4..o] == h.orig
      && b[o] == h.ttl && b[o + 1] == h.hops && b[o + 2] == h.seqno / 256 && b[o + 3] == h.seqno % 256
      && b[o + 4] == 0 && b[o + 5] == 0 && b[o + 6] == h.htime && b[o + 7] == h.will && b[o + 8..] == BlocksBytes(bs)
  {
    hide BlocksBytes;
  }

  /* ---- the reader ---- */

  datatype Cursor = Cursor(rest: seq<Byte>, neighbors: seq<Neighbor>) | Ran

  /** Only LQ_HELLO entries carry a link quality. */
  function EntrySize(lq: bool, ipsize: nat): nat {
    ipsize + if lq then LQ else 0
  }

  function FirstEntry(rest: seq<Byte>, lq: bool, ipsize: nat): Entry
    requires |rest| >= EntrySize(lq, ipsize)
  {
    if lq then Entry(rest[..ipsize], rest[ipsize], rest[ipsize + 1]) else Entry(rest[..ipsize], 0, 0)
  }

  /** The inner loop: `left` bytes of an info block are still to be read. */
  function ReadEntries(rest: seq<Byte>, left: int, code: Byte, lq: bool, ipsize: nat, acc: seq<Neighbor>): (r: Cursor)
    requires ipsize > 0
    ensures r.Cursor? ==> |r.rest| <= |rest|
    decreases left
  {
    if left <= 0 then Cursor(rest, acc)
    else
      var n := EntrySize(lq, ipsize);
      if |rest| < n then Ran
      else
        var e := FirstEntry(rest, lq, ipsize);
        ReadEntries(rest[n..], left - n, code, lq, ipsize, [Neighbor(ExtractLink(code), ExtractStatus(code), e)] + acc)
  }

  /** The outer loop: `left` bytes of the message are still to be read. */
  function ReadBlocks(rest: seq<Byte>, left: int, lq: bool, ipsize: nat, acc: seq<Neighbor>): Cursor
    requires ipsize > 0
    decreases |rest|
  {
    if left <= 0 then Cursor(rest, acc)
    else if |rest| < INFO then Ran
    else
      var c := ReadEntries(rest[INFO..], ReadU16(rest[2], rest[3]) - INFO, rest[0], lq, ipsize, acc);
      if c.Ran? then Ran
      else ReadBlocks(c.rest, left - (|rest| - |c.rest|), lq, ipsize, c.neighbors)
  }

  /** `deserialize_hello`; a read behind the end of the packet is an overrun. */
  function ReadHello(b: seq<Byte>, ipsize: nat): Outcome
    requires ipsize > 0
  {
    if |b| < 1 then Overrun
    else if b[0] != HELLO_MESSAGE && b[0] != LQ_HELLO_MESSAGE then NotHello
    else if |b| < Off(ipsize) then Overrun
    else
      var o := 4 + ipsize;
      var size := ReadU16(b[2], b[3]);
      var h := Header(b[1], b[4..o], b[o], b[o + 1], ReadU16(b[o + 2], b[o + 3]), b[o + 6], b[o + 7]);
      match ReadBlocks(b[Off(ipsize)..], size - Off(ipsize), b[0] == LQ_HELLO_MESSAGE, ipsize, [])
      case Ran => Overrun
      case Cursor(_, ns) => Hello(size, h, ns)
  }

  /** What the reader makes of a block: its entries, last first. */
  function Noted(code: Byte, es: seq<Entry>): seq<Neighbor> {
    if es == [] then []
    else [Neighbor(ExtractLink(code), ExtractStatus(code), es[|es| - 1])] + Noted(code, es[..|es| - 1])
  }

  function NotedAll(bs: seq<Block>): seq<Neighbor> {
    if bs == [] then [] else Noted(bs[|bs| - 1].code, bs[|bs| - 1].entries) + NotedAll(bs[..|bs| - 1])
  }

  /* ---- reading what was written ---- */

  lemma ReadOne(e: Entry, tail: seq<Byte>, left: int, code: Byte, ipsize: nat, acc: seq<Neighbor>)
    requires ipsize > 0 && |e.addr| == ipsize && left > 0
    ensures ReadEntries(EntryBytes(e) + tail, left, code, true, ipsize, acc) ==
            ReadEntries(tail, left - (ipsize + LQ), code, true, ipsize,
                        [Neighbor(ExtractLink(code), ExtractStatus(code), e)] + acc)
  {
    var r := EntryBytes(e) + tail;
    assert r[..ipsize] == e.addr && r[ipsize] == e.lq && r[ipsize + 1] == e.nlq;
    assert r[ipsize + LQ..] == tail;
  }

  lemma {:induction false} ReadWrittenEntries(es: seq<Entry>, tail: seq<Byte>, more: nat, code: Byte, ipsize: nat,
                                              acc: seq<Neighbor>)
    requires ipsize > 0 && AddrsFit(es, ipsize)
    ensures ReadEntries(EntriesBytes(es) + tail, |EntriesBytes(es)| + more, code, true, ipsize, acc) ==
            ReadEntries(tail, more, code, true, ipsize, Noted(code, es) + acc)
    decreases |es|
  {
    hide ReadEntries, EntryBytes, ExtractLink, ExtractStatus;
    if es == [] {
      assert [] + tail == tail && Noted(code, es) + acc == acc;
    } else {
      var k := |es| - 1;
      var front, e := es[..k], es[k];
      assert EntriesBytes(es) + tail == EntriesBytes(front) + (EntryBytes(e) + tail);
      EntryLength(e);
      ReadWrittenEntries(front, EntryBytes(e) + tail, ipsize + LQ + more, code, ipsize, acc);
      ReadOne(e, tail, ipsize + LQ + more, code, ipsize, Noted(code, front) + acc);
      var one := [Neighbor(ExtractLink(code), ExtractStatus(code), e)];
      assert one + (Noted(code, front) + acc) == Noted(code, es) + acc;
    }
  }

  lemma EntryLength(e: Entry)
    ensures |EntryBytes(e)| == |e.addr| + LQ
  {
  }

  /** A block is read completely and nothing behind it. */
  lemma ReadWrittenBlock(b: Block, tail: seq<Byte>, left: int, ipsize: nat, acc: seq<Neighbor>)
    requires ipsize > 0 && AddrsFit(b.entries, ipsize) && BlockSize(b) < U16 && left > 0
    ensures ReadBlocks(BlockBytes(b) + tail, left, true, ipsize, acc) ==
            ReadBlocks(tail, left - BlockSize(b), true, ipsize, Noted(b.code, b.entries) + acc)
  {
    hide ReadEntries, EntriesBytes, Noted;
    var r := BlockBytes(b) + tail;
    assert r[INFO..] == EntriesBytes(b.entries) + tail;
    assert ReadU16(r[2], r[3]) == BlockSize(b);
    ReadWrittenEntries(b.entries, tail, 0, b.code, ipsize, acc);
    ReadNone(tail, b.code, ipsize, Noted(b.code, b.entries) + acc);
  }

  lemma ReadNone(rest: seq<Byte>, code: Byte, ipsize: nat, acc: seq<Neighbor>)
    requires ipsize > 0
    ensures ReadEntries(rest, 0, code, true, ipsize, acc) == Cursor(rest, acc)
  {
  }

  ghost predicate AllAddrsFit(bs: seq<Block>, ipsize: nat) {
    forall i :: 0 <= i < |bs| ==> AddrsFit(bs[i].entries, ipsize)
  }

  lemma {:induction false} ReadWrittenBlocks(bs: seq<Block>, tail: seq<Byte>, more: nat, ipsize: nat, acc: seq<Neighbor>)
    requires ipsize > 0 && BlocksFit(bs) && AllAddrsFit(bs, ipsize)
    ensures ReadBlocks(BlocksBytes(bs) + tail, |BlocksBytes(bs)| + more, true, ipsize, acc) ==
            ReadBlocks(tail, more, true, ipsize, NotedAll(bs) + acc)
    decreases |bs|
  {
    hide ReadBlocks, BlockBytes, BlockSize, Noted;
    if bs == [] {
      assert [] + tail == tail && NotedAll(bs) + acc == acc;
    } else {
      var k := |bs| - 1;
      var front, b := bs[..k], bs[k];
      assert BlocksBytes(bs) + tail == BlocksBytes(front) + (BlockBytes(b) + tail);
      BlockLength(b);
      ReadWrittenBlocks(front, BlockBytes(b) + tail, BlockSize(b) + more, ipsize, acc);
      ReadWrittenBlock(b, tail, BlockSize(b) + more, ipsize, NotedAll(front) + acc);
      assert Noted(b.code, b.entries) + (NotedAll(front) + acc) == NotedAll(bs) + acc;
    }
  }

  lemma BlockLength(b: Block)
    requires BlockSize(b) < U16
    ensures |BlockBytes(b)| == BlockSize(b) && BlockSize(b) > 0
  {
  }

  /** Reading a written message gives back every header field and every neighbour. */
  lemma HelloRoundTrip(h: Header, bs: seq<Block>, behind: seq<Byte>)
    requires |h.orig| > 0 && BlocksFit(bs) && AllAddrsFit(bs, |h.orig|) && h.seqno < U16
    requires Off(|h.orig|) + |BlocksBytes(bs)| < U16
    ensures var b := MessageBytes(h, bs);
      ReadHello(b + behind, |h.orig|) == Hello(|b|, h, NotedAll(bs))
  {
    hide ReadBlocks, BlocksBytes, BlocksFit, NotedAll;
    var b, body, ip := MessageBytes(h, bs), BlocksBytes(bs), |h.orig|;
    var all := b + behind;
    HeaderRead(h, |b|, body + behind);
    assert all == HeaderBytes(h, |b|) + (body + behind);
    ReadWrittenBlocks(bs, behind, 0, ip, []);
    ReadBlocksNone(behind, ip, NotedAll(bs) + []);
    assert NotedAll(bs) + [] == NotedAll(bs);
  }

  lemma ReadBlocksNone(rest: seq<Byte>, ipsize: nat, acc: seq<Neighbor>)
    requires ipsize > 0
    ensures ReadBlocks(rest, 0, true, ipsize, acc) == Cursor(rest, acc)
  {
  }

  lemma HeaderRead(h: Header, size: nat, rest: seq<Byte>)
    requires size < U16 && h.seqno < U16
    ensures var b, o := HeaderBytes(h, size) + rest, 4 + |h.orig|;
      && |HeaderBytes(h, size)| == Off(|h.orig|) && b[Off(|h.orig|)..] == rest
      && b[0] == LQ_HELLO_MESSAGE && b[1] == h.vtime && ReadU16(b[2], b[3]) == size && b[4..o] == h.orig
      && b[o] == h.ttl && b[o + 1] == h.hops && ReadU16(b[o + 2], b[o + 3]) == h.seqno
      && b[o + 6] == h.htime && b[o + 7] == h.will
  {
  }

  /** The inner loop of `deserialize_hello`; it fails where a read would leave the packet. */
  method DeserializeBlock(b: seq<Byte>, from: nat, limit2: int, code: Byte, lq: bool, ipsize: nat, acc: seq<Neighbor>)
    returns (ok: bool, curr: nat, ns: seq<Neighbor>)
    requires ipsize > 0 && from <= |b|
    ensures from <= curr <= |b|
    ensures ReadEntries(b[from..], limit2 - from, code, lq, ipsize, acc) == if ok then Cursor(b[curr..], ns) else Ran
  {
    hide ReadEntries;
    curr, ns := from, acc;
    var n := EntrySize(lq, ipsize);
    while curr < limit2
      invariant from <= curr <= |b|
      invariant ReadEntries(b[curr..], limit2 - curr, code, lq, ipsize, ns) ==
                ReadEntries(b[from..], limit2 - from, code, lq, ipsize, acc)
      decreases |b| - curr
    {
      EntriesStep(b[curr..], limit2 - curr, code, lq, ipsize, ns);
      if curr + n > |b| {
        ok := false;
        return;
      }
      var e := if lq then Entry(b[curr..curr + ipsize], b[curr + ipsize], b[curr + ipsize + 1])
               else Entry(b[curr..curr + ipsize], 0, 0);
      assert b[curr..][..ipsize] == b[curr..curr + ipsize] && b[curr..][n..] == b[curr + n..];
      ns := [Neighbor(ExtractLink(code), ExtractStatus(code), e)] + ns;
      curr := curr + n;
    }
    EntriesStep(b[curr..], limit2 - curr, code, lq, ipsize, ns);
    ok := true;
  }

  /** The loops of `deserialize_hello` over a moving pointer. */
  method Deserialize(b: seq<Byte>, ipsize: nat) returns (r: Outcome)
    requires ipsize > 0
    ensures r == ReadHello(b, ipsize)
  {
    hide ReadBlocks, ReadEntries;
    if |b| < 1 {
      return Overrun;
    }
    if b[0] != HELLO_MESSAGE && b[0] != LQ_HELLO_MESSAGE {
      return NotHello;
    }
    if |b| < Off(ipsize) {
      return Overrun;
    }
    var o := 4 + ipsize;
    var size := ReadU16(b[2], b[3]);
    var h := Header(b[1], b[4..o], b[o], b[o + 1], ReadU16(b[o + 2], b[o + 3]), b[o + 6], b[o + 7]);
    var lq := b[0] == LQ_HELLO_MESSAGE;
    var curr, limit, ns := Off(ipsize), size, [];
    ghost var all := ReadBlocks(b[curr..], limit - curr, lq, ipsize, ns);
    while curr < limit
      invariant 0 <= curr <= |b|
      invariant ReadBlocks(b[curr..], limit - curr, lq, ipsize, ns) == all
      decreases |b| - curr
    {
      BlocksStep(b[curr..], limit - curr, lq, ipsize, ns);
      if curr + INFO > |b| {
        return Overrun;
      }
      var code, limit2 := b[curr], curr + ReadU16(b[curr + 2], b[curr + 3]);
      ghost var start := curr;
      curr := curr + INFO;
      assert b[start..][INFO..] == b[curr..];
      var ok;
      ok, curr, ns := DeserializeBlock(b, curr, limit2, code, lq, ipsize, ns);
      if !ok {
        return Overrun;
      }
    }
    BlocksStep(b[curr..], limit - curr, lq, ipsize, ns);
    return Hello(size, h, ns);
  }

  lemma EntriesStep(rest: seq<Byte>, left: int, code: Byte, lq: bool, ipsize: nat, acc: seq<Neighbor>)
    requires ipsize > 0
    ensures left <= 0 ==> ReadEntries(rest, left, code, lq, ipsize, acc) == Cursor(rest, acc)
    ensures left > 0 && |rest| < EntrySize(lq, ipsize) ==> ReadEntries(rest, left, code, lq, ipsize, acc) == Ran
    ensures left > 0 && |rest| >= EntrySize(lq, ipsize) ==>
              ReadEntries(rest, left, code, lq, ipsize, acc) ==
              ReadEntries(rest[EntrySize(lq, ipsize)..], left - EntrySize(lq, ipsize), code, lq, ipsize,
                          [Neighbor(ExtractLink(code), ExtractStatus(code), FirstEntry(rest, lq, ipsize))] + acc)
  {
  }

  lemma BlocksStep(rest: seq<Byte>, left: int, lq: bool, ipsize: nat, acc: seq<Neighbor>)
    requires ipsize > 0
    ensures left <= 0 ==> ReadBlocks(rest, left, lq, ipsize, acc) == Cursor(rest, acc)
    ensures left > 0 && |rest| < INFO ==> ReadBlocks(rest, left, lq, ipsize, acc) == Ran
    ensures left > 0 && |rest| >= INFO ==>
              var c := ReadEntries(rest[INFO..], ReadU16(rest[2], rest[3]) - INFO, rest[0], lq, ipsize, acc);
              ReadBlocks(rest, left, lq, ipsize, acc) ==
                if c.Ran? then Ran else ReadBlocks(c.rest, left - (|rest| - |c.rest|), lq, ipsize, c.neighbors)
  {
  }
}
