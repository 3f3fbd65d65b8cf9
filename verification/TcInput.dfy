/**
 Receiving LQ_TC messages (`olsr_input_tc` in Olsrd/src/tc_set.c): reading the listed
 neighbours, refreshing the originator's edges and revoking the older ones inside the
 borders of the fragment.
 */
module TcInput {
  import opened Common
  import opened IpOrder
  import opened TcBorder
  import opened LqTc
  import opened TcWindow
  import LinkCost

  /** An edge of the originator: ANSN of its last refresh, link quality and cost. */
  datatype TcEdge = TcEdge(ansn: nat, lq: Lq, cost: nat)

  type Edges = map<Bytes, TcEdge>

  ghost predicate KeysSized(edges: Edges, n: nat) {
    forall d :: d in edges ==> |d| == n
  }

  /* ---------- one listed neighbour ---------- */

  function CostOf(lq: Lq): nat {
    LinkCost.CalcCost(lq.lq as nat, lq.nlq as nat)
  }

  /**
   `olsr_tc_update_edge`: the cost of a known edge follows the new quality; a new edge got
   its cost from the cleared quality, before the message's quality was read.
   */
  function Refresh(edges: Edges, a: Bytes, lq: Lq, ansn: nat): Edges {
    edges[a := TcEdge(ansn, lq, if a in edges then CostOf(lq) else LinkCost.CalcCost(0, 0))]
  }

  /** A new edge has the right cost exactly if its link is broken; any other is priced by the next message only. */
  lemma NewEdgeCost(edges: Edges, a: Bytes, lq: Lq, ansn: nat)
    requires a !in edges
    ensures var e := Refresh(edges, a, lq, ansn);
      && e[a].cost == LINK_COST_BROKEN
      && (e[a].cost == CostOf(lq) <==> lq.lq as nat < LinkCost.MIN_LQ || lq.nlq as nat < LinkCost.MIN_LQ)
      && Refresh(e, a, lq, ansn)[a].cost == CostOf(lq)
  {
    hide LinkCost.CalcCost;
    LinkCost.CostRange(lq.lq as nat, lq.nlq as nat);
    LinkCost.CostRange(0, 0);
  }

  function RefreshAll(edges: Edges, adverts: seq<Advert>, ansn: nat): Edges
    decreases |adverts|
  {
    if adverts == [] then edges
    else RefreshAll(Refresh(edges, adverts[0].addr, adverts[0].lq, ansn), adverts[1..], ansn)
  }

  /** Each listed neighbour is stored with the message's ANSN and quality; nothing else changes. */
  lemma {:induction false} RefreshAllEffect(edges: Edges, adverts: seq<Advert>, ansn: nat)
    requires forall i, j :: 0 <= i < j < |adverts| ==> adverts[i].addr != adverts[j].addr
    ensures var r := RefreshAll(edges, adverts, ansn);
            && (forall i :: 0 <= i < |adverts| ==>
                  && adverts[i].addr in r
                  && r[adverts[i].addr] == Refresh(edges, adverts[i].addr, adverts[i].lq, ansn)[adverts[i].addr])
            && (forall d :: d in edges ==> d in r)
            && (forall d :: d in r && (forall i :: 0 <= i < |adverts| ==> adverts[i].addr != d) ==>
                  d in edges && r[d] == edges[d])
    decreases |adverts|
  {
    if adverts != [] {
      var t := adverts[1..];
      var e := Refresh(edges, adverts[0].addr, adverts[0].lq, ansn);
      RefreshAllEffect(e, t, ansn);
      var r := RefreshAll(edges, adverts, ansn);
      assert forall i :: 0 <= i < |t| ==> t[i] == adverts[i + 1];
      forall i | 0 <= i < |adverts|
        ensures adverts[i].addr in r
        ensures r[adverts[i].addr] == Refresh(edges, adverts[i].addr, adverts[i].lq, ansn)[adverts[i].addr]
      {
        if i > 0 {
          assert t[i - 1] == adverts[i];
        }
      }
    }
  }

  /* ---------- revocation ---------- */

  predicate Revoked(e: TcEdge, d: Bytes, ansn: nat, lo: Bytes, hi: Bytes)
    requires |d| == |lo| == |hi|
  {
    Le(lo, d) && Less(d, hi) && SeqGreater(ansn, e.ansn)
  }

  /** The older edges inside the half-open range are gone, all others are kept. */
  ghost function Revoke(edges: Edges, ansn: nat, lo: Bytes, hi: Bytes): Edges
    requires |lo| == |hi| && KeysSized(edges, |lo|)
  {
    map d | d in edges && !Revoked(edges[d], d, ansn, lo, hi) :: edges[d]
  }

  lemma LeastKey(keys: set<Bytes>, n: nat) returns (d: Bytes)
    requires keys != {} && forall x :: x in keys ==> |x| == n
    ensures d in keys && forall x :: x in keys ==> Le(d, x)
    decreases |keys|
  {
    hide Less;
    d :| d in keys;
    if keys != {d} {
      var e := LeastKey(keys - {d}, n);
      Trichotomy(d, e);
      forall x | x in keys ensures Le(if Less(e, d) then e else d, x) {
        if x != d {
          LeLess(d, e, x);
        }
      }
      if Less(e, d) {
        d := e;
      }
    }
  }

  /** `olsr_delete_revoked_tc_edges`: the walk over the edge tree stops at the upper border. */
  method DeleteRevoked(edges: Edges, ansn: nat, lo: Bytes, hi: Bytes) returns (r: Edges, changed: bool)
    requires |lo| == |hi| && KeysSized(edges, |lo|)
    ensures r == Revoke(edges, ansn, lo, hi) && KeysSized(r, |lo|)
    ensures changed <==> r != edges
  {
    hide Less, SeqGreater;
    r, changed := edges, false;
    var rest := edges.Keys;
    var passedLowerBorder := false;
    while rest != {}
      invariant rest <= edges.Keys
      invariant forall d :: d in r <==> d in edges && (d in rest || !Revoked(edges[d], d, ansn, lo, hi))
      invariant forall d :: d in r ==> r[d] == edges[d]
      invariant passedLowerBorder ==> forall d :: d in rest ==> Le(lo, d)
      invariant changed <==> r != edges
      decreases rest
    {
      ghost var least := LeastKey(rest, |lo|);
      var d :| d in rest && forall x :: x in rest ==> Le(d, x);
      rest := rest - {d};
      if !passedLowerBorder {
        if Le(lo, d) {
          passedLowerBorder := true;
          forall x | x in rest ensures Le(lo, x) {
            LeLess(lo, d, x);
          }
        } else {
          continue;
        }
      }
      if Le(hi, d) {
        forall x | x in rest + {d} ensures !Less(x, hi) {
          LeLess(hi, d, x);
          Trichotomy(hi, x);
        }
        break;
      }
      Trichotomy(hi, d);
      if SeqGreater(ansn, edges[d].ansn) {
        r := r - {d};
        changed := true;
      }
    }
  }

  /* ---------- the message body ---------- */

  /** The body the writer produces: address, two quality bytes, two zero bytes per neighbour. */
  function Encode(adverts: seq<Advert>): seq<bv8> {
    if adverts == [] then []
    else adverts[0].addr + [adverts[0].lq.lq, adverts[0].lq.nlq, 0, 0] + Encode(adverts[1..])
  }

  /** A neighbour takes its address and four bytes. */
  lemma {:induction false} EncodedSize(adverts: seq<Advert>, n: nat)
    requires Sized(adverts, n)
    ensures |Encode(adverts)| == |adverts| * (n + 4)
    decreases |adverts|
  {
    if adverts != [] {
      EncodedSize(adverts[1..], n);
      assert |adverts| * (n + 4) == (|adverts| - 1) * (n + 4) + (n + 4);
    }
  }

  /** Neighbour `i` lies at `i` times that size: the address, both qualities and two zeros. */
  lemma {:induction false} EncodedAt(adverts: seq<Advert>, n: nat, i: nat) returns (front: seq<bv8>, back: seq<bv8>)
    requires Sized(adverts, n) && i < |adverts|
    ensures var a := adverts[i]; Encode(adverts) == front + (a.addr + [a.lq.lq, a.lq.nlq, 0, 0]) + back
    ensures |front| == i * (n + 4)
    decreases |adverts|
  {
    var head := adverts[0].addr + [adverts[0].lq.lq, adverts[0].lq.nlq, 0, 0];
    if i == 0 {
      front, back := [], Encode(adverts[1..]);
      assert [] + head == head;
    } else {
      front, back := EncodedAt(adverts[1..], n, i - 1);
      var a := adverts[i];
      assert adverts[1..][i - 1] == a;
      Common.Assoc(head, front + (a.addr + [a.lq.lq, a.lq.nlq, 0, 0]), back);
      Common.Assoc(head, front, a.addr + [a.lq.lq, a.lq.nlq, 0, 0]);
      front := head + front;
      assert i * (n + 4) == (i - 1) * (n + 4) + (n + 4);
    }
  }

  /** The bytes of every fragment that `SerializeLqTc` makes, behind its headers, fit the buffer. */
  lemma SentFits(frags: seq<Fragment>, off: nat, maxsize: nat, n: nat, f: Fragment)
    requires AllFit(frags, off, maxsize, n) && f in frags && Sized(f.adverts, n)
    ensures off + |Encode(f.adverts)| <= maxsize
  {
    EncodedSize(f.adverts, n);
    AllFitBytes(frags, off, maxsize, n);
  }

  datatype Parsed = Parsed(edges: Edges, last: Bytes)

  /**
   Reading a body to its end. A denied address that is not yet known is skipped without its
   quality bytes. `None` stands for reading beyond the message.
   */
  function Parse(p: Parsed, body: seq<bv8>, ansn: nat, deny: set<Bytes>, n: nat): Option<Parsed>
    requires n > 0
    decreases |body|
  {
    if body == [] then Some(p)
    else if |body| < n then None
    else
      var a := body[..n];
      if a !in p.edges && a in deny then Parse(Parsed(p.edges, a), body[n..], ansn, deny, n)
      else if |body| < n + 4 then None
      else
        var lq := Lq(body[n], body[n + 1]);
        Parse(Parsed(Refresh(p.edges, a, lq, ansn), a), body[n + 4..], ansn, deny, n)
  }

  /** A body of allowed addresses is read back as the neighbours that were written. */
  lemma {:induction false} ParseEncoded(p: Parsed, adverts: seq<Advert>, ansn: nat, deny: set<Bytes>, n: nat)
    requires n > 0 && Sized(adverts, n)
    requires forall i :: 0 <= i < |adverts| ==> adverts[i].addr !in deny
    ensures Parse(p, Encode(adverts), ansn, deny, n) ==
            Some(Parsed(RefreshAll(p.edges, adverts, ansn),
                        if adverts == [] then p.last else adverts[|adverts| - 1].addr))
    decreases |adverts|
  {
    if adverts != [] {
      var a, t := adverts[0], adverts[1..];
      var body := Encode(adverts);
      assert body[..n] == a.addr && body[n] == a.lq.lq && body[n + 1] == a.lq.nlq;
      assert body[n + 4..] == Encode(t);
      ParseEncoded(Parsed(Refresh(p.edges, a.addr, a.lq, ansn), a.addr), t, ansn, deny, n);
    }
  }

  /**
   An IPv4 neighbour that is denied and not yet known is skipped without its quality, which is then read as
   the next address, with the first bytes of what follows as its quality; at the end of the message the read
   goes beyond it.
   */
  lemma DeniedShifts(p: Parsed, a: Advert, tail: seq<bv8>, ansn: nat, deny: set<Bytes>)
    requires |a.addr| == 4 && a.addr !in p.edges && a.addr in deny
    ensures var q, body := [a.lq.lq, a.lq.nlq, 0, 0], a.addr + [a.lq.lq, a.lq.nlq, 0, 0] + tail;
      q !in deny || q in p.edges ==>
        Parse(p, body, ansn, deny, 4) ==
        if |tail| < 4 then None
        else Parse(Parsed(Refresh(p.edges, q, Lq(tail[0], tail[1]), ansn), q), tail[4..], ansn, deny, 4)
  {
    hide Refresh;
    var q: Bytes := [a.lq.lq, a.lq.nlq, 0, 0];
    var body, rest := a.addr + q + tail, q + tail;
    assert body[..4] == a.addr && body[4..] == rest;
    assert rest[..4] == q && (|tail| >= 4 ==> rest[8..] == tail[4..] && rest[4] == tail[0] && rest[5] == tail[1]);
    assert Parse(p, body, ansn, deny, 4) == Parse(Parsed(p.edges, a.addr), rest, ansn, deny, 4);
  }

  /** One step of the read, at cursor `c`. */
  lemma ParseStep(p: Parsed, body: seq<bv8>, c: nat, ansn: nat, deny: set<Bytes>, n: nat)
    requires n > 0 && c < |body|
    ensures |body| - c < n ==> Parse(p, body[c..], ansn, deny, n) == None
    ensures |body| - c >= n ==>
              var a := body[c..c + n];
              if a !in p.edges && a in deny then
                Parse(p, body[c..], ansn, deny, n) == Parse(Parsed(p.edges, a), body[c + n..], ansn, deny, n)
              else if |body| - c < n + 4 then Parse(p, body[c..], ansn, deny, n) == None
              else
                Parse(p, body[c..], ansn, deny, n) ==
                Parse(Parsed(Refresh(p.edges, a, Lq(body[c + n], body[c + n + 1]), ansn), a), body[c + n + 4..], ansn, deny, n)
  {
    hide Refresh;
    var b := body[c..];
    if |b| >= n {
      assert b[..n] == body[c..c + n] && b[n..] == body[c + n..];
    }
    if |b| >= n + 4 {
      assert b[n + 4..] == body[c + n + 4..] && b[n] == body[c + n] && b[n + 1] == body[c + n + 1];
    }
  }

  /* ---------- one message ---------- */

  /** Edges after a non-empty fragment that was admitted. */
  ghost function Process(edges: Edges, f: Fragment, ansn: nat, n: nat, ptrSize: nat): Edges
    requires Expandable(f, n) && KeysSized(edges, n)
  {
    var e := RefreshAll(edges, f.adverts, ansn);
    RefreshSized(edges, f.adverts, ansn, n);
    Revoke(e, ansn, Lo(f, n, ptrSize), Hi(f, n, ptrSize))
  }

  lemma {:induction false} RefreshSized(edges: Edges, adverts: seq<Advert>, ansn: nat, n: nat)
    requires KeysSized(edges, n) && Sized(adverts, n)
    ensures KeysSized(RefreshAll(edges, adverts, ansn), n)
    decreases |adverts|
  {
    if adverts != [] {
      RefreshSized(Refresh(edges, adverts[0].addr, adverts[0].lq, ansn), adverts[1..], ansn, n);
    }
  }

  datatype Outcome = Refused | Processed | Overrun

  /** The part of a tc_entry that TC messages of its originator change. */
  class TcNode {
    const n: nat                  // ipsize
    const ptrSize: nat            // sizeof of a pointer
    const deny: set<Bytes>        // addresses refused by olsr_validate_address
    var gate: Gate
    var edges: Edges
    var gcTimer: bool             // edge garbage collection is pending

    ghost predicate Valid() reads this {
      0 < n <= 16 && KeysSized(edges, n) && gate.Valid()
    }

    constructor (ipsize: nat, pointer: nat, denied: set<Bytes>)
      requires 0 < ipsize <= 16
      ensures Valid() && n == ipsize && ptrSize == pointer && deny == denied && edges == map[]
    {
      n, ptrSize, deny := ipsize, pointer, denied;
      gate, edges, gcTimer := Gate(0, 0, 0, 0, false), map[], false;
    }

    /** The admission test at the head of `olsr_input_tc`; an entry without edges admits all. */
    method AdmitMsg(m: Msg) returns (ok: bool)
      requires Valid() && m.seqno < U16 && m.ansn < U16
      modifies this`gate
      ensures Valid()
      ensures (ok, gate) == Admission(old(gate), Arrival(m, edges != map[]))
      ensures ok ==> gate.msgSeq == m.seqno && gate.ansn == m.ansn && gate.ignored == 0 && !gate.errSeqValid
    {
      if |edges| != 0 {
        if gate.Old(m.seqno, m.ansn) {
          if gate.msgSeq == m.seqno {
            return false;
          }
          var seen := gate.ignored;
          gate := gate.(ignored := (gate.ignored + 1) % U16);
          if seen < 32 {
            return false;
          }
        } else if !gate.Forward(m.seqno, m.ansn) {
          if !gate.errSeqValid {
            gate := gate.(errSeq := m.seqno, errSeqValid := true);
          }
          if gate.errSeq == m.seqno {
            return false;
          }
        }
      }
      gate := gate.(msgSeq := m.seqno, ansn := m.ansn, ignored := 0, errSeqValid := false);
      return true;
    }

    /** Walk the edge advertisements of a message body. */
    method ReadBody(body: seq<bv8>, ansn: nat) returns (r: Option<Bytes>)
      requires Valid()
      modifies this`edges
      ensures Valid()
      ensures var p := Parse(Parsed(old(edges), []), body, ansn, deny, n);
              match p
              case Some(q) => r == Some(q.last) && edges == q.edges
              case None => r == None
    {
      hide Parse, CostOf;
      var curr, last := 0, [];
      ghost var want := Parse(Parsed(edges, []), body, ansn, deny, n);
      assert body[0..] == body;
      while curr < |body|
        invariant Valid() && curr <= |body|
        invariant want == Parse(Parsed(edges, last), body[curr..], ansn, deny, n)
      {
        ParseStep(Parsed(edges, last), body, curr, ansn, deny, n);
        if |body| - curr < n {
          return None;
        }
        var a := body[curr..curr + n];
        curr, last := curr + n, a;
        if a !in edges && a in deny {
          continue;
        }
        if |body| - curr < 4 {
          return None;
        }
        edges := Refresh(edges, a, Lq(body[curr], body[curr + 1]), ansn);
        curr := curr + 4;
      }
      ParseDone(Parsed(edges, last), ansn, deny, n);
      assert body[curr..] == [];
      return Some(last);
    }

    /** `olsr_input_tc`, after the message header was read. */
    method InputTc(m: Msg, lower: nat, upper: nat, body: seq<bv8>) returns (out: Outcome)
      requires Valid() && m.seqno < U16 && m.ansn < U16
      requires body == [] || (lower == 0 && upper == 0) || FlagsFit(Fragment(lower, upper, []), n)
      modifies this
      ensures Valid()
      ensures (out != Refused, gate) == Admission(old(gate), Arrival(m, old(edges) != map[]))
      ensures out == Refused ==> edges == old(edges) && gcTimer == old(gcTimer)
      ensures out == Processed ==> edges == After(old(edges), m.ansn, lower, upper, body)
      ensures out == Processed && body == [] && lower == 0xff && upper == 0xff ==> edges == map[] && !gcTimer
      ensures out == Processed && body == [] && !(lower == 0xff && upper == 0xff) ==> edges == old(edges) && gcTimer
      ensures out == Processed && body != [] && lower == 0 && upper == 0 ==> old(edges.Keys) <= edges.Keys && gcTimer
      ensures out == Processed && body != [] && !(lower == 0 && upper == 0) ==> gcTimer == old(gcTimer)
      ensures out == Overrun <==> out != Refused && Parse(Parsed(old(edges), []), body, m.ansn, deny, n) == None
    {
      hide Parse, Revoke, Admit, LowerBorder, UpperBorder;
      var ok := AdmitMsg(m);
      if !ok {
        return Refused;
      }
      ghost var before := edges;
      var last := ReadBody(body, m.ansn);
      if last.None? {
        return Overrun;
      }
      ParsedLast(Parsed(before, []), body, m.ansn, deny, n);
      if body == [] {
        if lower == END_BORDER && upper == END_BORDER {
          // the entry goes, and with it all edges and the timer
          edges, gcTimer := map[], false;
        } else {
          gcTimer := true;
        }
        ParseDone(Parsed(before, []), m.ansn, deny, n);
        return Processed;
      }
      var first := body[..n];
      var lowerIp := new bv8[n](i requires 0 <= i < n => first[i]);
      var upperIp := new bv8[n](i requires 0 <= i < n => last.value[i]);
      assert lowerIp[..] == first && upperIp[..] == last.value;
      ParseKeeps(Parsed(before, []), body, m.ansn, deny, n);
      var borderSet := CalculateTcBorder(lower, lowerIp, upper, upperIp, ptrSize);
      if borderSet {
        var changed;
        edges, changed := DeleteRevoked(edges, m.ansn, lowerIp[..], upperIp[..]);
      } else {
        gcTimer := true;
      }
      return Processed;
    }

    /** `olsr_expire_tc_edge_gc`: edges older than the stored ANSN go. */
    method CollectGarbage() returns (changed: bool)
      requires Valid()
      modifies `edges, `gcTimer
      ensures Valid() && !gcTimer && edges == Collected(old(edges), gate.ansn)
      ensures forall d :: d in edges <==> d in old(edges) && !SeqGreater(gate.ansn, old(edges)[d].ansn)
      ensures forall d :: d in edges ==> edges[d] == old(edges)[d]
      ensures changed <==> edges != old(edges)
    {
      ghost var e0 := edges;
      gcTimer, changed := false, false;
      var rest := edges.Keys;
      while rest != {}
        invariant rest <= e0.Keys && !gcTimer
        invariant forall d :: d in edges <==> d in e0 && (d in rest || !SeqGreater(gate.ansn, e0[d].ansn))
        invariant forall d :: d in edges ==> edges[d] == e0[d]
        invariant changed <==> edges != e0
        decreases rest
      {
        hide SeqGreater;
        var d :| d in rest;
        rest := rest - {d};
        if SeqGreater(gate.ansn, edges[d].ansn) {
          edges := edges - {d};
          changed := true;
        }
      }
    }

    /** All fragments of one fresh advertisement, in order: every one is admitted and processed. */
    method ReceiveAdvertisement(frags: seq<Fragment>, seqno: nat, ansn: nat)
      requires Valid() && Sent(frags, n) && seqno < U16 && ansn < U16
      requires edges == map[] || gate.Forward(seqno, ansn)
      requires forall i, j :: 0 <= i < |frags| && 0 <= j < |frags[i].adverts| ==> frags[i].adverts[j].addr !in deny
      modifies this
      ensures Valid()
      ensures edges == ProcessAll(old(edges), frags, |frags|, ansn, n, ptrSize)
    {
      hide Sent, Process, Admit, Gate.Forward, Gate.Old, After, Expandable, Encode, Parse;
      ghost var old0 := edges;
      for k := 0 to |frags|
        invariant Valid() && edges == ProcessAll(old0, frags, k, ansn, n, ptrSize)
        invariant edges == map[] || gate.Forward((seqno + k) % U16, ansn)
      {
        FlagsOk(frags, n, k);
        ExpandableFlags(frags[k], n);
        var f, m := frags[k], Msg((seqno + k) % U16, ansn);
        ForwardAdmitted(gate, m);
        ghost var e := edges;
        AfterIsProcess(e, f, ansn);
        var out := InputTc(m, f.lower, f.upper, Encode(f.adverts));
        NextIsForward(gate, (seqno + k) % U16, ansn);
      }
    }

    lemma AfterIsProcess(e: Edges, f: Fragment, ansn: nat)
      requires 0 < n <= 16 && KeysSized(e, n) && Expandable(f, n)
      requires forall j :: 0 <= j < |f.adverts| ==> f.adverts[j].addr !in deny
      ensures Encode(f.adverts) != [] && Parse(Parsed(e, []), Encode(f.adverts), ansn, deny, n).Some?
      ensures After(e, ansn, f.lower, f.upper, Encode(f.adverts)) == Process(e, f, ansn, n, ptrSize)
    {
      var body := Encode(f.adverts);
      assert body[..n] == f.First();
      ParseEncoded(Parsed(e, []), f.adverts, ansn, deny, n);
      hide Encode, Parse, Revoke, Rebuild, EndBorder, RefreshAll;
    }

    /** The edges after an admitted, readable message. */
    ghost function After(e: Edges, ansn: nat, lower: nat, upper: nat, body: seq<bv8>): Edges
      requires 0 < n <= 16 && KeysSized(e, n)
      requires body == [] || (lower == 0 && upper == 0) || FlagsFit(Fragment(lower, upper, []), n)
    {
      match Parse(Parsed(e, []), body, ansn, deny, n)
      case None => e
      case Some(q) =>
        ParsedLast(Parsed(e, []), body, ansn, deny, n);
        if body == [] then (if lower == END_BORDER && upper == END_BORDER then map[] else e)
        else if lower == 0 && upper == 0 then q.edges
        else Revoke(q.edges, ansn, LowerBorder(body[..n], lower, ptrSize), UpperBorder(q.last, upper, ptrSize))
    }
  }

  lemma ExpandableFlags(f: Fragment, n: nat)
    requires Expandable(f, n)
    ensures f.adverts != [] && FlagsFit(Fragment(f.lower, f.upper, []), n) && !(f.lower == 0 && f.upper == 0)
  {
  }

  /** A message in the forward window is admitted, whatever was refused before it. */
  lemma ForwardAdmitted(g: Gate, m: Msg)
    requires g.Valid() && m.seqno < U16 && m.ansn < U16
    ensures g.Forward(m.seqno, m.ansn) ==> Admit(g, m) == (true, Accepted(g, m))
  {
    WindowsExact(g, m);
  }

  /** The next fragment, with the following number and the same ANSN, is in the forward window. */
  lemma NextIsForward(g: Gate, seqno: nat, ansn: nat)
    requires seqno < U16 && ansn < U16 && g.msgSeq == seqno && g.ansn == ansn
    ensures g.Forward((seqno + 1) % U16, ansn)
  {
    WindowsExact(g, Msg((seqno + 1) % U16, ansn));
  }

  lemma {:induction false} ParsedLast(p: Parsed, body: seq<bv8>, ansn: nat, deny: set<Bytes>, n: nat)
    requires n > 0 && KeysSized(p.edges, n) && Parse(p, body, ansn, deny, n).Some?
    ensures KeysSized(Parse(p, body, ansn, deny, n).value.edges, n)
    ensures body != [] ==> |body| >= n && |Parse(p, body, ansn, deny, n).value.last| == n
    ensures body == [] ==> Parse(p, body, ansn, deny, n).value == p
    decreases |body|
  {
    hide CostOf;
    if body != [] {
      var a := body[..n];
      if a !in p.edges && a in deny {
        ParsedLast(Parsed(p.edges, a), body[n..], ansn, deny, n);
      } else {
        ParsedLast(Parsed(Refresh(p.edges, a, Lq(body[n], body[n + 1]), ansn), a), body[n + 4..], ansn, deny, n);
      }
    }
  }

  /** Reading a body removes no edge. */
  lemma {:induction false} ParseKeeps(p: Parsed, body: seq<bv8>, ansn: nat, deny: set<Bytes>, n: nat)
    requires n > 0 && Parse(p, body, ansn, deny, n).Some?
    ensures p.edges.Keys <= Parse(p, body, ansn, deny, n).value.edges.Keys
    decreases |body|
  {
    hide CostOf;
    if body != [] {
      var a := body[..n];
      if a !in p.edges && a in deny {
        ParseKeeps(Parsed(p.edges, a), body[n..], ansn, deny, n);
      } else {
        ParseKeeps(Parsed(Refresh(p.edges, a, Lq(body[n], body[n + 1]), ansn), a), body[n + 4..], ansn, deny, n);
      }
    }
  }

  /** Without the edges that are older than `ansn`. */
  function Collected(edges: Edges, ansn: nat): Edges {
    map d | d in edges && !SeqGreater(ansn, edges[d].ansn) :: edges[d]
  }

  /** An advertisement without borders is made exact by the collection: the edges are the listed ones. */
  lemma CollectionExact(e0: Edges, adverts: seq<Advert>, ansn: nat)
    requires forall i, j :: 0 <= i < j < |adverts| ==> adverts[i].addr != adverts[j].addr
    requires forall d :: d in e0 ==> SeqGreater(ansn, e0[d].ansn)
    ensures var e := Collected(RefreshAll(e0, adverts, ansn), ansn);
      forall d :: d in e <==> exists i :: 0 <= i < |adverts| && adverts[i].addr == d
  {
    RefreshAllEffect(e0, adverts, ansn);
    SeqIrreflexive(ansn);
    hide RefreshAll, SeqGreater;
  }

  lemma ParseDone(p: Parsed, ansn: nat, deny: set<Bytes>, n: nat)
    requires n > 0
    ensures Parse(p, [], ansn, deny, n) == Some(p)
  {
  }

  /* ---------- all fragments of one advertisement ---------- */

  /** The originator's edges after the first `k` fragments, each admitted. */
  ghost function ProcessAll(edges: Edges, frags: seq<Fragment>, k: nat, ansn: nat, n: nat, ptrSize: nat): (r: Edges)
    requires Sent(frags, n) && k <= |frags| && KeysSized(edges, n)
    ensures KeysSized(r, n)
  {
    if k == 0 then edges
    else
      FlagsOk(frags, n, k - 1);
      RefreshSized(ProcessAll(edges, frags, k - 1, ansn, n, ptrSize), frags[k - 1].adverts, ansn, n);
      Process(ProcessAll(edges, frags, k - 1, ansn, n, ptrSize), frags[k - 1], ansn, n, ptrSize)
  }

  /** `d` is the `j`-th neighbour of fragment `i`. */
  ghost predicate ListedAt(frags: seq<Fragment>, i: nat, j: nat, d: Bytes) {
    i < |frags| && j < |frags[i].adverts| && frags[i].adverts[j].addr == d
  }

  ghost predicate Listed(frags: seq<Fragment>, k: nat, d: Bytes) {
    exists i: nat, j: nat :: i < k && ListedAt(frags, i, j, d)
  }

  /** `d` lies in the revocation range of one of the first `k` fragments. */
  ghost predicate Swept(frags: seq<Fragment>, k: nat, n: nat, ptrSize: nat, d: Bytes)
    requires Sent(frags, n) && k <= |frags|
  {
    exists i :: 0 <= i < k && Expandable(frags[i], n) && InRange(frags[i], n, ptrSize, d)
  }

  /** All neighbours of the first `k` fragments are stored as listed. */
  ghost predicate AllStored(old0: Edges, e: Edges, frags: seq<Fragment>, k: nat, ansn: nat)
    requires k <= |frags|
  {
    forall i :: 0 <= i < k ==> FragmentStored(old0, e, frags[i], ansn)
  }

  /** Any other stored edge is an old one, and of those exactly the swept ones are gone. */
  ghost predicate OthersKept(old0: Edges, e: Edges, frags: seq<Fragment>, k: nat, n: nat, ptrSize: nat)
    requires Sent(frags, n) && k <= |frags|
  {
    forall d :: !Listed(frags, k, d) ==> KeptAt(old0, e, Swept(frags, k, n, ptrSize, d), d)
  }

  ghost predicate KeptAt(old0: Edges, e: Edges, swept: bool, d: Bytes) {
    (d in e ==> d in old0 && e[d] == old0[d]) && (d in old0 ==> (d in e <==> !swept))
  }

  /** Neighbours of a later fragment lie at or above the upper border of an earlier one. */
  lemma LaterAbove(frags: seq<Fragment>, n: nat, ptrSize: nat, i: nat, k: nat, l: nat)
    requires Sent(frags, n) && i < k < |frags| && l < |frags[k].adverts|
    ensures Expandable(frags[i], n) && |frags[k].adverts[l].addr| == n
    ensures Le(Hi(frags[i], n, ptrSize), frags[k].adverts[l].addr)
    ensures !InRange(frags[i], n, ptrSize, frags[k].adverts[l].addr)
  {
    hide Less;
    RangesAscend(frags, n, ptrSize, i, k);
    FragmentBracketed(frags, n, ptrSize, k);
    var f, x, hi := frags[k], frags[k].adverts[l].addr, Hi(frags[i], n, ptrSize);
    LeLess(Lo(f, n, ptrSize), f.First(), x);
    LeLess(hi, Lo(f, n, ptrSize), x);
    Trichotomy(hi, x);
    LessIrreflexive(x);
  }

  lemma LaterDiffers(frags: seq<Fragment>, n: nat, i: nat, j: nat, k: nat, l: nat)
    requires Sent(frags, n) && i < k < |frags| && j < |frags[i].adverts| && l < |frags[k].adverts|
    ensures frags[i].adverts[j].addr != frags[k].adverts[l].addr
  {
    hide Less, Flagged, Hi, Lo, RoomAbove;
    LaterAbove(frags, n, 0, i, k, l);
    FragmentBracketed(frags, n, 0, i);
    SentIncreasing(frags, n, i);
    var f, x, y, hi := frags[i], frags[i].adverts[j].addr, frags[k].adverts[l].addr, Hi(frags[i], n, 0);
    hide Sent;
    LeLess(x, f.Last(), hi);
    LeLess(x, hi, y);
    LessIrreflexive(x);
  }

  lemma NotListedBefore(frags: seq<Fragment>, n: nat, ptrSize: nat, k: nat, l: nat)
    requires Sent(frags, n) && k < |frags| && l < |frags[k].adverts|
    ensures !Listed(frags, k, frags[k].adverts[l].addr)
    ensures !Swept(frags, k, n, ptrSize, frags[k].adverts[l].addr)
  {
    hide Sent, InRange, Expandable;
    var x := frags[k].adverts[l].addr;
    forall i: nat, j: nat | i < k ensures !ListedAt(frags, i, j, x) {
      if j < |frags[i].adverts| {
        LaterDiffers(frags, n, i, j, k, l);
      }
    }
    forall i | 0 <= i < k && Expandable(frags[i], n) ensures !InRange(frags[i], n, ptrSize, x) {
      LaterAbove(frags, n, ptrSize, i, k, l);
    }
  }

  ghost predicate InFragment(f: Fragment, d: Bytes) {
    exists j :: 0 <= j < |f.adverts| && f.adverts[j].addr == d
  }

  lemma ListedNext(frags: seq<Fragment>, k: nat, d: Bytes)
    requires k < |frags|
    ensures Listed(frags, k + 1, d) <==> Listed(frags, k, d) || InFragment(frags[k], d)
  {
    if InFragment(frags[k], d) {
      var j: nat :| j < |frags[k].adverts| && frags[k].adverts[j].addr == d;
      assert ListedAt(frags, k, j, d);
    }
    if Listed(frags, k + 1, d) && !Listed(frags, k, d) {
      var i: nat, j: nat :| i < k + 1 && ListedAt(frags, i, j, d);
    }
  }

  lemma SweptNext(frags: seq<Fragment>, k: nat, n: nat, ptrSize: nat, d: Bytes)
    requires Sent(frags, n) && k < |frags| && Expandable(frags[k], n)
    ensures Swept(frags, k + 1, n, ptrSize, d) <==>
            Swept(frags, k, n, ptrSize, d) || InRange(frags[k], n, ptrSize, d)
  {
    hide Sent, InRange, Expandable;
  }

  ghost predicate FragmentStored(e: Edges, r: Edges, f: Fragment, ansn: nat) {
    forall j :: 0 <= j < |f.adverts| ==>
      var a := f.adverts[j];
      && a.addr in r
      && r[a.addr] == TcEdge(ansn, a.lq, if a.addr in e then CostOf(a.lq) else LinkCost.CalcCost(0, 0))
  }

  /**
   One fragment: its neighbours are stored with its ANSN; of the other edges precisely the
   older ones inside its range are removed, the rest is unchanged.
   */
  lemma ProcessEffect(e: Edges, f: Fragment, ansn: nat, n: nat, ptrSize: nat)
    requires Expandable(f, n) && Increasing(f.adverts, n) && KeysSized(e, n)
    ensures var r := Process(e, f, ansn, n, ptrSize);
            && FragmentStored(e, r, f, ansn)
            && forall d :: !InFragment(f, d) ==>
                 && (d in r <==> d in e && !(InRange(f, n, ptrSize, d) && SeqGreater(ansn, e[d].ansn)))
                 && (d in r ==> r[d] == e[d])
  {
    DistinctAddrs(f.adverts, n);
    hide Less, Lo, Hi, CostOf, SeqGreater, Increasing;
    var m := RefreshAll(e, f.adverts, ansn);
    RefreshSized(e, f.adverts, ansn, n);
    RefreshAllEffect(e, f.adverts, ansn);
    hide RefreshAll;
    assert !SeqGreater(ansn, ansn) by { SeqIrreflexive(ansn); }
    var r := Process(e, f, ansn, n, ptrSize);
    forall j | 0 <= j < |f.adverts| ensures f.adverts[j].addr in r && r[f.adverts[j].addr] == m[f.adverts[j].addr] {
      assert m[f.adverts[j].addr].ansn == ansn;
    }
    forall d | !InFragment(f, d)
      ensures d in m <==> d in e
      ensures d in m ==> m[d] == e[d]
    {
      assert forall i :: 0 <= i < |f.adverts| ==> f.adverts[i].addr != d;
    }
  }

  lemma SeqIrreflexive(s: nat)
    ensures !SeqGreater(s, s)
  {
  }

  lemma DistinctAddrs(adverts: seq<Advert>, n: nat)
    requires Increasing(adverts, n)
    ensures forall i, j :: 0 <= i < j < |adverts| ==> adverts[i].addr != adverts[j].addr
  {
    forall i, j | 0 <= i < j < |adverts| ensures adverts[i].addr != adverts[j].addr {
      LessIrreflexive(adverts[i].addr);
    }
  }

  lemma StoredBefore(old0: Edges, e: Edges, frags: seq<Fragment>, i: nat, k: nat, ansn: nat, n: nat, ptrSize: nat)
    requires Sent(frags, n) && i < k < |frags| && KeysSized(e, n) && Expandable(frags[k], n)
    requires FragmentStored(old0, e, frags[i], ansn)
    ensures FragmentStored(old0, Process(e, frags[k], ansn, n, ptrSize), frags[i], ansn)
  {
    var f, r := frags[k], Process(e, frags[k], ansn, n, ptrSize);
    SentIncreasing(frags, n, k);
    hide Sent, Expandable, Process, InRange, CostOf, SeqGreater, InFragment, KeysSized;
    ProcessEffect(e, f, ansn, n, ptrSize);
    SeqIrreflexive(ansn);
    forall j | 0 <= j < |frags[i].adverts| ensures !InFragment(f, frags[i].adverts[j].addr) {
      EarlierNotIn(frags, n, i, j, k);
    }
  }

  lemma StoredNow(old0: Edges, e: Edges, frags: seq<Fragment>, k: nat, ansn: nat, n: nat, ptrSize: nat)
    requires Sent(frags, n) && k < |frags| && KeysSized(e, n) && Expandable(frags[k], n)
    requires OthersKept(old0, e, frags, k, n, ptrSize)
    ensures FragmentStored(old0, Process(e, frags[k], ansn, n, ptrSize), frags[k], ansn)
  {
    var f, r := frags[k], Process(e, frags[k], ansn, n, ptrSize);
    SentIncreasing(frags, n, k);
    hide Sent, Expandable, Process, InRange, CostOf, Listed, Swept, SeqGreater, InFragment, KeysSized;
    ProcessEffect(e, f, ansn, n, ptrSize);
    forall j | 0 <= j < |f.adverts| ensures f.adverts[j].addr in e <==> f.adverts[j].addr in old0 {
      NotListedBefore(frags, n, ptrSize, k, j);
    }
  }

  lemma KeptStep(old0: Edges, e: Edges, frags: seq<Fragment>, k: nat, ansn: nat, n: nat, ptrSize: nat)
    requires Sent(frags, n) && k < |frags| && KeysSized(e, n) && Expandable(frags[k], n)
    requires forall d :: d in old0 ==> SeqGreater(ansn, old0[d].ansn)
    requires OthersKept(old0, e, frags, k, n, ptrSize)
    ensures OthersKept(old0, Process(e, frags[k], ansn, n, ptrSize), frags, k + 1, n, ptrSize)
  {
    hide Sent, Expandable, Process, InRange, Listed, Swept, SeqGreater, InFragment, KeysSized, KeptAt;
    var m := k + 1;
    forall d | !Listed(frags, m, d)
      ensures KeptAt(old0, Process(e, frags[k], ansn, n, ptrSize), Swept(frags, m, n, ptrSize, d), d)
    {
      ListedNext(frags, k, d);
      SweptNext(frags, k, n, ptrSize, d);
      KeptNext(old0, e, frags, k, ansn, n, ptrSize, Swept(frags, k, n, ptrSize, d), d);
    }
  }

  lemma KeptNext(old0: Edges, e: Edges, frags: seq<Fragment>, k: nat, ansn: nat, n: nat, ptrSize: nat, swept: bool, d: Bytes)
    requires Sent(frags, n) && k < |frags| && KeysSized(e, n) && Expandable(frags[k], n)
    requires d in old0 ==> SeqGreater(ansn, old0[d].ansn)
    requires KeptAt(old0, e, swept, d) && !InFragment(frags[k], d)
    ensures KeptAt(old0, Process(e, frags[k], ansn, n, ptrSize), swept || InRange(frags[k], n, ptrSize, d), d)
  {
    SentIncreasing(frags, n, k);
    hide Sent, Expandable, Process, InRange, FragmentStored, SeqGreater, InFragment, KeysSized;
    ProcessEffect(e, frags[k], ansn, n, ptrSize);
  }

  lemma SentIncreasing(frags: seq<Fragment>, n: nat, k: nat)
    requires Sent(frags, n) && k < |frags|
    ensures Increasing(frags[k].adverts, n)
  {
  }

  lemma EarlierNotIn(frags: seq<Fragment>, n: nat, i: nat, j: nat, k: nat)
    requires Sent(frags, n) && i < k < |frags| && j < |frags[i].adverts|
    ensures !InFragment(frags[k], frags[i].adverts[j].addr)
  {
    hide Sent;
    forall l | 0 <= l < |frags[k].adverts| ensures frags[k].adverts[l].addr != frags[i].adverts[j].addr {
      LaterDiffers(frags, n, i, j, k, l);
    }
  }

  lemma {:induction false} ProcessAllEffect(old0: Edges, frags: seq<Fragment>, k: nat, ansn: nat, n: nat, ptrSize: nat)
    requires Sent(frags, n) && k <= |frags| && KeysSized(old0, n)
    requires forall d :: d in old0 ==> SeqGreater(ansn, old0[d].ansn)
    ensures var e := ProcessAll(old0, frags, k, ansn, n, ptrSize);
            AllStored(old0, e, frags, k, ansn) && OthersKept(old0, e, frags, k, n, ptrSize)
    decreases k
  {
    hide Sent, SeqGreater, Process, FragmentStored, OthersKept, Expandable, KeysSized;
    if k == 0 {
      NothingYet(old0, frags, ansn, n, ptrSize);
    } else {
      FlagsOk(frags, n, k - 1);
      ProcessAllEffect(old0, frags, k - 1, ansn, n, ptrSize);
      var e := ProcessAll(old0, frags, k - 1, ansn, n, ptrSize);
      forall i | 0 <= i < k
        ensures FragmentStored(old0, ProcessAll(old0, frags, k, ansn, n, ptrSize), frags[i], ansn)
      {
        if i < k - 1 {
          StoredBefore(old0, e, frags, i, k - 1, ansn, n, ptrSize);
        } else {
          StoredNow(old0, e, frags, i, ansn, n, ptrSize);
        }
      }
      KeptStep(old0, e, frags, k - 1, ansn, n, ptrSize);
    }
  }

  lemma NothingYet(old0: Edges, frags: seq<Fragment>, ansn: nat, n: nat, ptrSize: nat)
    requires Sent(frags, n)
    ensures AllStored(old0, old0, frags, 0, ansn) && OthersKept(old0, old0, frags, 0, n, ptrSize)
  {
  }

  lemma OuterExpandable(frags: seq<Fragment>, n: nat)
    requires Sent(frags, n)
    ensures frags != [] && Expandable(frags[0], n) && Expandable(frags[|frags| - 1], n)
  {
    FlagsOk(frags, n, 0);
    FlagsOk(frags, n, |frags| - 1);
  }

  /** The ranges of all fragments together are the space between the outer borders. */
  lemma SweptExactly(frags: seq<Fragment>, n: nat, ptrSize: nat, d: Bytes)
    requires Sent(frags, n) && |d| == n
    ensures Expandable(frags[0], n) && Expandable(frags[|frags| - 1], n)
    ensures Swept(frags, |frags|, n, ptrSize, d) <==>
            Le(Lo(frags[0], n, ptrSize), d) && Less(d, Hi(frags[|frags| - 1], n, ptrSize))
  {
    OuterExpandable(frags, n);
    hide Less, Lo, Hi, Expandable, Flagged, Chained;
    var m := |frags| - 1;
    if Swept(frags, |frags|, n, ptrSize, d) {
      var i :| 0 <= i < |frags| && Expandable(frags[i], n) && InRange(frags[i], n, ptrSize, d);
      WithinOuter(frags, n, ptrSize, i, d);
    }
    if Le(Lo(frags[0], n, ptrSize), d) && Less(d, Hi(frags[m], n, ptrSize)) {
      var i := RangesCover(frags, n, ptrSize, m, d);
    }
  }

  lemma WithinOuter(frags: seq<Fragment>, n: nat, ptrSize: nat, i: nat, d: Bytes)
    requires Sent(frags, n) && i < |frags| && Expandable(frags[i], n) && InRange(frags[i], n, ptrSize, d)
    requires Expandable(frags[0], n) && Expandable(frags[|frags| - 1], n)
    ensures Le(Lo(frags[0], n, ptrSize), d) && Less(d, Hi(frags[|frags| - 1], n, ptrSize))
  {
    hide Less, Lo, Hi, Expandable;
    var m := |frags| - 1;
    if i > 0 {
      RangesAscend(frags, n, ptrSize, 0, i);
      RangeUpright(frags, n, ptrSize, 0);
      LeLess(Lo(frags[0], n, ptrSize), Hi(frags[0], n, ptrSize), Lo(frags[i], n, ptrSize));
      LeLess(Lo(frags[0], n, ptrSize), Lo(frags[i], n, ptrSize), d);
    }
    if i < m {
      RangesAscend(frags, n, ptrSize, i, m);
      FragmentBracketed(frags, n, ptrSize, m);
      LastUpright(frags, n, ptrSize);
      LeLess(Hi(frags[i], n, ptrSize), Lo(frags[m], n, ptrSize), Hi(frags[m], n, ptrSize));
      LeLess(d, Hi(frags[i], n, ptrSize), Hi(frags[m], n, ptrSize));
    }
  }

  lemma RangeUpright(frags: seq<Fragment>, n: nat, ptrSize: nat, i: nat)
    requires Sent(frags, n) && i < |frags| - 1
    ensures Expandable(frags[i], n) && Le(Lo(frags[i], n, ptrSize), Hi(frags[i], n, ptrSize))
  {
    hide Less, Lo, Hi, Expandable;
    FragmentBracketed(frags, n, ptrSize, i);
    SentIncreasing(frags, n, i);
    var f := frags[i];
    LeLess(Lo(f, n, ptrSize), f.First(), f.Last());
    LeLess(Lo(f, n, ptrSize), f.Last(), Hi(f, n, ptrSize));
  }

  /** The last range may be empty at its top, but its borders are in order. */
  lemma LastUpright(frags: seq<Fragment>, n: nat, ptrSize: nat)
    requires Sent(frags, n)
    ensures var f := frags[|frags| - 1];
            Expandable(f, n) && Le(Lo(f, n, ptrSize), Hi(f, n, ptrSize))
  {
    hide Less, Rebuild, EndBorder, BorderFlag;
    var m := |frags| - 1;
    FragmentBracketed(frags, n, ptrSize, m);
    SentIncreasing(frags, n, m);
    var f := frags[m];
    EndUpperNotBelow(f.Last(), ptrSize);
    LeLess(Lo(f, n, ptrSize), f.First(), f.Last());
    LeLess(Lo(f, n, ptrSize), f.Last(), Hi(f, n, ptrSize));
  }

  lemma EndUpperNotBelow(last: Bytes, ptrSize: nat)
    ensures Le(last, EndBorder(last, ptrSize, 0xff))
  {
    EndUpperAbove(last, ptrSize);
    var r := EndBorder(last, ptrSize, 0xff);
    if forall i :: 0 <= i < ptrSize && i < |last| ==> last[i] == 0xff {
      assert forall i :: 0 <= i < |last| ==> r[i] == last[i];
    }
  }

  /**
   After all fragments of one advertisement, in order, the originator's edges are exactly
   the advertised ones if and only if no other old edge lies outside the outer borders.
   */
  lemma AdvertisementExact(old0: Edges, frags: seq<Fragment>, ansn: nat, n: nat, ptrSize: nat)
    requires Sent(frags, n) && KeysSized(old0, n)
    requires forall d :: d in old0 ==> SeqGreater(ansn, old0[d].ansn)
    ensures Expandable(frags[0], n) && Expandable(frags[|frags| - 1], n)
    ensures var e := ProcessAll(old0, frags, |frags|, ansn, n, ptrSize);
            && AllStored(old0, e, frags, |frags|, ansn)
            && ((forall d :: d in e <==> Listed(frags, |frags|, d)) <==>
                forall d :: d in old0 && !Listed(frags, |frags|, d) ==>
                  Le(Lo(frags[0], n, ptrSize), d) && Less(d, Hi(frags[|frags| - 1], n, ptrSize)))
  {
    OuterExpandable(frags, n);
    hide Less, Lo, Hi, Expandable, SeqGreater, ProcessAll, FragmentStored, Swept, Sent;
    var e := ProcessAll(old0, frags, |frags|, ansn, n, ptrSize);
    ProcessAllEffect(old0, frags, |frags|, ansn, n, ptrSize);
    forall d | Listed(frags, |frags|, d) ensures d in e {
      ListedIsStored(old0, e, frags, ansn, d);
    }
    hide Listed;
    forall d | d in old0
      ensures Swept(frags, |frags|, n, ptrSize, d) <==>
              Le(Lo(frags[0], n, ptrSize), d) && Less(d, Hi(frags[|frags| - 1], n, ptrSize))
    {
      SweptExactly(frags, n, ptrSize, d);
    }
  }

  lemma ListedIsStored(old0: Edges, e: Edges, frags: seq<Fragment>, ansn: nat, d: Bytes)
    requires AllStored(old0, e, frags, |frags|, ansn) && Listed(frags, |frags|, d)
    ensures d in e
  {
    var i: nat, j: nat :| i < |frags| && ListedAt(frags, i, j, d);
    assert FragmentStored(old0, e, frags[i], ansn);
  }

  /** With a pointer as wide as an address, only a stale edge to the all-one address can survive. */
  lemma WidePointerExact(old0: Edges, frags: seq<Fragment>, ansn: nat, n: nat, ptrSize: nat)
    requires Sent(frags, n) && KeysSized(old0, n) && n <= ptrSize
    requires forall d :: d in old0 ==> SeqGreater(ansn, old0[d].ansn)
    ensures (forall d :: d in ProcessAll(old0, frags, |frags|, ansn, n, ptrSize) <==> Listed(frags, |frags|, d))
            <==> (Fill(n, 0xff) in old0 ==> Listed(frags, |frags|, Fill(n, 0xff)))
  {
    OuterExpandable(frags, n);
    AdvertisementExact(old0, frags, ansn, n, ptrSize);
    hide Less, SeqGreater, ProcessAll, Listed, AllStored, EndBorder, Rebuild, Chained, BorderFlag;
    forall d | d in old0
      ensures Le(Lo(frags[0], n, ptrSize), d)
      ensures Less(d, Hi(frags[|frags| - 1], n, ptrSize)) <==> d != Fill(n, 0xff)
    {
      EndBordersCover(frags[0].First(), ptrSize, d);
      EndBordersCover(frags[|frags| - 1].Last(), ptrSize, d);
    }
  }

  /** 2000::9 as the only advertised neighbour, and the older edge ::5. */
  function OnlyNeighbour(): Bytes {
    [0x20, 0, 0, 0, 0, 0, 0, 0, 0, 0, 0, 0, 0, 0, 0, 9]
  }

  function StaleNeighbour(): Bytes {
    [0, 0, 0, 0, 0, 0, 0, 0, 0, 0, 0, 0, 0, 0, 0, 5]
  }

  lemma StaleBelowBorder()
    ensures StaleNeighbour() != OnlyNeighbour() && |StaleNeighbour()| == |OnlyNeighbour()| == 16
    ensures !Le(EndBorder(OnlyNeighbour(), 8, 0), StaleNeighbour())
  {
    var d, lo := StaleNeighbour(), EndBorder(OnlyNeighbour(), 8, 0);
    assert d[15] != OnlyNeighbour()[15];
    assert lo == Fill(8, 0) + OnlyNeighbour()[8..];
    assert lo[15] == 9 && d[15] == 5;
    LessAt(d, lo, 15);
    Trichotomy(d, lo);
  }

  /** With 16-byte addresses and 8-byte pointers, a stale edge below the first neighbour survives. */
  lemma NarrowPointerKeepsStale(lq: Lq)
    ensures var old0: Edges := map[StaleNeighbour() := TcEdge(0, lq, 1024)];
            var frags := [Fragment(END_BORDER, END_BORDER, [Advert(OnlyNeighbour(), lq)])];
            && Sent(frags, 16) && KeysSized(old0, 16) && SeqGreater(1, 0)
            && !Listed(frags, 1, StaleNeighbour())
            && StaleNeighbour() in ProcessAll(old0, frags, 1, 1, 16, 8)
  {
    StaleBelowBorder();
    var d := StaleNeighbour();
    hide Less, EndBorder, OnlyNeighbour, StaleNeighbour, ProcessAll;
    var old0: Edges := map[d := TcEdge(0, lq, 1024)];
    var frags := [Fragment(END_BORDER, END_BORDER, [Advert(OnlyNeighbour(), lq)])];
    ProcessAllEffect(old0, frags, 1, 1, 16, 8);
    SweptExactly(frags, 16, 8, d);
  }
}
