/**
 Flooding over many nodes: each step is one node receiving a message copy that is in the
 air (`parse_packet` in Olsrd/src/parser.c, `olsr_forward_message` in Olsrd/src/olsr.c) with
 its duplicate set as gate. All interfaces are in mesh mode.
 */
module Flooding {
  import opened Common
  import opened DupSet

  /** The originator and its unbounded message number; the header carries the number mod 2^16. */
  datatype MsgId = MsgId(orig: Addr, num: int)

  /** A copy in the air; `path` lists the nodes that forwarded it. */
  datatype Copy = Copy(id: MsgId, ttl: nat, hopcnt: nat, path: seq<Addr>)

  datatype Net = Net(
    sent: map<MsgId, nat>,                    // ttl chosen by the originator
    air: set<Copy>,
    dups: map<Addr, map<Addr, DupEntry>>)     // per node: duplicate set by originator

  datatype Event =
    | Originate(id: MsgId, ttl: nat)
    | Deliver(node: Addr, c: Copy, fromSelector: bool)   // the sender is a symmetric MPR selector
    | Expire(node: Addr, orig: Addr)
    | Clean(node: Addr, orig: Addr)

  /** The duplicate check of one node: its new entry, and whether the message is a duplicate. */
  function Check(e: Option<DupEntry>, num: int): (r: (DupEntry, bool))
    requires e.Some? ==> e.value.Valid()
    ensures r.0.Valid()
  {
    if e.None? then (Create(num % U16), false) else Receive(e.value, num % U16)
  }

  function EntryOf(n: Net, node: Addr, orig: Addr): Option<DupEntry> {
    if node in n.dups && orig in n.dups[node] then Some(n.dups[node][orig]) else None
  }

  function WithEntry(n: Net, node: Addr, orig: Addr, e: DupEntry): Net {
    var d := if node in n.dups then n.dups[node] else map[];
    n.(dups := n.dups[node := d[orig := e]])
  }

  ghost predicate DupsOk(n: Net) {
    forall node, orig :: EntryOf(n, node, orig).Some? ==> EntryOf(n, node, orig).value.Valid()
  }

  /** The message gets as far as the duplicate check. */
  predicate Checked(n: Net, ev: Event, node: Addr, orig: Addr) {
    && ev.Deliver? && ev.node == node && ev.c.id.orig == orig
    && ev.c in n.air && node != orig && ev.fromSelector
  }

  /** `is_ttl_1`: too old to be flooded on. */
  predicate Exhausted(c: Copy) {
    c.ttl < 2 || 255 < c.hopcnt + c.ttl
  }

  function Onward(c: Copy, node: Addr): Copy
    requires c.ttl > 0
  {
    Copy(c.id, c.ttl - 1, c.hopcnt + 1, c.path + [node])
  }

  /** Receiving a copy: check, and forward it unless it is a duplicate or exhausted. */
  ghost function Receipt(n: Net, node: Addr, c: Copy): Net
    requires DupsOk(n)
  {
    var (e, dup) := Check(EntryOf(n, node, c.id.orig), c.id.num);
    var m := WithEntry(n, node, c.id.orig, e);
    if dup || Exhausted(c) then m else m.(air := m.air + {Onward(c, node)})
  }

  ghost function Step(n: Net, ev: Event): Net
    requires DupsOk(n)
  {
    match ev
    case Originate(id, ttl) =>
      if id in n.sent || !(1 <= ttl <= 255) then n
      else n.(sent := n.sent[id := ttl], air := n.air + {Copy(id, ttl, 0, [])})
    case Deliver(node, c, _) =>
      if Checked(n, ev, node, c.id.orig) then Receipt(n, node, c) else n
    case Expire(node, orig) =>
      if EntryOf(n, node, orig).Some? then n.(dups := n.dups[node := n.dups[node] - {orig}]) else n
    case Clean(node, orig) =>
      if EntryOf(n, node, orig).Some? then WithEntry(n, node, orig, Cleaned(EntryOf(n, node, orig).value)) else n
  }

  /** `ev` makes `node` forward message `id`. */
  ghost predicate Forwards(n: Net, ev: Event, node: Addr, id: MsgId)
    requires DupsOk(n)
  {
    && Checked(n, ev, node, id.orig) && ev.c.id == id && !Exhausted(ev.c)
    && !Check(EntryOf(n, node, id.orig), id.num).1
  }

  lemma EntryWith(n: Net, node: Addr, orig: Addr, e: DupEntry, x: Addr, y: Addr)
    ensures EntryOf(WithEntry(n, node, orig, e), x, y) ==
            if x == node && y == orig then Some(e) else EntryOf(n, x, y)
  {
  }

  /** The entry of one node for one originator after a step. */
  lemma EntryStep(n: Net, ev: Event, x: Addr, y: Addr)
    requires DupsOk(n)
    ensures EntryOf(Step(n, ev), x, y) ==
            if Checked(n, ev, x, y) then Some(Check(EntryOf(n, x, y), ev.c.id.num).0)
            else if ev == Expire(x, y) then None
            else if ev == Clean(x, y) && EntryOf(n, x, y).Some? then Some(Cleaned(EntryOf(n, x, y).value))
            else EntryOf(n, x, y)
  {
    hide Check, Cleaned;
    match ev
    case Originate(id, ttl) =>
    case Deliver(node, c, _) =>
      EntryWith(n, node, c.id.orig, Check(EntryOf(n, node, c.id.orig), c.id.num).0, x, y);
    case Expire(node, orig) =>
    case Clean(node, orig) =>
      if EntryOf(n, node, orig).Some? {
        EntryWith(n, node, orig, Cleaned(EntryOf(n, node, orig).value), x, y);
      }
  }

  lemma StepDups(n: Net, ev: Event)
    requires DupsOk(n)
    ensures DupsOk(Step(n, ev))
  {
    hide Check, Step, EntryOf;
    forall x, y | EntryOf(Step(n, ev), x, y).Some? ensures EntryOf(Step(n, ev), x, y).value.Valid() {
      EntryStep(n, ev, x, y);
    }
  }

  ghost function Run(n: Net, evs: seq<Event>): (r: Net)
    requires DupsOk(n)
    ensures DupsOk(r)
  {
    if evs == [] then n
    else
      var m := Run(n, evs[..|evs| - 1]);
      StepDups(m, evs[|evs| - 1]);
      Step(m, evs[|evs| - 1])
  }

  /* ---------- hop count and time to live ---------- */

  /** Every copy keeps the originator's ttl as the sum of ttl and hop count, and counts its forwards. */
  ghost predicate HopsOk(n: Net) {
    forall c :: c in n.air ==>
      && c.id in n.sent && n.sent[c.id] <= 255
      && c.hopcnt + c.ttl == n.sent[c.id] && 1 <= c.ttl
      && |c.path| == c.hopcnt
  }

  lemma StepHops(n: Net, ev: Event)
    requires DupsOk(n) && HopsOk(n)
    ensures HopsOk(Step(n, ev))
  {
    hide Check, EntryOf, DupsOk, Receipt;
    if ev.Deliver? && Checked(n, ev, ev.node, ev.c.id.orig) {
      ReceiptAir(n, ev.node, ev.c);
    }
  }

  lemma ReceiptAir(n: Net, node: Addr, c: Copy)
    requires DupsOk(n)
    ensures var m := Receipt(n, node, c);
            && m.sent == n.sent
            && (m.air == n.air || (!Exhausted(c) && m.air == n.air + {Onward(c, node)}))
  {
  }

  /**
   In any run, every copy in the air satisfies the sum, and has been forwarded fewer times
   than the ttl its originator chose. Which copies those are is said by `AirExactly`.
   */
  lemma {:induction false} FloodingRun(n: Net, evs: seq<Event>)
    requires DupsOk(n) && HopsOk(n)
    ensures HopsOk(Run(n, evs))
    ensures forall c :: c in Run(n, evs).air ==> |c.path| <= Run(n, evs).sent[c.id] - 1
    decreases |evs|
  {
    if evs != [] {
      FloodingRun(n, evs[..|evs| - 1]);
      StepHops(Run(n, evs[..|evs| - 1]), evs[|evs| - 1]);
    }
  }

  /* ---------- what goes into the air ---------- */

  /** A copy goes on exactly if it is checked, no duplicate, and has a ttl left that does not take it beyond 255 hops. */
  lemma ForwardsExactly(n: Net, ev: Event, node: Addr, id: MsgId)
    requires DupsOk(n)
    ensures Forwards(n, ev, node, id) <==>
            && ev.Deliver? && ev.node == node && ev.c.id == id && ev.c in n.air && node != id.orig && ev.fromSelector
            && ev.c.ttl >= 2 && ev.c.hopcnt + ev.c.ttl <= 255
            && !Check(EntryOf(n, node, id.orig), id.num).1
  {
    hide Check, EntryOf;
  }

  /** A forward puts exactly that copy into the air, with one ttl less and one hop more; any other delivery puts nothing. */
  lemma DeliverAir(n: Net, ev: Event)
    requires DupsOk(n) && ev.Deliver?
    ensures Step(n, ev).sent == n.sent
    ensures Forwards(n, ev, ev.node, ev.c.id) ==>
              ev.c.ttl >= 2 && Step(n, ev).air == n.air + {Copy(ev.c.id, ev.c.ttl - 1, ev.c.hopcnt + 1, ev.c.path + [ev.node])}
    ensures !Forwards(n, ev, ev.node, ev.c.id) ==> Step(n, ev).air == n.air
  {
    hide Check, EntryOf;
  }

  /** Event `i` of a run puts `c` into the air: its originator sends it, or a node forwards it. */
  ghost predicate PutAt(n: Net, evs: seq<Event>, i: nat, c: Copy)
    requires DupsOk(n) && i < |evs|
  {
    var m, ev := Run(n, evs[..i]), evs[i];
    || (ev.Originate? && ev.id !in m.sent && 1 <= ev.ttl <= 255 && c == Copy(ev.id, ev.ttl, 0, []))
    || (ev.Deliver? && Forwards(m, ev, ev.node, ev.c.id) && ev.c.ttl >= 2 &&
        c == Copy(ev.c.id, ev.c.ttl - 1, ev.c.hopcnt + 1, ev.c.path + [ev.node]))
  }

  lemma StepAir(n: Net, evs: seq<Event>, i: nat, c: Copy)
    requires DupsOk(n) && i < |evs|
    ensures c in Step(Run(n, evs[..i]), evs[i]).air <==> c in Run(n, evs[..i]).air || PutAt(n, evs, i, c)
  {
    hide Forwards, Receipt, EntryOf, Run, Step, DupsOk;
    var m, ev := Run(n, evs[..i]), evs[i];
    if ev.Deliver? {
      DeliverAir(m, ev);
    } else {
      OtherAir(m, ev);
    }
  }

  /** Of the other events, only an originator's first sending of a message puts a copy into the air. */
  lemma OtherAir(n: Net, ev: Event)
    requires DupsOk(n) && !ev.Deliver?
    ensures Step(n, ev).air ==
            if ev.Originate? && ev.id !in n.sent && 1 <= ev.ttl <= 255 then n.air + {Copy(ev.id, ev.ttl, 0, [])} else n.air
  {
    hide EntryOf, Receipt, Check, DupsOk;
  }

  /** In any run a copy is in the air exactly if it was there, an originator sent it or a node forwarded it. */
  lemma {:induction false} AirExactly(n: Net, evs: seq<Event>, k: nat, c: Copy)
    requires DupsOk(n) && k <= |evs|
    ensures c in Run(n, evs[..k]).air <==> c in n.air || exists i :: 0 <= i < k && PutAt(n, evs, i, c)
    decreases k
  {
    hide PutAt, Step, DupsOk;
    if k == 0 {
      assert evs[..0] == [];
    } else {
      var j := k - 1;
      hide Run;
      AirExactly(n, evs, j, c);
      RunNext(n, evs, j);
      StepAir(n, evs, j, c);
    }
  }

  /* ---------- a node forwards a recorded number at most once ---------- */

  /** What one event is to the entry of `node` for `orig`. */
  ghost function Inputs(n: Net, ev: Event, node: Addr, orig: Addr): seq<Input> {
    if Checked(n, ev, node, orig) then [Heard(ev.c.id.num)]
    else if ev == Clean(node, orig) then [Primed]
    else []
  }

  /** The numbers of `orig` that reached the duplicate check of `node`, and the cleanups of its entry. */
  ghost function History(n: Net, evs: seq<Event>, node: Addr, orig: Addr): seq<Input>
    requires DupsOk(n)
  {
    if evs == [] then []
    else
      var p, ev := evs[..|evs| - 1], evs[|evs| - 1];
      History(n, p, node, orig) + Inputs(Run(n, p), ev, node, orig)
  }

  predicate NoExpiry(evs: seq<Event>, node: Addr, orig: Addr) {
    forall i :: 0 <= i < |evs| ==> evs[i] != Expire(node, orig)
  }

  lemma RunNext(n: Net, evs: seq<Event>, i: nat)
    requires DupsOk(n) && i < |evs|
    ensures Run(n, evs[..i + 1]) == Step(Run(n, evs[..i]), evs[i])
  {
    assert evs[..i + 1][..i] == evs[..i];
  }

  lemma HistoryNext(n: Net, evs: seq<Event>, i: nat, node: Addr, orig: Addr)
    requires DupsOk(n) && i < |evs|
    ensures History(n, evs[..i + 1], node, orig) ==
            History(n, evs[..i], node, orig) + Inputs(Run(n, evs[..i]), evs[i], node, orig)
  {
    assert evs[..i + 1][..i] == evs[..i];
  }

  lemma {:induction false} HistoryPrefix(n: Net, evs: seq<Event>, i: nat, k: nat, node: Addr, orig: Addr)
    requires DupsOk(n) && i <= k <= |evs|
    ensures History(n, evs[..i], node, orig) <= History(n, evs[..k], node, orig)
    decreases k - i
  {
    hide Inputs, History;
    if i < k {
      HistoryPrefix(n, evs, i, k - 1, node, orig);
      HistoryNext(n, evs, k - 1, node, orig);
    }
  }

  /** The node's entry follows the numbers and the cleanups that reached it. */
  lemma {:induction false} EntryFollows(n: Net, evs: seq<Event>, i: nat, node: Addr, orig: Addr, p: Pair)
    requires DupsOk(n) && EntryOf(n, node, orig) == Some(p.e) && p.e.Valid()
    requires NoExpiry(evs, node, orig) && i <= |evs|
    ensures EntryOf(Run(n, evs[..i]), node, orig) == Some(Feed(p, History(n, evs[..i], node, orig)).e)
    decreases i
  {
    hide Step, EntryOf, Receive, DupsOk, Run, History, Feed;
    if i == 0 {
      assert evs[..0] == [];
      NothingRun(n, node, orig, p);
    } else {
      EntryFollows(n, evs, i - 1, node, orig, p);
      RunNext(n, evs, i - 1);
      HistoryNext(n, evs, i - 1, node, orig);
      var m := Run(n, evs[..i - 1]);
      EntryStep(m, evs[i - 1], node, orig);
      var xs := History(n, evs[..i - 1], node, orig);
      if Checked(m, evs[i - 1], node, orig) {
        FeedSnoc(p, xs, Heard(evs[i - 1].c.id.num));
      } else if evs[i - 1] == Clean(node, orig) {
        FeedSnoc(p, xs, Primed);
      } else {
        assert xs + [] == xs;
      }
    }
  }

  lemma NothingRun(n: Net, node: Addr, orig: Addr, p: Pair)
    requires DupsOk(n) && p.e.Valid()
    ensures Run(n, []) == n && Feed(p, History(n, [], node, orig)) == p
  {
  }

  lemma FeedSnoc(p: Pair, xs: seq<Input>, x: Input)
    requires p.e.Valid()
    ensures Feed(p, xs + [x]) == Next(Feed(p, xs), x)
  {
    assert (xs + [x])[..|xs|] == xs;
  }

  /** A message that is checked stands in the history; it goes on exactly if it is accepted there and not exhausted. */
  lemma ForwardIsAccepted(n: Net, evs: seq<Event>, i: nat, node: Addr, id: MsgId, p: Pair)
    requires DupsOk(n) && EntryOf(n, node, id.orig) == Some(p.e) && p.e.Valid()
    requires NoExpiry(evs, node, id.orig) && i < |evs|
    requires Checked(Run(n, evs[..i]), evs[i], node, id.orig) && evs[i].c.id == id
    ensures var xs, ys := History(n, evs, node, id.orig), History(n, evs[..i], node, id.orig);
            && |ys| < |xs| && xs[..|ys|] == ys && xs[|ys|] == Heard(id.num)
            && (Forwards(Run(n, evs[..i]), evs[i], node, id) <==> AcceptedAt(p, xs, |ys|) && !Exhausted(evs[i].c))
    ensures |History(n, evs[..i + 1], node, id.orig)| == |History(n, evs[..i], node, id.orig)| + 1
  {
    hide EntryOf, Receive, Run, History, DupsOk, Checked, Feed;
    EntryFollows(n, evs, i, node, id.orig, p);
    HistoryNext(n, evs, i, node, id.orig);
    HistoryPrefix(n, evs, i + 1, |evs|, node, id.orig);
    assert evs[..|evs|] == evs;
    var xs, ys := History(n, evs, node, id.orig), History(n, evs[..i], node, id.orig);
    assert xs[..|ys|] == ys;
  }

  /**
   While its entry does not expire and the numbers stay within 2^15 - 1 of the newest, a node
   that checked a message once does not forward it later, unless the entry restarts in between,
   whatever cleanups there are. So it forwards it at most once.
   */
  lemma ForwardOnce(n: Net, evs: seq<Event>, i: nat, j: nat, node: Addr, id: MsgId, p: Pair)
    requires DupsOk(n) && EntryOf(n, node, id.orig) == Some(p.e) && Tracks(p.e, p.g)
    requires NoExpiry(evs, node, id.orig) && i < j < |evs|
    requires Near(p, History(n, evs, node, id.orig))
    requires var xs := History(n, evs, node, id.orig);
             forall k :: |History(n, evs[..i], node, id.orig)| < k < |xs| ==> !RestartAt(p, xs, k)
    requires Checked(Run(n, evs[..i]), evs[i], node, id.orig) && evs[i].c.id == id
    ensures !Forwards(Run(n, evs[..j]), evs[j], node, id)
  {
    hide EntryOf, Run, History, DupsOk, Checked, Check, AcceptedAt, Near, RestartAt;
    TracksValid(p.e, p.g);
    if Forwards(Run(n, evs[..j]), evs[j], node, id) {
      ForwardIsAccepted(n, evs, i, node, id, p);
      ForwardIsAccepted(n, evs, j, node, id, p);
      HistoryPrefix(n, evs, i + 1, j, node, id.orig);
      var xs := History(n, evs, node, id.orig);
      NeverTwice(p, xs, |History(n, evs[..i], node, id.orig)|, |History(n, evs[..j], node, id.orig)|);
    }
  }

  /* ---------- the message that creates an entry ---------- */

  /** `ev` makes `node` create its entry for the originator of `id`, with message `id`. */
  ghost predicate Creates(n: Net, ev: Event, node: Addr, id: MsgId) {
    Checked(n, ev, node, id.orig) && ev.c.id == id && EntryOf(n, node, id.orig) == None
  }

  /** The creating message is forwarded unless it is exhausted, and leaves an entry that has no record of it. */
  lemma CreatorForwards(n: Net, ev: Event, node: Addr, id: MsgId)
    requires DupsOk(n) && Creates(n, ev, node, id)
    ensures Forwards(n, ev, node, id) <==> !Exhausted(ev.c)
    ensures DupsOk(Step(n, ev)) && EntryOf(Step(n, ev), node, id.orig) == Some(Created(id.num).e)
    ensures Tracks(Created(id.num).e, Created(id.num).g)
  {
    StepDups(n, ev);
    EntryStep(n, ev, node, id.orig);
    CreatorAtOnce(id.num);
    hide Step, EntryOf, DupsOk, Receive, Tracks;
  }

  /**
   After its entry was created by message `id`, a node forwards that message once more exactly
   if, when it first comes again, it is not exhausted and the newest number is less than 32 ahead.
   */
  lemma CreatorAgain(n: Net, ev: Event, evs: seq<Event>, i: nat, node: Addr, id: MsgId)
    requires DupsOk(n) && Creates(n, ev, node, id)
    requires DupsOk(Step(n, ev)) && NoExpiry(evs, node, id.orig) && i < |evs|
    requires Created(id.num).e.Valid() && Near(Created(id.num), History(Step(n, ev), evs, node, id.orig))
    requires var xs := History(Step(n, ev), evs, node, id.orig);
             forall k :: 0 <= k < |xs| ==> !RestartAt(Created(id.num), xs, k)
    requires Checked(Run(Step(n, ev), evs[..i]), evs[i], node, id.orig) && evs[i].c.id == id
    requires Heard(id.num) !in History(Step(n, ev), evs[..i], node, id.orig)
    ensures Forwards(Run(Step(n, ev), evs[..i]), evs[i], node, id) <==>
            && !Exhausted(evs[i].c)
            && id.num >= Feed(Created(id.num), History(Step(n, ev), evs[..i], node, id.orig)).g.newest - 31
  {
    hide EntryOf, Run, History, DupsOk, Checked, Check, AcceptedAt, Near, RestartAt, Step;
    CreatorForwards(n, ev, node, id);
    var p, m := Created(id.num), Step(n, ev);
    ForwardIsAccepted(m, evs, i, node, id, p);
    CreatorUnrecorded(id.num, History(m, evs, node, id.orig), |History(m, evs[..i], node, id.orig)|);
  }

  /** Later it does not come through again: the node forwards it at most twice. */
  lemma CreatorAtMostTwice(n: Net, ev: Event, evs: seq<Event>, i: nat, j: nat, node: Addr, id: MsgId)
    requires DupsOk(n) && Creates(n, ev, node, id)
    requires DupsOk(Step(n, ev)) && NoExpiry(evs, node, id.orig) && i < j < |evs|
    requires Created(id.num).e.Valid() && Near(Created(id.num), History(Step(n, ev), evs, node, id.orig))
    requires var xs := History(Step(n, ev), evs, node, id.orig);
             forall k :: 0 <= k < |xs| ==> !RestartAt(Created(id.num), xs, k)
    requires Checked(Run(Step(n, ev), evs[..i]), evs[i], node, id.orig) && evs[i].c.id == id
    ensures !Forwards(Run(Step(n, ev), evs[..j]), evs[j], node, id)
  {
    hide EntryOf, Run, History, DupsOk, Forwards, Near, RestartAt, Step, Tracks, Checked;
    CreatorForwards(n, ev, node, id);
    ForwardOnce(Step(n, ev), evs, i, j, node, id, Created(id.num));
  }

  /* ---------- one node's part, on its own duplicate set ---------- */

  function HeldEntry(held: map<Addr, Held>, orig: Addr): Option<DupEntry> {
    if orig in held then Some(held[orig].entry) else None
  }

  /** `c` is in the air of `n` and about to reach `node`, whose entry for the originator is `e`. */
  ghost predicate Reaches(n: Net, c: Copy, node: Addr, e: Option<DupEntry>) {
    DupsOk(n) && c in n.air && node != c.id.orig && EntryOf(n, node, c.id.orig) == e
  }

  /** The copy that a node with entry `e` sends on, if the sender selected it. */
  ghost predicate SendsOn(e: Option<DupEntry>, c: Copy, node: Addr, fromSelector: bool, out: Option<Copy>)
    requires e.Some? ==> e.value.Valid()
  {
    && (out.Some? <==> fromSelector && !Check(e, c.id.num).1 && c.ttl >= 2 && c.hopcnt + c.ttl <= 255)
    && (out.Some? ==> c.ttl >= 2 && out.value == Copy(c.id, c.ttl - 1, c.hopcnt + 1, c.path + [node]))
  }

  /** In the network, the delivery puts just that copy into the air. */
  lemma SendsOnIsStep(n: Net, e: Option<DupEntry>, c: Copy, node: Addr, fromSelector: bool, out: Option<Copy>)
    requires e.Some? ==> e.value.Valid()
    requires Reaches(n, c, node, e) && SendsOn(e, c, node, fromSelector, out)
    ensures Step(n, Deliver(node, c, fromSelector)).air == n.air + if out.Some? then {out.value} else {}
  {
    hide Check, EntryOf, Step, DupsOk;
    var ev := Deliver(node, c, fromSelector);
    ForwardsExactly(n, ev, node, c.id);
    DeliverAir(n, ev);
  }

  /** `olsr_forward_message` with mesh-mode interfaces: the copy that goes out, if any. */
  method ForwardMessage(d: DuplicateSet, c: Copy, node: Addr, symmetric: bool, selector: bool, now: nat)
    returns (out: Option<Copy>)
    requires d.Valid()
    modifies d
    ensures d.Valid()
    ensures !(symmetric && selector) ==> d.entries == old(d.entries)
    ensures forall o :: o in old(d.entries) && o != c.id.orig ==> o in d.entries && d.entries[o] == old(d.entries)[o]
    ensures forall o :: o in d.entries && o != c.id.orig ==> o in old(d.entries)
    ensures symmetric && selector ==>
              HeldEntry(d.entries, c.id.orig) == Some(Check(HeldEntry(old(d.entries), c.id.orig), c.id.num).0)
    ensures SendsOn(HeldEntry(old(d.entries), c.id.orig), c, node, symmetric && selector, out)
    ensures forall n :: Reaches(n, c, node, HeldEntry(old(d.entries), c.id.orig)) ==>
              Step(n, Deliver(node, c, symmetric && selector)).air == n.air + if out.Some? then {out.value} else {}
  {
    ghost var e := HeldEntry(d.entries, c.id.orig);
    out := Forwardable(d, c, node, symmetric, selector, now);
    forall n | Reaches(n, c, node, e)
      ensures Step(n, Deliver(node, c, symmetric && selector)).air == n.air + if out.Some? then {out.value} else {}
    {
      SendsOnIsStep(n, e, c, node, symmetric && selector, out);
    }
  }

  /** Its tests, in their order. */
  method Forwardable(d: DuplicateSet, c: Copy, node: Addr, symmetric: bool, selector: bool, now: nat)
    returns (out: Option<Copy>)
    requires d.Valid()
    modifies d
    ensures d.Valid()
    ensures !(symmetric && selector) ==> d.entries == old(d.entries)
    ensures forall o :: o in old(d.entries) && o != c.id.orig ==> o in d.entries && d.entries[o] == old(d.entries)[o]
    ensures forall o :: o in d.entries && o != c.id.orig ==> o in old(d.entries)
    ensures symmetric && selector ==>
              HeldEntry(d.entries, c.id.orig) == Some(Check(HeldEntry(old(d.entries), c.id.orig), c.id.num).0)
    ensures SendsOn(HeldEntry(old(d.entries), c.id.orig), c, node, symmetric && selector, out)
  {
    var isTtl1 := c.ttl < 2 || 255 < c.hopcnt + c.ttl;
    if !symmetric {
      return None;
    }
    if !selector {
      return None;
    }
    var dup := d.IsDuplicate(c.id.orig, c.id.num % U16, now);
    if dup {
      return None;
    }
    if isTtl1 {
      return None;
    }
    return Some(Copy(c.id, c.ttl - 1, c.hopcnt + 1, c.path + [node]));
  }
}
