/**
 The duplicate set of Olsrd/src/duplicate_set.c: per originator, the newest sequence number
 and a 32-bit bitmap of the numbers behind it that were accepted.
 */
module DupSet {
  import opened Common

  const DUP_MAX_TOO_LOW: nat := 16
  const WINDOW: nat := 32
  const HALF: int := 0x8000

  /** `struct dup_entry`; bit `k` of `array` is `bits[k]`. */
  datatype DupEntry = DupEntry(seqnr: nat, tooLow: nat, bits: seq<bool>) {
    predicate Valid() {
      seqnr < U16 && tooLow <= DUP_MAX_TOO_LOW && |bits| == WINDOW
    }
  }

  /** `olsr_seqno_diff`. */
  function SeqnoDiff(s1: nat, s2: nat): int {
    var diff := s1 - s2;
    if diff > HALF then diff - 2 * HALF else if diff < -HALF then diff + 2 * HALF else diff
  }

  /** The shift `array << d`, for `d` below 32. */
  function Shift(bits: seq<bool>, d: nat): (r: seq<bool>)
    requires |bits| == WINDOW && d < WINDOW
    ensures |r| == WINDOW
  {
    seq(d, _ => false) + bits[..WINDOW - d]
  }

  function Zero(): (r: seq<bool>)
    ensures |r| == WINDOW
  {
    seq(WINDOW, _ => false)
  }

  /** `olsr_create_duplicate_entry`. */
  function Create(s: nat): DupEntry {
    DupEntry(s, 0, Zero())
  }

  predicate TooLow(e: DupEntry, s: nat) {
    SeqnoDiff(s, e.seqnr) < -31
  }

  /** A too low number is taken as a restart of the originator. */
  predicate Restarts(e: DupEntry, s: nat) {
    TooLow(e, s) && e.tooLow + 1 > DUP_MAX_TOO_LOW
  }

  /** `olsr_message_is_duplicate` on an existing entry: its new value, and whether to drop the message. */
  function Receive(e: DupEntry, s: nat): (r: (DupEntry, bool))
    requires e.Valid() && s < U16
    ensures r.0.Valid()
  {
    var diff := SeqnoDiff(s, e.seqnr);
    if diff < -31 then
      if e.tooLow + 1 > DUP_MAX_TOO_LOW then (DupEntry(s, 0, Zero()[0 := true]), false)
      else (e.(tooLow := e.tooLow + 1), true)
    else if diff <= 0 then
      if e.bits[-diff] then (e.(tooLow := 0), true)
      else (e.(tooLow := 0, bits := e.bits[-diff := true]), false)
    else
      var bits := if diff < 32 then Shift(e.bits, diff) else Zero();
      (DupEntry(s, 0, bits[0 := true]), false)
  }

  /* ---------- unbounded numbers ---------- */

  /** The originator's own view: unbounded numbers, and those accepted since creation or restart. */
  datatype Seen = Seen(newest: int, accepted: set<int>)

  ghost predicate Tracks(e: DupEntry, g: Seen) {
    && e.Valid() && e.seqnr == g.newest % U16
    && (forall k :: 0 <= k < WINDOW ==> (e.bits[k] <==> g.newest - k in g.accepted))
    && (forall x :: x in g.accepted ==> x <= g.newest)
  }

  /** Within half the circle, the 16-bit difference is the true one. */
  lemma DiffExact(x: int, y: int)
    requires -HALF < x - y < HALF
    ensures SeqnoDiff(x % U16, y % U16) == x - y
  {
  }

  /** What the entry does, said on unbounded numbers. */
  function Observe(g: Seen, tooLow: nat, x: int): (Seen, bool) {
    if x < g.newest - 31 then
      if tooLow + 1 > DUP_MAX_TOO_LOW then (Seen(x, {x}), false) else (g, true)
    else if x in g.accepted then (g, true)
    else (Seen(if x > g.newest then x else g.newest, g.accepted + {x}), false)
  }

  /** The bitmap refines the set of accepted numbers. */
  lemma ReceiveTracks(e: DupEntry, g: Seen, x: int)
    requires Tracks(e, g) && -HALF < x - g.newest < HALF
    ensures Receive(e, x % U16).1 == Observe(g, e.tooLow, x).1
    ensures Tracks(Receive(e, x % U16).0, Observe(g, e.tooLow, x).0)
  {
    DiffExact(x, g.newest);
    hide SeqnoDiff;
    var d := x - g.newest;
    var r, h := Receive(e, x % U16).0, Observe(g, e.tooLow, x).0;
    if d < -31 {
    } else if d <= 0 {
      assert g.newest - (-d) == x;
    } else {
      forall k | 0 <= k < WINDOW ensures r.bits[k] <==> h.newest - k in h.accepted {
        if k > 0 {
          if d < 32 && k >= d {
            assert Shift(e.bits, d)[k] == e.bits[k - d];
            assert h.newest - k == g.newest - (k - d);
          }
        }
      }
    }
  }

  /* ---------- runs of messages of one originator ---------- */

  /** `olsr_cleanup_duplicates` on an entry. */
  function Cleaned(e: DupEntry): DupEntry {
    e.(tooLow := DUP_MAX_TOO_LOW - 2)
  }

  /** What an entry lives through: a number of its originator, or a cleanup that primes the counter. */
  datatype Input = Heard(num: int) | Primed

  datatype Pair = Pair(e: DupEntry, g: Seen)

  ghost function Next(p: Pair, i: Input): (r: Pair)
    requires p.e.Valid()
    ensures r.e.Valid()
  {
    match i
    case Heard(x) => Pair(Receive(p.e, x % U16).0, Observe(p.g, p.e.tooLow, x).0)
    case Primed => Pair(Cleaned(p.e), p.g)
  }

  /** The entry, and the unbounded view of it, after the inputs `xs`. */
  ghost function Feed(p: Pair, xs: seq<Input>): (r: Pair)
    requires p.e.Valid()
    ensures r.e.Valid()
  {
    if xs == [] then p else Next(Feed(p, xs[..|xs| - 1]), xs[|xs| - 1])
  }

  /** Each number comes within 2^15 - 1 of the newest one at its time. */
  ghost predicate Near(p: Pair, xs: seq<Input>)
    requires p.e.Valid()
  {
    forall i :: 0 <= i < |xs| && xs[i].Heard? ==> -HALF < xs[i].num - Feed(p, xs[..i]).g.newest < HALF
  }

  ghost predicate AcceptedAt(p: Pair, xs: seq<Input>, i: nat)
    requires p.e.Valid() && i < |xs|
  {
    xs[i].Heard? && !Receive(Feed(p, xs[..i]).e, xs[i].num % U16).1
  }

  ghost predicate TooLowAt(p: Pair, xs: seq<Input>, i: nat)
    requires p.e.Valid() && i < |xs|
  {
    xs[i].Heard? && TooLow(Feed(p, xs[..i]).e, xs[i].num % U16)
  }

  ghost predicate RestartAt(p: Pair, xs: seq<Input>, i: nat)
    requires p.e.Valid() && i < |xs|
  {
    xs[i].Heard? && Restarts(Feed(p, xs[..i]).e, xs[i].num % U16)
  }

  lemma FeedNext(p: Pair, xs: seq<Input>, i: nat)
    requires p.e.Valid() && i < |xs|
    ensures Feed(p, xs[..i + 1]) == Next(Feed(p, xs[..i]), xs[i])
  {
    assert xs[..i + 1][..i] == xs[..i];
  }

  /** One input keeps the bitmap and the set of accepted numbers in step. */
  lemma NextTracks(p: Pair, i: Input)
    requires Tracks(p.e, p.g) && (i.Heard? ==> -HALF < i.num - p.g.newest < HALF)
    ensures Tracks(Next(p, i).e, Next(p, i).g)
  {
    hide Receive, Observe;
    if i.Heard? {
      ReceiveTracks(p.e, p.g, i.num);
    }
  }

  lemma {:induction false} FeedTracks(p: Pair, xs: seq<Input>, i: nat)
    requires Tracks(p.e, p.g) && Near(p, xs) && i <= |xs|
    ensures Tracks(Feed(p, xs[..i]).e, Feed(p, xs[..i]).g)
    decreases i
  {
    hide Tracks, Next;
    if i == 0 {
      assert xs[..0] == [];
    } else {
      assert p.e.Valid() by { TracksValid(p.e, p.g); }
      FeedTracks(p, xs, i - 1);
      FeedNext(p, xs, i - 1);
      NextTracks(Feed(p, xs[..i - 1]), xs[i - 1]);
    }
  }

  lemma TracksValid(e: DupEntry, g: Seen)
    requires Tracks(e, g)
    ensures e.Valid()
  {
  }

  /** At a restart the entry and the unbounded view agree on which message it is. */
  lemma RestartAgrees(p: Pair, xs: seq<Input>, i: nat)
    requires Tracks(p.e, p.g) && Near(p, xs) && i < |xs| && xs[i].Heard?
    ensures var q := Feed(p, xs[..i]);
            RestartAt(p, xs, i) <==> xs[i].num < q.g.newest - 31 && q.e.tooLow + 1 > DUP_MAX_TOO_LOW
  {
    FeedTracks(p, xs, i);
    DiffExact(xs[i].num, Feed(p, xs[..i]).g.newest);
    hide SeqnoDiff, Receive;
  }

  /** A number that would be dropped: recorded, or too far behind the newest. */
  predicate Refused(g: Seen, x: int) {
    x in g.accepted || x < g.newest - 31
  }

  /** A number that was heard stays refused until the next restart, and recorded if it was accepted, cleanups or not. */
  lemma {:induction false} HeardStays(p: Pair, xs: seq<Input>, i: nat, k: nat)
    requires Tracks(p.e, p.g) && Near(p, xs) && i < k <= |xs| && xs[i].Heard?
    requires forall j :: i < j < k ==> !RestartAt(p, xs, j)
    ensures Refused(Feed(p, xs[..k]).g, xs[i].num)
    ensures AcceptedAt(p, xs, i) ==> xs[i].num in Feed(p, xs[..k]).g.accepted
    decreases k
  {
    hide Receive, Observe, Tracks, Near, Restarts, Refused;
    TracksValid(p.e, p.g);
    FeedTracks(p, xs, k - 1);
    FeedNext(p, xs, k - 1);
    var q := Feed(p, xs[..k - 1]);
    NearAt(p, xs, k - 1);
    if k - 1 == i {
      ReceiveTracks(q.e, q.g, xs[i].num);
      ObserveRefuses(q.g, q.e.tooLow, xs[i].num);
    } else {
      HeardStays(p, xs, i, k - 1);
      if xs[k - 1].Heard? {
        RestartAgrees(p, xs, k - 1);
        ObserveKeeps(q.g, q.e.tooLow, xs[k - 1].num, xs[i].num);
      }
    }
  }

  lemma NearAt(p: Pair, xs: seq<Input>, i: nat)
    requires p.e.Valid() && Near(p, xs) && i < |xs|
    ensures xs[i].Heard? ==> -HALF < xs[i].num - Feed(p, xs[..i]).g.newest < HALF
  {
  }

  lemma ObserveRefuses(g: Seen, tooLow: nat, x: int)
    ensures Refused(Observe(g, tooLow, x).0, x)
    ensures !Observe(g, tooLow, x).1 ==> x in Observe(g, tooLow, x).0.accepted
  {
  }

  lemma ObserveKeeps(g: Seen, tooLow: nat, x: int, y: int)
    requires !(x < g.newest - 31 && tooLow + 1 > DUP_MAX_TOO_LOW)
    ensures y in g.accepted ==> y in Observe(g, tooLow, x).0.accepted
    ensures Refused(g, y) ==> Refused(Observe(g, tooLow, x).0, y)
  {
  }

  /** A number that was heard is not accepted later without a restart in between, whatever cleanups there are. */
  lemma NeverTwice(p: Pair, xs: seq<Input>, i: nat, j: nat)
    requires Tracks(p.e, p.g) && Near(p, xs) && i < j < |xs| && xs[i].Heard? && xs[i] == xs[j]
    requires forall k :: i < k <= j ==> !RestartAt(p, xs, k)
    ensures !AcceptedAt(p, xs, j)
  {
    HeardStays(p, xs, i, j);
    FeedTracks(p, xs, j);
    RestartAgrees(p, xs, j);
    hide Receive;
    var q := Feed(p, xs[..j]);
    ReceiveTracks(q.e, q.g, xs[j].num);
  }

  lemma FeedNone(p: Pair)
    requires p.e.Valid()
    ensures Feed(p, []) == p
  {
  }

  lemma ObserveAdds(g: Seen, tooLow: nat, x: int, y: int)
    ensures y in Observe(g, tooLow, x).0.accepted ==> y in g.accepted || y == x
  {
  }

  /** Only numbers that were heard are accepted. */
  lemma {:induction false} AcceptedHeard(p: Pair, xs: seq<Input>, i: nat, y: int)
    requires p.e.Valid() && i <= |xs| && y in Feed(p, xs[..i]).g.accepted
    ensures y in p.g.accepted || Heard(y) in xs[..i]
    decreases i
  {
    hide Receive, Observe, Feed;
    if i == 0 {
      assert xs[..0] == [];
      FeedNone(p);
    } else {
      FeedNext(p, xs, i - 1);
      var q := Feed(p, xs[..i - 1]);
      if xs[i - 1].Heard? {
        ObserveAdds(q.g, q.e.tooLow, xs[i - 1].num, y);
      }
      if y in q.g.accepted {
        AcceptedHeard(p, xs, i - 1, y);
      }
      assert xs[..i] == xs[..i - 1] + [xs[i - 1]];
    }
  }

  /** A number heard for the first time is accepted exactly if it is in the window or counts as a restart. */
  lemma FirstTimeExactly(p: Pair, xs: seq<Input>, j: nat)
    requires Tracks(p.e, p.g) && Near(p, xs) && j < |xs| && xs[j].Heard?
    requires xs[j] !in xs[..j] && xs[j].num !in p.g.accepted
    ensures AcceptedAt(p, xs, j) <==> xs[j].num >= Feed(p, xs[..j]).g.newest - 31 || RestartAt(p, xs, j)
  {
    FeedTracks(p, xs, j);
    RestartAgrees(p, xs, j);
    hide Receive, Tracks, Restarts;
    TracksValid(p.e, p.g);
    NearAt(p, xs, j);
    var q := Feed(p, xs[..j]);
    ReceiveTracks(q.e, q.g, xs[j].num);
    if xs[j].num in q.g.accepted {
      AcceptedHeard(p, xs, j, xs[j].num);
    }
  }

  /** The entry and its unbounded view right after number `x` created it. */
  function Created(x: int): Pair {
    Pair(Create(x % U16), Seen(x, {}))
  }

  /**
   The message that creates an entry is not recorded: over any run its first repetition is
   accepted exactly if the newest number is less than 32 ahead, or it counts as a restart.
   */
  lemma CreatorUnrecorded(x: int, xs: seq<Input>, j: nat)
    requires Create(x % U16).Valid() && Near(Created(x), xs)
    requires j < |xs| && xs[j] == Heard(x) && Heard(x) !in xs[..j]
    ensures AcceptedAt(Created(x), xs, j) <==>
            x >= Feed(Created(x), xs[..j]).g.newest - 31 || RestartAt(Created(x), xs, j)
  {
    assert Tracks(Created(x).e, Created(x).g);
    FirstTimeExactly(Created(x), xs, j);
  }

  /** Repeated at once it is accepted. */
  lemma CreatorAtOnce(x: int)
    ensures Tracks(Created(x).e, Created(x).g) && !Receive(Created(x).e, x % U16).1
  {
    DiffExact(x, x);
  }

  /** The counter counts too low messages up to a restart and is reset by any other. */
  lemma ReceiveCounter(e: DupEntry, s: nat)
    requires e.Valid() && s < U16
    ensures Receive(e, s).0.tooLow == if TooLow(e, s) && !Restarts(e, s) then e.tooLow + 1 else 0
  {
    hide SeqnoDiff, Shift;
  }

  /**
   From the last cleanup on, the last messages, as many as the counter says, were too low; only
   a start value can add to them.
   */
  lemma {:induction false} CounterCounts(p: Pair, xs: seq<Input>, j: nat)
    requires p.e.Valid() && j <= |xs| && forall k :: 0 <= k < j ==> xs[k].Heard?
    ensures var c := Feed(p, xs[..j]).e.tooLow;
            && (forall k :: 0 <= k < j && j - c <= k ==> TooLowAt(p, xs, k))
            && (c <= j || (c == p.e.tooLow + j))
    decreases j
  {
    hide Receive, Observe, Feed, TooLow;
    if j > 0 {
      CounterCounts(p, xs, j - 1);
      FeedNext(p, xs, j - 1);
      ReceiveCounter(Feed(p, xs[..j - 1]).e, xs[j - 1].num % U16);
    } else {
      assert xs[..0] == [];
      FeedNone(p);
    }
  }

  /** A restart ends 17 too low messages in a row; fewer only if the counter did not start at zero. */
  lemma RestartNeedsRun(p: Pair, xs: seq<Input>, j: nat)
    requires p.e.Valid() && j < |xs| && RestartAt(p, xs, j) && forall k :: 0 <= k < j ==> xs[k].Heard?
    ensures forall k :: 0 <= k <= j && j - 16 <= k ==> TooLowAt(p, xs, k)
    ensures j >= 16 - p.e.tooLow
  {
    CounterCounts(p, xs, j);
  }

  /** A counter above the value a cleanup gives was raised by a too low message just before. */
  lemma CounterRaised(p: Pair, xs: seq<Input>, j: nat)
    requires p.e.Valid() && p.e.tooLow <= 14 && j <= |xs| && Feed(p, xs[..j]).e.tooLow > 14
    ensures j > 0 && TooLowAt(p, xs, j - 1)
    ensures Feed(p, xs[..j - 1]).e.tooLow == Feed(p, xs[..j]).e.tooLow - 1
  {
    hide Receive, Observe, Feed, TooLow;
    if j == 0 {
      assert xs[..0] == [];
      FeedNone(p);
    } else {
      FeedNext(p, xs, j - 1);
      if xs[j - 1].Heard? {
        ReceiveCounter(Feed(p, xs[..j - 1]).e, xs[j - 1].num % U16);
      }
    }
  }

  /** Wherever the cleanups fall, the last three inputs up to a restart are too low messages. */
  lemma RestartNeedsThree(p: Pair, xs: seq<Input>, j: nat)
    requires p.e.Valid() && p.e.tooLow <= 14 && j < |xs| && RestartAt(p, xs, j)
    ensures j >= 2 && TooLowAt(p, xs, j) && TooLowAt(p, xs, j - 1) && TooLowAt(p, xs, j - 2)
  {
    hide Feed, TooLow;
    CounterRaised(p, xs, j);
    CounterRaised(p, xs, j - 1);
  }

  /** After a cleanup the third too low message in a row restarts the entry, no earlier one does. */
  lemma RestartAfterCleanup(p: Pair, xs: seq<Input>, j: nat)
    requires p.e.Valid() && p.e == Cleaned(p.e) && j < |xs|
    requires forall k :: 0 <= k <= j ==> TooLowAt(p, xs, k)
    requires forall k :: 0 <= k < j ==> !RestartAt(p, xs, k)
    ensures RestartAt(p, xs, j) <==> j >= 2
  {
    CounterFrom(p, xs, j);
    assert TooLowAt(p, xs, j);
  }

  lemma {:induction false} CounterFrom(p: Pair, xs: seq<Input>, j: nat)
    requires p.e.Valid() && j <= |xs|
    requires forall k :: 0 <= k < j ==> TooLowAt(p, xs, k) && !RestartAt(p, xs, k)
    ensures Feed(p, xs[..j]).e.tooLow == p.e.tooLow + j
    decreases j
  {
    hide Receive, Observe, Feed, TooLow;
    if j > 0 {
      CounterFrom(p, xs, j - 1);
      FeedNext(p, xs, j - 1);
      assert TooLowAt(p, xs, j - 1) && !RestartAt(p, xs, j - 1);
      ReceiveCounter(Feed(p, xs[..j - 1]).e, xs[j - 1].num % U16);
    } else {
      assert xs[..0] == [];
      FeedNone(p);
    }
  }

  /* ---------- the set ---------- */

  const DUPLICATE_VTIME: nat := 120000

  datatype Held = Held(entry: DupEntry, validUntil: nat)

  class DuplicateSet {
    var entries: map<Addr, Held>

    ghost predicate Valid() reads this {
      forall a :: a in entries ==> entries[a].entry.Valid()
    }

    constructor ()
      ensures Valid() && entries == map[]
    {
      entries := map[];
    }

    /** `olsr_message_is_duplicate`. */
    method IsDuplicate(ip: Addr, s: nat, now: nat) returns (dup: bool)
      requires Valid() && s < U16
      modifies this
      ensures Valid() && entries.Keys == old(entries.Keys) + {ip}
      ensures forall a :: a in old(entries) && a != ip ==> entries[a] == old(entries)[a]
      ensures ip !in old(entries) ==> !dup && entries[ip].entry == Create(s)
      ensures ip in old(entries) ==> (entries[ip].entry, dup) == Receive(old(entries)[ip].entry, s)
      ensures entries[ip].validUntil >= (now + 120000) % U32
      ensures ip in old(entries) ==> entries[ip].validUntil >= old(entries)[ip].validUntil
      ensures entries[ip].validUntil == (now + 120000) % U32 ||
              (ip in old(entries) && entries[ip].validUntil == old(entries)[ip].validUntil)
    {
      var validUntil := (now + DUPLICATE_VTIME) % U32;
      if ip !in entries {
        entries := entries[ip := Held(Create(s), validUntil)];
        return false;
      }
      var e, until := entries[ip].entry, entries[ip].validUntil;
      if validUntil > until {
        until := validUntil;
      }
      var diff := SeqnoDiff(s, e.seqnr);
      if diff < -31 {
        e := e.(tooLow := e.tooLow + 1);
        dup := true;
        if e.tooLow > DUP_MAX_TOO_LOW {
          e := DupEntry(s, 0, Zero()[0 := true]);
          dup := false;
        }
      } else {
        e := e.(tooLow := 0);
        if diff <= 0 {
          dup := e.bits[-diff];
          if !dup {
            e := e.(bits := e.bits[-diff := true]);
          }
        } else {
          e := e.(bits := if diff < 32 then Shift(e.bits, diff) else Zero());
          e := DupEntry(s, 0, e.bits[0 := true]);
          dup := false;
        }
      }
      entries := entries[ip := Held(e, until)];
    }

    /** `olsr_cleanup_duplicates`. */
    method Cleanup(ip: Addr)
      requires Valid()
      modifies this
      ensures Valid() && entries.Keys == old(entries.Keys)
      ensures forall a :: a in entries ==>
                && entries[a].entry == (if a == ip then Cleaned(old(entries)[a].entry) else old(entries)[a].entry)
                && entries[a].validUntil == old(entries)[a].validUntil
    {
      if ip in entries {
        entries := entries[ip := entries[ip].(entry := Cleaned(entries[ip].entry))];
      }
    }
  }
}
