/**
 The timer wheel of Olsrd/src/scheduler.c: 1024 hashed slots, walked from the tick of the
 last run, with callbacks that start, stop and change timers while the walk is going on.
 */
module TimerWheel {
  import opened Common

  const SLOTS: nat := 1024
  const HALF: nat := 0x8000_0000
  const RAND_MAX: nat := 0x7fff_ffff

  type Id = nat

  /** `struct timer_entry`; a timer that is not in the table is not running. */
  datatype Timer = Timer(clock: nat, period: nat, jitterPct: nat, random: nat)

  type Timers = map<Id, Timer>

  /* ---------- clock arithmetic ---------- */

  /** `olsr_getTimestamp`. */
  function Timestamp(now: nat, rel: int): nat {
    (now + rel) % U32
  }

  /** `olsr_isTimedOut`. */
  predicate TimedOut(now: nat, clock: nat) {
    if clock > now then clock - now > HALF else now - clock <= HALF
  }

  /** A random number scaled down to the given number of milliseconds. */
  function Scaled(random: nat, jitter: nat): nat {
    random / (1 + RAND_MAX / (jitter + 1))
  }

  /** `calc_jitter`. */
  function CalcJitter(now: nat, rel: nat, pct: nat, random: nat): nat {
    if pct == 0 || pct > 99 || rel > 0x100_0000 then Timestamp(now, rel)
    else Timestamp(now, rel - Scaled(random, Times(pct, rel) / 100))
  }

  lemma DivTimes(x: nat, d: nat)
    requires d > 0
    ensures (x / d) * d <= x < (x / d + 1) * d
  {
  }

  /** The scaled number never exceeds the jitter. */
  lemma ScaledBound(random: nat, jitter: nat)
    requires random <= RAND_MAX
    ensures Scaled(random, jitter) <= jitter
  {
    var q := 1 + RAND_MAX / (jitter + 1);
    DivTimes(RAND_MAX, jitter + 1);
    assert q * (jitter + 1) == (jitter + 1) * q;
    var r := random / q;
    DivTimes(random, q);
    if r > jitter {
      MulMonotone(jitter + 1, r, q);
    }
  }

  lemma PercentBound(pct: nat, rel: nat)
    requires 0 < rel && pct <= 99
    ensures Times(pct, rel) / 100 < rel && 100 * (Times(pct, rel) / 100) <= Times(pct, rel)
  {
    MulMonotone(pct, 99, rel);
  }

  /** Without wrap, a deadline is in the future and at most `pct` percent early. */
  lemma JitterRange(now: nat, rel: nat, pct: nat, random: nat)
    requires 0 < rel && now + rel < U32 && random <= RAND_MAX
    ensures var c := CalcJitter(now, rel, pct, random);
            && now < c <= now + rel
            && 100 * (now + rel - c) <= if pct > 99 then 0 else Times(pct, rel)
  {
    hide Scaled, Times;
    if !(pct == 0 || pct > 99 || rel > 0x100_0000) {
      PercentBound(pct, rel);
      ScaledBound(random, Times(pct, rel) / 100);
    }
  }

  /** The largest random number is scaled to the whole jitter, as long as the jitter is below 46341 ms. */
  lemma ScaledFull(jitter: nat)
    requires jitter <= 46340
    ensures Scaled(RAND_MAX, jitter) == jitter && Scaled(0, jitter) == 0
  {
    var f := RAND_MAX / (jitter + 1);
    var q := 1 + f;
    DivTimes(RAND_MAX, jitter + 1);
    ScaledBound(RAND_MAX, jitter);
    JitterSquare(jitter, f);
    var r := RAND_MAX / q;
    DivTimes(RAND_MAX, q);
    if r < jitter {
      MulMonotone(r + 1, jitter, q);
    }
  }

  lemma JitterSquare(j: nat, f: nat)
    requires j <= 46340 && RAND_MAX < (f + 1) * (j + 1) && f * (j + 1) <= RAND_MAX
    ensures j * (1 + f) <= RAND_MAX
  {
    if f < j {
      MulMonotone(f + 1, j, j + 1);
      MulMonotone(j, 46340, j + 1);
    }
    assert j * (1 + f) == f * (j + 1) + j - f;
  }

  /** So the deadline is the full interval away for the least random number and the whole jitter early for the largest. */
  lemma JitterReached(now: nat, rel: nat, pct: nat)
    requires 0 < pct <= 99 && 0 < rel <= 0x100_0000 && Times(pct, rel) / 100 <= 46340 && now + rel < U32
    ensures CalcJitter(now, rel, pct, 0) == now + rel
    ensures CalcJitter(now, rel, pct, RAND_MAX) == now + rel - Times(pct, rel) / 100
  {
    hide Scaled, Times;
    PercentBound(pct, rel);
    ScaledFull(Times(pct, rel) / 100);
  }

  /** Within half the clock range, timed out means not in the future. */
  lemma TimedOutExact(now: nat, clock: nat)
    requires clock > now ==> clock - now <= HALF
    requires clock <= now ==> now - clock <= HALF
    ensures TimedOut(now, clock) <==> clock <= now
  {
  }

  /* ---------- the plain set of deadlines ---------- */

  /** What a callback may do. */
  datatype Action =
    | Start(rel: nat, pct: nat, periodic: bool, random: nat)
    | Stop(id: Id)
    | Change(id: Id, rel: nat, pct: nat, periodic: bool)

  /** One run of a callback, and the number drawn when its periodic timer is re-armed. */
  datatype Callback = Callback(acts: seq<Action>, random: nat)

  datatype Table = Table(timers: Timers, nextId: Id)

  function Armed(now: nat, rel: nat, pct: nat, periodic: bool, random: nat): Timer {
    Timer(CalcJitter(now, rel, pct, random), if periodic then rel else 0, pct, random)
  }

  function Act(t: Table, a: Action, now: nat): Table {
    match a
    case Start(rel, pct, periodic, random) =>
      Table(t.timers[t.nextId := Armed(now, rel, pct, periodic, random)], t.nextId + 1)
    case Stop(id) => t.(timers := t.timers - {id})
    case Change(id, rel, pct, periodic) =>
      if id in t.timers then t.(timers := t.timers[id := Armed(now, rel, pct, periodic, t.timers[id].random)])
      else t
  }

  function Acts(t: Table, acts: seq<Action>, now: nat): Table {
    if acts == [] then t else Act(Acts(t, acts[..|acts| - 1], now), acts[|acts| - 1], now)
  }

  /** A timer that is still running after its callback is re-armed if periodic, else stopped. */
  function Rearm(t: Table, id: Id, random: nat, now: nat): Table {
    if id !in t.timers then t
    else if t.timers[id].period > 0 then
      t.(timers := t.timers[id := Armed(now, t.timers[id].period, t.timers[id].jitterPct, true, random)])
    else t.(timers := t.timers - {id})
  }

  function Fire(t: Table, id: Id, cb: Callback, now: nat): Table {
    Rearm(Acts(t, cb.acts, now), id, cb.random, now)
  }

  /** Firing the timers of `fired` in turn on the plain table. */
  function Replay(t: Table, fired: seq<Id>, cbs: seq<Callback>, now: nat): Table
    requires |fired| <= |cbs|
  {
    if fired == [] then t
    else
      var k := |fired| - 1;
      Fire(Replay(t, fired[..k], cbs, now), fired[k], cbs[k], now)
  }

  /* ---------- sane clocks ---------- */

  /** An interval that a timer can be armed with now, without clock wrap. */
  predicate Interval(now: nat, rel: nat) {
    1 <= rel <= HALF && now + rel < U32
  }

  /** The same, or an interval of zero, which is due at once. */
  predicate Fits(now: nat, rel: nat) {
    rel <= HALF && now + rel < U32
  }

  predicate ActFits(now: nat, a: Action) {
    match a
    case Start(rel, _, _, random) => Fits(now, rel) && random <= RAND_MAX
    case Stop(_) => true
    case Change(_, rel, _, _) => Fits(now, rel)
  }

  /** No timer is armed with an interval of zero. */
  predicate Delays(a: Action) {
    a.Stop? || a.rel > 0
  }

  predicate ActOk(now: nat, a: Action) {
    ActFits(now, a) && Delays(a)
  }

  predicate TimerOk(now: nat, t: Timer) {
    && t.clock < U32 && t.random <= RAND_MAX && (t.period > 0 ==> Interval(now, t.period))
    && (t.clock > now ==> t.clock - now <= HALF) && (t.clock <= now ==> now - t.clock <= HALF)
  }

  ghost predicate TableOk(now: nat, t: Table) {
    forall id :: id in t.timers ==> id < t.nextId && TimerOk(now, t.timers[id])
  }

  ghost predicate CallbackFits(now: nat, cb: Callback) {
    cb.random <= RAND_MAX && forall i :: 0 <= i < |cb.acts| ==> ActFits(now, cb.acts[i])
  }

  ghost predicate CallbackOk(now: nat, cb: Callback) {
    cb.random <= RAND_MAX && forall i :: 0 <= i < |cb.acts| ==> ActOk(now, cb.acts[i])
  }

  function Overdue(now: nat, ts: Timers): set<Id> {
    set id | id in ts && ts[id].clock <= now
  }

  /** Every timer overdue in `u` is one that was overdue in `t`, untouched. */
  ghost predicate NoneNewlyDue(now: nat, t: Table, u: Table) {
    && t.nextId <= u.nextId
    && forall id :: id in Overdue(now, u.timers) ==> id in t.timers && u.timers[id] == t.timers[id]
  }

  /** An armed timer is due strictly later. */
  lemma ArmedLater(now: nat, rel: nat, pct: nat, periodic: bool, random: nat)
    requires Interval(now, rel) && random <= RAND_MAX
    ensures var t := Armed(now, rel, pct, periodic, random); now < t.clock && TimerOk(now, t)
  {
    hide CalcJitter;
    JitterRange(now, rel, pct, random);
  }

  /** Nothing a callback does makes a timer overdue. */
  lemma ActKeeps(t: Table, a: Action, now: nat)
    requires TableOk(now, t) && ActOk(now, a)
    ensures TableOk(now, Act(t, a, now)) && NoneNewlyDue(now, t, Act(t, a, now))
  {
    hide Armed;
    match a
    case Start(rel, pct, periodic, random) => ArmedLater(now, rel, pct, periodic, random);
    case Stop(id) =>
    case Change(id, rel, pct, periodic) =>
      if id in t.timers {
        ArmedLater(now, rel, pct, periodic, t.timers[id].random);
      }
  }

  /** An armed timer is due at once exactly if its interval is zero. */
  lemma DueAtOnceExactly(t: Table, a: Action, now: nat)
    requires TableOk(now, t) && ActFits(now, a) && now < U32
    ensures a.Start? ==> (t.nextId in Overdue(now, Act(t, a, now).timers) <==> !Delays(a))
    ensures a.Change? && a.id in t.timers ==> (a.id in Overdue(now, Act(t, a, now).timers) <==> !Delays(a))
  {
    hide CalcJitter;
    match a
    case Start(rel, pct, periodic, random) => ArmedWhen(now, rel, pct, periodic, random);
    case Stop(id) =>
    case Change(id, rel, pct, periodic) =>
      if id in t.timers {
        ArmedWhen(now, rel, pct, periodic, t.timers[id].random);
      }
  }

  lemma ArmedWhen(now: nat, rel: nat, pct: nat, periodic: bool, random: nat)
    requires Fits(now, rel) && now < U32 && random <= RAND_MAX
    ensures var t := Armed(now, rel, pct, periodic, random);
      now <= t.clock && (t.clock == now <==> rel == 0) && TimerOk(now, t)
  {
    hide CalcJitter;
    if rel > 0 {
      ArmedLater(now, rel, pct, periodic, random);
    } else {
      ArmedNow(now, pct, periodic, random);
    }
  }

  lemma {:induction false} ActsKeep(t: Table, acts: seq<Action>, now: nat)
    requires TableOk(now, t) && forall i :: 0 <= i < |acts| ==> ActOk(now, acts[i])
    ensures TableOk(now, Acts(t, acts, now)) && NoneNewlyDue(now, t, Acts(t, acts, now))
    decreases |acts|
  {
    if acts != [] {
      var p := acts[..|acts| - 1];
      ActsKeep(t, p, now);
      hide Act;
      ActKeeps(Acts(t, p, now), acts[|acts| - 1], now);
    }
  }

  /** A fired timer is not overdue any more, and nothing becomes overdue. */
  lemma FireKeeps(t: Table, id: Id, cb: Callback, now: nat)
    requires TableOk(now, t) && CallbackOk(now, cb)
    ensures TableOk(now, Fire(t, id, cb, now)) && NoneNewlyDue(now, t, Fire(t, id, cb, now))
    ensures id !in Overdue(now, Fire(t, id, cb, now).timers)
  {
    hide Acts, Armed;
    ActsKeep(t, cb.acts, now);
    var u := Acts(t, cb.acts, now);
    if id in u.timers && u.timers[id].period > 0 {
      ArmedLater(now, u.timers[id].period, u.timers[id].jitterPct, true, cb.random);
    }
  }

  /* ---------- what callbacks and firing mean for one timer ---------- */

  /** The action stops or changes the timer. */
  predicate Touches(a: Action, id: Id) {
    (a.Stop? || a.Change?) && a.id == id
  }

  ghost predicate Untouched(acts: seq<Action>, id: Id) {
    forall i :: 0 <= i < |acts| ==> !Touches(acts[i], id)
  }

  /** Due after `rel` milliseconds at the latest, early by the given percentage at most. */
  ghost predicate DueIn(now: nat, rel: nat, t: Timer) {
    && now <= t.clock <= now + rel && (rel > 0 ==> now < t.clock)
    && 100 * (now + rel - t.clock) <= if t.jitterPct > 99 then 0 else Times(t.jitterPct, rel)
  }

  /** Armed with an interval; the period is the interval exactly for a periodic timer. */
  ghost predicate ArmedFor(now: nat, rel: nat, pct: nat, periodic: bool, t: Timer) {
    DueIn(now, rel, t) && t.jitterPct == pct && t.period == if periodic then rel else 0
  }

  lemma ArmedIs(now: nat, rel: nat, pct: nat, periodic: bool, random: nat)
    requires Fits(now, rel) && now < U32 && random <= RAND_MAX
    ensures ArmedFor(now, rel, pct, periodic, Armed(now, rel, pct, periodic, random))
  {
    if rel > 0 {
      hide CalcJitter, Times;
      JitterRange(now, rel, pct, random);
    } else {
      ArmedNow(now, pct, periodic, random);
    }
  }

  /** A callback leaves alone every timer it does not stop or change. */
  lemma {:induction false} ActsLeave(t: Table, acts: seq<Action>, now: nat, id: Id)
    requires id < t.nextId && Untouched(acts, id)
    ensures var u := Acts(t, acts, now);
      t.nextId <= u.nextId && (id in u.timers <==> id in t.timers) && (id in t.timers ==> u.timers[id] == t.timers[id])
    decreases |acts|
  {
    hide Armed;
    if acts != [] {
      ActsLeave(t, acts[..|acts| - 1], now, id);
      assert !Touches(acts[|acts| - 1], id);
    }
  }

  /** A timer that is gone stays gone: handles are not used again. */
  lemma {:induction false} ActsGone(t: Table, acts: seq<Action>, now: nat, id: Id)
    requires id < t.nextId && id !in t.timers
    ensures id !in Acts(t, acts, now).timers && t.nextId <= Acts(t, acts, now).nextId
    decreases |acts|
  {
    hide Armed;
    if acts != [] {
      ActsGone(t, acts[..|acts| - 1], now, id);
    }
  }

  lemma {:induction false} ActsSplit(t: Table, acts: seq<Action>, now: nat, i: nat)
    requires i <= |acts|
    ensures Acts(t, acts, now) == Acts(Acts(t, acts[..i], now), acts[i..], now)
    decreases |acts|
  {
    hide Act;
    if i == |acts| {
      assert acts[..i] == acts && acts[i..] == [];
    } else {
      var k := |acts| - 1;
      ActsSplit(t, acts[..k], now, i);
      assert acts[..k][..i] == acts[..i] && acts[..k][i..] == acts[i..][..k - i] && acts[i..][k - i] == acts[k];
    }
  }

  lemma {:induction false} ActsGrow(t: Table, acts: seq<Action>, now: nat)
    ensures t.nextId <= Acts(t, acts, now).nextId
    ensures TableOk(now, t) && (forall i :: 0 <= i < |acts| ==> ActFits(now, acts[i])) && now < U32 ==>
              TableOk(now, Acts(t, acts, now))
    decreases |acts|
  {
    hide Armed;
    if acts != [] {
      var p, a := acts[..|acts| - 1], acts[|acts| - 1];
      ActsGrow(t, p, now);
      var u := Acts(t, p, now);
      if TableOk(now, t) && (forall i :: 0 <= i < |acts| ==> ActFits(now, acts[i])) && now < U32 {
        match a
        case Start(rel, pct, periodic, random) => ArmedWhen(now, rel, pct, periodic, random);
        case Stop(id) =>
        case Change(id, rel, pct, periodic) =>
          if id in u.timers {
            ArmedWhen(now, rel, pct, periodic, u.timers[id].random);
          }
      }
    }
  }

  /** A timer that a callback stops is gone after it. */
  lemma ActsStopped(t: Table, acts: seq<Action>, now: nat, id: Id)
    requires id < t.nextId && Stop(id) in acts
    ensures id !in Acts(t, acts, now).timers
  {
    var i :| 0 <= i < |acts| && acts[i] == Stop(id);
    ActsSplit(t, acts, now, i + 1);
    ActsGrow(t, acts[..i], now);
    assert acts[..i + 1][..i] == acts[..i];
    ActsGone(Acts(t, acts[..i + 1], now), acts[i + 1..], now, id);
  }

  /** A timer whose last touch is a change, and that is not stopped before, runs as changed. */
  lemma ActsChanged(t: Table, acts: seq<Action>, now: nat, j: nat)
    requires TableOk(now, t) && now < U32 && (forall i :: 0 <= i < |acts| ==> ActFits(now, acts[i]))
    requires j < |acts| && acts[j].Change? && acts[j].id in Acts(t, acts[..j], now).timers
    requires Untouched(acts[j + 1..], acts[j].id)
    ensures var id, u := acts[j].id, Acts(t, acts, now);
      id in u.timers && ArmedFor(now, acts[j].rel, acts[j].pct, acts[j].periodic, u.timers[id])
  {
    hide Armed;
    ActsSplit(t, acts, now, j + 1);
    ActsGrow(t, acts[..j], now);
    var u, a := Acts(t, acts[..j], now), acts[j];
    assert acts[..j + 1][..j] == acts[..j];
    ArmedIs(now, a.rel, a.pct, a.periodic, u.timers[a.id].random);
    ActsLeave(Acts(t, acts[..j + 1], now), acts[j + 1..], now, a.id);
  }

  /** A timer that a callback starts and does not touch again runs under the next free handle. */
  lemma ActsStarted(t: Table, acts: seq<Action>, now: nat, j: nat)
    requires TableOk(now, t) && now < U32 && (forall i :: 0 <= i < |acts| ==> ActFits(now, acts[i]))
    requires j < |acts| && acts[j].Start? && Untouched(acts[j + 1..], Acts(t, acts[..j], now).nextId)
    ensures var id, u := Acts(t, acts[..j], now).nextId, Acts(t, acts, now);
      t.nextId <= id && id in u.timers && ArmedFor(now, acts[j].rel, acts[j].pct, acts[j].periodic, u.timers[id])
  {
    hide Armed;
    ActsSplit(t, acts, now, j + 1);
    ActsGrow(t, acts[..j], now);
    var u, a := Acts(t, acts[..j], now), acts[j];
    assert acts[..j + 1][..j] == acts[..j];
    ArmedIs(now, a.rel, a.pct, a.periodic, a.random);
    ActsLeave(Acts(t, acts[..j + 1], now), acts[j + 1..], now, u.nextId);
  }

  /** A periodic timer goes on with the same period and percentage, due in one period. */
  ghost predicate Repeats(now: nat, t: Timer, u: Timer) {
    t.period > 0 && ArmedFor(now, t.period, t.jitterPct, true, u)
  }

  ghost predicate UntouchedBy(cbs: seq<Callback>, k: nat, id: Id) {
    forall i :: 0 <= i < k && i < |cbs| ==> Untouched(cbs[i].acts, id)
  }

  /** What firing `fired` does to a timer that no callback touches. */
  ghost predicate Outcome(now: nat, ts: Timers, us: Timers, fired: seq<Id>, id: Id)
    requires id in ts
  {
    && (id !in fired ==> id in us && us[id] == ts[id])
    && (id in fired && ts[id].period > 0 ==> id in us && Repeats(now, ts[id], us[id]))
    && (id in fired && ts[id].period == 0 ==> id !in us)
  }

  /** Firing one timer: itself and any other that its callback does not touch. */
  lemma FireOutcome(t: Table, x: Id, cb: Callback, now: nat, id: Id)
    requires TableOk(now, t) && CallbackOk(now, cb) && id in t.timers && Untouched(cb.acts, id)
    requires t.timers[id].period > 0 ==> Interval(now, t.timers[id].period)
    ensures Outcome(now, t.timers, Fire(t, x, cb, now).timers, [x], id)
  {
    hide Acts, Armed;
    ActsLeave(t, cb.acts, now, id);
    if x == id && t.timers[id].period > 0 {
      ArmedIs(now, t.timers[id].period, t.timers[id].jitterPct, true, cb.random);
    }
  }

  lemma FireGone(t: Table, x: Id, cb: Callback, now: nat, id: Id)
    requires id < t.nextId && id !in t.timers
    ensures id !in Fire(t, x, cb, now).timers
  {
    hide Acts, Armed;
    ActsGone(t, cb.acts, now, id);
  }

  lemma TimerIsOk(now: nat, t: Table, id: Id)
    requires TableOk(now, t) && id in t.timers
    ensures id < t.nextId && (t.timers[id].period > 0 ==> Interval(now, t.timers[id].period))
  {
  }

  lemma {:induction false} ReplayOutcome(t: Table, fired: seq<Id>, cbs: seq<Callback>, now: nat, id: Id)
    requires TableOk(now, t) && NoDup(fired) && |fired| <= |cbs| && id in t.timers
    requires (forall i :: 0 <= i < |fired| ==> CallbackOk(now, cbs[i])) && UntouchedBy(cbs, |fired|, id)
    ensures TableOk(now, Replay(t, fired, cbs, now)) && t.nextId <= Replay(t, fired, cbs, now).nextId
    ensures Outcome(now, t.timers, Replay(t, fired, cbs, now).timers, fired, id)
    decreases |fired|
  {
    hide Fire, TableOk, CallbackOk, Repeats;
    TimerIsOk(now, t, id);
    if fired != [] {
      var k := |fired| - 1;
      var p, x := fired[..k], fired[k];
      assert fired == p + [x];
      ReplayOutcome(t, p, cbs, now, id);
      var u := Replay(t, p, cbs, now);
      FireKeeps(u, x, cbs[k], now);
      assert Untouched(cbs[k].acts, id);
      hide Untouched;
      if id in u.timers {
        TimerIsOk(now, u, id);
        FireOutcome(u, x, cbs[k], now, id);
      } else {
        FireGone(u, x, cbs[k], now, id);
      }
    }
  }

  /** A timer that a callback stopped is gone, whether it fired itself or not. */
  lemma {:induction false} ReplayStopped(t: Table, fired: seq<Id>, cbs: seq<Callback>, now: nat, id: Id)
    requires |fired| <= |cbs| && id < t.nextId
    ensures t.nextId <= Replay(t, fired, cbs, now).nextId
    ensures (exists i :: 0 <= i < |fired| && Stop(id) in cbs[i].acts) ==> id !in Replay(t, fired, cbs, now).timers
    decreases |fired|
  {
    hide Acts, Armed;
    if fired != [] {
      var k := |fired| - 1;
      ReplayStopped(t, fired[..k], cbs, now, id);
      var u := Replay(t, fired[..k], cbs, now);
      ActsGrow(u, cbs[k].acts, now);
      if Stop(id) in cbs[k].acts {
        ActsStopped(u, cbs[k].acts, now, id);
      } else if exists i :: 0 <= i < |fired| && Stop(id) in cbs[i].acts {
        FireGone(u, fired[k], cbs[k], now, id);
      }
    }
  }

  /* ---------- the wheel ---------- */

  function SlotOf(clock: nat): (r: nat)
    ensures r < SLOTS
  {
    clock % SLOTS
  }

  /** Each running timer is linked once, in the slot of its clock or in the list being walked. */
  ghost predicate Placed(ts: Timers, slots: seq<seq<Id>>, tmp: seq<Id>, cur: nat) {
    && |slots| == SLOTS && NoDup(tmp)
    && (forall i :: 0 <= i < SLOTS ==> NoDup(slots[i]))
    && (forall i, id :: 0 <= i < SLOTS && id in slots[i] ==> id in ts && SlotOf(ts[id].clock) == i && id !in tmp)
    && (forall id :: id in tmp ==> id in ts && SlotOf(ts[id].clock) == cur)
    && (forall id :: id in ts ==> id in tmp || id in slots[SlotOf(ts[id].clock)])
  }

  /** `list_remove`: the timer leaves whichever list it is on. */
  function Unlink(slots: seq<seq<Id>>, tmp: seq<Id>, id: Id, clock: nat): (seq<seq<Id>>, seq<Id>)
    requires |slots| == SLOTS
  {
    if id in tmp then (slots, Remove(tmp, id))
    else if id in slots[SlotOf(clock)] then
      (slots[SlotOf(clock) := Remove(slots[SlotOf(clock)], id)], tmp)
    else (slots, tmp)
  }

  /** `list_add_before` on a slot: append. */
  function Enlist(slots: seq<seq<Id>>, id: Id, clock: nat): seq<seq<Id>>
    requires |slots| == SLOTS
  {
    slots[SlotOf(clock) := slots[SlotOf(clock)] + [id]]
  }

  lemma UnlinkPlaced(ts: Timers, slots: seq<seq<Id>>, tmp: seq<Id>, cur: nat, id: Id)
    requires Placed(ts, slots, tmp, cur) && id in ts
    ensures var (s, t) := Unlink(slots, tmp, id, ts[id].clock); Placed(ts - {id}, s, t, cur)
    ensures forall x :: x in Unlink(slots, tmp, id, ts[id].clock).1 ==> x in tmp
    ensures |Unlink(slots, tmp, id, ts[id].clock).1| <= |tmp|
  {
    hide SlotOf, Remove;
    if id in tmp {
      RemoveElems(tmp, id);
    } else {
      RemoveElems(slots[SlotOf(ts[id].clock)], id);
    }
  }

  lemma LinkPlaced(ts: Timers, slots: seq<seq<Id>>, tmp: seq<Id>, cur: nat, id: Id, t: Timer)
    requires Placed(ts, slots, tmp, cur) && id !in ts
    ensures Placed(ts[id := t], Enlist(slots, id, t.clock), tmp, cur)
  {
    hide SlotOf;
    var s := Enlist(slots, id, t.clock);
    var j := SlotOf(t.clock);
    assert id !in slots[j];
    assert NoDup(s[j]);
  }

  class Wheel {
    var now: nat                 // now_times
    var lastRun: nat             // timer_last_run
    var slots: seq<seq<Id>>      // timer_wheel
    var tmp: seq<Id>             // the temporary list of a walk
    var timers: Timers
    var nextId: Id
    ghost var cur: nat           // the slot that `tmp` was taken from

    ghost function Tab(): Table reads this {
      Table(timers, nextId)
    }

    ghost predicate Inv() reads this {
      Placed(timers, slots, tmp, cur) && TableOk(now, Tab()) && now + 1 < U32
    }

    /** Between walks: the temporary list is empty and nothing is due before the last run. */
    ghost predicate AtRest() reads this {
      && Inv() && tmp == [] && lastRun <= now && now - lastRun <= HALF
      && forall id :: id in timers ==> lastRun <= timers[id].clock
    }

    constructor (time: nat)
      requires time + 1 < U32
      ensures AtRest() && now == lastRun == time && timers == map[]
    {
      now, lastRun, tmp, timers, nextId, cur := time, time, [], map[], 0, 0;
      slots := seq(SLOTS, _ => []);
    }

    /** The clock moves on, without wrap and by less than half its range since the last walk. */
    method Advance(time: nat)
      requires AtRest() && now <= time && time + 1 < U32 && time - lastRun <= HALF
      requires forall id :: id in timers && timers[id].period > 0 ==> Interval(time, timers[id].period)
      modifies this`now
      ensures AtRest() && now == time
    {
      now := time;
    }

    /** `olsr_start_timer`. */
    method StartTimer(rel: nat, pct: nat, periodic: bool, random: nat) returns (id: Id)
      requires Inv() && rel <= HALF && now + rel < U32 && random <= RAND_MAX
      modifies this`slots, this`timers, this`nextId
      ensures Inv() && id == old(nextId) && Tab() == Act(old(Tab()), Start(rel, pct, periodic, random), now)
      ensures id in timers && id !in old(timers) && ArmedFor(now, rel, pct, periodic, timers[id])
      ensures old(AtRest()) ==> AtRest()
    {
      hide Placed, CalcJitter, Times;
      ArmedWhen(now, rel, pct, periodic, random);
      ArmedIs(now, rel, pct, periodic, random);
      id := nextId;
      nextId := nextId + 1;
      PlacedSlots(timers, slots, tmp, cur);
      var t := Timer(CalcJitter(now, rel, pct, random), if periodic then rel else 0, pct, random);
      LinkPlaced(timers, slots, tmp, cur, id, t);
      timers := timers[id := t];
      slots := Enlist(slots, id, t.clock);
    }

    /** `olsr_stop_timer`; a pointer to no running timer stands for NULL. */
    method StopTimer(id: Id)
      requires Inv()
      modifies this`slots, this`tmp, this`timers
      ensures Inv() && Tab() == Act(old(Tab()), Stop(id), now)
      ensures (forall x :: x in tmp ==> x in old(tmp)) && |tmp| <= |old(tmp)|
      ensures id !in tmp
      ensures old(AtRest()) ==> AtRest()
    {
      hide Placed;
      PlacedSlots(timers, slots, tmp, cur);
      if id !in timers {
        return;
      }
      UnlinkPlaced(timers, slots, tmp, cur, id);
      hide Unlink;
      var (s, t) := Unlink(slots, tmp, id, timers[id].clock);
      slots, tmp := s, t;
      timers := timers - {id};
      PlacedSlots(timers, slots, tmp, cur);
    }

    /** `olsr_change_timer`. */
    method ChangeTimer(id: Id, rel: nat, pct: nat, periodic: bool)
      requires Inv() && Fits(now, rel)
      modifies this`slots, this`tmp, this`timers
      ensures Inv() && Tab() == Act(old(Tab()), Change(id, rel, pct, periodic), now)
      ensures id in old(timers) ==> id in timers && ArmedFor(now, rel, pct, periodic, timers[id])
      ensures (forall x :: x in tmp ==> x in old(tmp)) && |tmp| <= |old(tmp)|
      ensures id !in tmp
      ensures old(AtRest()) ==> AtRest()
    {
      hide Placed, CalcJitter, Times;
      PlacedSlots(timers, slots, tmp, cur);
      if id !in timers {
        return;
      }
      ArmedWhen(now, rel, pct, periodic, timers[id].random);
      ArmedIs(now, rel, pct, periodic, timers[id].random);
      var t := Timer(CalcJitter(now, rel, pct, timers[id].random), if periodic then rel else 0, pct, timers[id].random);
      UnlinkPlaced(timers, slots, tmp, cur, id);
      hide Unlink;
      var (s, l) := Unlink(slots, tmp, id, timers[id].clock);
      PlacedSlots(timers - {id}, s, l, cur);
      LinkPlaced(timers - {id}, s, l, cur, id, t);
      assert (timers - {id})[id := t] == timers[id := t];
      timers := timers[id := t];
      slots, tmp := Enlist(s, id, t.clock), l;
    }

    /** `olsr_set_timer`: stop, start or change, depending on the interval and on whether a timer is set. */
    method SetTimer(ptr: Option<Id>, rel: nat, pct: nat, periodic: bool, random: nat) returns (r: Option<Id>)
      requires Inv() && (rel == 0 || Interval(now, rel)) && random <= RAND_MAX
      requires ptr.Some? ==> ptr.value in timers
      modifies this`slots, this`tmp, this`timers, this`nextId
      ensures Inv() && (old(AtRest()) ==> AtRest())
      ensures rel == 0 ==> r == None && timers == if ptr.Some? then old(timers) - {ptr.value} else old(timers)
      ensures rel > 0 ==> && r.Some? && (ptr.Some? ==> r == ptr)
                          && r.value in timers && ArmedFor(now, rel, pct, periodic, timers[r.value])
                          && (forall id :: id in old(timers) && id != r.value ==> id in timers && timers[id] == old(timers)[id])
    {
      hide CalcJitter, Placed;
      if rel == 0 {
        if ptr.Some? {
          StopTimer(ptr.value);
        }
        r := None;
      } else if ptr.None? {
        var id := StartTimer(rel, pct, periodic, random);
        r := Some(id);
      } else {
        ChangeTimer(ptr.value, rel, pct, periodic);
        r := ptr;
      }
    }

    /** A callback: any sequence of starts, stops and changes. */
    method RunCallback(acts: seq<Action>)
      requires Inv() && forall i :: 0 <= i < |acts| ==> ActFits(now, acts[i])
      modifies this`slots, this`tmp, this`timers, this`nextId
      ensures Inv() && Tab() == Acts(old(Tab()), acts, now)
      ensures forall x :: x in tmp ==> x in old(tmp)
    {
      hide Act, Placed;
      assert acts[..0] == [];
      for i := 0 to |acts|
        invariant Inv() && Tab() == Acts(old(Tab()), acts[..i], now)
        invariant forall x :: x in tmp ==> x in old(tmp)
      {
        assert acts[..i + 1][..i] == acts[..i];
        match acts[i]
        case Start(rel, pct, periodic, random) =>
          var id := StartTimer(rel, pct, periodic, random);
        case Stop(id) => StopTimer(id);
        case Change(id, rel, pct, periodic) => ChangeTimer(id, rel, pct, periodic);
      }
      assert acts[..|acts|] == acts;
    }

    /** The expired branch of `walk_timers`: call back, then re-arm or stop. */
    method FireTimer(id: Id, cb: Callback)
      requires Inv() && CallbackFits(now, cb)
      modifies this`slots, this`tmp, this`timers, this`nextId
      ensures Inv() && Tab() == Fire(old(Tab()), id, cb, now)
      ensures id !in tmp && forall x :: x in tmp ==> x in old(tmp)
    {
      hide Placed, Acts, CalcJitter;
      RunCallback(cb.acts);
      PlacedSlots(timers, slots, tmp, cur);
      if id in timers {
        if timers[id].period > 0 {
          PlacedRandom(timers, slots, tmp, cur, id, cb.random);
          timers := timers[id := timers[id].(random := cb.random)];
          ChangeTimer(id, timers[id].period, timers[id].jitterPct, true);
        } else {
          StopTimer(id);
        }
      }
    }

    /** What a walk that began at `start` has done so far. */
    ghost predicate Progress(start: Table, fired: seq<Id>, cbs: seq<Callback>) reads this {
      && |fired| <= |cbs| && Tab() == Replay(start, fired, cbs, now)
      && Honest(now, start.timers, timers, fired)
      && NoneNewlyDue(now, start, Tab())
    }

    /** One slot: take each timer off, fire it if it is due, link the others back. */
    method WalkSlot(c: nat, ghost start: Table, cbs: seq<Callback>, before: seq<Id>) returns (fired: seq<Id>)
      requires Inv() && tmp == [] && c < SLOTS && Progress(start, before, cbs)
      requires |Overdue(now, start.timers)| <= |cbs| && forall i :: 0 <= i < |cbs| ==> CallbackOk(now, cbs[i])
      modifies this`slots, this`tmp, this`timers, this`nextId, this`cur
      ensures Inv() && tmp == [] && Progress(start, fired, cbs)
      ensures NoneNewlyDue(now, old(Tab()), Tab())
      ensures forall id :: id in Overdue(now, timers) ==> SlotOf(timers[id].clock) != c
    {
      hide Placed, Fire, Replay, Honest, TimedOut;
      fired := before;
      RestPlaced(timers, slots, cur, c);
      cur := c;
      PlacedSlots(timers, slots, tmp, c);
      while slots[c] != []
        invariant Inv() && cur == c && |slots| == SLOTS && Progress(start, fired, cbs)
        invariant forall x :: x in tmp ==> x !in Overdue(now, timers)
        invariant NoneNewlyDue(now, old(Tab()), Tab())
        decreases |Overdue(now, timers)|, |slots[c]|
      {
        var id := slots[c][0];
        MovedPlaced(timers, slots, tmp, c);
        slots := slots[c := slots[c][1..]];
        tmp := [id] + tmp;
        PlacedSlots(timers, slots, tmp, c);
        TimedOutExact(now, timers[id].clock);
        if TimedOut(now, timers[id].clock) {
          ghost var t := Tab();
          HonestRoom(now, start.timers, timers, fired, id);
          FireKeeps(t, id, cbs[|fired|], now);
          HonestFire(now, start, t, Fire(t, id, cbs[|fired|], now), fired, id);
          ReplaySnoc(start, fired, id, cbs, now);
          FireTimer(id, cbs[|fired|]);
          PlacedSlots(timers, slots, tmp, c);
          fired := fired + [id];
        }
      }
      NotLeftBehind(now, timers, slots, tmp, c);
      MergedPlaced(timers, slots, tmp, c);
      slots := slots[c := tmp + slots[c]];
      tmp := [];
    }

    /**
     `walk_timers`: fires only timers that were due when it began, each once; leaves no timer
     overdue, however late it is; and does to the timers what firing them on a plain table does.
     */
    method WalkTimers(cbs: seq<Callback>) returns (fired: seq<Id>)
      requires AtRest() && |Overdue(now, timers)| <= |cbs|
      requires forall i :: 0 <= i < |cbs| ==> CallbackOk(now, cbs[i])
      modifies this
      ensures AtRest() && now == old(now) && lastRun == now
      ensures Overdue(now, timers) == {}
      ensures |fired| <= |cbs| && Tab() == Replay(old(Tab()), fired, cbs, now)
      ensures NoDup(fired) && forall id :: id in fired ==> id in old(timers) && old(timers)[id].clock <= now
      ensures forall id :: id in old(timers) && UntouchedBy(cbs, |fired|, id) ==>
                && Outcome(now, old(timers), timers, fired, id)
                && (id in fired <==> old(timers)[id].clock <= now)
      ensures forall id :: id in old(timers) && (exists i :: 0 <= i < |fired| && Stop(id) in cbs[i].acts) ==> id !in timers
    {
      hide Placed, Replay, SlotOf, UntouchedBy, Outcome;
      ghost var start, r := Tab(), lastRun;
      var wheelSlotWalks := 0;
      fired := [];
      ReplayNone(start, cbs, now);
      while lastRun <= now && wheelSlotWalks < SLOTS
        invariant Inv() && tmp == [] && now == old(now) && lastRun == r + wheelSlotWalks
        invariant Progress(start, fired, cbs)
        invariant forall id :: id in Overdue(now, timers) ==>
                    r <= timers[id].clock && !Visited(r, wheelSlotWalks, timers[id].clock)
        decreases SLOTS - wheelSlotWalks
      {
        fired := WalkSlot(SlotOf(lastRun), start, cbs, fired);
        forall id | id in Overdue(now, timers) ensures !Visited(r, wheelSlotWalks + 1, timers[id].clock) {
          VisitedNext(r, wheelSlotWalks, timers[id].clock);
        }
        lastRun := lastRun + 1;
        wheelSlotWalks := wheelSlotWalks + 1;
      }
      forall id | id in Overdue(now, timers) ensures false {
        AllVisited(r, wheelSlotWalks, now, timers[id].clock);
      }
      WalkMeans(now, start, Tab(), fired, cbs);
      lastRun := now;
    }
  }

  /** The end of a walk, timer by timer. */
  lemma WalkMeans(now: nat, t: Table, u: Table, fired: seq<Id>, cbs: seq<Callback>)
    requires TableOk(now, t) && NoDup(fired) && |fired| <= |cbs| && u == Replay(t, fired, cbs, now)
    requires Overdue(now, u.timers) == {} && forall id :: id in fired ==> id in Overdue(now, t.timers)
    requires forall i :: 0 <= i < |cbs| ==> CallbackOk(now, cbs[i])
    ensures forall id :: id in t.timers && UntouchedBy(cbs, |fired|, id) ==>
              Outcome(now, t.timers, u.timers, fired, id) && (id in fired <==> t.timers[id].clock <= now)
    ensures forall id :: id in t.timers && (exists i :: 0 <= i < |fired| && Stop(id) in cbs[i].acts) ==> id !in u.timers
  {
    hide Replay, UntouchedBy, Repeats, NoDup;
    forall id | id in t.timers && UntouchedBy(cbs, |fired|, id)
      ensures Outcome(now, t.timers, u.timers, fired, id) && (id in fired <==> t.timers[id].clock <= now)
    {
      ReplayOutcome(t, fired, cbs, now, id);
      assert id in u.timers ==> id !in Overdue(now, u.timers);
    }
    forall id | id in t.timers && exists i :: 0 <= i < |fired| && Stop(id) in cbs[i].acts ensures id !in u.timers {
      ReplayStopped(t, fired, cbs, now, id);
    }
  }

  /** Some slot visited from tick `r` on, in `walks` steps, is the slot of clock `c`. */
  ghost predicate Visited(r: nat, walks: nat, c: nat) {
    exists t :: r <= t < r + walks && SlotOf(t) == SlotOf(c)
  }

  /** Walking up to now, or all slots, reaches the slot of every clock since the last run. */
  lemma AllVisited(r: nat, walks: nat, now: nat, c: nat)
    requires r <= c <= now && (r + walks > now || walks >= SLOTS)
    ensures Visited(r, walks, c)
  {
    var t := r + (c - r) % SLOTS;
    assert SlotOf(t) == SlotOf(c);
  }

  lemma VisitedNext(r: nat, walks: nat, c: nat)
    ensures Visited(r, walks + 1, c) ==> Visited(r, walks, c) || SlotOf(r + walks) == SlotOf(c)
  {
    hide SlotOf;
  }

  /** Timers fire at most once, only if they were due when the walk began, and none of them is due now. */
  ghost predicate Honest(now: nat, start: Timers, ts: Timers, fired: seq<Id>) {
    && NoDup(fired) && |fired| + |Overdue(now, ts)| <= |Overdue(now, start)|
    && forall x :: x in fired ==> x in Overdue(now, start) && x !in Overdue(now, ts)
  }

  lemma HonestRoom(now: nat, start: Timers, ts: Timers, fired: seq<Id>, id: Id)
    requires Honest(now, start, ts, fired) && id in Overdue(now, ts)
    ensures |fired| < |Overdue(now, start)| && id !in fired
  {
    assert |Overdue(now, ts) - {id}| == |Overdue(now, ts)| - 1;
  }

  lemma HonestFire(now: nat, start: Table, t: Table, u: Table, fired: seq<Id>, id: Id)
    requires Honest(now, start.timers, t.timers, fired) && NoneNewlyDue(now, start, t) && NoneNewlyDue(now, t, u)
    requires id in Overdue(now, t.timers) && id !in Overdue(now, u.timers)
    ensures Honest(now, start.timers, u.timers, fired + [id]) && NoneNewlyDue(now, start, u)
    ensures |Overdue(now, u.timers)| < |Overdue(now, t.timers)|
  {
    assert Overdue(now, u.timers) <= Overdue(now, t.timers) - {id};
    SubsetSize(Overdue(now, u.timers), Overdue(now, t.timers) - {id});
    assert id in Overdue(now, start.timers);
  }

  lemma ReplayNone(start: Table, cbs: seq<Callback>, now: nat)
    ensures Replay(start, [], cbs, now) == start && NoneNewlyDue(now, start, start)
  {
  }

  lemma ReplaySnoc(start: Table, fired: seq<Id>, id: Id, cbs: seq<Callback>, now: nat)
    requires |fired| < |cbs|
    ensures Replay(start, fired + [id], cbs, now) == Fire(Replay(start, fired, cbs, now), id, cbs[|fired|], now)
  {
    assert (fired + [id])[..|fired|] == fired;
  }

  lemma RestPlaced(ts: Timers, slots: seq<seq<Id>>, cur: nat, c: nat)
    requires Placed(ts, slots, [], cur)
    ensures Placed(ts, slots, [], c)
  {
  }

  /** Moving the head of the slot to the temporary list. */
  lemma MovedPlaced(ts: Timers, slots: seq<seq<Id>>, tmp: seq<Id>, c: nat)
    requires Placed(ts, slots, tmp, c) && c < SLOTS && slots[c] != []
    ensures slots[c][0] in ts
    ensures Placed(ts, slots[c := slots[c][1..]], [slots[c][0]] + tmp, c)
  {
    hide SlotOf;
    var l := slots[c];
    assert l == [l[0]] + l[1..];
    var s := slots[c := l[1..]];
    assert forall id :: id in l[1..] ==> id in l && id != l[0];
    assert l[0] in slots[c];
    assert NoDup(s[c]);
    NoDupCons(l[0], tmp);
  }

  lemma MergedPlaced(ts: Timers, slots: seq<seq<Id>>, tmp: seq<Id>, c: nat)
    requires Placed(ts, slots, tmp, c) && c < SLOTS && slots[c] == []
    ensures Placed(ts, slots[c := tmp + slots[c]], [], c)
  {
    hide SlotOf;
    assert tmp + slots[c] == tmp;
  }

  lemma NotLeftBehind(now: nat, ts: Timers, slots: seq<seq<Id>>, tmp: seq<Id>, c: nat)
    requires Placed(ts, slots, tmp, c) && c < SLOTS && slots[c] == []
    requires forall x :: x in tmp ==> x !in Overdue(now, ts)
    ensures forall id :: id in Overdue(now, ts) ==> SlotOf(ts[id].clock) != c
  {
    hide SlotOf;
  }

  lemma PlacedSlots(ts: Timers, slots: seq<seq<Id>>, tmp: seq<Id>, cur: nat)
    requires Placed(ts, slots, tmp, cur)
    ensures |slots| == SLOTS && forall x :: x in tmp ==> x in ts
  {
  }

  lemma PlacedRandom(ts: Timers, slots: seq<seq<Id>>, tmp: seq<Id>, cur: nat, id: Id, random: nat)
    requires Placed(ts, slots, tmp, cur) && id in ts
    ensures Placed(ts[id := ts[id].(random := random)], slots, tmp, cur)
  {
    hide SlotOf;
  }

  lemma ArmedNow(now: nat, pct: nat, periodic: bool, random: nat)
    requires now < U32 && random <= RAND_MAX
    ensures var t := Armed(now, 0, pct, periodic, random); t.clock == now && TimerOk(now, t)
  {
    ScaledBound(random, 0);
  }
}
