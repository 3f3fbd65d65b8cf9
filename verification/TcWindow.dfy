/**
 The admission test of `olsr_input_tc` in Olsrd/src/tc_set.c: modular windows on the
 message sequence number and the ANSN, and the two escapes for restarted nodes.
 */
module TcWindow {
  import opened Common

  const TC_ANSN_WINDOW: nat := 256
  const TC_SEQNO_WINDOW: nat := 1024
  const TC_ANSN_WINDOW_MULT: nat := 4
  const TC_SEQNO_WINDOW_MULT: nat := 8

  /** `SEQNO_GREATER_THAN` of Olsrd/src/olsr_protocol.h. */
  predicate SeqGreater(s1: nat, s2: nat) {
    || (s1 > s2 && s1 - s2 <= 0xffff / 2)
    || (s2 > s1 && s2 - s1 > 0xffff / 2)
  }

  /** One number follows another when it is up to half the circle ahead; the larger loses at exactly half. */
  lemma SeqGreaterIsAhead(s1: nat, s2: nat)
    requires s1 < U16 && s2 < U16
    ensures SeqGreater(s1, s2) <==>
            1 <= (s1 - s2) % U16 <= 0x7fff || ((s1 - s2) % U16 == 0x8000 && s1 < s2)
  {
  }

  /** The conversion `(uint16_t) x`. */
  function ToU16(x: int): nat {
    x % U16
  }

  predicate InRangeLow(beg: int, end: int, s: nat) {
    if beg < 0 then s >= ToU16(beg) || s < end
    else if end >= U16 then s >= beg || s < ToU16(end)
    else beg <= s < end
  }

  predicate InRangeHigh(beg: int, end: int, s: nat) {
    if beg < 0 then s > ToU16(beg) || s <= end
    else if end >= U16 then s > beg || s <= ToU16(end)
    else beg < s <= end
  }

  /** A window that starts or ends at a 16-bit number: the tests are modular intervals. */
  ghost predicate Window(beg: int, end: int) {
    0 <= end - beg < U16 && beg < U16 && 0 <= end
  }

  lemma InRangeLowExact(beg: int, end: int, s: nat)
    requires Window(beg, end) && s < U16
    ensures InRangeLow(beg, end, s) <==> (s - beg) % U16 < end - beg
  {
  }

  lemma InRangeHighExact(beg: int, end: int, s: nat)
    requires Window(beg, end) && s < U16
    ensures InRangeHigh(beg, end, s) <==> 1 <= (s - beg) % U16 <= end - beg
  {
  }

  /* ---------- the admission test ---------- */

  /** The fields of a tc_entry that the test reads and writes. */
  datatype Gate = Gate(msgSeq: nat, ansn: nat, ignored: nat, errSeq: nat, errSeqValid: bool) {
    predicate Valid() {
      msgSeq < U16 && ansn < U16
    }

    /** Already seen, within the small window behind the stored numbers. */
    predicate Old(seqno: nat, a: nat) {
      && InRangeHigh(msgSeq - TC_SEQNO_WINDOW, msgSeq, seqno)
      && InRangeHigh(ansn - TC_ANSN_WINDOW, ansn, a)
    }

    /** New, within the large window ahead of the stored numbers. */
    predicate Forward(seqno: nat, a: nat) {
      && InRangeHigh(msgSeq, msgSeq + TC_SEQNO_WINDOW * TC_SEQNO_WINDOW_MULT, seqno)
      && InRangeLow(ansn, ansn + TC_ANSN_WINDOW * TC_ANSN_WINDOW_MULT, a)
    }

    predicate Implausible(seqno: nat, a: nat) {
      !Old(seqno, a) && !Forward(seqno, a)
    }
  }

  datatype Msg = Msg(seqno: nat, ansn: nat)

  /** The test while the originator has edges: admitted or not, and the fields after it. */
  function Admit(g: Gate, m: Msg): (r: (bool, Gate)) {
    if g.Old(m.seqno, m.ansn) then
      if g.msgSeq == m.seqno then (false, g)
      else if g.ignored < 32 then (false, g.(ignored := (g.ignored + 1) % U16))
      else (true, Accepted(g, m))
    else if !g.Forward(m.seqno, m.ansn) then
      var g' := if !g.errSeqValid then g.(errSeq := m.seqno, errSeqValid := true) else g;
      if g'.errSeq == m.seqno then (false, g') else (true, Accepted(g, m))
    else (true, Accepted(g, m))
  }

  /** An admitted message is stored and resets the escapes. */
  function Accepted(g: Gate, m: Msg): Gate {
    Gate(m.seqno, m.ansn, 0, g.errSeq, false)
  }

  /** What the windows mean, in steps around the 16-bit circle. */
  lemma WindowsExact(g: Gate, m: Msg)
    requires g.Valid() && m.seqno < U16 && m.ansn < U16
    ensures g.Forward(m.seqno, m.ansn) <==>
            1 <= (m.seqno - g.msgSeq) % U16 <= 8192 && (m.ansn - g.ansn) % U16 < 1024
    ensures g.Old(m.seqno, m.ansn) <==>
            (g.msgSeq - m.seqno) % U16 < 1024 && (g.ansn - m.ansn) % U16 < 256
  {
    InRangeHighExact(g.msgSeq, g.msgSeq + 8192, m.seqno);
    InRangeLowExact(g.ansn, g.ansn + 1024, m.ansn);
    InRangeHighExact(g.msgSeq - 1024, g.msgSeq, m.seqno);
    InRangeHighExact(g.ansn - 256, g.ansn, m.ansn);
    Mirror(g.msgSeq, m.seqno, 1024);
    Mirror(g.ansn, m.ansn, 256);
  }

  lemma Mirror(x: nat, s: nat, w: nat)
    requires x < U16 && s < U16 && w < U16
    ensures 1 <= (s - (x - w)) % U16 <= w <==> (x - s) % U16 < w
  {
  }

  /* ---------- runs of refused messages ---------- */

  /** The fields after a run of messages since the last accepted one, if all were refused. */
  function Refuse(g: Gate, ms: seq<Msg>): Option<Gate> {
    if ms == [] then Some(g)
    else
      match Refuse(g, ms[..|ms| - 1])
      case None => None
      case Some(h) =>
        var (ok, h') := Admit(h, ms[|ms| - 1]);
        if ok then None else Some(h')
  }

  /** Old-window messages of the run that were not repetitions of the accepted one. */
  function OldCount(g: Gate, ms: seq<Msg>): nat {
    if ms == [] then 0
    else
      var m := ms[|ms| - 1];
      OldCount(g, ms[..|ms| - 1]) + if g.Old(m.seqno, m.ansn) && m.seqno != g.msgSeq then 1 else 0
  }

  ghost predicate SawImplausible(g: Gate, ms: seq<Msg>, s: nat) {
    exists m :: m in ms && g.Implausible(m.seqno, m.ansn) && m.seqno == s
  }

  /** The counter and the stray number remember the run. */
  ghost predicate Remembers(g: Gate, ms: seq<Msg>, h: Gate) {
    && h.msgSeq == g.msgSeq && h.ansn == g.ansn
    && h.ignored == OldCount(g, ms) <= 32
    && (h.errSeqValid ==> SawImplausible(g, ms, h.errSeq))
    && forall s :: SawImplausible(g, ms, s) ==> h.errSeqValid && h.errSeq == s
  }

  lemma SawNext(g: Gate, ms: seq<Msg>, m: Msg, s: nat)
    ensures SawImplausible(g, ms + [m], s) <==>
            SawImplausible(g, ms, s) || (g.Implausible(m.seqno, m.ansn) && m.seqno == s)
  {
    assert forall x :: x in ms + [m] <==> x in ms || x == m;
  }

  /** A refused message, by the branch that refused it: a counted or repeated old one, or a stray one. */
  lemma RefusedBy(g: Gate, m: Msg)
    requires !Admit(g, m).0
    ensures var h := Admit(g, m).1;
      && h.msgSeq == g.msgSeq && h.ansn == g.ansn && (g.Old(m.seqno, m.ansn) || g.Implausible(m.seqno, m.ansn))
      && (g.Old(m.seqno, m.ansn) ==>
            && !g.Implausible(m.seqno, m.ansn) && h.errSeqValid == g.errSeqValid && h.errSeq == g.errSeq
            && h.ignored == g.ignored + (if m.seqno == g.msgSeq then 0 else 1)
            && (m.seqno == g.msgSeq || g.ignored < 32))
      && (g.Implausible(m.seqno, m.ansn) ==>
            h.ignored == g.ignored && h.errSeqValid && h.errSeq == m.seqno && (g.errSeqValid ==> g.errSeq == m.seqno))
  {
    hide InRangeHigh, InRangeLow;
  }

  lemma RememberNext(g: Gate, ms: seq<Msg>, m: Msg, h: Gate)
    requires Remembers(g, ms, h) && !Admit(h, m).0
    ensures Remembers(g, ms + [m], Admit(h, m).1)
  {
    RefusedBy(h, m);
    SameWindows(g, h, m);
    hide Admit, Gate.Old, Gate.Implausible, SawImplausible;
    assert (ms + [m])[..|ms|] == ms;
    var h' := Admit(h, m).1;
    SawNext(g, ms, m, h'.errSeq);
    forall s ensures SawImplausible(g, ms + [m], s) ==> h'.errSeqValid && h'.errSeq == s {
      SawNext(g, ms, m, s);
    }
  }

  lemma SameWindows(g: Gate, h: Gate, m: Msg)
    requires h.msgSeq == g.msgSeq && h.ansn == g.ansn
    ensures h.Old(m.seqno, m.ansn) == g.Old(m.seqno, m.ansn)
    ensures h.Implausible(m.seqno, m.ansn) == g.Implausible(m.seqno, m.ansn)
  {
  }

  lemma {:induction false} RefusedRemembers(g: Gate, ms: seq<Msg>)
    requires g.ignored == 0 && !g.errSeqValid && Refuse(g, ms).Some?
    ensures Remembers(g, ms, Refuse(g, ms).value)
    decreases |ms|
  {
    hide Admit;
    if ms != [] {
      hide Remembers;
      var p, m := ms[..|ms| - 1], ms[|ms| - 1];
      RefusedRemembers(g, p);
      RememberNext(g, p, m, Refuse(g, p).value);
      assert p + [m] == ms;
    }
  }

  /**
   After any run of refusals, a message is admitted exactly when it is in the forward
   window, or is an old one and 32 were ignored already, or is implausible and an
   implausible one with another number was refused before it.
   */
  lemma AdmittedExactly(g: Gate, ms: seq<Msg>, m: Msg)
    requires g.ignored == 0 && !g.errSeqValid && Refuse(g, ms).Some?
    ensures Admit(Refuse(g, ms).value, m).0 <==>
            || (g.Forward(m.seqno, m.ansn) && !g.Old(m.seqno, m.ansn))
            || (g.Old(m.seqno, m.ansn) && m.seqno != g.msgSeq && OldCount(g, ms) == 32)
            || (g.Implausible(m.seqno, m.ansn) && exists s :: s != m.seqno && SawImplausible(g, ms, s))
  {
    RefusedRemembers(g, ms);
    hide InRangeHigh, InRangeLow;
    var h := Refuse(g, ms).value;
    if h.errSeqValid {
      assert SawImplausible(g, ms, h.errSeq);
    }
  }

  /* ---------- whole runs ---------- */

  /** A message of the originator, and whether it had edges when the message came. */
  datatype Arrival = Arrival(m: Msg, hasEdges: bool)

  /** The admission test of one arrival: an originator without edges admits all. */
  function Admission(g: Gate, a: Arrival): (bool, Gate) {
    if a.hasEdges then Admit(g, a.m) else (true, Accepted(g, a.m))
  }

  /** The fields after a run of arrivals. */
  function GateAfter(g: Gate, ars: seq<Arrival>): Gate {
    if ars == [] then g else Admission(GateAfter(g, ars[..|ars| - 1]), ars[|ars| - 1]).1
  }

  /** Arrival `k` of the run is admitted. */
  predicate AdmittedAt(g: Gate, ars: seq<Arrival>, k: nat)
    requires k < |ars|
  {
    Admission(GateAfter(g, ars[..k]), ars[k]).0
  }

  /** Steps from the second number to the first around the 16-bit circle. */
  function Ahead(x: nat, y: nat): nat {
    (x - y) % 65536
  }

  /** `m` is seen from `last`, the message admitted last, as up to 8192 numbers and less than 1024 ANSNs ahead. */
  predicate IsNew(last: Msg, m: Msg) {
    1 <= Ahead(m.seqno, last.seqno) <= 8192 && Ahead(m.ansn, last.ansn) < 1024
  }

  /** Or as another number less than 1024 behind it, with an ANSN less than 256 behind. */
  predicate IsLate(last: Msg, m: Msg) {
    1 <= Ahead(last.seqno, m.seqno) < 1024 && Ahead(last.ansn, m.ansn) < 256
  }

  /** Or as a repetition of the number. */
  predicate IsRepeat(last: Msg, m: Msg) {
    m.seqno == last.seqno && Ahead(last.ansn, m.ansn) < 256
  }

  predicate IsStray(last: Msg, m: Msg) {
    !IsNew(last, m) && !IsLate(last, m) && !IsRepeat(last, m)
  }

  /** How many of the arrivals after `j` and before `k` are late. */
  function LateBetween(ars: seq<Arrival>, j: nat, k: nat): nat
    requires j < k <= |ars|
  {
    if k == j + 1 then 0
    else LateBetween(ars, j, k - 1) + if IsLate(ars[j].m, ars[k - 1].m) then 1 else 0
  }

  ghost predicate NumbersOk(ars: seq<Arrival>) {
    forall i :: 0 <= i < |ars| ==> ars[i].m.seqno < U16 && ars[i].m.ansn < U16
  }

  /** Arrival `j` was admitted and all after it and before `k` were refused. */
  ghost predicate LastAdmitted(g: Gate, ars: seq<Arrival>, j: nat, k: nat)
    requires k <= |ars|
  {
    j < k && AdmittedAt(g, ars, j) && forall i :: j < i < k ==> !AdmittedAt(g, ars, i)
  }

  /** The windows of the fields are those of the message admitted last. */
  lemma WindowsAre(g: Gate, last: Msg, m: Msg)
    requires g.msgSeq == last.seqno < U16 && g.ansn == last.ansn < U16 && m.seqno < U16 && m.ansn < U16
    ensures g.Forward(m.seqno, m.ansn) <==> IsNew(last, m)
    ensures g.Old(m.seqno, m.ansn) <==> IsLate(last, m) || IsRepeat(last, m)
    ensures g.Old(m.seqno, m.ansn) && m.seqno != g.msgSeq <==> IsLate(last, m)
    ensures g.Implausible(m.seqno, m.ansn) <==> IsStray(last, m)
    ensures !(IsNew(last, m) && (IsLate(last, m) || IsRepeat(last, m)))
  {
    hide InRangeHigh, InRangeLow, Gate.Forward, Gate.Old;
    WindowsExact(g, m);
  }

  /** The counter and the stray number say what came since the message admitted last. */
  ghost predicate GateTells(h: Gate, ars: seq<Arrival>, j: nat, k: nat)
    requires j < k <= |ars|
  {
    && h.msgSeq == ars[j].m.seqno && h.ansn == ars[j].m.ansn && h.ignored == LateBetween(ars, j, k) <= 32
    && (h.errSeqValid <==> exists i :: j < i < k && IsStray(ars[j].m, ars[i].m))
    && (forall i :: j < i < k && IsStray(ars[j].m, ars[i].m) ==> ars[i].m.seqno == h.errSeq)
  }

  lemma GateNext(g: Gate, ars: seq<Arrival>, k: nat)
    requires k < |ars|
    ensures GateAfter(g, ars[..k + 1]) == Admission(GateAfter(g, ars[..k]), ars[k]).1
  {
    assert ars[..k + 1][..k] == ars[..k];
  }

  lemma TellsNext(h: Gate, ars: seq<Arrival>, j: nat, k: nat)
    requires j < k < |ars| && NumbersOk(ars) && GateTells(h, ars, j, k) && !Admission(h, ars[k]).0
    ensures GateTells(Admission(h, ars[k]).1, ars, j, k + 1)
  {
    hide Admit, Gate.Old, Gate.Forward, IsNew, IsLate, IsRepeat, IsStray;
    var last, m, n := ars[j].m, ars[k].m, k + 1;
    RefusedBy(h, m);
    WindowsAre(h, last, m);
    var r := Admit(h, m).1;
    assert LateBetween(ars, j, n) == LateBetween(ars, j, k) + if IsLate(last, m) then 1 else 0;
    if IsStray(last, m) {
      assert j < k < n && IsStray(ars[j].m, ars[k].m);
    }
  }

  lemma TellsFirst(h: Gate, ars: seq<Arrival>, j: nat)
    requires j < |ars| && Admission(h, ars[j]).0
    ensures GateTells(Admission(h, ars[j]).1, ars, j, j + 1)
  {
    hide Gate.Old, Gate.Forward, IsStray;
  }

  lemma {:induction false} GateTold(g: Gate, ars: seq<Arrival>, j: nat, k: nat)
    requires j < k <= |ars| && NumbersOk(ars) && LastAdmitted(g, ars, j, k)
    ensures GateTells(GateAfter(g, ars[..k]), ars, j, k)
    decreases k
  {
    hide Admission, GateTells, GateAfter, NumbersOk;
    GateNext(g, ars, k - 1);
    if k == j + 1 {
      TellsFirst(GateAfter(g, ars[..j]), ars, j);
    } else {
      assert !AdmittedAt(g, ars, k - 1);
      GateTold(g, ars, j, k - 1);
      TellsNext(GateAfter(g, ars[..k - 1]), ars, j, k - 1);
    }
  }

  /**
   In any run, from whatever fields, a message is admitted if and only if the originator has
   no edges, or, seen from the message admitted last, it is new, or it is late and 32 late ones
   were ignored since, or it is stray and a stray one with another number was refused since.
   */
  lemma AdmittedInRun(g: Gate, ars: seq<Arrival>, j: nat, k: nat)
    requires k < |ars| && NumbersOk(ars) && LastAdmitted(g, ars, j, k)
    ensures AdmittedAt(g, ars, k) <==>
            || !ars[k].hasEdges
            || IsNew(ars[j].m, ars[k].m)
            || (IsLate(ars[j].m, ars[k].m) && LateBetween(ars, j, k) >= 32)
            || (IsStray(ars[j].m, ars[k].m) &&
                exists i :: j < i < k && IsStray(ars[j].m, ars[i].m) && ars[i].m.seqno != ars[k].m.seqno)
  {
    GateTold(g, ars, j, k);
    var h := GateAfter(g, ars[..k]);
    WindowsAre(h, ars[j].m, ars[k].m);
    hide GateAfter, Gate.Old, Gate.Forward, IsNew, IsLate, IsRepeat, IsStray;
  }
}
