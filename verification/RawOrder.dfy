/**
 IPv4 addresses on a little-endian host: `ip4cmp` in Olsrd/src/ipcalc.h compares the raw
 32-bit word, so the last byte weighs most, while border flags count bits from the first byte.
 */
module RawOrder {
  import opened IpOrder
  import opened TcBorder

  /** Order of the raw words: decided by the last byte that differs. */
  predicate RawLess(a: Bytes, b: Bytes)
    requires |a| == |b|
  {
    exists q :: 0 <= q < |a| && Below(a[q], b[q]) && forall i :: q < i < |a| ==> a[i] == b[i]
  }

  lemma BelowFacts(x: bv8, y: bv8)
    ensures !Below(x, 0) && (x != 0 ==> Below(0, x))
    ensures Below(x, y) ==> !Below(y, x)
    ensures x != y ==> Below(x, y) || Below(y, x)
  {
  }

  /** A border shaped string is above `a` in raw order exactly when `a` ends in zeros and is below it at the cut. */
  lemma RawBelowBorder(a: Bytes, r: Bytes, p: nat, x: bv8)
    requires BorderShape(r, a, p, x)
    ensures RawLess(a, r) <==> (forall i :: p < i < |a| ==> a[i] == 0) && Below(a[p], x)
  {
    hide Below;
    if (forall i :: p < i < |a| ==> a[i] == 0) && Below(a[p], x) {
      assert Below(a[p], r[p]);
    }
    if RawLess(a, r) {
      var q :| 0 <= q < |a| && Below(a[q], r[q]) && forall i :: q < i < |a| ==> a[i] == r[i];
      BelowFacts(a[q], r[q]);
      BelowFacts(a[q], a[q]);
    }
  }

  /** A border shaped string from `a` is not above `b` if `b` is not below it at the cut. */
  lemma RawBorderNotAbove(r: Bytes, a: Bytes, b: Bytes, p: nat, x: bv8)
    requires BorderShape(r, a, p, x) && |a| == |b| && !Below(b[p], x)
    requires forall i :: 0 <= i < p ==> a[i] == b[i]
    ensures !RawLess(b, r)
  {
    hide Below;
    if RawLess(b, r) {
      var q :| 0 <= q < |b| && Below(b[q], r[q]) && forall i :: q < i < |b| ==> b[i] == r[i];
      BelowFacts(b[q], r[q]);
      BelowFacts(b[q], b[q]);
    }
  }

  /**
   On a little-endian host a cut between two listed addresses separates them exactly when the
   earlier one is zero behind the first differing byte and below the later one in that byte.
   */
  lemma RawCutSeparates(a: Bytes, b: Bytes)
    requires |a| == |b| <= 16 && a != b
    ensures ValidFlag(BorderFlag(a, b), |a|) && FirstDiff(a, b) < |a|
    ensures var r, p := Rebuild(a, BorderFlag(a, b)), FirstDiff(a, b);
            && r == Rebuild(b, BorderFlag(a, b))
            && (RawLess(a, r) && !RawLess(b, r) <==>
                (forall i :: p < i < |a| ==> a[i] == 0) && Below(a[p], b[p]))
  {
    var p := FirstDiff(a, b);
    assert p < |a|;
    hide Below, Rebuild, BorderFlag, Less, TopDiff, BorderByte, FirstDiff;
    BelowFacts(a[p], b[p]);
    if Below(a[p], b[p]) {
      LessAt(a, b, p);
      RawCutAscending(a, b);
    } else {
      LessAt(b, a, p);
      RawCutDescending(a, b);
    }
  }

  lemma RawCutAscending(a: Bytes, b: Bytes)
    requires |a| == |b| <= 16 && Less(a, b)
    ensures ValidFlag(BorderFlag(a, b), |a|)
    ensures var r, p := Rebuild(a, BorderFlag(a, b)), FirstDiff(a, b);
            && r == Rebuild(b, BorderFlag(a, b)) && !RawLess(b, r)
            && (RawLess(a, r) <==> forall i :: p < i < |a| ==> a[i] == 0)
  {
    hide Below, Rebuild, BorderFlag, Less, FirstDiff;
    var p, x := CutShape(a, b);
    CutMeets(a, b);
    var r := Rebuild(a, BorderFlag(a, b));
    RawBelowBorder(a, r, p, x);
    RawBorderNotAbove(r, a, b, p, x);
  }

  lemma RawCutDescending(a: Bytes, b: Bytes)
    requires |a| == |b| <= 16 && Less(b, a)
    ensures ValidFlag(BorderFlag(a, b), |a|)
    ensures var r := Rebuild(a, BorderFlag(a, b)); r == Rebuild(b, BorderFlag(a, b)) && !RawLess(a, r)
  {
    FlagSymmetric(a, b);
    hide Below, Rebuild, BorderFlag, Less, FirstDiff;
    var p, x := CutShape(b, a);
    CutMeets(b, a);
    RawBorderNotAbove(Rebuild(b, BorderFlag(a, b)), b, a, p, x);
  }

  /** An address above `a` in raw order, but below it at the first difference, does not end in zeros there. */
  lemma RawDescendingTail(a: Bytes, b: Bytes, p: nat)
    requires |a| == |b| && p < |a| && RawLess(a, b) && Below(b[p], a[p])
    requires forall i :: 0 <= i < p ==> a[i] == b[i]
    ensures exists i :: p < i < |b| && b[i] != 0
  {
    hide Below;
    var q :| 0 <= q < |a| && Below(a[q], b[q]) && forall i :: q < i < |a| ==> a[i] == b[i];
    BelowFacts(a[q], b[q]);
    BelowFacts(a[q], a[q]);
    BelowFacts(b[p], a[p]);
  }

  /** The border at a cut is never above the later address. */
  lemma RawCutNotAbove(a: Bytes, b: Bytes)
    requires |a| == |b| <= 16 && a != b && RawLess(a, b)
    ensures ValidFlag(BorderFlag(a, b), |a|) && !RawLess(b, Rebuild(b, BorderFlag(a, b)))
  {
    var p := FirstDiff(a, b);
    assert p < |a| && forall i :: 0 <= i < p ==> a[i] == b[i];
    hide Below, Rebuild, BorderFlag, Less, TopDiff, BorderByte, FirstDiff, RawLess;
    BelowFacts(a[p], b[p]);
    if Below(a[p], b[p]) {
      LessAt(a, b, p);
      RawCutAscending(a, b);
    } else {
      LessAt(b, a, p);
      FlagSymmetric(a, b);
      RawDescendingTail(a, b, p);
      var c, x := CutShape(b, a);
      RawBelowBorder(b, Rebuild(b, BorderFlag(a, b)), c, x);
    }
  }

  lemma FlagSymmetric(a: Bytes, b: Bytes)
    requires |a| == |b|
    ensures FirstDiff(a, b) == FirstDiff(b, a) && BorderFlag(a, b) == BorderFlag(b, a)
  {
    hide TopDiff;
    if a != b {
      FirstDiffUnique(b, a, FirstDiff(a, b));
      var p := FirstDiff(a, b);
      TopDiffSymmetric(a[p], b[p], 0);
    }
  }

  lemma {:induction false} TopDiffSymmetric(l: bv8, h: bv8, j: nat)
    requires j <= 8
    ensures TopDiff(l, h, j) == TopDiff(h, l, j)
    decreases 8 - j
  {
    if j < 8 {
      assert AgreeAbove(l, h, j) == AgreeAbove(h, l, j);
      hide AgreeAbove;
      TopDiffSymmetric(l, h, j + 1);
    }
  }

  /** 10.0.0.2 then 10.0.1.3: in raw order, yet the rebuilt border 10.0.1.0 is below both. */
  lemma RawCutFails()
    ensures var a: Bytes, b: Bytes := [10, 0, 0, 2], [10, 0, 1, 3];
            && RawLess(a, b) && ValidFlag(BorderFlag(a, b), 4)
            && !RawLess(a, Rebuild(a, BorderFlag(a, b)))
  {
    var a: Bytes, b: Bytes := [10, 0, 0, 2], [10, 0, 1, 3];
    assert Below(a[3], b[3]);
    FirstDiffUnique(a, b, 2);
    assert Below(a[2], b[2]);
    assert a[3] != 0 && b[3] != 0;
    RawCutAscending(a, b);
  }
}
