/**
 Addresses as big-endian byte strings under lexicographic order (`ip6cmp` in
 Olsrd/src/ipcalc.h, a `memcmp`).
 */
module IpOrder {

  type Bytes = seq<bv8>

  /** The first index at which the two strings differ, or their common length. */
  function FirstDiff(a: Bytes, b: Bytes): (p: nat)
    requires |a| == |b|
    ensures p <= |a| && forall i :: 0 <= i < p ==> a[i] == b[i]
    ensures p < |a| ==> a[p] != b[p]
  {
    if a == [] || a[0] != b[0] then 0 else 1 + FirstDiff(a[1..], b[1..])
  }

  predicate Below(x: bv8, y: bv8) {
    x < y
  }

  predicate Less(a: Bytes, b: Bytes)
    requires |a| == |b|
  {
    var p := FirstDiff(a, b);
    p < |a| && Below(a[p], b[p])
  }

  predicate Le(a: Bytes, b: Bytes)
    requires |a| == |b|
  {
    a == b || Less(a, b)
  }

  /** Any index with equal prefixes and different bytes is the first difference. */
  lemma FirstDiffUnique(a: Bytes, b: Bytes, p: nat)
    requires |a| == |b| && p < |a| && a[p] != b[p]
    requires forall i :: 0 <= i < p ==> a[i] == b[i]
    ensures FirstDiff(a, b) == p
  {
  }

  lemma LessAt(a: Bytes, b: Bytes, p: nat)
    requires |a| == |b| && p < |a| && Below(a[p], b[p])
    requires forall i :: 0 <= i < p ==> a[i] == b[i]
    ensures Less(a, b)
  {
    FirstDiffUnique(a, b, p);
  }

  lemma LessTransitive(a: Bytes, b: Bytes, c: Bytes)
    requires |a| == |b| == |c| && Less(a, b) && Less(b, c)
    ensures Less(a, c)
  {
    var p, q := FirstDiff(a, b), FirstDiff(b, c);
    hide FirstDiff;
    LessAt(a, c, if p < q then p else q);
  }

  lemma LessIrreflexive(a: Bytes)
    ensures !Less(a, a)
  {
  }

  lemma Trichotomy(a: Bytes, b: Bytes)
    requires |a| == |b|
    ensures a == b || Less(a, b) || Less(b, a)
    ensures !(Less(a, b) && Less(b, a))
  {
    var p := FirstDiff(a, b);
    if p < |a| {
      FirstDiffUnique(b, a, p);
    }
  }

  lemma LeLess(a: Bytes, b: Bytes, c: Bytes)
    requires |a| == |b| == |c|
    ensures Le(a, b) && Less(b, c) ==> Less(a, c)
    ensures Less(a, b) && Le(b, c) ==> Less(a, c)
    ensures Le(a, b) && Le(b, c) ==> Le(a, c)
  {
    if Less(a, b) && Less(b, c) {
      LessTransitive(a, b, c);
    }
  }
}
