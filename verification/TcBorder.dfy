/**
 Border flags of multi-part LQ_TC messages. The sender compresses the boundary
 between two fragments to one byte (`calculate_border_flag` in
 Olsrd/src/lq_packet.c); the receiver rebuilds a border address from that byte and
 an address of the fragment (`olsr_calculate_tc_border` in Olsrd/src/tc_set.c).
 */
module TcBorder {
  import Common
  import opened IpOrder

  const END_BORDER: nat := 0xff

  /* ---------- the sender's flag ---------- */

  /** The two bytes agree above bit `j`. */
  predicate AgreeAbove(l: bv8, h: bv8, j: nat)
    requires j <= 7
  {
    (l & (0xfe << j)) == (h & (0xfe << j))
  }

  /** The least bit position, from `j` on, above which the two bytes agree. */
  function TopDiff(l: bv8, h: bv8, j: nat): (r: nat)
    requires j <= 8
    ensures j <= r <= 8
    decreases 8 - j
  {
    if j == 8 || AgreeAbove(l, h, j) then j else TopDiff(l, h, j + 1)
  }

  /** One plus the position, counted from the last bit, of the first bit that differs; 0 if none. */
  function BorderFlag(lower: Bytes, higher: Bytes): (flag: nat)
    requires |lower| == |higher|
  {
    var p := FirstDiff(lower, higher);
    if p == |lower| then 0
    else TopDiff(lower[p], higher[p], 0) + 8 * (|lower| - p - 1) + 1
  }

  /** `calculate_border_flag`. */
  method CalculateBorderFlag(lower: Bytes, higher: Bytes) returns (flag: nat)
    requires |lower| == |higher| <= 16
    ensures flag == BorderFlag(lower, higher)
  {
    hide TopDiff;
    var part := 0;
    while part < |lower|
      invariant part <= |lower| && forall i :: 0 <= i < part ==> lower[i] == higher[i]
    {
      if lower[part] != higher[part] {
        break;
      }
      part := part + 1;
    }
    if part == |lower| {
      assert lower == higher;
      return 0;
    }
    FirstDiffUnique(lower, higher, part);
    var bitpos := FindBit(lower[part], higher[part]);
    bitpos := bitpos + 8 * (|lower| - part - 1);
    return bitpos + 1;
  }

  /** Its second loop, with the mask moving up one bit at a time. */
  method FindBit(l: bv8, h: bv8) returns (bitpos: nat)
    ensures bitpos == TopDiff(l, h, 0)
  {
    hide TopDiff;
    var bitmask: bv8 := 0xfe;
    bitpos := 0;
    while bitpos < 8
      invariant bitpos <= 8 && bitmask == 0xfe << bitpos
      invariant TopDiff(l, h, 0) == TopDiff(l, h, bitpos)
    {
      TopDiffStep(l, h, bitpos);
      if (l & bitmask) == (h & bitmask) {
        return;
      }
      ShiftOnce(bitpos);
      bitpos, bitmask := bitpos + 1, bitmask << 1;
    }
    TopDiffStep(l, h, 8);
  }

  lemma TopDiffStep(l: bv8, h: bv8, j: nat)
    requires j <= 8
    ensures TopDiff(l, h, j) == if j == 8 || AgreeAbove(l, h, j) then j else TopDiff(l, h, j + 1)
  {
  }

  lemma ShiftOnce(j: nat)
    requires j < 8
    ensures ((0xfe as bv8) << j) << 1 == (0xfe as bv8) << (j + 1)
  {
    if j == 0 {} else if j == 1 {} else if j == 2 {} else if j == 3 {}
    else if j == 4 {} else if j == 5 {} else if j == 6 {} else { assert j == 7; }
  }

  /* ---------- the receiver's border ---------- */

  function ClearBelow(x: bv8, j: nat): bv8
    requires j < 8
  {
    x & (0xff << j)
  }

  function SetBit(x: bv8, j: nat): bv8
    requires j < 8
  {
    x | (1 << j)
  }

  /** Clear the bits below `j` and set bit `j`. */
  function BorderByte(x: bv8, j: nat): bv8
    requires j < 8
  {
    SetBit(ClearBelow(x, j), j)
  }

  function Fill(n: nat, x: bv8): (r: Bytes)
    ensures |r| == n && forall i :: 0 <= i < n ==> r[i] == x
  {
    seq(n, _ => x)
  }

  /** Flags that `olsr_calculate_tc_border` can expand for an address of `n` bytes. */
  predicate ValidFlag(flag: nat, n: nat) {
    1 <= flag <= 8 * n && flag != END_BORDER
  }

  /** The index of the byte that an inner flag leads to; the flag is decremented as an 8-bit number. */
  function FlagByte(flag: nat, n: nat): int {
    n - (flag + Common.U8 - 1) % Common.U8 / 8 - 1
  }

  /** That byte is one of the address exactly for the flags that can be expanded; 0 is none of them. */
  lemma FlagInsideExactly(flag: nat, n: nat)
    requires flag < END_BORDER && n <= 16
    ensures 0 <= FlagByte(flag, n) < n <==> ValidFlag(flag, n)
  {
    if flag > 0 {
      assert (flag + Common.U8 - 1) % Common.U8 == flag - 1;
    }
  }

  /** The border address for an inner flag. */
  function Rebuild(addr: Bytes, flag: nat): (r: Bytes)
    requires ValidFlag(flag, |addr|)
    ensures |r| == |addr|
  {
    var k := flag - 1;
    var i := |addr| - k / 8 - 1;
    addr[..i] + [BorderByte(addr[i], k % 8)] + Fill(k / 8, 0)
  }

  /**
   The border for the end flag 0xff. The memset covers as many bytes as a pointer has;
   bytes behind them keep the fragment's own address.
   */
  function EndBorder(addr: Bytes, ptrSize: nat, x: bv8): (r: Bytes)
    ensures |r| == |addr|
  {
    if ptrSize >= |addr| then Fill(|addr|, x) else Fill(ptrSize, x) + addr[ptrSize..]
  }

  function LowerBorder(first: Bytes, flag: nat, ptrSize: nat): (r: Bytes)
    requires flag == END_BORDER || ValidFlag(flag, |first|)
    ensures |r| == |first|
  {
    if flag == END_BORDER then EndBorder(first, ptrSize, 0) else Rebuild(first, flag)
  }

  function UpperBorder(last: Bytes, flag: nat, ptrSize: nat): (r: Bytes)
    requires flag == END_BORDER || ValidFlag(flag, |last|)
    ensures |r| == |last|
  {
    if flag == END_BORDER then EndBorder(last, ptrSize, 0xff) else Rebuild(last, flag)
  }

  /** The in-place expansion of an inner flag, byte by byte. */
  method RebuildInPlace(ip: array<bv8>, flag: nat)
    requires ValidFlag(flag, ip.Length)
    modifies ip
    ensures ip[..] == Rebuild(old(ip[..]), flag)
  {
    hide ClearBelow, SetBit;
    var k := flag - 1;
    var n := ip.Length;
    for i := 0 to k / 8
      invariant forall j :: 0 <= j < n ==> ip[j] == if j < n - i then old(ip[j]) else 0
    {
      ip[n - i - 1] := 0;
    }
    var at := n - k / 8 - 1;
    ip[at] := ClearBelow(ip[at], k % 8);
    ip[at] := SetBit(ip[at], k % 8);
    ghost var r := Rebuild(old(ip[..]), flag);
    assert forall j :: 0 <= j < n ==> ip[j] == r[j];
  }

  method FillInPlace(ip: array<bv8>, ptrSize: nat, x: bv8)
    modifies ip
    ensures ip[..] == EndBorder(old(ip[..]), ptrSize, x)
  {
    var m := if ptrSize < ip.Length then ptrSize else ip.Length;
    for i := 0 to m
      invariant forall j :: 0 <= j < ip.Length ==> ip[j] == if j < i then x else old(ip[j])
    {
      ip[i] := x;
    }
  }

  /** `olsr_calculate_tc_border`. */
  method CalculateTcBorder(lower: nat, lowerIp: array<bv8>, upper: nat, upperIp: array<bv8>, ptrSize: nat)
    returns (borderSet: bool)
    requires lowerIp != upperIp
    requires (lower == 0 && upper == 0) ||
             ((lower == END_BORDER || ValidFlag(lower, lowerIp.Length)) &&
              (upper == END_BORDER || ValidFlag(upper, upperIp.Length)))
    modifies lowerIp, upperIp
    ensures borderSet <==> !(lower == 0 && upper == 0)
    ensures !borderSet ==> lowerIp[..] == old(lowerIp[..]) && upperIp[..] == old(upperIp[..])
    ensures borderSet ==> lowerIp[..] == LowerBorder(old(lowerIp[..]), lower, ptrSize)
    ensures borderSet ==> upperIp[..] == UpperBorder(old(upperIp[..]), upper, ptrSize)
  {
    if lower == 0 && upper == 0 {
      return false;
    }
    if lower == END_BORDER {
      FillInPlace(lowerIp, ptrSize, 0);
    } else {
      RebuildInPlace(lowerIp, lower);
    }
    assert upperIp[..] == old(upperIp[..]);
    ghost var low := lowerIp[..];
    if upper == END_BORDER {
      FillInPlace(upperIp, ptrSize, 0xff);
    } else {
      RebuildInPlace(upperIp, upper);
    }
    assert lowerIp[..] == low;
    return true;
  }

  /* ---------- both ends rebuild the same border ---------- */

  /** Bit `r` separates the bytes: both yield the same border byte, between the two. */
  predicate Splits(l: bv8, h: bv8, r: nat) {
    r < 8 && BorderByte(l, r) == BorderByte(h, r) && (Below(l, h) ==> Below(l, BorderByte(l, r)) && !Below(h, BorderByte(l, r)))
  }

  /** At the top differing bit the smaller byte has 0, the larger has 1, all above agrees. */
  lemma {:induction false} TopDiffSplits(l: bv8, h: bv8, j: nat)
    requires j <= 7 && (j > 0 ==> !AgreeAbove(l, h, j - 1)) && l != h
    ensures Splits(l, h, TopDiff(l, h, j))
    decreases 8 - j
  {
    hide Splits, AgreeAbove;
    NothingAbove(l, h);
    if AgreeAbove(l, h, j) {
      SplitAt(l, h, j);
    } else {
      TopDiffSplits(l, h, j + 1);
    }
  }

  lemma NothingAbove(l: bv8, h: bv8)
    ensures AgreeAbove(l, h, 7)
  {
  }

  lemma SplitAt(l: bv8, h: bv8, j: nat)
    requires j <= 7 && AgreeAbove(l, h, j) && l != h
    requires j > 0 ==> !AgreeAbove(l, h, j - 1)
    ensures Splits(l, h, j)
  {
    SameBorder(l, h, j);
    if Below(l, h) {
      NotAbove(l, h, j);
    }
    if j == 0 {} else if j == 1 {} else if j == 2 {} else if j == 3 {}
    else if j == 4 {} else if j == 5 {} else if j == 6 {} else { assert j == 7; }
  }

  lemma NotAbove(l: bv8, h: bv8, j: nat)
    requires j <= 7 && AgreeAbove(l, h, j) && Below(l, h)
    requires j > 0 ==> !AgreeAbove(l, h, j - 1)
    ensures !Below(h, BorderByte(l, j))
  {
    if j == 0 {} else if j == 1 {} else if j == 2 {} else if j == 3 {}
    else if j == 4 {} else if j == 5 {} else if j == 6 {} else { assert j == 7; }
  }

  lemma SameBorder(l: bv8, h: bv8, j: nat)
    requires j <= 7 && AgreeAbove(l, h, j)
    ensures BorderByte(l, j) == BorderByte(h, j)
  {
    if j == 0 {} else if j == 1 {} else if j == 2 {} else if j == 3 {}
    else if j == 4 {} else if j == 5 {} else if j == 6 {} else { assert j == 7; }
  }

  /** `r` follows `a` up to byte `p`, has `x` there and zeros after it. */
  predicate BorderShape(r: Bytes, a: Bytes, p: nat, x: bv8) {
    && |r| == |a| && p < |a| && r[p] == x
    && (forall i :: 0 <= i < p ==> r[i] == a[i])
    && (forall i :: p < i < |r| ==> r[i] == 0)
  }

  lemma RebuildAt(a: Bytes, p: nat, t: nat)
    requires p < |a| <= 16 && t < 8
    ensures ValidFlag(t + 8 * (|a| - p - 1) + 1, |a|)
    ensures BorderShape(Rebuild(a, t + 8 * (|a| - p - 1) + 1), a, p, BorderByte(a[p], t))
  {
    hide BorderByte;
    var m := |a| - p - 1;
    assert (t + 8 * m) / 8 == m && (t + 8 * m) % 8 == t;
  }

  lemma ShapeUnique(r: Bytes, s: Bytes, a: Bytes, b: Bytes, p: nat, x: bv8)
    requires |a| == |b| && BorderShape(r, a, p, x) && BorderShape(s, b, p, x)
    requires forall i :: 0 <= i < p ==> a[i] == b[i]
    ensures r == s
  {
    assert forall i :: 0 <= i < |r| ==> r[i] == s[i];
  }

  lemma ShapeBetween(r: Bytes, a: Bytes, b: Bytes, p: nat, x: bv8)
    requires |a| == |b| && BorderShape(r, a, p, x) && Below(a[p], x) && !Below(b[p], x)
    requires forall i :: 0 <= i < p ==> a[i] == b[i]
    ensures Less(a, r) && Le(r, b)
  {
    LessAt(a, r, p);
    if r != b {
      BorderBelow(r, b, p);
    }
  }

  /** Both addresses yield a border that agrees with them before the cut byte `p` and has `x` there. */
  lemma CutShape(a: Bytes, b: Bytes) returns (p: nat, x: bv8)
    requires |a| == |b| <= 16 && Less(a, b)
    ensures ValidFlag(BorderFlag(a, b), |a|)
    ensures p < |a| && (forall i :: 0 <= i < p ==> a[i] == b[i]) && Below(a[p], x) && !Below(b[p], x)
    ensures BorderShape(Rebuild(a, BorderFlag(a, b)), a, p, x)
    ensures BorderShape(Rebuild(b, BorderFlag(a, b)), b, p, x)
  {
    hide *;
    LessMeans(a, b);
    p := FirstDiff(a, b);
    var t := TopDiff(a[p], b[p], 0);
    TopDiffSplits(a[p], b[p], 0);
    assert BorderFlag(a, b) == t + 8 * (|a| - p - 1) + 1 by { FlagAt(a, b); }
    SplitsMeans(a[p], b[p], t);
    x := BorderByte(a[p], t);
    RebuildAt(a, p, t);
    RebuildAt(b, p, t);
  }

  lemma LessMeans(a: Bytes, b: Bytes)
    requires |a| == |b| && Less(a, b)
    ensures FirstDiff(a, b) < |a| && Below(a[FirstDiff(a, b)], b[FirstDiff(a, b)])
  {
  }

  lemma SplitsMeans(l: bv8, h: bv8, r: nat)
    requires Splits(l, h, r) && Below(l, h)
    ensures r < 8 && BorderByte(l, r) == BorderByte(h, r)
    ensures Below(l, BorderByte(l, r)) && !Below(h, BorderByte(l, r))
  {
  }

  lemma FlagAt(a: Bytes, b: Bytes)
    requires |a| == |b| && FirstDiff(a, b) < |a|
    ensures var p := FirstDiff(a, b); BorderFlag(a, b) == TopDiff(a[p], b[p], 0) + 8 * (|a| - p - 1) + 1
  {
  }

  /**
   The border rebuilt from the last address of one fragment is the border rebuilt from
   the first address of the next, and it separates the two.
   */
  lemma CutMeets(a: Bytes, b: Bytes)
    requires |a| == |b| <= 16 && Less(a, b)
    ensures var f := BorderFlag(a, b);
            && ValidFlag(f, |a|)
            && Rebuild(a, f) == Rebuild(b, f)
            && Less(a, Rebuild(a, f)) && Le(Rebuild(b, f), b)
  {
    hide *;
    var p, x := CutShape(a, b);
    var f := BorderFlag(a, b);
    ShapeUnique(Rebuild(a, f), Rebuild(b, f), a, b, p, x);
    ShapeBetween(Rebuild(a, f), a, b, p, x);
  }

  /** A string that agrees with `b` before `p`, is not above it at `p` and zero after is not above `b`. */
  lemma BorderBelow(r: Bytes, b: Bytes, p: nat)
    requires |r| == |b| && p < |b| && r != b && !Below(b[p], r[p])
    requires forall i :: 0 <= i < p ==> r[i] == b[i]
    requires forall i :: p < i < |r| ==> r[i] == 0
    ensures Less(r, b)
  {
    Trichotomy(r, b);
  }

  /* ---------- the end borders ---------- */

  /** The lower end border never excludes the fragment's first address. */
  lemma EndLowerBelow(first: Bytes, ptrSize: nat)
    ensures Le(EndBorder(first, ptrSize, 0), first)
  {
    var r := EndBorder(first, ptrSize, 0);
    if r != first {
      Trichotomy(r, first);
      var p := FirstDiff(r, first);
      assert r[p] == 0;
    }
  }

  /** The upper end border is above `last` exactly when some overwritten byte was not 0xff already. */
  lemma EndUpperAbove(last: Bytes, ptrSize: nat)
    ensures Less(last, EndBorder(last, ptrSize, 0xff)) <==>
            exists i :: 0 <= i < ptrSize && i < |last| && last[i] != 0xff
  {
    var r := EndBorder(last, ptrSize, 0xff);
    if r != last {
      Trichotomy(r, last);
      var p := FirstDiff(r, last);
      assert r[p] == 0xff && last[p] != 0xff;
      FirstDiffUnique(last, r, p);
    } else {
      LessIrreflexive(last);
      assert forall i :: 0 <= i < ptrSize && i < |last| ==> last[i] == r[i] == 0xff;
    }
  }

  /** With a pointer as wide as the address, the end borders are the two ends of the space. */
  lemma EndBordersCover(addr: Bytes, ptrSize: nat, x: Bytes)
    requires |addr| == |x| <= ptrSize
    ensures Le(EndBorder(addr, ptrSize, 0), x)
    ensures Less(x, EndBorder(addr, ptrSize, 0xff)) <==> x != Fill(|x|, 0xff)
  {
    assert EndBorder(addr, ptrSize, 0) == EndBorder(x, ptrSize, 0);
    EndLowerBelow(x, ptrSize);
    assert EndBorder(addr, ptrSize, 0xff) == EndBorder(x, ptrSize, 0xff);
    EndUpperAbove(x, ptrSize);
  }

  /** A narrower pointer leaves a gap below the first fragment exactly when a kept byte is not zero. */
  lemma EndLowerIsBottom(first: Bytes, ptrSize: nat)
    ensures EndBorder(first, ptrSize, 0) == Fill(|first|, 0) <==>
            forall i :: ptrSize <= i < |first| ==> first[i] == 0
  {
    var r := EndBorder(first, ptrSize, 0);
    if ptrSize < |first| {
      assert forall i :: ptrSize <= i < |first| ==> r[i] == first[i];
    }
    if forall i :: ptrSize <= i < |first| ==> first[i] == 0 {
      assert forall i :: 0 <= i < |r| ==> r[i] == 0;
    } else {
      var i :| ptrSize <= i < |first| && first[i] != 0;
      assert r[i] != 0;
    }
  }
}
