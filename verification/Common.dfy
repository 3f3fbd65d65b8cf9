/** Types and constants shared by the routing modules. */
module Common {

  /** An IP address: 4 or 16 bytes in network byte order (`union olsr_ip_addr`). */
  datatype Addr = Addr(bytes: seq<bv8>)

  datatype Option<+T> = None | Some(value: T)

  const LINK_COST_BROKEN: nat := 0x40_0000
  const ROUTE_COST_BROKEN: nat := 0xffff_ffff
  const U32: nat := 0x1_0000_0000
  const U16: nat := 0x1_0000
  const U8: nat := 0x100

  /** A local link to a neighbour: the neighbour's interface address and our interface. */
  datatype Link = Link(gateway: Addr, ifIndex: int)

  ghost predicate NoDup<T>(s: seq<T>) {
    forall i, j :: 0 <= i < j < |s| ==> s[i] != s[j]
  }

  function Elems<T>(s: seq<T>): (r: set<T>) {
    set x | x in s
  }

  /** A sequence without repetition is as long as its set of elements. */
  lemma {:induction false} NoDupSize<T>(s: seq<T>)
    requires NoDup(s)
    ensures |Elems(s)| == |s|
  {
    if s != [] {
      NoDupSize(s[1..]);
      assert Elems(s) == {s[0]} + Elems(s[1..]) by {
        assert s == [s[0]] + s[1..];
      }
      assert s[0] !in Elems(s[1..]);
    }
  }

  lemma NoDupFits<T>(s: seq<T>, universe: set<T>)
    requires NoDup(s) && Elems(s) <= universe
    ensures |s| <= |universe|
  {
    NoDupSize(s);
    SubsetSize(Elems(s), universe);
  }

  lemma {:induction false} SubsetSize<T>(a: set<T>, b: set<T>)
    requires a <= b
    ensures |a| <= |b|
    ensures |a| == |b| ==> a == b
  {
    if a != {} {
      var x :| x in a;
      SubsetSize(a - {x}, b - {x});
    }
  }

  lemma MulMonotone(a: nat, b: nat, c: nat)
    requires a <= b
    ensures a * c <= b * c
  {
  }

  lemma PutSize<K, V>(m: map<K, V>, k: K, v: V)
    ensures |m[k := v]| == |m| + if k in m then 0 else 1
  {
    assert m[k := v].Keys == m.Keys + {k};
  }

  lemma DropSize<K, V>(m: map<K, V>, k: K)
    ensures |m - {k}| == |m| - if k in m then 1 else 0
  {
    assert (m - {k}).Keys == m.Keys - {k};
  }

  function IndexOf<T(==)>(s: seq<T>, x: T): (i: nat)
    requires x in s
    ensures i < |s| && s[i] == x
  {
    if s[0] == x then 0 else 1 + IndexOf(s[1..], x)
  }

  /** Unlinking one element of a list. */
  function Remove<T(==)>(s: seq<T>, x: T): seq<T>
    requires x in s
  {
    s[..IndexOf(s, x)] + s[IndexOf(s, x) + 1..]
  }

  lemma RemoveElems<T>(s: seq<T>, x: T)
    requires x in s && NoDup(s)
    ensures forall y :: y in Remove(s, x) <==> y in s && y != x
    ensures NoDup(Remove(s, x)) && |Remove(s, x)| == |s| - 1
  {
    var i := IndexOf(s, x);
    assert s == s[..i] + [x] + s[i + 1..];
  }

  lemma NoDupCons<T>(x: T, s: seq<T>)
    requires NoDup(s) && x !in s
    ensures NoDup([x] + s)
  {
  }

  lemma Pick<T>(s: set<T>) returns (x: T)
    requires s != {}
    ensures x in s
  {
    x :| x in s;
  }

  lemma SameSize<T>(a: set<T>, b: set<T>)
    requires a <= b && |a| == |b|
    ensures a == b
  {
    forall x | x in b ensures x in a {
      if x !in a {
        SubsetSize(a, b - {x});
      }
    }
  }

  lemma Assoc<T>(a: seq<T>, b: seq<T>, c: seq<T>)
    ensures (a + b) + c == a + (b + c)
  {
  }

  /** A product and a quotient behind a name, to keep nonlinear terms out of larger proofs. */
  function Times(x: nat, y: nat): nat {
    x * y
  }

  function Quotient(x: nat, d: nat): nat
    requires d > 0
  {
    x / d
  }
}
