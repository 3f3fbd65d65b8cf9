/**
 The mantissa/exponent code of validity times, Olsrd/src/mantissa.c: the byte
 a * 16 + b stands for (1 + a/16) * 2^b sixteenths of a second (sections 3.3.2
 and 18.3 of RFC 3626). Times are in milliseconds.
 */
module Mantissa {
  import opened Common

  function Pow2(n: nat): (r: nat)
    ensures r > 0
  {
    if n == 0 then 1 else 2 * Pow2(n - 1)
  }

  function Unit(b: nat): (r: nat)
    ensures r > 0
  {
    125 * Pow2(b)
  }

  /** A time of exponent `b` lies in [125 * 2^(b-1), 125 * 2^b). */
  ghost predicate HasExponent(t: nat, b: nat) {
    1 <= b && Unit(b - 1) <= t < Unit(b)
  }

  function Decode(me: nat): nat
    requires me < U8
  {
    var a, b := me / 16, me % 16;
    if b >= 8 then Times(16 + a, Pow2(b - 8)) * 1000 else Quotient((16 + a) * 1000, Pow2(8 - b))
  }

  /** `t` lies in the step of the mantissa: (16 + a)/32 * 125 * 2^b <= t < (17 + a)/32 * 125 * 2^b. */
  ghost predicate InStep(t: nat, a: nat, b: nat) {
    (16 + a) * Unit(b) <= 32 * t < (17 + a) * Unit(b)
  }

  /** What the code promises of the byte for `t`: least bits lost, saturation at both ends. */
  ghost predicate Encodes(t: nat, me: nat) {
    && me < U8
    && (t < 125 ==> me == 16)
    && (t >= 4096000 ==> me == 255)
    && (125 <= t < 4096000 ==>
          var a, b := me / 16, me % 16;
          HasExponent(t, b) && InStep(t, a, b))
  }

  /* ---- arithmetic ---- */

  lemma DivBounds(x: nat, d: nat)
    requires d > 0
    ensures x / d * d <= x < x / d * d + d
  {
  }

  lemma Pow2Values()
    ensures Pow2(0) == 1 && Pow2(1) == 2 && Pow2(2) == 4 && Pow2(3) == 8 && Pow2(4) == 16 && Pow2(5) == 32
    ensures Pow2(15) == 32768 && Pow2(16) == 65536
  {
    assert Pow2(10) == 32 * Pow2(5);
    assert Pow2(15) == 32 * Pow2(10);
  }

  lemma {:induction false} Pow2Grows(m: nat, n: nat)
    requires m <= n
    ensures Pow2(m) <= Pow2(n)
    decreases n
  {
    if m < n {
      Pow2Grows(m, n - 1);
    }
  }

  lemma UnitDown(b: nat)
    requires b >= 5
    ensures Unit(b - 1) == 16 * Unit(b - 5) && Unit(b) == 32 * Unit(b - 5)
  {
    assert Pow2(b - 1) == 2 * Pow2(b - 2);
    assert Pow2(b - 2) == 2 * Pow2(b - 3);
    assert Pow2(b - 3) == 2 * Pow2(b - 4);
  }

  lemma DivPart(x: nat, d: nat, a: nat)
    requires d > 0 && a == x / d && x < 16 * d
    ensures a < 16 && a * d <= x < a * d + d
  {
    DivBounds(x, d);
    if a >= 16 {
      MulMonotone(16, a, d);
    }
  }

  lemma MulShift(c: nat, a: nat, d: nat)
    ensures (c + a) * (32 * d) == 32 * (c * d) + 32 * (a * d)
  {
  }

  /* ---- encoding ---- */

  /** The large exponents: one division by a shifted 125. */
  lemma FractionLarge(t: nat, b: nat, a: nat)
    requires HasExponent(t, b) && b >= 5 && a == (t - Unit(b - 1)) / Unit(b - 5)
    ensures a < 16 && InStep(t, a, b)
  {
    hide Unit;
    UnitDown(b);
    var d := Unit(b - 5);
    DivPart(t - 16 * d, d, a);
    MulShift(16, a, d);
    MulShift(17, a, d);
  }

  /** The small exponents: a multiplication first. */
  lemma FractionSmall(t: nat, b: nat, a: nat)
    requires HasExponent(t, b) && b < 5 && a == (t - Unit(b - 1)) * Pow2(5 - b) / 125
    ensures a < 16 && InStep(t, a, b)
  {
    hide Pow2;
    Pow2Values();
    DivPart((t - Unit(b - 1)) * Pow2(5 - b), 125, a);
  }

  /** The even number compared in the search passes a power of two exactly when the time passes its unit. */
  lemma UnscaledBelow(t: nat, b: nat)
    ensures t / 125 * 2 < Pow2(b + 1) <==> t < Unit(b)
  {
    DivBounds(t, 125);
    assert Pow2(b + 1) == 2 * Pow2(b);
    assert t / 125 < Pow2(b) <==> t < 125 * Pow2(b);
  }

  /** The exponent search of `reltime_to_me`. */
  method FindExponent(t: nat) returns (b: int)
    ensures b == -1 <==> t < 125
    ensures b != -1 ==> b >= 1 && HasExponent(t, b)
  {
    hide Pow2, Unit;
    Pow2Values();
    var u := t / 125 * 2;
    b := 0;
    while u >= Pow2(b)
      invariant b >= 0 && (b > 0 ==> u >= Pow2(b - 1))
      decreases u + 1 - Pow2(b)
    {
      Pow2Step(b);
      b := b + 1;
    }
    b := b - 1;
    if b >= 0 {
      assert b >= 1;
      UnscaledBelow(t, b);
      UnscaledBelow(t, b - 1);
    }
  }

  lemma Pow2Step(b: nat)
    ensures Pow2(b + 1) == 2 * Pow2(b)
  {
  }

  lemma ExponentRange(t: nat, b: nat)
    requires HasExponent(t, b)
    ensures 125 <= t && (b <= 15 <==> t < 4096000)
  {
    hide Pow2;
    Pow2Values();
    Pow2Grows(0, b - 1);
    if b <= 15 {
      Pow2Grows(b, 15);
    } else {
      Pow2Grows(15, b - 1);
    }
  }

  /** `reltime_to_me`. */
  method ReltimeToMe(t: nat) returns (me: nat)
    ensures Encodes(t, me)
  {
    hide Pow2, Unit, InStep;
    var b := FindExponent(t);
    if b == -1 {
      return 16;
    }
    ExponentRange(t, b);
    if b > 15 {
      return 255;
    }
    var a;
    if b >= 5 {
      a := (t - Unit(b - 1)) / Unit(b - 5);
      FractionLarge(t, b, a);
    } else {
      a := (t - Unit(b - 1)) * Pow2(5 - b) / 125;
      FractionSmall(t, b, a);
    }
    b := b + a / 16;
    a := a % 16;
    me := a * 16 + b % 16;
    assert me / 16 == a && me % 16 == b;
  }

  /* ---- decoding ---- */

  lemma Pow2More()
    ensures Pow2(6) == 64 && Pow2(7) == 128 && Pow2(8) == 256
  {
    assert Pow2(6) == 2 * Pow2(5);
    Pow2Values();
  }

  /** `me_to_reltime` is (16 + a)/32 * 125 * 2^b, rounded down. */
  lemma DecodeExact(me: nat)
    requires me < U8
    ensures Decode(me) == (16 + me / 16) * Unit(me % 16) / 32
  {
    if me % 16 >= 8 {
      DecodeLarge(16 + me / 16, me % 16);
    } else {
      DecodeSmall(16 + me / 16, me % 16);
    }
  }

  lemma DecodeLarge(x: nat, b: nat)
    requires b >= 8
    ensures x * Pow2(b - 8) * 1000 == x * Unit(b) / 32
  {
    UnitDown(b);
    assert Pow2(b - 5) == 2 * Pow2(b - 6);
    assert Pow2(b - 6) == 2 * Pow2(b - 7);
    hide Pow2;
    var q := Pow2(b - 8);
    assert Unit(b) == 32000 * q;
    MulRegroup(x, q);
  }

  lemma MulRegroup(x: nat, q: nat)
    ensures x * (32000 * q) == 32 * (x * q * 1000)
  {
    assert x * (32000 * q) == 32000 * (x * q);
  }

  lemma LossBound(x: nat, u: nat, t: nat, d: nat)
    requires x <= 32 * t < x + u && u <= 2 * t && d == x / 32
    ensures t - (t / 16 + 1) <= d <= t
  {
  }

  lemma DecodeSmall(x: nat, b: nat)
    requires b < 8
    ensures x * 1000 / Pow2(8 - b) == x * Unit(b) / 32
  {
    hide Pow2;
    Pow2Values();
    Pow2More();
  }

  /** Decoding what was encoded loses at most a sixteenth, rounded up, and gains nothing. */
  lemma RoundTripLoss(t: nat, me: nat)
    requires Encodes(t, me) && 125 <= t < 4096000
    ensures t - (t / 16 + 1) <= Decode(me) <= t
  {
    hide Unit, Decode, InStep;
    DecodeExact(me);
    StepLoss(t, me / 16, me % 16);
  }

  lemma StepLoss(t: nat, a: nat, b: nat)
    requires HasExponent(t, b) && InStep(t, a, b)
    ensures t - (t / 16 + 1) <= (16 + a) * Unit(b) / 32 <= t
  {
    assert Unit(b) == 2 * Unit(b - 1);
    hide Unit;
    MulNext(16 + a, Unit(b));
    LossBound((16 + a) * Unit(b), Unit(b), t, (16 + a) * Unit(b) / 32);
  }

  lemma MulNext(x: nat, u: nat)
    ensures (x + 1) * u == x * u + u
  {
  }

  /** Outside that range the code saturates. */
  lemma RoundTripEnds(t: nat, me: nat)
    requires Encodes(t, me)
    ensures t < 125 ==> Decode(me) == 66
    ensures t >= 4096000 ==> Decode(me) == 3968000
  {
    hide Pow2;
    Pow2Values();
    Pow2More();
    assert Pow2(7) == 128;
  }

  /** A time of a larger exponent is at least the next power, one of a smaller exponent decodes below it. */
  lemma DecodeWithin(t: nat, me: nat)
    requires Encodes(t, me) && 125 <= t < 4096000
    ensures Unit(me % 16 - 1) <= Decode(me) < Unit(me % 16)
  {
    DecodeExact(me);
    var a, b := me / 16, me % 16;
    assert Unit(b) == 2 * Unit(b - 1);
    hide Unit, Decode;
    MulMonotone(16, 16 + a, Unit(b));
    MulMonotone(16 + a, 31, Unit(b));
  }

  lemma SameExponent(t: nat, t': nat, me: nat, me': nat)
    requires Encodes(t, me) && Encodes(t', me') && 125 <= t <= t' < 4096000 && me % 16 == me' % 16
    ensures Decode(me) <= Decode(me')
  {
    DecodeExact(me);
    DecodeExact(me');
    hide Unit, Decode;
    var a, a', u := me / 16, me' / 16, Unit(me % 16);
    if a > a' {
      MulMonotone(17 + a', 16 + a, u);
    }
    MulMonotone(16 + a, 16 + a', u);
  }

  lemma ExponentOrder(t: nat, t': nat, b: nat, b': nat)
    requires HasExponent(t, b) && HasExponent(t', b') && t <= t'
    ensures b <= b' && (b < b' ==> Unit(b) <= Unit(b' - 1))
  {
    if b' < b {
      Pow2Grows(b', b - 1);
    } else if b < b' {
      Pow2Grows(b, b' - 1);
    }
  }

  /** Encoding followed by decoding is monotone over all times. */
  lemma RoundTripMonotone(t: nat, t': nat, me: nat, me': nat)
    requires Encodes(t, me) && Encodes(t', me') && t <= t'
    ensures Decode(me) <= Decode(me')
  {
    hide Unit, Decode, Encodes;
    RoundTripEnds(t, me);
    RoundTripEnds(t', me');
    if 125 <= t && t' < 4096000 {
      EncodedExponent(t, me);
      EncodedExponent(t', me');
      ExponentOrder(t, t', me % 16, me' % 16);
      if me % 16 == me' % 16 {
        SameExponent(t, t', me, me');
      } else {
        DecodeWithin(t, me);
        DecodeWithin(t', me');
      }
    } else if 125 <= t < 4096000 {
      RoundTripCeiling(t, me);
    } else if 125 <= t' < 4096000 {
      EncodedExponent(t', me');
      DecodeWithin(t', me');
      UnitAtLeast(me' % 16 - 1);
    }
  }

  lemma EncodedExponent(t: nat, me: nat)
    requires Encodes(t, me) && 125 <= t < 4096000
    ensures me < U8 && HasExponent(t, me % 16)
  {
  }

  lemma UnitAtLeast(b: nat)
    ensures Unit(b) >= 125
  {
  }

  lemma RoundTripCeiling(t: nat, me: nat)
    requires Encodes(t, me) && 125 <= t < 4096000
    ensures Decode(me) <= 3968000
  {
    DecodeExact(me);
    var a, b := me / 16, me % 16;
    Pow2Values();
    Pow2Grows(b, 15);
    hide Pow2, Decode;
    MulMonotone(16 + a, 31, Unit(b));
  }

  /** The byte is determined by the time. */
  lemma EncodesUnique(t: nat, me: nat, me': nat)
    requires Encodes(t, me) && Encodes(t, me')
    ensures me == me'
  {
    if 125 <= t < 4096000 {
      ExponentOrder(t, t, me % 16, me' % 16);
      ExponentOrder(t, t, me' % 16, me % 16);
      hide Unit;
      var u := Unit(me % 16);
      if me / 16 < me' / 16 {
        MulMonotone(17 + me / 16, 16 + me' / 16, u);
      } else if me' / 16 < me / 16 {
        MulMonotone(17 + me' / 16, 16 + me / 16, u);
      }
    }
  }

  /* ---- the bytes that survive decoding and encoding again ---- */

  /** The bytes whose time is a whole number of milliseconds, and the byte for the shortest times. */
  predicate Survives(me: nat)
    requires me < U8
  {
    var a, b := me / 16, me % 16;
    b >= 5 || (b >= 1 && a % Pow2(5 - b) == 0) || me == 16
  }

  lemma DecodedExponent(a: nat, b: nat)
    requires a < 16 && 1 <= b <= 15
    ensures var t := Times(16 + a, Unit(b)) / 32; HasExponent(t, b) && 125 <= t < 4096000
  {
    assert Unit(b) == 2 * Unit(b - 1);
    var t := Times(16 + a, Unit(b)) / 32;
    UnitAtLeast(b - 1);
    assert HasExponent(t, b) by {
      hide Unit;
      MulMonotone(16, 16 + a, Unit(b));
      MulMonotone(16 + a, 31, Unit(b));
    }
    hide Unit;
    ExponentRange(t, b);
  }

  /** A floored quotient lies in its own step exactly when nothing was cut off. */
  lemma OwnStep(a: nat, b: nat)
    ensures var x := (16 + a) * Unit(b); InStep(x / 32, a, b) <==> x % 32 == 0
  {
    hide Unit;
    MulNext(16 + a, Unit(b));
    DivBounds((16 + a) * Unit(b), 32);
  }

  lemma LargeWhole(a: nat, b: nat)
    requires b >= 5
    ensures (16 + a) * Unit(b) % 32 == 0
  {
    UnitDown(b);
    hide Unit;
    MulShift(16, a, Unit(b - 5));
    WholeMultiple(16 * Unit(b - 5) + a * Unit(b - 5));
  }

  lemma WholeMultiple(k: int)
    ensures 32 * k % 32 == 0
  {
  }

  lemma SmallWhole(a: nat, b: nat)
    requires a < 16 && 1 <= b < 5
    ensures (16 + a) * Unit(b) % 32 == 0 <==> a % Pow2(5 - b) == 0
  {
    hide Pow2;
    Pow2Values();
    match b {
      case 1 => Whole1(a);
      case 2 => Whole2(a);
      case 3 => Whole3(a);
      case _ => Whole4(a);
    }
  }

  lemma Whole1(a: nat)
    requires a < 16
    ensures (16 + a) * 250 % 32 == 0 <==> a % 16 == 0
  {
  }

  lemma Whole2(a: nat)
    requires a < 16
    ensures (16 + a) * 500 % 32 == 0 <==> a % 8 == 0
  {
  }

  lemma Whole3(a: nat)
    requires a < 16
    ensures (16 + a) * 1000 % 32 == 0 <==> a % 4 == 0
  {
    var q, r := a / 4, a % 4;
    assert (16 + a) * 1000 == 32 * (500 + 125 * q + 31 * r) + 8 * r;
    RestMod(500 + 125 * q + 31 * r, 8 * r);
  }

  lemma RestMod(k: int, r: nat)
    requires r < 32
    ensures (32 * k + r) % 32 == r
  {
  }

  lemma Whole4(a: nat)
    requires a < 16
    ensures (16 + a) * 2000 % 32 == 0 <==> a % 2 == 0
  {
  }

  /** Encoding a decoded byte gives the byte back exactly for these bytes. */
  lemma ByteRoundTrip(me: nat)
    requires me < U8
    ensures Encodes(Decode(me), me) <==> Survives(me)
  {
    hide Unit, InStep, Pow2, HasExponent, Decode;
    var a, b := me / 16, me % 16;
    DecodeExact(me);
    if b == 0 {
      assert Unit(0) == 125 by { UnitZero(); }
    } else {
      DecodedExponent(a, b);
      OwnStep(a, b);
      if b >= 5 {
        LargeWhole(a, b);
      } else {
        SmallWhole(a, b);
      }
    }
  }

  lemma UnitZero()
    ensures Unit(0) == 125
  {
  }
}
