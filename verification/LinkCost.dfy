/** The default link cost of Olsrd/src/lq_plugin_default_ff.c, in fixed point with 10 fraction bits. */
module LinkCost {
  import opened Common
  import Spf

  const MIN_LQ: nat := 25          // (unsigned int)(255 * MINIMAL_USEFUL_LQ)
  const MIN_COST: nat := 1024
  const MAX_COST: nat := 106536

  /** `default_lq_calc_cost_ff` on the two link quality bytes. */
  function CalcCost(lq: nat, nlq: nat): nat
    requires lq < U8 && nlq < U8
  {
    if lq < MIN_LQ || nlq < MIN_LQ then LINK_COST_BROKEN
    else
      assert lq * nlq > 0;
      var cost := 255 * 255 * 1024 / (lq * nlq);
      if cost > LINK_COST_BROKEN then LINK_COST_BROKEN else if cost == 0 then 1 else cost
  }

  /** A link is broken exactly below the quality threshold; any other cost is in a narrow range. */
  lemma CostRange(lq: nat, nlq: nat)
    requires lq < U8 && nlq < U8
    ensures CalcCost(lq, nlq) == LINK_COST_BROKEN <==> lq < MIN_LQ || nlq < MIN_LQ
    ensures CalcCost(lq, nlq) != LINK_COST_BROKEN ==> MIN_COST <= CalcCost(lq, nlq) <= MAX_COST
  {
    if lq >= MIN_LQ && nlq >= MIN_LQ {
      MulBounds(lq, nlq, MIN_LQ, 255);
      DivBounds(255 * 255 * 1024, lq * nlq, MIN_LQ * MIN_LQ, 255 * 255);
    }
  }

  /** The cost is the inverse of the product of both qualities, rounded down: 1024 for two perfect ones. */
  lemma CostExact(lq: nat, nlq: nat)
    requires MIN_LQ <= lq < U8 && MIN_LQ <= nlq < U8
    ensures var c := CalcCost(lq, nlq); c * (lq * nlq) <= 255 * 255 * 1024 < (c + 1) * (lq * nlq)
  {
    CostRange(lq, nlq);
    assert lq * nlq > 0;
    DivTimes(255 * 255 * 1024, lq * nlq);
  }

  lemma DivTimes(x: nat, d: nat)
    requires d > 0
    ensures (x / d) * d <= x < (x / d + 1) * d
  {
  }

  lemma MulBounds(a: nat, b: nat, lo: nat, hi: nat)
    requires lo <= a <= hi && lo <= b <= hi
    ensures lo * lo <= a * b <= hi * hi
  {
    MulMonotone(lo, a, lo);
    MulMonotone(lo, b, a);
    MulMonotone(a, hi, b);
    MulMonotone(b, hi, hi);
  }

  lemma DivBounds(x: nat, d: nat, lo: nat, hi: nat)
    requires 0 < lo <= d <= hi
    ensures x / hi <= x / d <= x / lo
  {
    DivAntitone(x, lo, d);
    DivAntitone(x, d, hi);
  }

  lemma DivAntitone(x: nat, a: nat, b: nat)
    requires 0 < a <= b
    ensures x / b <= x / a
  {
    QuotientAntitone(x, a, b);
  }

  lemma QuotientAntitone(x: nat, a: nat, b: nat)
    requires 0 < a <= b
    ensures Quotient(x, b) <= Quotient(x, a)
  {
    hide Quotient, Times;
    QuotientTimes(x, a);
    QuotientTimes(x, b);
    var p, q := Quotient(x, a), Quotient(x, b);
    TimesMono(q, q, a, b);
    if p < q {
      TimesMono(p + 1, q, a, a);
    }
  }

  lemma QuotientTimes(x: nat, d: nat)
    requires d > 0
    ensures Times(Quotient(x, d), d) <= x < Times(Quotient(x, d) + 1, d)
  {
    DivTimes(x, d);
  }

  lemma TimesMono(p: nat, q: nat, a: nat, b: nat)
    requires p <= q && a <= b
    ensures Times(p, a) <= Times(q, b)
  {
    MulMonotone(p, q, a);
    FactorLess(q, a, b);
  }

  lemma FactorLess(q: nat, a: nat, b: nat)
    requires a <= b
    ensures q * a <= q * b
  {
  }

  /** With default costs, path sums cannot overflow in a mesh of up to 40314 nodes. */
  lemma DefaultCostsFit(g: Spf.Graph, root: Addr)
    requires forall u, e :: u in g && e in g[u] && e.cost != LINK_COST_BROKEN ==> e.cost <= MAX_COST
    requires |g| <= 40314
    ensures Spf.SumsFit(g, root)
  {
    MulMonotone(|g|, 40314, MAX_COST);
    Spf.BoundedCostsFit(g, root, MAX_COST);
  }
}
