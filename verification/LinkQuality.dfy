/** Link quality in fixed point: an exponential moving average of received HELLOs, in 32-bit arithmetic, and the link
    cost it gives. */
module LinkQuality {
  import opened Common

  const INTERNAL_MULTIPLIER: nat := 65535
  const LINKCOST_MULTIPLIER: nat := 65535
  const LINK_LOSS_MULTIPLIER: nat := 65536
  const QUICKSTART_STEPS: nat := 12
  const WORD: nat := 0x1_0000_0000

  // ---------- Arithmetic ----------

  function CeilDiv(x: nat, d: nat): nat
    requires d > 0
  {
    (x + d - 1) / d
  }

  lemma CeilDivAtMost(x: nat, d: nat, q: nat)
    requires d > 0
    ensures CeilDiv(x, d) <= q <==> x <= q * d
  {
    var c := CeilDiv(x, d);
    assert c * d <= x + d - 1 < c * d + d by {
      DivMod(x + d - 1, d);
    }
    if c <= q {
      MulMonotone(c, q, d);
    } else {
      MulMonotone(q, c - 1, d);
      assert (c - 1) * d == c * d - d;
    }
  }

  /** What 32 bits keep of a result. */
  function U32(x: nat): nat {
    x % WORD
  }

  // ---------- One HELLO ----------

  /** The weights of the new and the old value, later on and in the first steps. */
  datatype Aging = Aging(factorNew: nat, factorOld: nat, quickstartNew: nat, quickstartOld: nat)

  predicate AgingOk(g: Aging) {
    g.factorNew + g.factorOld == INTERNAL_MULTIPLIER && g.quickstartNew + g.quickstartOld == INTERNAL_MULTIPLIER
  }

  /** default_lq_initialize_fpm, without the rounding of the float product. */
  method Initialize(aging: real) returns (g: Aging)
    requires 0.0 <= aging <= 1.0
    ensures AgingOk(g) && g.factorNew as real <= aging * INTERNAL_MULTIPLIER as real < g.factorNew as real + 1.0
    ensures 4 * g.quickstartNew <= INTERNAL_MULTIPLIER < 4 * (g.quickstartNew + 1)
  {
    var factorNew, quickstartNew := (aging * INTERNAL_MULTIPLIER as real).Floor, INTERNAL_MULTIPLIER / 4;
    g := Aging(factorNew, INTERNAL_MULTIPLIER - factorNew, quickstartNew, INTERNAL_MULTIPLIER - quickstartNew);
  }

  /** The old value, weighed. */
  function Aged(lq: nat, alpha: nat): nat
    requires lq <= 255 && alpha <= INTERNAL_MULTIPLIER
  {
    CeilDiv(lq * 257 * (INTERNAL_MULTIPLIER - alpha), INTERNAL_MULTIPLIER)
  }

  /** The average after one HELLO, received or lost, in unbounded arithmetic. */
  function Next(lq: nat, alpha: nat, multiplier: nat, lost: bool): nat
    requires lq <= 255 && alpha <= INTERNAL_MULTIPLIER
  {
    var value := Aged(lq, alpha) + if lost then 0 else CeilDiv(alpha * multiplier, LINK_LOSS_MULTIPLIER);
    CeilDiv(value * 255, INTERNAL_MULTIPLIER)
  }

  /** The part of the loss multiplier in 32 bits, where the product may wrap. */
  function Ratio32(alpha: nat, multiplier: nat): nat {
    U32(alpha * multiplier + LINK_LOSS_MULTIPLIER - 1) / LINK_LOSS_MULTIPLIER
  }

  /** The average after one HELLO in 32-bit arithmetic, before it is cut to a byte. */
  function Next32(lq: nat, alpha: nat, multiplier: nat, lost: bool): nat
    requires lq <= 255 && alpha <= INTERNAL_MULTIPLIER
  {
    CeilDiv((Aged(lq, alpha) + if lost then 0 else Ratio32(alpha, multiplier)) * 255, INTERNAL_MULTIPLIER)
  }

  lemma WeighedAtMost(x: nat, weight: nat)
    requires x <= INTERNAL_MULTIPLIER
    ensures x * weight <= INTERNAL_MULTIPLIER * weight && CeilDiv(x * weight, INTERNAL_MULTIPLIER) <= weight
  {
    hide CeilDiv;
    MulMonotone(x, 65535, weight);
    CeilDivAtMost(x * weight, 65535, weight);
  }

  /** The two parts of the average stay within their weights. */
  lemma AgedBound(lq: nat, alpha: nat)
    requires lq <= 255 && alpha <= INTERNAL_MULTIPLIER
    ensures Aged(lq, alpha) <= INTERNAL_MULTIPLIER - alpha && Aged(lq, alpha) <= 257 * lq
    ensures lq * 257 * (INTERNAL_MULTIPLIER - alpha) <= 65535 * 65535
  {
    hide CeilDiv;
    var scaled, weight := lq * 257, INTERNAL_MULTIPLIER - alpha;
    WeighedAtMost(scaled, weight);
    WeighedAtMost(weight, scaled);
    assert scaled * weight == weight * scaled;
  }

  lemma RatioBound(alpha: nat, multiplier: nat)
    requires alpha <= INTERNAL_MULTIPLIER && multiplier <= LINK_LOSS_MULTIPLIER
    ensures CeilDiv(alpha * multiplier, LINK_LOSS_MULTIPLIER) <= alpha && alpha * multiplier <= 65535 * 65536
    ensures multiplier == LINK_LOSS_MULTIPLIER ==> CeilDiv(alpha * multiplier, LINK_LOSS_MULTIPLIER) == alpha
  {
    MulMonotone(multiplier, 65536, alpha);
    assert alpha * multiplier == multiplier * alpha && alpha * 65536 == 65536 * alpha;
    CeilDivAtMost(alpha * multiplier, 65536, alpha);
    if multiplier == 65536 && alpha > 0 {
      CeilDivAtMost(alpha * multiplier, 65536, alpha - 1);
    }
  }

  lemma PerfectAged(alpha: nat)
    requires alpha <= INTERNAL_MULTIPLIER
    ensures Aged(255, alpha) == INTERNAL_MULTIPLIER - alpha
  {
    hide CeilDiv;
    var weight := INTERNAL_MULTIPLIER - alpha;
    CeilDivAtMost(65535 * weight, 65535, weight);
    if weight > 0 {
      CeilDivAtMost(65535 * weight, 65535, weight - 1);
    }
  }

  /** What the average is: the old value and the loss multiplier (in 65536ths of 255), weighed by 65535 - alpha and
      alpha. It is never below that mean and exceeds it by less than two. */
  lemma NextIsMean(lq: nat, alpha: nat, multiplier: nat, lost: bool, x: nat, y: nat)
    requires lq <= 255 && alpha <= INTERNAL_MULTIPLIER && x == lq * 257 * (65535 - alpha) && y == alpha * multiplier
    ensures var mean, one := 65536 * x + (if lost then 0 else 65535 * y), 257 * 65535 * 65536;
            mean <= one * Next(lq, alpha, multiplier, lost) < mean + 2 * one
  {
    var aged, ratio := CeilDiv(x, 65535), if lost then 0 else CeilDiv(y, 65536);
    assert Next(lq, alpha, multiplier, lost) == CeilDiv((aged + ratio) * 255, 65535);
    CeilBetween(x, 65535);
    CeilBetween(y, 65536);
    CeilBetween((aged + ratio) * 255, 65535);
    hide CeilDiv, Next;
    MeanBounds(x, if lost then 0 else y, aged, ratio, Next(lq, alpha, multiplier, lost));
  }

  lemma MeanBounds(x: nat, y: nat, aged: nat, ratio: nat, next: nat)
    requires x <= aged * 65535 < x + 65535 && y <= ratio * 65536 < y + 65536
    requires (aged + ratio) * 255 <= next * 65535 < (aged + ratio) * 255 + 65535
    ensures 65536 * x + 65535 * y <= 257 * 65535 * 65536 * next < 65536 * x + 65535 * y + 2 * 257 * 65535 * 65536
  {
  }

  lemma CeilBetween(x: nat, d: nat)
    requires d > 0
    ensures x <= CeilDiv(x, d) * d < x + d
  {
    DivMod(x + d - 1, d);
  }

  /** A received HELLO leaves every average within a byte exactly if the ratio is at most the weight. */
  lemma StaysByteIff(alpha: nat, multiplier: nat)
    requires alpha <= INTERNAL_MULTIPLIER
    ensures (forall lq: nat :: lq <= 255 ==> Next32(lq, alpha, multiplier, false) <= 255)
            <==> Ratio32(alpha, multiplier) <= alpha
  {
    hide Aged, CeilDiv, Ratio32;
    var ratio := Ratio32(alpha, multiplier);
    forall lq: nat | lq <= 255
      ensures ratio <= alpha ==> Next32(lq, alpha, multiplier, false) <= 255
      ensures lq == 255 && Next32(lq, alpha, multiplier, false) <= 255 ==> ratio <= alpha
    {
      AgedBound(lq, alpha);
      PerfectAged(alpha);
      CeilDivAtMost((Aged(lq, alpha) + ratio) * 255, 65535, 255);
    }
    assert ratio > alpha ==> Next32(255, alpha, multiplier, false) > 255;
  }

  lemma NoWrap(x: nat)
    requires x + LINK_LOSS_MULTIPLIER <= WORD
    ensures U32(x + LINK_LOSS_MULTIPLIER - 1) / LINK_LOSS_MULTIPLIER == CeilDiv(x, LINK_LOSS_MULTIPLIER)
  {
  }

  lemma ProductAtMost(alpha: nat, multiplier: nat)
    ensures alpha * multiplier <= alpha * LINK_LOSS_MULTIPLIER <==> alpha == 0 || multiplier <= LINK_LOSS_MULTIPLIER
  {
    assert alpha * multiplier == multiplier * alpha;
    if multiplier <= 65536 {
      MulMonotone(multiplier, 65536, alpha);
    } else {
      MulMonotone(65537, multiplier, alpha);
    }
  }

  /** As long as the product does not wrap, that means a multiplier of at most one, or no weight. */
  lemma RatioWithoutWrap(alpha: nat, multiplier: nat)
    requires alpha * multiplier + LINK_LOSS_MULTIPLIER <= WORD
    ensures Ratio32(alpha, multiplier) == CeilDiv(alpha * multiplier, LINK_LOSS_MULTIPLIER)
    ensures Ratio32(alpha, multiplier) <= alpha <==> alpha == 0 || multiplier <= LINK_LOSS_MULTIPLIER
  {
    hide CeilDiv, U32;
    NoWrap(alpha * multiplier);
    CeilDivAtMost(alpha * multiplier, 65536, alpha);
    ProductAtMost(alpha, multiplier);
  }

  /** A multiplier of two makes the quality of a perfect link leave the byte; one of a little over four wraps to nothing
      in the first steps. */
  lemma LargeMultipliers()
    ensures Next32(255, INTERNAL_MULTIPLIER / 4, 2 * LINK_LOSS_MULTIPLIER, false) == 319
    ensures Ratio32(INTERNAL_MULTIPLIER / 4, 4 * LINK_LOSS_MULTIPLIER + 13) == 0
  {
  }

  /** Up to a multiplier of one nothing wraps. */
  lemma NextFits(lq: nat, alpha: nat, multiplier: nat, lost: bool)
    requires lq <= 255 && alpha <= INTERNAL_MULTIPLIER && multiplier <= LINK_LOSS_MULTIPLIER
    ensures Next32(lq, alpha, multiplier, lost) == Next(lq, alpha, multiplier, lost) <= 255
  {
    hide Aged, CeilDiv, Ratio32;
    RatioBound(alpha, multiplier);
    RatioWithoutWrap(alpha, multiplier);
    NextBound(lq, alpha, multiplier, lost);
  }

  /** The average stays a byte. */
  lemma NextBound(lq: nat, alpha: nat, multiplier: nat, lost: bool)
    requires lq <= 255 && alpha <= INTERNAL_MULTIPLIER && multiplier <= LINK_LOSS_MULTIPLIER
    ensures Next(lq, alpha, multiplier, lost) <= 255
  {
    AgedBound(lq, alpha);
    RatioBound(alpha, multiplier);
    hide Aged, CeilDiv;
    var value := Aged(lq, alpha) + if lost then 0 else CeilDiv(alpha * multiplier, LINK_LOSS_MULTIPLIER);
    CeilDivAtMost(value * 255, 65535, 255);
  }

  /** A lost HELLO never raises the average. */
  lemma LostNeverRaises(lq: nat, alpha: nat, multiplier: nat)
    requires lq <= 255 && alpha <= INTERNAL_MULTIPLIER
    ensures Next(lq, alpha, multiplier, true) <= lq
  {
    AgedBound(lq, alpha);
    CeilDivAtMost(Aged(lq, alpha) * 255, 65535, lq);
  }

  /** At the full multiplier and a non-zero weight, a received HELLO raises the average until it is at its maximum. */
  lemma ReceivedRaises(lq: nat, alpha: nat)
    requires lq <= 255 && 0 < alpha <= INTERNAL_MULTIPLIER
    ensures lq < 255 ==> Next(lq, alpha, LINK_LOSS_MULTIPLIER, false) > lq
    ensures lq == 255 ==> Next(lq, alpha, LINK_LOSS_MULTIPLIER, false) == 255
  {
    NextBound(lq, alpha, LINK_LOSS_MULTIPLIER, false);
    RatioBound(alpha, LINK_LOSS_MULTIPLIER);
    var aged := Aged(lq, alpha);
    AgedAtLeast(lq, alpha);
    assert Next(lq, alpha, LINK_LOSS_MULTIPLIER, false) == CeilDiv((aged + alpha) * 255, 65535);
    if lq < 255 {
      CeilDivAtMost((aged + alpha) * 255, 65535, lq);
    } else {
      CeilDivAtMost((aged + alpha) * 255, 65535, 254);
    }
  }

  /** What the weight takes away from the old value is less than what it adds. */
  lemma AgedAtLeast(lq: nat, alpha: nat)
    requires lq <= 255 && 0 < alpha <= INTERNAL_MULTIPLIER
    ensures lq < 255 ==> Aged(lq, alpha) + alpha > 257 * lq
    ensures lq == 255 ==> Aged(lq, alpha) + alpha >= 65535
  {
    var x, weight := lq * 257, 65535 - alpha;
    var aged := Aged(lq, alpha);
    CeilDivAtMost(x * weight, 65535, aged);
    assert x * weight == x * 65535 - x * alpha;
    if lq < 255 {
      MulMonotone(x, 65534, alpha);
    }
  }

  // ---------- The worker ----------

  function Quotient(x: nat, d: nat): nat
    requires d > 0
  {
    x / d
  }

  /** The cost of a link: broken below a quality of a tenth, otherwise between 1 and a broken link. */
  function CalcCost(valueLq: nat, valueNlq: nat): (cost: LinkCost)
    ensures 1 <= cost <= LINK_COST_BROKEN
  {
    if valueLq < 25 || valueNlq < 25 then LINK_COST_BROKEN
    else
      var cost := Quotient(Quotient(LINKCOST_MULTIPLIER * 255, valueLq) * 255, valueNlq);
      if cost > LINK_COST_BROKEN then LINK_COST_BROKEN else if cost == 0 then 1 else cost
  }

  /** What the cost is of two qualities above a tenth: 65535 times (255 / lq) * (255 / nlq), short by less than one and
      what the first of two divisions lost. */
  lemma CostExact(lq: nat, nlq: nat)
    requires 25 <= lq <= 255 && 25 <= nlq <= 255 && CalcCost(lq, nlq) < LINK_COST_BROKEN
    ensures var cost := CalcCost(lq, nlq);
            cost * (lq * nlq) <= 65535 * 255 * 255 < (cost + 1) * (lq * nlq) + 255 * lq
  {
    var half, cost := Quotient(65535 * 255, lq), CalcCost(lq, nlq);
    DivMod(65535 * 255, lq);
    QuotientBetween(half * 255, nlq);
    QuotientAtLeast(half * 255, nlq, 1);
    QuotientAtLeast(65535 * 255, lq, 65535);
    assert cost == Quotient(half * 255, nlq);
    ChainedQuotients(65535 * 255, lq, half, nlq, cost);
  }

  lemma QuotientBetween(x: nat, d: nat)
    requires d > 0
    ensures Quotient(x, d) * d <= x < (Quotient(x, d) + 1) * d
  {
    DivMod(x, d);
    assert (x / d + 1) * d == (x / d) * d + d;
  }

  lemma ChainedQuotients(x: nat, a: nat, half: nat, b: nat, q: nat)
    requires half * a <= x < half * a + a && q * b <= half * 255 < (q + 1) * b
    ensures q * (a * b) <= x * 255 < (q + 1) * (a * b) + 255 * a
  {
    MulMonotone(q * b, half * 255, a);
    MulMonotone(half * 255, (q + 1) * b, a);
    Reordered(q, a, b);
    Reordered(q + 1, a, b);
    Reordered(half, a, 255);
  }

  lemma Reordered(x: nat, a: nat, b: nat)
    ensures x * b * a == x * (a * b) && x * b * a == x * a * b
  {
  }

  /** A link is broken exactly if one of its qualities is below a tenth, or its cost would be that of a broken link. */
  lemma CostBrokenIff(lq: nat, nlq: nat)
    ensures CalcCost(lq, nlq) == LINK_COST_BROKEN <==>
            lq < 25 || nlq < 25 || LINK_COST_BROKEN * nlq <= 65535 * 255 / lq * 255
  {
    if lq >= 25 && nlq >= 25 {
      QuotientAtLeast(65535 * 255 / lq * 255, nlq, LINK_COST_BROKEN);
    }
  }

  /** A better link never costs more, whichever of its qualities is better. */
  lemma CostAntitone(lq: nat, better: nat, nlq: nat, betterNlq: nat)
    requires lq <= better && nlq <= betterNlq
    ensures CalcCost(better, betterNlq) <= CalcCost(lq, nlq)
  {
    if lq >= 25 && nlq >= 25 {
      QuotientAntitone(LINKCOST_MULTIPLIER * 255, lq, better);
      QuotientMonotone(Quotient(LINKCOST_MULTIPLIER * 255, better) * 255,
                       Quotient(LINKCOST_MULTIPLIER * 255, lq) * 255, betterNlq);
      QuotientAntitone(Quotient(LINKCOST_MULTIPLIER * 255, lq) * 255, nlq, betterNlq);
      hide Quotient;
    }
  }

  // But for the product with the loss multiplier, no intermediate result exceeds 32 bits.

  lemma ScaleFits(lq: nat)
    requires lq <= 255
    ensures U32(lq * INTERNAL_MULTIPLIER) / 255 == lq * 257
  {
  }

  lemma WordQuotient(x: nat)
    requires x <= 65535 * 65535
    ensures U32(x + INTERNAL_MULTIPLIER - 1) / INTERNAL_MULTIPLIER == CeilDiv(x, INTERNAL_MULTIPLIER)
  {
  }

  lemma AgedFits(lq: nat, alpha: nat, value: nat, alphaOld: nat)
    requires lq <= 255 && alpha <= INTERNAL_MULTIPLIER && value == lq * 257 && alphaOld == INTERNAL_MULTIPLIER - alpha
    ensures U32(value * alphaOld + INTERNAL_MULTIPLIER - 1) / INTERNAL_MULTIPLIER == Aged(lq, alpha) <= alphaOld
  {
    hide U32, CeilDiv;
    AgedBound(lq, alpha);
    WordQuotient(value * alphaOld);
  }

  lemma ValueFits(value: nat, ratio: nat)
    requires value <= INTERNAL_MULTIPLIER && ratio <= INTERNAL_MULTIPLIER
    ensures var sum := U32(value + ratio);
            && sum == value + ratio
            && U32(sum * 255 + INTERNAL_MULTIPLIER - 1) / INTERNAL_MULTIPLIER == CeilDiv(sum * 255, INTERNAL_MULTIPLIER)
  {
  }

  lemma RatioIsShort(alpha: nat, multiplier: nat)
    ensures Ratio32(alpha, multiplier) <= INTERNAL_MULTIPLIER
  {
  }

  /** The moving average in 32-bit arithmetic, cut to a byte. Only the product with the loss multiplier can wrap, and
      only for multipliers above one. */
  method Average(lq: nat, alphaNew: nat, alphaOld: nat, multiplier: nat, lost: bool) returns (average: nat)
    requires lq <= 255 && alphaNew <= INTERNAL_MULTIPLIER && alphaOld == INTERNAL_MULTIPLIER - alphaNew
    ensures average == Next32(lq, alphaNew, multiplier, lost) % 256
    ensures multiplier <= LINK_LOSS_MULTIPLIER ==> average == Next(lq, alphaNew, multiplier, lost)
  {
    hide Aged, CeilDiv, U32, Next;
    ScaleFits(lq);
    var value := U32(lq * INTERNAL_MULTIPLIER) / 255;
    AgedFits(lq, alphaNew, value, alphaOld);
    value := U32(value * alphaOld + INTERNAL_MULTIPLIER - 1) / INTERNAL_MULTIPLIER;
    ValueFits(value, 0);
    if !lost {
      var ratio := U32(alphaNew * multiplier + LINK_LOSS_MULTIPLIER - 1) / LINK_LOSS_MULTIPLIER;
      RatioIsShort(alphaNew, multiplier);
      ValueFits(value, ratio);
      value := U32(value + ratio);
    }
    average := U32(value * 255 + INTERNAL_MULTIPLIER - 1) / INTERNAL_MULTIPLIER % 256;
    if multiplier <= LINK_LOSS_MULTIPLIER {
      NextFits(lq, alphaNew, multiplier, lost);
    }
  }

  class LinkLq {
    var valueLq: nat
    var valueNlq: nat
    var quickstart: nat

    /** default_lq_clear_fpm. */
    constructor ()
      ensures Valid() && valueLq == 0 && valueNlq == 0 && quickstart == 0
    {
      valueLq, valueNlq, quickstart := 0, 0, 0;
    }

    /** The fields fit their bytes. */
    predicate Valid()
      reads this
    {
      valueLq <= 255 && valueNlq <= 255 && quickstart <= QUICKSTART_STEPS
    }

    /** default_lq_packet_loss_worker_fpm: up to a loss multiplier of one the result is that of unbounded arithmetic. */
    method PacketLossWorker(g: Aging, lossLinkMultiplier: nat, lost: bool) returns (cost: nat)
      requires Valid() && AgingOk(g)
      modifies this`valueLq, this`quickstart
      ensures Valid()
      ensures var alpha := if old(quickstart) < QUICKSTART_STEPS then g.quickstartNew else g.factorNew;
              && valueLq == Next32(old(valueLq), alpha, lossLinkMultiplier, lost) % 256
              && (lossLinkMultiplier <= LINK_LOSS_MULTIPLIER ==>
                    valueLq == Next(old(valueLq), alpha, lossLinkMultiplier, lost))
      ensures quickstart == if old(quickstart) < QUICKSTART_STEPS then old(quickstart) + 1 else old(quickstart)
      ensures cost == CalcCost(valueLq, valueNlq)
    {
      hide CalcCost, Next, Next32;
      var alphaOld, alphaNew := g.factorOld, g.factorNew;
      if quickstart < QUICKSTART_STEPS {
        alphaNew := g.quickstartNew;
        alphaOld := g.quickstartOld;
        quickstart := (quickstart + 1) % 0x1_0000;
      }
      valueLq := Average(valueLq, alphaNew, alphaOld, lossLinkMultiplier, lost);
      cost := CalcCost(valueLq, valueNlq);
    }
  }

  // ---------- Runs ----------

  /** The average after HELLOs received at full multiplier under the given weights. */
  function AfterReceived(lq: nat, alphas: seq<nat>): (r: nat)
    requires lq <= 255 && forall i :: 0 <= i < |alphas| ==> alphas[i] <= INTERNAL_MULTIPLIER
    ensures r <= 255
    decreases |alphas|
  {
    if alphas == [] then lq
    else
      NextBound(lq, alphas[0], LINK_LOSS_MULTIPLIER, false);
      AfterReceived(Next(lq, alphas[0], LINK_LOSS_MULTIPLIER, false), alphas[1..])
  }

  /** Without losses the average gains at least one with every HELLO, so 255 of them bring it to its maximum. */
  lemma {:induction false} ReceivedRun(lq: nat, alphas: seq<nat>)
    requires lq <= 255 && forall i :: 0 <= i < |alphas| ==> 0 < alphas[i] <= INTERNAL_MULTIPLIER
    ensures AfterReceived(lq, alphas) >= if lq + |alphas| < 255 then lq + |alphas| else 255
    decreases |alphas|
  {
    if alphas != [] {
      hide Next;
      NextBound(lq, alphas[0], LINK_LOSS_MULTIPLIER, false);
      ReceivedRaises(lq, alphas[0]);
      ReceivedRun(Next(lq, alphas[0], LINK_LOSS_MULTIPLIER, false), alphas[1..]);
    }
  }

  /** A lost HELLO never makes a link cheaper, a received one at full multiplier never dearer. */
  lemma CostFollows(lq: nat, nlq: nat, alpha: nat, multiplier: nat)
    requires lq <= 255 && 0 < alpha <= INTERNAL_MULTIPLIER
    ensures CalcCost(Next(lq, alpha, multiplier, true), nlq) >= CalcCost(lq, nlq)
    ensures CalcCost(Next(lq, alpha, LINK_LOSS_MULTIPLIER, false), nlq) <= CalcCost(lq, nlq)
  {
    hide Next, CalcCost;
    LostNeverRaises(lq, alpha, multiplier);
    CostAntitone(Next(lq, alpha, multiplier, true), lq, nlq, nlq);
    ReceivedRaises(lq, alpha);
    CostAntitone(lq, Next(lq, alpha, LINK_LOSS_MULTIPLIER, false), nlq, nlq);
  }
}
