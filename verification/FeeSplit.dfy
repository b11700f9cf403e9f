/**
 The booking fee looked up in a table of bands, and its split between customer and organizer
 (the fee functions of the seed).
 */
module FeeSplit {
  import opened Text
  import opened Binary64

  datatype Tier = Tier(minMinor: nat, maxMinor: Option<nat>, feeMinor: nat)

  datatype FeeMode = CUSTOMER_PAYS | ORGANIZER_PAYS | SHARED

  datatype FeeLines = FeeLines(booking: nat, payment: nat, customer: nat, organizer: nat, total: nat)

  const INR: seq<Tier> := [
    Tier(0, Some(19_900), 500), Tier(20_000, Some(49_900), 1_000),
    Tier(50_000, Some(99_900), 1_500), Tier(100_000, None, 2_000)]
  const USD: seq<Tier> := [
    Tier(0, Some(999), 49), Tier(1_000, Some(2_499), 99), Tier(2_500, Some(4_999), 149), Tier(5_000, None, 199)]
  const CAD: seq<Tier> := [
    Tier(0, Some(999), 59), Tier(1_000, Some(2_499), 119), Tier(2_500, Some(4_999), 179), Tier(5_000, None, 239)]
  const AUD: seq<Tier> := CAD

  predicate Holds(t: Tier, subtotal: nat) {
    t.minMinor <= subtotal && (t.maxMinor.None? || subtotal <= t.maxMinor.value)
  }

  /** The fee of the first band that holds the subtotal, else of the last band. */
  function FeeAt(tiers: seq<Tier>, subtotal: nat): nat
    requires tiers != []
  {
    if |tiers| == 1 || Holds(tiers[0], subtotal) then tiers[0].feeMinor else FeeAt(tiers[1..], subtotal)
  }

  method BookingFee(tiers: seq<Tier>, subtotal: nat) returns (fee: nat)
    requires tiers != []
    ensures fee == FeeAt(tiers, subtotal)
  {
    for i := 0 to |tiers|
      invariant i < |tiers| ==> FeeAt(tiers, subtotal) == FeeAt(tiers[i..], subtotal)
      invariant i == |tiers| ==> FeeAt(tiers, subtotal) == tiers[|tiers| - 1].feeMinor
    {
      if Holds(tiers[i], subtotal) {
        return tiers[i].feeMinor;
      }
      assert tiers[i..][1..] == tiers[i + 1..];
    }
    fee := tiers[|tiers| - 1].feeMinor;
  }

  /** `Math.round((200 * amount) / 10_000)` in floating point. */
  function PaymentFee(amount: nat): int {
    var product := Fl((200 * amount) as real);
    JsRound(Fl(product / 10_000.0))
  }

  /** The payment fee is exactly 2%, halves rounded up, as long as 200 times the amount is safe. */
  lemma PaymentFeeIsTwoPercent(amount: nat)
    requires 200 * amount <= MAX_SAFE
    ensures PaymentFee(amount) == (amount + 25) / 50
    ensures -25 <= 50 * PaymentFee(amount) - amount <= 25
  {
    hide Fl;
    IntegersAreExact(200 * amount);
    var q := (200 * amount) as real / 10_000.0;
    assert q == amount as real / 50.0;
    var n := (amount + 25) / 50;
    if amount % 50 == 25 {
      assert 2.0 * q == (2 * n - 1) as real;
      Doubling(q);
      IntegersAreExact(2 * n - 1);
    } else {
      RelativeError(q);
      assert q / TWO53 < 0.01;
    }
  }

  /** Two roundings of 2^-53 move a safe amount's 2% by less than a twentieth of a unit. */
  lemma PaymentFeeIsNear(amount: nat)
    requires amount <= MAX_SAFE
    ensures -27 <= 50 * PaymentFee(amount) - amount <= 27
  {
    hide Fl;
    var x := (200 * amount) as real;
    var product := Fl(x);
    RelativeError(x);
    RelativeError(product / 10_000.0);
    NearTwoPercent(amount, x, product, Fl(product / 10_000.0));
  }

  lemma NearTwoPercent(amount: nat, x: real, product: real, q: real)
    requires amount <= MAX_SAFE && x == (200 * amount) as real
    requires product - x <= x / TWO53 && x - product <= x / TWO53
    requires q - product / 10_000.0 <= product / 10_000.0 / TWO53
    requires product / 10_000.0 - q <= product / 10_000.0 / TWO53
    ensures -27 <= 50 * JsRound(q) - amount <= 27
  {
    hide JsRound;
    assert x / TWO53 <= 200.0;
    assert product / 10_000.0 / TWO53 <= 0.0201;
    assert amount as real / 50.0 - 0.0402 <= q <= amount as real / 50.0 + 0.0402;
    var n := JsRound(q);
    assert (amount - 28) as real < (50 * n) as real < (amount + 28) as real;
  }

  /** Rounding at every step keeps the payment fee growing with the amount, without any bound. */
  lemma PaymentFeeGrows(a: nat, b: nat)
    requires a <= b
    ensures 0 <= PaymentFee(a) <= PaymentFee(b)
  {
    hide Fl;
    Monotone((200 * a) as real, (200 * b) as real);
    var x, y := Fl((200 * a) as real) / 10_000.0, Fl((200 * b) as real) / 10_000.0;
    Monotone(x, y);
  }

  /** The lines of an order. */
  function Lines(tiers: seq<Tier>, subtotal: nat, mode: FeeMode): FeeLines
    requires tiers != []
  {
    var booking := if subtotal == 0 then 0 else FeeAt(tiers, subtotal);
    PaymentFeeGrows(0, subtotal + booking);
    var payment := PaymentFee(subtotal + booking);
    var fees := booking + payment;
    var customer := match mode
      case CUSTOMER_PAYS => fees
      case ORGANIZER_PAYS => 0
      case SHARED => (fees + 1) / 2;
    FeeLines(booking, payment, customer, fees - customer, subtotal + customer)
  }

  /** Every sum the order needs is a safe integer. */
  predicate SumsAreSafe(lines: FeeLines, subtotal: nat) { subtotal + lines.booking + lines.payment <= MAX_SAFE }

  method ComputeFees(tiers: seq<Tier>, subtotal: nat, mode: FeeMode) returns (lines: FeeLines)
    requires tiers != [] && SumsAreSafe(Lines(tiers, subtotal, mode), subtotal)
    ensures lines == Lines(tiers, subtotal, mode)
    ensures lines.customer + lines.organizer == lines.booking + lines.payment
    ensures mode == CUSTOMER_PAYS ==> lines.organizer == 0
    ensures mode == ORGANIZER_PAYS ==> lines.customer == 0
    ensures mode == SHARED ==> 0 <= lines.customer - lines.organizer <= 1
    ensures lines.total == subtotal + lines.customer
    ensures var amount := subtotal + lines.booking;
            if 200 * amount <= MAX_SAFE then lines.payment == (amount + 25) / 50
            else -27 <= 50 * lines.payment - amount <= 27
  {
    hide Fl, PaymentFee;
    var bf := 0;
    if subtotal != 0 {
      bf := BookingFee(tiers, subtotal);
    }
    PaymentFeeIsNear(subtotal + bf);
    PaymentFeeGrows(0, subtotal + bf);
    if 200 * (subtotal + bf) <= MAX_SAFE { PaymentFeeIsTwoPercent(subtotal + bf); }
    var pf := PaymentFee(subtotal + bf);
    var fees := bf + pf;
    var customerFee, organizerFee := 0, 0;
    if mode == CUSTOMER_PAYS {
      customerFee := fees;
    } else if mode == ORGANIZER_PAYS {
      organizerFee := fees;
    } else {
      customerFee := (fees + 1) / 2;
      organizerFee := fees - customerFee;
    }
    lines := FeeLines(bf, pf, customerFee, organizerFee, subtotal + customerFee);
  }

  // ---------------------------------------------------------------------------------------
  // What a table must be like

  /** From `start` up: each band begins one unit after the one before ends, and the last is open. */
  predicate Contiguous(tiers: seq<Tier>, start: nat) {
    && tiers != [] && tiers[0].minMinor == start
    && if |tiers| == 1 then tiers[0].maxMinor.None?
       else
         && tiers[0].maxMinor.Some? && start <= tiers[0].maxMinor.value
         && Contiguous(tiers[1..], tiers[0].maxMinor.value + 1)
  }

  predicate NonDecreasing(tiers: seq<Tier>) {
    forall i, j :: 0 <= i < j < |tiers| ==> tiers[i].feeMinor <= tiers[j].feeMinor
  }

  lemma {:induction false} BandsStartAt(tiers: seq<Tier>, start: nat, subtotal: nat)
    requires Contiguous(tiers, start) && subtotal < start
    ensures forall i :: 0 <= i < |tiers| ==> !Holds(tiers[i], subtotal)
    decreases |tiers|
  {
    if |tiers| > 1 {
      BandsStartAt(tiers[1..], tiers[0].maxMinor.value + 1, subtotal);
      assert forall i :: 1 <= i < |tiers| ==> tiers[i] == tiers[1..][i - 1];
    }
  }

  /** On a contiguous table exactly one band holds each subtotal, and the lookup finds its fee. */
  lemma {:induction false} UniqueBand(tiers: seq<Tier>, start: nat, subtotal: nat) returns (k: nat)
    requires Contiguous(tiers, start) && start <= subtotal
    ensures k < |tiers| && Holds(tiers[k], subtotal) && FeeAt(tiers, subtotal) == tiers[k].feeMinor
    ensures forall i :: 0 <= i < |tiers| && Holds(tiers[i], subtotal) ==> i == k
    decreases |tiers|
  {
    if Holds(tiers[0], subtotal) {
      k := 0;
      if |tiers| > 1 {
        BandsStartAt(tiers[1..], tiers[0].maxMinor.value + 1, subtotal);
        assert forall i :: 1 <= i < |tiers| ==> tiers[i] == tiers[1..][i - 1];
      }
    } else {
      var k' := UniqueBand(tiers[1..], tiers[0].maxMinor.value + 1, subtotal);
      k := k' + 1;
      assert forall i :: 1 <= i < |tiers| ==> tiers[i] == tiers[1..][i - 1];
    }
  }

  /** Bands of a contiguous table are passed in order as the subtotal grows. */
  lemma {:induction false} FeeGrows(tiers: seq<Tier>, start: nat, s: nat, t: nat)
    requires Contiguous(tiers, start) && NonDecreasing(tiers) && start <= s <= t
    ensures tiers[0].feeMinor <= FeeAt(tiers, s) <= FeeAt(tiers, t)
    decreases |tiers|
  {
    if |tiers| > 1 {
      var rest := tiers[1..];
      assert forall i :: 0 <= i < |rest| ==> rest[i] == tiers[i + 1];
      if !Holds(tiers[0], t) {
        var next := tiers[0].maxMinor.value + 1;
        FeeGrows(rest, next, if s < next then next else s, t);
      }
    }
  }

  /** A dearer basket never costs the customer less, whoever pays, on a contiguous table with growing fees. */
  lemma TotalGrows(tiers: seq<Tier>, s: nat, t: nat, mode: FeeMode)
    requires Contiguous(tiers, 0) && NonDecreasing(tiers) && s <= t
    ensures Lines(tiers, s, mode).total <= Lines(tiers, t, mode).total
  {
    FeeGrows(tiers, 0, s, t);
    TotalFollowsFee(tiers, s, t, mode);
  }

  /** On any table, the total grows from one subtotal to a greater one when the fee does not fall. */
  lemma TotalFollowsFee(tiers: seq<Tier>, s: nat, t: nat, mode: FeeMode)
    requires tiers != [] && s <= t && (mode != ORGANIZER_PAYS ==> FeeAt(tiers, s) <= FeeAt(tiers, t))
    ensures Lines(tiers, s, mode).total <= Lines(tiers, t, mode).total
  {
    hide FeeAt, PaymentFee;
    var bs := if s == 0 then 0 else FeeAt(tiers, s);
    var bt := if t == 0 then 0 else FeeAt(tiers, t);
    if s + bs <= t + bt { PaymentFeeGrows(s + bs, t + bt); }
  }

  /** The three tables that qualify, and the one that does not. */
  lemma WhichTablesQualify()
    ensures Contiguous(USD, 0) && NonDecreasing(USD)
    ensures Contiguous(CAD, 0) && NonDecreasing(CAD) && Contiguous(AUD, 0) && NonDecreasing(AUD)
    ensures NonDecreasing(INR) && !Contiguous(INR, 0)
  {
    Qualifies(USD);
    Qualifies(CAD);
  }

  lemma Qualifies(tiers: seq<Tier>)
    requires |tiers| == 4 && tiers[0].minMinor == 0 && tiers[3].maxMinor.None?
    requires forall i :: 0 <= i < 3 ==>
               && tiers[i].maxMinor.Some? && tiers[i].minMinor <= tiers[i].maxMinor.value
               && tiers[i + 1].minMinor == tiers[i].maxMinor.value + 1
    ensures Contiguous(tiers, 0)
  {
    assert tiers[1..][1..] == tiers[2..] && tiers[2..][1..] == tiers[3..];
    assert Contiguous(tiers[3..], tiers[3].minMinor);
    assert Contiguous(tiers[2..], tiers[2].minMinor);
    assert Contiguous(tiers[1..], tiers[1].minMinor);
  }

  /** Between a rupee band's printed end and the next band's start. */
  predicate InInrHole(subtotal: nat) {
    19_900 < subtotal < 20_000 || 49_900 < subtotal < 50_000 || 99_900 < subtotal < 100_000
  }

  lemma InrFee(subtotal: nat)
    ensures FeeAt(INR, subtotal)
         == if subtotal <= 19_900 then 500 else if 20_000 <= subtotal <= 49_900 then 1_000
            else if 50_000 <= subtotal <= 99_900 then 1_500 else 2_000
  {
    assert INR[1..][1..] == INR[2..] && INR[2..][1..] == INR[3..];
    assert FeeAt(INR[3..], subtotal) == 2_000;
    assert FeeAt(INR[2..], subtotal) == if Holds(INR[2], subtotal) then 1_500 else 2_000;
    assert FeeAt(INR[1..], subtotal) == if Holds(INR[1], subtotal) then 1_000 else FeeAt(INR[2..], subtotal);
  }

  /** A subtotal in a hole is held by no band and pays the last band's fee; every other is held by one. */
  lemma InrHoles(subtotal: nat)
    ensures (forall i :: 0 <= i < |INR| ==> !Holds(INR[i], subtotal)) <==> InInrHole(subtotal)
    ensures InInrHole(subtotal) ==> FeeAt(INR, subtotal) == 2_000
  {
    InrFee(subtotal);
    if !InInrHole(subtotal) {
      var i := if subtotal <= 19_900 then 0 else if subtotal <= 49_900 then 1 else if subtotal <= 99_900 then 2 else 3;
      assert Holds(INR[i], subtotal);
    }
  }

  /** The two holes whose last-band fee is more than the next band's. */
  predicate InDearHole(subtotal: nat) {
    19_900 < subtotal < 20_000 || 49_900 < subtotal < 50_000
  }

  /** The rupee fee never falls from a subtotal on exactly when that subtotal is in no dear hole. */
  lemma InrFeeGrowsExactlyOutsideHoles(s: nat)
    ensures (forall t: nat :: s <= t ==> FeeAt(INR, s) <= FeeAt(INR, t)) <==> !InDearHole(s)
  {
    hide FeeAt;
    InrFee(s);
    if InDearHole(s) {
      var t := if s < 20_000 then 20_000 else 50_000;
      InrFee(t);
      assert FeeAt(INR, t) < FeeAt(INR, s);
    } else {
      forall t: nat | s <= t ensures FeeAt(INR, s) <= FeeAt(INR, t) { InrFee(t); }
    }
  }

  /** The customer's total for a small rupee basket. */
  lemma InrTotal(s: nat, mode: FeeMode)
    requires 0 < s <= 100_000
    ensures var fee := FeeAt(INR, s);
            var fees := fee + (s + fee + 25) / 50;
            && fee <= 2_000
            && Lines(INR, s, mode).total
               == s + match mode
                      case CUSTOMER_PAYS => fees
                      case ORGANIZER_PAYS => 0
                      case SHARED => (fees + 1) / 2
  {
    hide FeeAt, PaymentFee;
    InrFee(s);
    PaymentFeeIsTwoPercent(s + FeeAt(INR, s));
  }

  /**
   The rupee total never falls from a subtotal on exactly when that subtotal is in no dear hole, or the
   customer pays no fee at all.
   */
  lemma InrTotalGrowsExactlyOutsideHoles(s: nat, mode: FeeMode)
    ensures (forall t: nat :: s <= t ==> Lines(INR, s, mode).total <= Lines(INR, t, mode).total)
       <==> !InDearHole(s) || mode == ORGANIZER_PAYS
  {
    hide FeeAt, PaymentFee, Lines;
    if InDearHole(s) && mode != ORGANIZER_PAYS {
      var t := if s < 20_000 then 20_000 else 50_000;
      InrFee(s);
      InrFee(t);
      InrTotal(s, mode);
      InrTotal(t, mode);
      assert Lines(INR, t, mode).total < Lines(INR, s, mode).total;
    } else {
      forall t: nat | s <= t ensures Lines(INR, s, mode).total <= Lines(INR, t, mode).total {
        if mode != ORGANIZER_PAYS { InrFeeGrowsExactlyOutsideHoles(s); }
        TotalFollowsFee(INR, s, t, mode);
      }
    }
  }

  /** In a rupee hole a dearer basket can cost the customer less. */
  lemma InrTotalFalls()
    ensures Lines(INR, 19_950, CUSTOMER_PAYS).total > Lines(INR, 20_000, CUSTOMER_PAYS).total
  {
    hide Lines;
    InrFee(19_950);
    InrFee(20_000);
    InrTotal(19_950, CUSTOMER_PAYS);
    InrTotal(20_000, CUSTOMER_PAYS);
  }

  // ---------------------------------------------------------------------------------------
  // Any table, any order

  /** On any table the fee is that of the first band holding the subtotal, or of the last band when none does. */
  lemma {:induction false} FirstBandOrLast(tiers: seq<Tier>, subtotal: nat) returns (k: nat)
    requires tiers != []
    ensures k < |tiers| && FeeAt(tiers, subtotal) == tiers[k].feeMinor
    ensures forall i :: 0 <= i < k ==> !Holds(tiers[i], subtotal)
    ensures Holds(tiers[k], subtotal) || k == |tiers| - 1
    decreases |tiers|
  {
    if |tiers| == 1 || Holds(tiers[0], subtotal) {
      k := 0;
    } else {
      var k' := FirstBandOrLast(tiers[1..], subtotal);
      k := k' + 1;
      assert forall i :: 1 <= i < |tiers| ==> tiers[i] == tiers[1..][i - 1];
    }
  }

  /** A free order has no fee of any kind; any other is charged its band's fee and 2% of both. */
  lemma FreeIsFree(tiers: seq<Tier>, subtotal: nat, mode: FeeMode)
    requires tiers != []
    ensures Lines(tiers, 0, mode) == FeeLines(0, 0, 0, 0, 0)
    ensures subtotal > 0 ==>
              && Lines(tiers, subtotal, mode).booking == FeeAt(tiers, subtotal)
              && Lines(tiers, subtotal, mode).payment == PaymentFee(subtotal + FeeAt(tiers, subtotal))
  {
    hide PaymentFee, FeeAt;
    PaymentFeeIsTwoPercent(0);
  }

  /** The dollar tables, amount by amount. */
  lemma DollarFees(subtotal: nat)
    ensures FeeAt(USD, subtotal)
         == if subtotal < 10_00 then 49 else if subtotal < 25_00 then 99 else if subtotal < 50_00 then 149 else 199
    ensures FeeAt(CAD, subtotal) == FeeAt(AUD, subtotal)
         == if subtotal < 10_00 then 59 else if subtotal < 25_00 then 119 else if subtotal < 50_00 then 179 else 239
  {
    FourBands(USD, subtotal);
    FourBands(CAD, subtotal);
  }

  lemma FourBands(tiers: seq<Tier>, subtotal: nat)
    requires |tiers| == 4
    ensures FeeAt(tiers, subtotal)
         == if Holds(tiers[0], subtotal) then tiers[0].feeMinor
            else if Holds(tiers[1], subtotal) then tiers[1].feeMinor
            else if Holds(tiers[2], subtotal) then tiers[2].feeMinor else tiers[3].feeMinor
  {
    hide Holds;
    assert tiers[1..][1..] == tiers[2..] && tiers[2..][1..] == tiers[3..];
    assert FeeAt(tiers[3..], subtotal) == tiers[3].feeMinor;
    assert FeeAt(tiers[2..], subtotal) == if Holds(tiers[2], subtotal) then tiers[2].feeMinor else tiers[3].feeMinor;
    assert FeeAt(tiers[1..], subtotal)
        == if Holds(tiers[1], subtotal) then tiers[1].feeMinor else FeeAt(tiers[2..], subtotal);
  }
}
