/**
 * The conversion arithmetic of the two input handlers, over real numbers:
 * a fiat amount at `rate` fiat units per bitcoin is `amount / rate * 10^8`
 * satoshis, and a satoshi count is `sats / 10^8 * rate` fiat units.
 */
module Conversion {
  import opened Numbers

  /** Satoshis in one bitcoin. */
  const SatsPerBitcoin: real := 100000000.0

  /** The handlers only convert under the guard `conversionRate > 0`. */
  function ToSats(amount: real, rate: real): real
    requires rate > 0.0
  {
    amount / rate * SatsPerBitcoin
  }

  function ToAmount(sats: real, rate: real): real {
    sats / SatsPerBitcoin * rate
  }

  /** `ToSats` on any parsed number: an infinity divided by a positive rate stays that infinity. */
  function SatsOf(x: JsNumber, rate: real): (r: JsNumber)
    requires rate > 0.0
    ensures r.Finite? <==> x.Finite?
    ensures x.Finite? ==> r.value == ToSats(x.value, rate)
    ensures x.Infinite? ==> r == x
  {
    match x
    case Finite(a) => Finite(ToSats(a, rate))
    case Infinite(_) => x
  }

  /** `ToAmount` on any parsed number: an infinity scaled by a positive rate stays that infinity. */
  function AmountOf(x: JsNumber, rate: real): (r: JsNumber)
    requires rate > 0.0
    ensures r.Finite? <==> x.Finite?
    ensures x.Finite? ==> r.value == ToAmount(x.value, rate)
    ensures x.Infinite? ==> r == x
  {
    match x
    case Finite(s) => Finite(ToAmount(s, rate))
    case Infinite(_) => x
  }

  /** Converting an amount to satoshis and back gives the amount. */
  lemma AmountRoundTrip(amount: real, rate: real)
    requires rate > 0.0
    ensures ToAmount(ToSats(amount, rate), rate) == amount
  {
    calc {
      ToAmount(ToSats(amount, rate), rate);
      (amount / rate * SatsPerBitcoin) / SatsPerBitcoin * rate;
      amount / rate * rate;
      amount;
    }
  }

  /** Converting satoshis to an amount and back gives the satoshis. */
  lemma SatsRoundTrip(sats: real, rate: real)
    requires rate > 0.0
    ensures ToSats(ToAmount(sats, rate), rate) == sats
  {
    calc {
      ToSats(ToAmount(sats, rate), rate);
      (sats / SatsPerBitcoin * rate) / rate * SatsPerBitcoin;
      sats / SatsPerBitcoin * SatsPerBitcoin;
      sats;
    }
  }

  /** 100 units at 50,000 per bitcoin are 200,000 satoshis, and back. */
  lemma Example()
    ensures ToSats(100.0, 50000.0) == 200000.0
    ensures ToAmount(200000.0, 50000.0) == 100.0
  {
  }

  /** An error of `e` in satoshis is an error of `e / 10^8 * rate` in the amount. */
  lemma AmountError(x: real, y: real, rate: real)
    requires rate > 0.0
    ensures Abs(ToAmount(x, rate) - ToAmount(y, rate)) == Abs(x - y) / SatsPerBitcoin * rate
  {
    assert ToAmount(x, rate) - ToAmount(y, rate) == (x - y) / SatsPerBitcoin * rate;
  }

  /** An error of `e` in the amount is an error of `e / rate * 10^8` in satoshis. */
  lemma SatsError(x: real, y: real, rate: real)
    requires rate > 0.0
    ensures Abs(ToSats(x, rate) - ToSats(y, rate)) == Abs(x - y) / rate * SatsPerBitcoin
  {
    assert ToSats(x, rate) - ToSats(y, rate) == (x - y) / rate * SatsPerBitcoin;
  }

  /** An error of at most `bound` satoshis is an error of at most `bound` satoshis' worth in the currency. */
  lemma AmountErrorBound(x: real, y: real, rate: real, bound: real)
    requires rate > 0.0 && Abs(x - y) <= bound
    ensures Abs(ToAmount(x, rate) - ToAmount(y, rate)) <= bound / SatsPerBitcoin * rate
  {
    AmountError(x, y, rate);
    ScaleBound(Abs(x - y), bound, 1.0 / SatsPerBitcoin, rate);
  }

  /** An error of at most `bound` in the currency is an error of at most `bound / rate` bitcoin in satoshis. */
  lemma SatsErrorBound(x: real, y: real, rate: real, bound: real)
    requires rate > 0.0 && Abs(x - y) <= bound
    ensures Abs(ToSats(x, rate) - ToSats(y, rate)) <= bound / rate * SatsPerBitcoin
  {
    SatsError(x, y, rate);
    ScaleBound(Abs(x - y), bound, 1.0 / rate, SatsPerBitcoin);
  }

  lemma ScaleBound(e: real, bound: real, x: real, y: real)
    requires e <= bound && x > 0.0 && y > 0.0
    ensures e * x * y <= bound * x * y
  {
    assert (bound - e) * x >= 0.0;
    assert (bound - e) * x * y >= 0.0;
  }
}
