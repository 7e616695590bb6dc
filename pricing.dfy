/**
 * The price breakdown the screen derives on every render from the current
 * location's line items and the selected mode.
 */
module Pricing {
  import opened Catalogue

  /** The numbers the screen derives on each render (it does not render them). */
  datatype Breakdown = Breakdown(itemCount: nat, subtotal: int, deliveryFee: int, total: int)

  /** Reference definition: the arithmetic sum of the prices. */
  function Sum(prices: seq<int>): int {
    if prices == [] then 0 else prices[0] + Sum(prices[1..])
  }

  /** `reduce((sum, item) => sum + item.price, acc)`: a left fold from the accumulator `acc`. */
  function FoldPrices(acc: int, prices: seq<int>): int
    decreases |prices|
  {
    if prices == [] then acc else FoldPrices(acc + prices[0], prices[1..])
  }

  /** The left fold adds the arithmetic sum of the prices to its starting value. */
  lemma {:induction false} FoldPricesIsSum(acc: int, prices: seq<int>)
    ensures FoldPrices(acc, prices) == acc + Sum(prices)
    decreases |prices|
  {
    if prices != [] {
      FoldPricesIsSum(acc + prices[0], prices[1..]);
    }
  }

  /** `foodSubtotal`: the fold started from 0. */
  function Subtotal(prices: seq<int>): (r: int)
    ensures r == Sum(prices)
    ensures prices == [] ==> r == 0
  {
    FoldPricesIsSum(0, prices);
    FoldPrices(0, prices)
  }

  /** Sum distributes over concatenation: adding items adds their prices. */
  lemma {:induction false} SumAppend(a: seq<int>, b: seq<int>)
    ensures Sum(a + b) == Sum(a) + Sum(b)
    decreases |a|
  {
    if a == [] {
      assert a + b == b;
    } else {
      assert (a + b)[1..] == a[1..] + b;
      SumAppend(a[1..], b);
    }
  }

  /**
   * `selectedMode?.deliveryFee || 0`: the fee of the first entry of `ms`
   * with id `id`, and 0 when no entry has it (a fee of 0 is falsy and also
   * gives 0, which is the same number).
   */
  function FeeFor(ms: seq<DeliveryMode>, id: ModeId): (fee: int)
    ensures !HasId(ms, id) ==> fee == 0
    ensures HasId(ms, id) ==> exists i :: 0 <= i < |ms| && ms[i].id == id && fee == ms[i].deliveryFee
    ensures HasId(ms, id) ==> fee == Find(ms, id).value.deliveryFee
  {
    match Find(ms, id)
    case Some(m) => m.deliveryFee
    case None => 0
  }

  /** In a catalogue whose fees are all positive, the fee is 0 exactly when the lookup fails. */
  lemma FeeZeroIffNoMatch(ms: seq<DeliveryMode>, id: ModeId)
    requires forall i :: 0 <= i < |ms| ==> ms[i].deliveryFee > 0
    ensures FeeFor(ms, id) == 0 <==> !HasId(ms, id)
  {
  }

  /** The derivation of the screen: item count, subtotal, the selected mode's fee, and total. */
  function Derive(prices: seq<int>, selected: ModeId): (b: Breakdown)
    ensures b.itemCount == |prices|
    ensures b.subtotal == Sum(prices)
    ensures b.deliveryFee == FeeOf(selected)
    ensures b.total == b.subtotal + b.deliveryFee
  {
    FindInModes(selected);
    var subtotal := Subtotal(prices);
    var fee := FeeFor(Modes(), selected);
    Breakdown(|prices|, subtotal, fee, subtotal + fee)
  }

  /** Adding line items raises the subtotal and the total by exactly their prices; the fee stays. */
  lemma DeriveAppend(prices: seq<int>, more: seq<int>, selected: ModeId)
    ensures Derive(prices + more, selected).subtotal == Derive(prices, selected).subtotal + Sum(more)
    ensures Derive(prices + more, selected).total == Derive(prices, selected).total + Sum(more)
    ensures Derive(prices + more, selected).deliveryFee == Derive(prices, selected).deliveryFee
  {
    SumAppend(prices, more);
  }

  /** Items priced 50 and 30 with the car selected: subtotal 80, fee 60, total 140. */
  lemma DeriveExample()
    ensures Derive([50, 30], Car) == Breakdown(2, 80, 60, 140)
  {
    assert Sum([50, 30]) == 50 + Sum([30]);
    assert Sum([30]) == 30 + Sum([]);
  }
}
