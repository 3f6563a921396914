/** Orders and the quantities they show, hide and fill (server/include/core/Order.h). */
module Orders {

  datatype Side = Buy | Sell {
    function Opposite(): Side {
      if Buy? then Sell else Buy
    }
  }

  datatype Status = Pending | Active | PartialFilled | Filled | Cancelled | Rejected

  /** The quantities and identity of an order, as a value. */
  datatype OrderState = OrderState(
    id: nat, side: Side, price: int, quantity: nat, filled: nat,
    iceberg: bool, peak: nat, visible: nat, hidden: nat, visibleFilled: nat)
  {
    /** Holds of every order from its creation on: fills never exceed what is shown, and an
        iceberg's quantity is split between finished peaks, the current peak and the hidden rest. */
    ghost predicate Valid() {
      if iceberg then
        0 < peak && visible <= peak && visibleFilled <= visible && quantity == filled + visible + hidden
      else
        filled <= quantity
    }

    function Remaining(): int {
      if iceberg then visible - visibleFilled else quantity - filled
    }

    function TotalRemaining(): int {
      if iceberg then visible - visibleFilled + hidden else quantity - filled
    }

    function TotalFilled(): nat {
      if iceberg then filled + visibleFilled else filled
    }

    predicate IsFilled() {
      if iceberg then visibleFilled + (quantity - visible - hidden) >= quantity else filled >= quantity
    }

    predicate IsTotallyFilled() {
      if iceberg then hidden == 0 && visibleFilled >= visible else filled >= quantity
    }

    predicate IsVisiblePeakFilled() {
      iceberg && visibleFilled >= visible
    }

    function Fill(q: nat): OrderState {
      if iceberg then this.(visibleFilled := visibleFilled + q) else this.(filled := filled + q)
    }

    /** The next peak is taken from the hidden quantity, once the current one is used up. */
    function Replenished(): OrderState {
      if !iceberg || hidden == 0 || !IsVisiblePeakFilled() then this
      else
        var next := if peak <= hidden then peak else hidden;
        this.(filled := filled + visibleFilled, visibleFilled := 0, visible := next, hidden := hidden - next)
    }
  }

  /** The two fill tests of the source agree on every order that can exist. */
  lemma FilledTestsAgree(o: OrderState)
    requires o.Valid()
    ensures o.IsFilled() <==> o.IsTotallyFilled()
    ensures o.IsTotallyFilled() <==> o.TotalRemaining() == 0
    ensures o.TotalFilled() + o.TotalRemaining() == o.quantity
  {
  }

  /** A fill moves exactly q from remaining to filled, and touches nothing but what was filled. */
  lemma FillConserves(o: OrderState, q: nat)
    requires o.Valid() && q <= o.Remaining()
    ensures o.Fill(q).Valid() && o.Fill(q).Remaining() == o.Remaining() - q
    ensures o.Fill(q).TotalRemaining() == o.TotalRemaining() - q
    ensures o.Fill(q).TotalFilled() == o.TotalFilled() + q
    ensures o.Fill(q) == o.(filled := o.Fill(q).filled, visibleFilled := o.Fill(q).visibleFilled)
  {
  }

  /** A spent peak gives way to a full new one, or to all that was hidden if that is less; what is shown anew is no
      longer hidden, what was filled is booked, and nothing else changes. An order with no spent peak, or with
      nothing hidden, stays as it is. */
  lemma ReplenishConserves(o: OrderState)
    requires o.Valid()
    ensures var r := o.Replenished();
      && r.Valid()
      && r.TotalRemaining() == o.TotalRemaining() && r.TotalFilled() == o.TotalFilled()
      && if o.IsVisiblePeakFilled() && o.hidden > 0 then
           && 0 < r.Remaining() == r.visible == o.hidden - r.hidden <= o.peak && r.visibleFilled == 0
           && (r.Remaining() == o.peak || r.hidden == 0)
           && r == o.(filled := r.filled, visible := r.visible, hidden := r.hidden, visibleFilled := r.visibleFilled)
         else r == o
  {
  }

  /** An order object: intrusive list links beside the quantities. */
  class Order {
    var orderId: nat
    var clientOrderId: nat
    var side: Side
    var price: int
    var quantity: nat
    var filledQuantity: nat
    var status: Status
    var prev: Order?
    var next: Order?
    var retired: bool
    var isIceberg: bool
    var peakQuantity: nat
    var visibleQuantity: nat
    var hiddenQuantity: nat
    var visibleFilledQuantity: nat

    function State(): OrderState
      reads this`orderId, this`side, this`price, this`quantity, this`filledQuantity, this`isIceberg,
            this`peakQuantity, this`visibleQuantity, this`hiddenQuantity, this`visibleFilledQuantity
    {
      OrderState(orderId, side, price, quantity, filledQuantity,
                 isIceberg, peakQuantity, visibleQuantity, hiddenQuantity, visibleFilledQuantity)
    }

    constructor (id: nat, s: Side, p: int, q: nat)
      ensures State() == OrderState(id, s, p, q, 0, false, 0, 0, 0, 0) && State().Valid()
      ensures clientOrderId == id && status == Active && !retired && prev == null && next == null
    {
      orderId, clientOrderId, side, price, quantity, filledQuantity := id, id, s, p, q, 0;
      status, prev, next, retired := Active, null, null, false;
      isIceberg, peakQuantity, visibleQuantity, hiddenQuantity, visibleFilledQuantity := false, 0, 0, 0, 0;
    }

    constructor CreateIceberg(id: nat, s: Side, p: int, totalQty: nat, peak: nat)
      ensures (State().Valid() <==> 0 < peak) && State().iceberg && State().peak == peak
      ensures orderId == id && side == s && price == p && quantity == totalQty
      ensures State().TotalFilled() == 0 && State().TotalRemaining() == totalQty
      ensures State().Remaining() <= peak && (State().hidden > 0 ==> State().Remaining() == peak)
      ensures clientOrderId == id && status == Active && !retired && prev == null && next == null
    {
      orderId, clientOrderId, side, price, quantity, filledQuantity := id, id, s, p, totalQty, 0;
      status, prev, next, retired := Active, null, null, false;
      isIceberg, peakQuantity := true, peak;
      visibleQuantity := if peak <= totalQty then peak else totalQty;
      hiddenQuantity := totalQty - (if peak <= totalQty then peak else totalQty);
      visibleFilledQuantity := 0;
    }

    method FillVisible(qty: nat)
      modifies this`filledQuantity, this`visibleFilledQuantity
      ensures State() == old(State()).Fill(qty)
    {
      if isIceberg {
        visibleFilledQuantity := visibleFilledQuantity + qty;
      } else {
        filledQuantity := filledQuantity + qty;
      }
    }

    method ReplenishPeak() returns (done: bool)
      modifies this`filledQuantity, this`visibleQuantity, this`hiddenQuantity, this`visibleFilledQuantity
      ensures State() == old(State()).Replenished()
      ensures done <==> old(State().IsVisiblePeakFilled() && State().hidden > 0)
      ensures !done ==> State() == old(State())
      ensures done ==> visibleQuantity == old(hiddenQuantity) - hiddenQuantity && visibleQuantity <= peakQuantity
      ensures done ==> (visibleQuantity == peakQuantity || hiddenQuantity == 0)
      ensures done ==> visibleFilledQuantity == 0 && filledQuantity == old(filledQuantity + visibleFilledQuantity)
    {
      if !isIceberg || hiddenQuantity == 0 {
        return false;
      }
      if !State().IsVisiblePeakFilled() {
        return false;
      }
      var nextPeak := if peakQuantity <= hiddenQuantity then peakQuantity else hiddenQuantity;
      filledQuantity := filledQuantity + visibleFilledQuantity;
      visibleFilledQuantity := 0;
      visibleQuantity := nextPeak;
      hiddenQuantity := hiddenQuantity - nextPeak;
      return true;
    }
  }
}
