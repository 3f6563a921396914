/** New orders as FIX messages (parseNewOrder in server/src/core/FIXParser.cpp). */
module OrderEntry {
  import opened Orders
  import opened OrderQueues
  import opened FixCodec
  import opened Framing

  /** strtoull in base ten: too large a number saturates, a minus sign wraps around. */
  function Strtoull(s: seq<Byte>): nat {
    if s == [] then 0
    else if IsBlank(s[0]) then Strtoull(s[1..])
    else
      var n := Spelled(if s[0] == MINUS || s[0] == 43 then s[1..] else s, 0);
      if n >= TWO_64 then TWO_64 - 1 else if s[0] == MINUS then (TWO_64 - n) % TWO_64 else n
  }

  function ParseSide(s: seq<Byte>): Side {
    if s == [ONE] || s == [66] then Buy else if s == [50] || s == [83] then Sell else Buy
  }

  datatype Request = Malformed | Request(o: OrderState, symbol: seq<Byte>)

  /** The order a message asks for; how price text is read is left open. An iceberg is one that shows some of its
      quantity but not all. */
  function NewOrder(fields: map<int, seq<Byte>>, price: seq<Byte> -> int): Request {
    if 11 !in fields || 54 !in fields || 44 !in fields || 38 !in fields || 55 !in fields then Malformed
    else
      var id, quantity := Strtoull(fields[11]), Strtoull(fields[38]);
      var show := if 210 in fields then Strtoull(fields[210]) else 0;
      var plain := OrderState(id, ParseSide(fields[54]), price(fields[44]), quantity, 0, false, 0, 0, 0, 0);
      Request(if 0 < show < quantity then plain.(iceberg := true, peak := show, visible := show, hidden := quantity - show) else plain,
              fields[55])
  }

  /** For every field map: an order is asked for exactly if the five tags it needs are there. It can exist and is
      unfilled; it sells exactly if its side is 2 or S; and it is an iceberg exactly if the number to show is more
      than nothing and less than the quantity, and then shows that much and hides the rest. */
  lemma NewOrderValid(fields: map<int, seq<Byte>>, price: seq<Byte> -> int)
    ensures var r := NewOrder(fields, price);
      && (r.Request? <==> 11 in fields && 54 in fields && 44 in fields && 38 in fields && 55 in fields)
      && (r.Request? ==>
        && r.o.Valid() && r.o.TotalFilled() == 0 && r.o.TotalRemaining() == r.o.quantity < TWO_64
        && r.o.id == Strtoull(fields[11]) && r.o.quantity == Strtoull(fields[38])
        && r.o.price == price(fields[44]) && r.symbol == fields[55]
        && (r.o.side.Sell? <==> fields[54] == [50] || fields[54] == [83])
        && (r.o.iceberg <==> 210 in fields && 0 < Strtoull(fields[210]) < r.o.quantity)
        && (r.o.iceberg ==> r.o.Remaining() == r.o.peak == Strtoull(fields[210]))
        && (!r.o.iceberg ==> r.o.peak == r.o.visible == r.o.hidden == 0))
  {
    assert forall s :: Strtoull(s) < TWO_64 by {
      forall s ensures Strtoull(s) < TWO_64 {
        StrtoullBounded(s);
      }
    }
  }

  /** Read the same way as by atoi, but what is too large becomes the largest number of 64 bits, whatever the sign,
      and the negative of any other wraps around. */
  lemma {:induction false} StrtoullReads(s: seq<Byte>, blanks: seq<Byte>, sign: Sign, d: seq<Byte>, rest: seq<Byte>)
    requires ReadsAs(s, blanks, sign, d, rest)
    ensures var v := PlaceValue(d);
      Strtoull(s) == if v >= TWO_64 then TWO_64 - 1 else if sign.Minus? && v != 0 then TWO_64 - v else v
    decreases |blanks|
  {
    if blanks != [] {
      assert s[1..] == blanks[1..] + sign.Text() + d + rest;
      StrtoullReads(s[1..], blanks[1..], sign, d, rest);
    } else {
      SpelledValue(d, rest);
      AfterSign(s, sign, d, rest);
    }
  }

  lemma {:induction false} StrtoullBounded(s: seq<Byte>)
    ensures Strtoull(s) < TWO_64
  {
    if s != [] && IsBlank(s[0]) {
      StrtoullBounded(s[1..]);
    }
  }

  lemma StrtoullDigits(n: nat)
    requires n < TWO_64
    ensures Strtoull(Digits(n)) == n
  {
    var d := Digits(n);
    SpelledDigits(n, []);
    assert d + [] == d && d[0] in d;
  }

  /** An order as a client would send it. */
  ghost predicate Sendable(o: OrderState) {
    && o.id < TWO_64 && o.quantity < TWO_64 && o.filled == o.visibleFilled == 0
    && if o.iceberg then 0 < o.peak < o.quantity && o.visible == o.peak && o.hidden == o.quantity - o.peak
       else o.peak == o.visible == o.hidden == 0
  }

  function SideText(side: Side): seq<Byte> {
    if side.Buy? then [ONE] else [50]
  }

  function OrderMessage(o: OrderState, symbol: seq<Byte>, priceText: seq<Byte>): seq<Entry> {
    [Entry(35, [68]), Entry(11, Digits(o.id)), Entry(54, SideText(o.side)), Entry(44, priceText),
     Entry(38, Digits(o.quantity)), Entry(55, symbol)]
    + if o.iceberg then [Entry(210, Digits(o.peak))] else []
  }

  lemma OrderMessageClean(o: OrderState, symbol: seq<Byte>, priceText: seq<Byte>)
    requires SOH !in symbol && SOH !in priceText
    ensures Clean(OrderMessage(o, symbol, priceText)) && DistinctTags(OrderMessage(o, symbol, priceText))
  {
  }

  /** The fields of an order's message. */
  lemma OrderFields(o: OrderState, symbol: seq<Byte>, priceText: seq<Byte>)
    ensures var fields := OrderMessage(o, symbol, priceText);
      && Entry(11, Digits(o.id)) in fields && Entry(54, SideText(o.side)) in fields && Entry(44, priceText) in fields
      && Entry(38, Digits(o.quantity)) in fields && Entry(55, symbol) in fields
      && (o.iceberg ==> Entry(210, Digits(o.peak)) in fields)
      && forall e :: e in fields ==> !IsFraming(e.tag) && (e.tag == 210 ==> o.iceberg)
  {
    var fields := OrderMessage(o, symbol, priceText);
    hide Digits;
    assert fields[1] in fields && fields[2] in fields && fields[3] in fields && fields[4] in fields && fields[5] in fields;
    assert o.iceberg ==> fields[6] in fields;
  }

  /** An order survives being printed, and parsed as the protocol says. */
  lemma OrderRoundTrip(o: OrderState, symbol: seq<Byte>, priceText: seq<Byte>, price: seq<Byte> -> int)
    requires Sendable(o) && SOH !in symbol && SOH !in priceText && price(priceText) == o.price
    ensures var r := Parse(Protocol, Message(OrderMessage(o, symbol, priceText)));
      r.Parsed? && NewOrder(r.fields, price) == Request(o, symbol)
  {
    hide OrderMessage, Message, Parse, Clean, DistinctTags, Digits, Strtoull, Body, Head, Checksum, Three, Decimal;
    var fields := OrderMessage(o, symbol, priceText);
    OrderMessageClean(o, symbol, priceText);
    OrderFields(o, symbol, priceText);
    RoundTrip(fields);
    StrtoullDigits(o.id);
    StrtoullDigits(o.quantity);
    if o.iceberg {
      StrtoullDigits(o.peak);
    }
  }

  lemma DigitsNotSplit(n: nat)
    ensures SOH !in Digits(n) && EQUALS !in Digits(n)
    ensures var d := Digits(n); 6 <= |d| ==> !LooksLikeTrailer(d + [SOH], |d| - 6)
  {
    var d := Digits(n);
    assert 6 <= |d| ==> (d + [SOH])[|d| - 4] == d[|d| - 4] && d[|d| - 4] in d;
  }

  /** A number has three digits exactly when it is from 100 to 999. */
  lemma ThreeDigits(n: nat)
    ensures |Digits(n)| == 3 <==> 100 <= n <= 999
  {
    if n >= 100 {
      assert |Digits(n)| == |Digits(n / 10 / 10)| + 2;
      assert |Digits(n / 10 / 10)| == if n / 10 / 10 < 10 then 1 else |Digits(n / 10 / 10 / 10)| + 1;
    }
  }

  /** Text that would end a message inside the value of a field. */
  predicate SplitsText(value: seq<Byte>) {
    6 <= |value| && LooksLikeTrailer(value + [SOH], |value| - 6)
  }

  /** An order's message stays whole in a stream exactly when it is no iceberg showing 100 to 999, and neither its
      symbol nor its price text ends like a trailer. */
  lemma OrderStaysWhole(o: OrderState, symbol: seq<Byte>, priceText: seq<Byte>)
    requires SOH !in symbol && SOH !in priceText
    ensures var m := Message(OrderMessage(o, symbol, priceText));
      Frame(m) == Framed([m], []) <==> !(o.iceberg && 100 <= o.peak <= 999) && !SplitsText(symbol) && !SplitsText(priceText)
  {
    hide Message, Frame, Concat, Digits, Clean, DistinctTags, EndsLikeTrailer, Field;
    var fields := OrderMessage(o, symbol, priceText);
    var m := Message(fields);
    OrderMessageClean(o, symbol, priceText);
    OneMessage(m);
    Recovered([m]);
    IntactMessage(fields);
    OrderLookalikes(o, symbol, priceText);
  }

  lemma OneMessage(m: seq<Byte>)
    ensures Concat([m]) == m && forall x :: x in [m] ==> x == m
  {
    assert [m][1..] == [] && m + [] == m;
  }

  lemma TagTexts()
    ensures Decimal(35) == [51, 53] && Decimal(11) == [ONE, ONE] && Decimal(54) == [53, 52] && Decimal(44) == [52, 52]
    ensures Decimal(38) == [51, 56] && Decimal(55) == [53, 53] && Decimal(210) == [50, ONE, ZERO]
  {
    assert Digits(3) == [51] && Digits(1) == [ONE] && Digits(5) == [53] && Digits(4) == [52] && Digits(2) == [50];
    assert Digits(21) == [50, ONE];
  }

  lemma OrderLookalikes(o: OrderState, symbol: seq<Byte>, priceText: seq<Byte>)
    ensures NoLookalike(OrderMessage(o, symbol, priceText))
      <==> !(o.iceberg && 100 <= o.peak <= 999) && !SplitsText(symbol) && !SplitsText(priceText)
  {
    TagTexts();
    hide Digits, Decimal, EndsLikeTrailer, Field, LooksLikeTrailer;
    var fields := OrderMessage(o, symbol, priceText);
    OrderFields(o, symbol, priceText);
    LookalikeFields(35, [68]);
    LookalikeFields(11, Digits(o.id));
    LookalikeFields(54, SideText(o.side));
    LookalikeFields(44, priceText);
    LookalikeFields(38, Digits(o.quantity));
    LookalikeFields(55, symbol);
    LookalikeFields(210, Digits(o.peak));
    DigitsNotSplit(o.id);
    DigitsNotSplit(o.quantity);
    DigitsNotSplit(o.peak);
    ThreeDigits(o.peak);
    AllDigits(o.peak);
  }

  lemma AllDigits(n: nat)
    ensures forall i :: 0 <= i < |Digits(n)| ==> IsDigit(Digits(n)[i])
  {
    assert forall i :: 0 <= i < |Digits(n)| ==> Digits(n)[i] in Digits(n);
  }
}
