/** Live orders as a flat map, the rules that change it, and totals over it. */
module Orders {
  import opened Bytes
  import opened Itch

  const SIDE_BUY: byte := 66   // 'B'

  type Live = map<u64, Order>

  predicate IsBuy(o: Order) { o.side == SIDE_BUY }

  function Min(a: u32, b: u32): u32 { if a < b then a else b }

  // ----- The flat rules -----

  function AddOrder(live: Live, ref: u64, o: Order): Live {
    if ref in live then live else live[ref := o]
  }

  function DeleteOrder(live: Live, ref: u64): Live {
    live - {ref}
  }

  /** Take `quantity` shares off an order; an order left with none is gone. */
  function ReduceOrder(live: Live, ref: u64, quantity: u32): Live {
    if ref !in live then live
    else
      var o := live[ref];
      var left := o.shares - Min(quantity, o.shares);
      if left == 0 then live - {ref} else live[ref := o.(shares := left)]
  }

  /** The replacement keeps the side of the original. */
  function ReplaceOrder(live: Live, ref: u64, newRef: u64, price: u32, shares: u32): Live {
    if ref !in live then live
    else (live - {ref})[newRef := Order(live[ref].side, price, shares)]
  }

  // ----- Totals over live orders -----

  /** What each order contributes to a total. */
  datatype Weight =
    | CountAt(buy: bool, price: u32)
    | SharesAt(buy: bool, price: u32)
    | SharesIn(buy: bool, prices: set<u32>)
    | AllShares

  function Weigh(w: Weight, o: Order): u32 {
    match w
    case CountAt(buy, price) => if IsBuy(o) == buy && o.price == price then 1 else 0
    case SharesAt(buy, price) => if IsBuy(o) == buy && o.price == price then o.shares else 0
    case SharesIn(buy, prices) => if IsBuy(o) == buy && o.price in prices then o.shares else 0
    case AllShares => o.shares
  }

  ghost function Total(live: Live, w: Weight): nat
    decreases |live|
  {
    if live == map[] then 0
    else
      var k :| k in live;
      Weigh(w, live[k]) + Total(live - {k}, w)
  }

  /** Any order may be taken out of the total first. */
  lemma {:induction false} TotalWithout(live: Live, w: Weight, ref: u64)
    requires ref in live
    ensures Total(live, w) == Weigh(w, live[ref]) + Total(live - {ref}, w)
    decreases |live|
  {
    var k :| k in live && Total(live, w) == Weigh(w, live[k]) + Total(live - {k}, w);
    if k != ref {
      TotalWithout(live - {k}, w, ref);
      TotalWithout(live - {ref}, w, k);
      assert live - {k} - {ref} == live - {ref} - {k};
    }
  }

  lemma TotalWith(live: Live, w: Weight, ref: u64, o: Order)
    requires ref !in live
    ensures Total(live[ref := o], w) == Total(live, w) + Weigh(w, o)
  {
    var more := live[ref := o];
    TotalWithout(more, w, ref);
    assert more - {ref} == live;
  }

  lemma TotalReplaced(live: Live, w: Weight, ref: u64, o: Order)
    requires ref in live
    ensures Total(live[ref := o], w) == Total(live, w) - Weigh(w, live[ref]) + Weigh(w, o)
  {
    TotalWithout(live, w, ref);
    TotalWith(live - {ref}, w, ref, o);
    assert (live - {ref})[ref := o] == live[ref := o];
  }

  lemma {:induction false} CountBound(live: Live, buy: bool, price: u32)
    ensures Total(live, CountAt(buy, price)) <= |live|
    ensures Total(live, SharesAt(buy, price)) <= Total(live, CountAt(buy, price)) * (U32_MOD - 1)
    decreases |live|
  {
    if live != map[] {
      var k :| k in live;
      TotalWithout(live, CountAt(buy, price), k);
      TotalWithout(live, SharesAt(buy, price), k);
      CountBound(live - {k}, buy, price);
    }
  }

  /** An order is part of the totals of its own level. */
  lemma OrderInTotals(live: Live, ref: u64)
    requires ref in live
    ensures var o := live[ref];
            && Total(live, CountAt(IsBuy(o), o.price)) >= 1
            && Total(live, SharesAt(IsBuy(o), o.price)) >= o.shares
  {
    var o := live[ref];
    TotalWithout(live, CountAt(IsBuy(o), o.price), ref);
    TotalWithout(live, SharesAt(IsBuy(o), o.price), ref);
  }

  /** A level that counts some order has one resting on it. */
  lemma {:induction false} SomeOrderAt(live: Live, buy: bool, price: u32) returns (ref: u64)
    requires Total(live, CountAt(buy, price)) > 0
    ensures ref in live && IsBuy(live[ref]) == buy && live[ref].price == price
    decreases |live|
  {
    var k :| k in live;
    TotalWithout(live, CountAt(buy, price), k);
    if IsBuy(live[k]) == buy && live[k].price == price {
      ref := k;
    } else {
      ref := SomeOrderAt(live - {k}, buy, price);
    }
  }

  // ----- Splitting totals over prices and sides -----

  lemma {:induction false} AddPrice(live: Live, buy: bool, prices: set<u32>, price: u32)
    requires price !in prices
    ensures Total(live, SharesIn(buy, prices + {price}))
            == Total(live, SharesIn(buy, prices)) + Total(live, SharesAt(buy, price))
    decreases |live|
  {
    if live != map[] {
      var k :| k in live;
      TotalWithout(live, SharesIn(buy, prices + {price}), k);
      TotalWithout(live, SharesIn(buy, prices), k);
      TotalWithout(live, SharesAt(buy, price), k);
      AddPrice(live - {k}, buy, prices, price);
    }
  }

  lemma {:induction false} NoPrices(live: Live, buy: bool)
    ensures Total(live, SharesIn(buy, {})) == 0
    decreases |live|
  {
    if live != map[] {
      var k :| k in live;
      TotalWithout(live, SharesIn(buy, {}), k);
      NoPrices(live - {k}, buy);
    }
  }

  /** With every price of a side listed, the two sides make up all shares. */
  lemma {:induction false} SidesMakeAll(live: Live, bidPrices: set<u32>, askPrices: set<u32>)
    requires forall ref :: ref in live ==>
               if IsBuy(live[ref]) then live[ref].price in bidPrices else live[ref].price in askPrices
    ensures Total(live, SharesIn(true, bidPrices)) + Total(live, SharesIn(false, askPrices))
            == Total(live, AllShares)
    decreases |live|
  {
    if live != map[] {
      var k :| k in live;
      TotalWithout(live, SharesIn(true, bidPrices), k);
      TotalWithout(live, SharesIn(false, askPrices), k);
      TotalWithout(live, AllShares, k);
      SidesMakeAll(live - {k}, bidPrices, askPrices);
    }
  }
}
