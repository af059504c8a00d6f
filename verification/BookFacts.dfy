/** The aggregates of a book agree with its live orders after every message, exactly when replaced
    orders take fresh references; and reports follow the top of book. */
module BookFacts {
  import opened Bytes
  import opened Itch
  import opened Orders
  import opened BookModel

  // ----- The aggregate invariant -----

  /** At price p: a level exists iff an order rests there, with the right sum and number. */
  ghost predicate LevelOk(s: Side, live: Live, buy: bool, p: u32) {
    && (p in s <==> Total(live, CountAt(buy, p)) > 0)
    && (p in s ==> s[p].shares == Total(live, SharesAt(buy, p)) && s[p].count == Total(live, CountAt(buy, p)))
  }

  ghost predicate SideOk(s: Side, live: Live, buy: bool) {
    forall p: u32 :: LevelOk(s, live, buy, p)
  }

  ghost predicate Aggregated(b: Book) {
    SideOk(b.bids, b.live, true) && SideOk(b.asks, b.live, false)
  }

  /** The 32-bit counters can hold every live order and one more. */
  ghost predicate RoomForOrder(live: Live) {
    |live| + 1 < U32_MOD
  }

  lemma NoOverflow(live: Live, buy: bool, p: u32)
    requires |live| < U32_MOD
    ensures Total(live, CountAt(buy, p)) < U32_MOD
    ensures Total(live, SharesAt(buy, p)) <= (U32_MOD - 1) * (U32_MOD - 1)
  {
    CountBound(live, buy, p);
    var n := Total(live, CountAt(buy, p));
    assert n * (U32_MOD - 1) <= (U32_MOD - 1) * (U32_MOD - 1);
  }

  /** Below their widths the counters of a level just add up. */
  lemma AddToLevelExact(s: Side, price: u32, shares: u32, level: Level)
    requires level == if price in s then s[price] else Level(0, 0)
    requires level.shares + shares < U64_MOD && level.count + 1 < U32_MOD
    ensures AddToLevel(s, price, shares) == s[price := Level(level.shares + shares, level.count + 1)]
  {
  }

  lemma InsertLevel(s: Side, live: Live, buy: bool, ref: u64, o: Order, p: u32)
    requires LevelOk(s, live, buy, p) && ref !in live && RoomForOrder(live)
    ensures LevelOk(if IsBuy(o) == buy then AddToLevel(s, o.price, o.shares) else s, live[ref := o], buy, p)
  {
    TotalWith(live, CountAt(buy, p), ref, o);
    TotalWith(live, SharesAt(buy, p), ref, o);
    if IsBuy(o) == buy && p == o.price {
      CountBound(live, buy, p);
      NoOverflow(live, buy, p);
      AddToLevelExact(s, p, o.shares, if p in s then s[p] else Level(0, 0));
    }
  }

  lemma InsertSide(s: Side, live: Live, buy: bool, ref: u64, o: Order)
    requires SideOk(s, live, buy) && ref !in live && RoomForOrder(live)
    ensures SideOk(if IsBuy(o) == buy then AddToLevel(s, o.price, o.shares) else s, live[ref := o], buy)
  {
    var s' := if IsBuy(o) == buy then AddToLevel(s, o.price, o.shares) else s;
    var live' := live[ref := o];
    forall p: u32
      ensures LevelOk(s', live', buy, p)
    {
      assert LevelOk(s, live, buy, p);
      InsertLevel(s, live, buy, ref, o, p);
    }
  }

  lemma TakeOutSide(s: Side, live: Live, buy: bool, ref: u64)
    requires SideOk(s, live, buy) && ref in live && |live| < U32_MOD
    ensures var o := live[ref];
            SideOk(if IsBuy(o) == buy
                   then RemoveOrderFromLevel(ReduceLevelShares(s, o.price, o.shares), o.price) else s,
                   live - {ref}, buy)
  {
    var o := live[ref];
    var s' := if IsBuy(o) == buy
              then RemoveOrderFromLevel(ReduceLevelShares(s, o.price, o.shares), o.price) else s;
    forall p: u32
      ensures LevelOk(s', live - {ref}, buy, p)
    {
      assert LevelOk(s, live, buy, p) && LevelOk(s, live, buy, o.price);
      TotalWithout(live, CountAt(buy, p), ref);
      TotalWithout(live, SharesAt(buy, p), ref);
      OrderInTotals(live, ref);
      CountBound(live - {ref}, buy, p);
    }
  }

  lemma ReduceSide(s: Side, live: Live, buy: bool, ref: u64, taken: u32)
    requires SideOk(s, live, buy) && ref in live && taken < live[ref].shares && |live| < U32_MOD
    ensures var o := live[ref];
            SideOk(if IsBuy(o) == buy then ReduceLevelShares(s, o.price, taken) else s,
                   live[ref := o.(shares := o.shares - taken)], buy)
  {
    var o := live[ref];
    var o' := o.(shares := o.shares - taken);
    var s' := if IsBuy(o) == buy then ReduceLevelShares(s, o.price, taken) else s;
    var live' := live[ref := o'];
    forall p: u32
      ensures LevelOk(s', live', buy, p)
    {
      assert LevelOk(s, live, buy, p) && LevelOk(s, live, buy, o.price);
      TotalReplaced(live, CountAt(buy, p), ref, o');
      TotalReplaced(live, SharesAt(buy, p), ref, o');
      OrderInTotals(live, ref);
    }
  }

  lemma InsertAggregated(b: Book, ref: u64, o: Order)
    requires Aggregated(b) && ref !in b.live && RoomForOrder(b.live)
    ensures Aggregated(Insert(b, ref, o))
  {
    InsertSide(b.bids, b.live, true, ref, o);
    InsertSide(b.asks, b.live, false, ref, o);
  }

  lemma TakeOutAggregated(b: Book, ref: u64)
    requires Aggregated(b) && ref in b.live && |b.live| < U32_MOD
    ensures Aggregated(TakeOut(b, ref))
  {
    TakeOutSide(b.bids, b.live, true, ref);
    TakeOutSide(b.asks, b.live, false, ref);
  }

  lemma ReduceAggregated(b: Book, ref: u64, quantity: u32)
    requires Aggregated(b) && ref in b.live && |b.live| < U32_MOD
    ensures Aggregated(Reduce(b, ref, quantity))
  {
    var o := b.live[ref];
    if Min(quantity, o.shares) == o.shares {
      assert Reduce(b, ref, quantity) == TakeOut(b, ref);
      TakeOutAggregated(b, ref);
    } else {
      ReduceSide(b.bids, b.live, true, ref, quantity);
      ReduceSide(b.asks, b.live, false, ref, quantity);
    }
  }

  /** Writing an order over another live one leaves the other's level with one order too many. */
  lemma OverwriteBreaks(b: Book, ref: u64, o: Order)
    requires Aggregated(b) && ref in b.live && RoomForOrder(b.live)
    ensures !Aggregated(Insert(b, ref, o))
  {
    var was := b.live[ref];
    var buy := IsBuy(was);
    var after := Insert(b, ref, o);
    assert LevelOk(SideOf(b, buy), b.live, buy, was.price);
    OrderInTotals(b.live, ref);
    NoOverflow(b.live, buy, was.price);
    CountBound(b.live, buy, was.price);
    TotalReplaced(b.live, CountAt(buy, was.price), ref, o);
    assert !LevelOk(SideOf(after, buy), after.live, buy, was.price);
  }

  // ----- Every message -----

  /** Add: the flat rule on the orders, and the aggregates follow. */
  lemma AddKeeps(b: Book, ref: u64, o: Order)
    requires Aggregated(b) && RoomForOrder(b.live)
    ensures var after := ApplyAdd(b, ref, o).book;
            Aggregated(after) && after.live == AddOrder(b.live, ref, o)
  {
    if ref !in b.live {
      InsertAggregated(b, ref, o);
    }
  }

  lemma DeleteKeeps(b: Book, ref: u64)
    requires Aggregated(b) && |b.live| < U32_MOD
    ensures var after := ApplyDelete(b, ref).book;
            Aggregated(after) && after.live == DeleteOrder(b.live, ref)
  {
    if ref in b.live {
      TakeOutAggregated(b, ref);
    } else {
      assert DeleteOrder(b.live, ref) == b.live;
    }
  }

  lemma ReduceKeeps(b: Book, ref: u64, quantity: u32, what: Outcome)
    requires Aggregated(b) && |b.live| < U32_MOD
    ensures var after := ApplyReduce(b, ref, quantity, what).book;
            Aggregated(after) && after.live == ReduceOrder(b.live, ref, quantity)
  {
    if ref in b.live {
      ReduceAggregated(b, ref, quantity);
    }
  }

  /** What Cancel and Executed of some shares leave: fewer shares of an order that had more, and nothing of
      one that had no more. */
  lemma ReduceTakesExactly(b: Book, ref: u64, quantity: u32, what: Outcome)
    ensures var after := ApplyReduce(b, ref, quantity, what).book;
            after.live ==
              if ref !in b.live then b.live
              else if quantity < b.live[ref].shares then
                b.live[ref := Order(b.live[ref].side, b.live[ref].price, b.live[ref].shares - quantity)]
              else b.live - {ref}
  {
  }

  /** Replace keeps the aggregates exactly when the new reference is not that of another live order:
      the code does not look. */
  lemma ReplaceKeepsExactly(b: Book, ref: u64, newRef: u64, price: u32, shares: u32)
    requires Aggregated(b) && |b.live| < U32_MOD
    ensures var after := ApplyReplace(b, ref, newRef, price, shares).book;
            && after.live == ReplaceOrder(b.live, ref, newRef, price, shares)
            && (Aggregated(after) <==> ref !in b.live || newRef == ref || newRef !in b.live)
  {
    if ref in b.live {
      TakeOutAggregated(b, ref);
      var rest := TakeOut(b, ref);
      var o := Order(b.live[ref].side, price, shares);
      RemovalMakesRoom(b.live, ref);
      if newRef in rest.live {
        OverwriteBreaks(rest, newRef, o);
      } else {
        InsertAggregated(rest, newRef, o);
      }
    }
  }

  lemma RemovalMakesRoom(live: Live, ref: u64)
    requires ref in live && |live| < U32_MOD
    ensures |live - {ref}| == |live| - 1 && RoomForOrder(live - {ref})
  {
    assert (live - {ref}).Keys == live.Keys - {ref};
    assert |live.Keys| == |live|;
    assert |(live - {ref}).Keys| == |live - {ref}|;
  }

  // ----- What the aggregates say -----

  /** The guards against underflow never take effect: a level holds every order resting on it. */
  lemma GuardsNeverBite(b: Book, ref: u64)
    requires Aggregated(b) && ref in b.live
    ensures var o := b.live[ref];
            var s := SideOf(b, IsBuy(o));
            o.price in s && s[o.price].shares >= o.shares && s[o.price].count > 0
  {
    var o := b.live[ref];
    assert LevelOk(SideOf(b, IsBuy(o)), b.live, IsBuy(o), o.price);
    OrderInTotals(b.live, ref);
  }

  /** The reported best of a side is the best price among live orders of that side, with all the
      shares and orders resting there. */
  ghost predicate TrueBest(live: Live, buy: bool, best: Option<PriceLevel>) {
    match best
    case None => forall ref :: ref in live ==> (live[ref].side == SIDE_BUY) != buy
    case Some(level) =>
      && (exists ref :: ref in live && (live[ref].side == SIDE_BUY) == buy && live[ref].price == level.price)
      && (forall ref :: ref in live && (live[ref].side == SIDE_BUY) == buy ==>
            if buy then live[ref].price <= level.price else level.price <= live[ref].price)
      && level.shares == Total(live, SharesAt(buy, level.price))
      && level.orders == Total(live, CountAt(buy, level.price))
  }

  lemma BestIsTrue(b: Book, buy: bool)
    requires Aggregated(b)
    ensures TrueBest(b.live, buy, BestLevel(SideOf(b, buy), buy))
  {
    var s := SideOf(b, buy);
    forall ref | ref in b.live && IsBuy(b.live[ref]) == buy
      ensures b.live[ref].price in s
    {
      GuardsNeverBite(b, ref);
    }
    var best := BestLevel(s, buy);
    if best.Some? {
      assert LevelOk(s, b.live, buy, best.value.price);
      var ref := SomeOrderAt(b.live, buy, best.value.price);
    }
  }

  lemma TopIsTrue(b: Book)
    requires Aggregated(b)
    ensures TrueBest(b.live, true, TopOf(b).bid) && TrueBest(b.live, false, TopOf(b).ask)
  {
    BestIsTrue(b, true);
    BestIsTrue(b, false);
  }

  // ----- Reports -----

  /** Once the callback is set and anything was reported, the last report is the current top. */
  ghost predicate Reported(b: Book) {
    b.lastTop.Some? ==> SameTop(b.lastTop.value, TopOf(b))
  }

  /** A report is the new top of book and differs from the one before; without a report the last one
      still holds. */
  ghost predicate SoundReport(b: Book, after: Applied) {
    && after.book.hooked == b.hooked
    && (match after.report
        case None => after.book.lastTop == b.lastTop
        case Some(t) =>
          && t == TopOf(after.book) && after.book.lastTop == Some(t)
          && (b.lastTop.Some? ==> !SameTop(b.lastTop.value, t)))
  }

  /** Presence, price or size differ; order counts do not matter. */
  predicate Differ(a: Option<PriceLevel>, b: Option<PriceLevel>) {
    match (a, b)
    case (None, None) => false
    case (Some(x), Some(y)) => x.price != y.price || x.shares != y.shares
    case _ => true
  }

  /** When exactly the callback is told: when it is set and has been told nothing, or something that
      differs from the current top on either side. */
  lemma ToldExactly(b: Book)
    ensures Notify(b).report.Some? <==>
              b.hooked && (b.lastTop.None? || Differ(b.lastTop.value.bid, TopOf(b).bid)
                           || Differ(b.lastTop.value.ask, TopOf(b).ask))
    ensures Notify(b).report.Some? ==> Notify(b).report.value == TopOf(b)
  {
  }

  lemma NotifyFollows(b: Book, changed: Book)
    requires b.hooked && Reported(b) && changed.hooked && changed.lastTop == b.lastTop
    ensures Reported(Notify(changed).book) && SoundReport(b, Notify(changed)) && Notify(changed).book.lastTop.Some?
  {
  }

  /** A message that does not touch an order changes neither the top nor what was reported. */
  lemma CountFollows(b: Book, what: Outcome)
    requires b.hooked && Reported(b)
    ensures Reported(Count(b, what)) && SoundReport(b, Applied(Count(b, what), None))
    ensures Count(b, what).lastTop == b.lastTop
  {
    assert TopOf(Count(b, what)) == TopOf(b);
  }

  lemma AddFollows(b: Book, ref: u64, o: Order)
    requires b.hooked && Reported(b)
    ensures var add := ApplyAdd(b, ref, o);
            Reported(add.book) && SoundReport(b, add) && (ref !in b.live ==> add.book.lastTop.Some?)
  {
    CountFollows(b, Duplicates);
    NotifyFollows(b, Count(Insert(b, ref, o), Adds));
  }

  lemma DeleteFollows(b: Book, ref: u64)
    requires b.hooked && Reported(b)
    ensures Reported(ApplyDelete(b, ref).book) && SoundReport(b, ApplyDelete(b, ref))
  {
    CountFollows(b, Unknown);
    if ref in b.live {
      NotifyFollows(b, Count(TakeOut(b, ref), Deletes));
    }
  }

  lemma ReduceFollows(b: Book, ref: u64, quantity: u32, what: Outcome)
    requires b.hooked && Reported(b)
    ensures var reduce := ApplyReduce(b, ref, quantity, what);
            Reported(reduce.book) && SoundReport(b, reduce)
  {
    CountFollows(b, Unknown);
    if ref in b.live {
      NotifyFollows(b, Count(Reduce(b, ref, quantity), what));
    }
  }

  lemma ReplaceFollows(b: Book, ref: u64, newRef: u64, price: u32, shares: u32)
    requires b.hooked && Reported(b)
    ensures var replace := ApplyReplace(b, ref, newRef, price, shares);
            Reported(replace.book) && SoundReport(b, replace)
  {
    CountFollows(b, Unknown);
    if ref in b.live {
      NotifyFollows(b, Count(Insert(TakeOut(b, ref), newRef, Order(b.live[ref].side, price, shares)), Replaces));
    }
  }

  /** With the callback set, every message keeps the last report equal to the current top of book,
      reports only changes, and reports the first order. */
  lemma ReportsFollowTop(b: Book, ref: u64, o: Order, quantity: u32, what: Outcome, newRef: u64)
    requires b.hooked && Reported(b)
    ensures var add := ApplyAdd(b, ref, o);
            Reported(add.book) && SoundReport(b, add) && (ref !in b.live ==> add.book.lastTop.Some?)
    ensures Reported(ApplyDelete(b, ref).book) && SoundReport(b, ApplyDelete(b, ref))
    ensures var reduce := ApplyReduce(b, ref, quantity, what);
            Reported(reduce.book) && SoundReport(b, reduce)
    ensures var replace := ApplyReplace(b, ref, newRef, o.price, o.shares);
            Reported(replace.book) && SoundReport(b, replace)
  {
    AddFollows(b, ref, o);
    DeleteFollows(b, ref);
    ReduceFollows(b, ref, quantity, what);
    ReplaceFollows(b, ref, newRef, o.price, o.shares);
  }

  // ----- Shares -----

  ghost function SideShares(s: Side): nat
    decreases |s|
  {
    if s == map[] then 0
    else
      var p :| p in s;
      s[p].shares + SideShares(s - {p})
  }

  lemma {:induction false} SideSharesAre(s: Side, live: Live, buy: bool)
    requires forall p :: p in s ==> s[p].shares == Total(live, SharesAt(buy, p))
    ensures SideShares(s) == Total(live, SharesIn(buy, s.Keys))
    decreases |s|
  {
    if s == map[] {
      NoPrices(live, buy);
      assert s.Keys == {};
    } else {
      var p :| p in s && SideShares(s) == s[p].shares + SideShares(s - {p});
      SideSharesAre(s - {p}, live, buy);
      assert (s - {p}).Keys == s.Keys - {p};
      AddPrice(live, buy, s.Keys - {p}, p);
      assert s.Keys - {p} + {p} == s.Keys;
    }
  }

  /** All shares resting are all shares aggregated, both sides together. */
  lemma RestingEqualsAggregated(b: Book)
    requires Aggregated(b)
    ensures Total(b.live, AllShares) == SideShares(b.bids) + SideShares(b.asks)
  {
    forall p | p in b.bids
      ensures b.bids[p].shares == Total(b.live, SharesAt(true, p))
    {
      assert LevelOk(b.bids, b.live, true, p);
    }
    forall p | p in b.asks
      ensures b.asks[p].shares == Total(b.live, SharesAt(false, p))
    {
      assert LevelOk(b.asks, b.live, false, p);
    }
    SideSharesAre(b.bids, b.live, true);
    SideSharesAre(b.asks, b.live, false);
    forall ref | ref in b.live
      ensures if IsBuy(b.live[ref]) then b.live[ref].price in b.bids.Keys else b.live[ref].price in b.asks.Keys
    {
      GuardsNeverBite(b, ref);
    }
    SidesMakeAll(b.live, b.bids.Keys, b.asks.Keys);
  }
}
