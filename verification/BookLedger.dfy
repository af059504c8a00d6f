/** Where the shares went, over whole message streams. */
module BookLedger {
  import opened Bytes
  import opened Itch
  import opened Orders
  import opened BookModel
  import opened BookFacts
  import opened MultiModel
  import opened MultiFacts

  // ----- The ledger of the books -----

  /** Shares that entered the books and the ways they left. */
  datatype Ledger = Ledger(accepted: int, cancelled: int, executed: int, deleted: int, replaced: int)

  ghost function BookShares(b: Book): nat {
    SideShares(b.bids) + SideShares(b.asks)
  }

  /** The symbol whose book a message goes to. */
  ghost function Target(m: Multi, msg: Msg): Option<Symbol> {
    if msg.Add? then Some(msg.symbol) else if msg.ref in m.route then Some(m.route[msg.ref]) else None
  }

  /** By how much the levels of that book grow. */
  ghost function Growth(m: Multi, m': Multi, msg: Msg): int {
    match Target(m, msg)
    case None => 0
    case Some(symbol) => BookShares(BookOf(m', symbol)) - BookShares(BookOf(m, symbol))
  }

  /** How much of it a Replace takes out before it puts the new order in. */
  ghost function Lost(m: Multi, msg: Msg): int {
    if !msg.Replace? || msg.ref !in m.route then 0
    else
      var b := BookOf(m, m.route[msg.ref]);
      if msg.ref in b.live then BookShares(b) - BookShares(TakeOut(b, msg.ref)) else 0
  }

  /** What the levels gain and lose goes to the account of the message that did it. */
  function Booked(msg: Msg, growth: int, lost: int, l: Ledger): Ledger {
    match msg
    case Add(_, _, _) => l.(accepted := l.accepted + growth)
    case Delete(_) => l.(deleted := l.deleted - growth)
    case Cancel(_, _) => l.(cancelled := l.cancelled - growth)
    case Executed(_, _) => l.(executed := l.executed - growth)
    case Replace(_, _, _, _) => l.(accepted := l.accepted + growth + lost, replaced := l.replaced + lost)
  }

  ghost function LedgerOf(hooked: bool, bodies: seq<seq<byte>>): Ledger {
    if bodies == [] then Ledger(0, 0, 0, 0, 0)
    else
      var n := |bodies| - 1;
      match Decode(bodies[n])
      case None => LedgerOf(hooked, bodies[..n])
      case Some(msg) =>
        var m := Run(hooked, bodies[..n]);
        Booked(msg, Growth(m, Apply(m, msg).multi, msg), Lost(m, msg), LedgerOf(hooked, bodies[..n]))
  }

  // ----- The ledger of the flat rules -----

  function Post(flat: Flat, msg: Msg, l: Ledger): Ledger {
    match msg
    case Add(ref, _, o) => if ref in flat then l else l.(accepted := l.accepted + o.shares)
    case Delete(ref) => if ref !in flat then l else l.(deleted := l.deleted + flat[ref].order.shares)
    case Cancel(ref, shares) =>
      if ref !in flat then l else l.(cancelled := l.cancelled + Min(shares, flat[ref].order.shares))
    case Executed(ref, shares) =>
      if ref !in flat then l else l.(executed := l.executed + Min(shares, flat[ref].order.shares))
    case Replace(ref, newRef, _, shares) =>
      if ref !in flat then l
      else l.(accepted := l.accepted + shares, replaced := l.replaced + flat[ref].order.shares)
  }

  ghost function FlatLedgerOf(bodies: seq<seq<byte>>): Ledger {
    if bodies == [] then Ledger(0, 0, 0, 0, 0)
    else
      var n := |bodies| - 1;
      match Decode(bodies[n])
      case None => FlatLedgerOf(bodies[..n])
      case Some(msg) => Post(FlatRun(bodies[..n]), msg, FlatLedgerOf(bodies[..n]))
  }

  ghost function OrdersOf(flat: Flat): Live {
    map ref | ref in flat :: flat[ref].order
  }

  ghost function Resting(flat: Flat): nat {
    Total(OrdersOf(flat), AllShares)
  }

  ghost predicate Balanced(flat: Flat, l: Ledger) {
    l.accepted == Resting(flat) + l.cancelled + l.executed + l.deleted + l.replaced
  }

  lemma RestingWith(flat: Flat, ref: u64, o: FlatOrder)
    ensures Resting(flat[ref := o])
            == Resting(flat) + o.order.shares - (if ref in flat then flat[ref].order.shares else 0)
  {
    assert OrdersOf(flat[ref := o]) == OrdersOf(flat)[ref := o.order];
    if ref in flat {
      TotalReplaced(OrdersOf(flat), AllShares, ref, o.order);
    } else {
      TotalWith(OrdersOf(flat), AllShares, ref, o.order);
    }
  }

  lemma RestingWithout(flat: Flat, ref: u64)
    ensures Resting(flat - {ref}) == Resting(flat) - (if ref in flat then flat[ref].order.shares else 0)
  {
    assert OrdersOf(flat - {ref}) == OrdersOf(flat) - {ref};
    if ref in flat {
      TotalWithout(OrdersOf(flat), AllShares, ref);
    } else {
      assert OrdersOf(flat) - {ref} == OrdersOf(flat);
    }
  }

  lemma PostBalanced(flat: Flat, msg: Msg, l: Ledger)
    requires Balanced(flat, l) && Fresh(flat, msg)
    ensures Balanced(FlatApply(flat, msg), Post(flat, msg, l))
  {
    match msg
    case Add(ref, symbol, o) => RestingWith(flat, ref, FlatOrder(symbol, o));
    case Delete(ref) => RestingWithout(flat, ref);
    case Cancel(ref, shares) => if ref in flat { ReduceBalanced(flat, ref, shares); }
    case Executed(ref, shares) => if ref in flat { ReduceBalanced(flat, ref, shares); }
    case Replace(ref, newRef, price, shares) =>
      if ref in flat {
        RestingWithout(flat, ref);
        RestingWith(flat - {ref}, newRef,
                    FlatOrder(flat[ref].symbol, Order(flat[ref].order.side, price, shares)));
      }
  }

  lemma ReduceBalanced(flat: Flat, ref: u64, quantity: u32)
    requires ref in flat
    ensures Resting(FlatReduce(flat, ref, quantity)) == Resting(flat) - Min(quantity, flat[ref].order.shares)
  {
    var o := flat[ref].order;
    var left := o.shares - Min(quantity, o.shares);
    RestingWithout(flat, ref);
    RestingWith(flat, ref, flat[ref].(order := o.(shares := left)));
  }

  // ----- The resting total is the sum of all levels of all books -----

  ghost function AggregatedShares(books: map<Symbol, Book>): nat
    decreases |books|
  {
    if books == map[] then 0
    else
      var s :| s in books;
      BookShares(books[s]) + AggregatedShares(books - {s})
  }

  lemma PutBack(a: Live, b: Live, ref: u64)
    requires a.Keys !! b.Keys && ref in a
    ensures ref !in (a - {ref}) + b && ((a - {ref}) + b)[ref := a[ref]] == a + b
  {
  }

  lemma {:induction false} TotalSplits(a: Live, b: Live, w: Weight)
    requires a.Keys !! b.Keys
    ensures Total(a + b, w) == Total(a, w) + Total(b, w)
    decreases |a|
  {
    if |a| == 0 {
      assert a + b == b;
    } else {
      var k :| k in a;
      TotalSplits(a - {k}, b, w);
      PutBack(a, b, k);
      TotalWithout(a, w, k);
      TotalWith((a - {k}) + b, w, k, a[k]);
    }
  }

  ghost function Others(flat: Flat, symbol: Symbol): Flat {
    map ref | ref in flat && flat[ref].symbol != symbol :: flat[ref]
  }

  /** One symbol's orders are what its book aggregates; the other books refine the other orders. */
  lemma SetAside(books: map<Symbol, Book>, flat: Flat, s: Symbol)
    requires forall t :: t in books ==> BookRefines(books[t], flat, t)
    requires s in books
    ensures Resting(flat) == BookShares(books[s]) + Resting(Others(flat, s))
    ensures forall t :: t in books - {s} ==> BookRefines(books[t], Others(flat, s), t)
  {
    var others := Others(flat, s);
    assert BookRefines(books[s], flat, s);
    RestingEqualsAggregated(books[s]);
    assert OrdersOf(flat) == Project(flat, s) + OrdersOf(others);
    TotalSplits(Project(flat, s), OrdersOf(others), AllShares);
    forall t | t in books - {s}
      ensures BookRefines(books[t], others, t)
    {
      assert BookRefines(books[t], flat, t) && Project(others, t) == Project(flat, t);
    }
  }

  lemma {:induction false} BooksHoldEverything(books: map<Symbol, Book>, flat: Flat)
    requires forall s :: s in books ==> BookRefines(books[s], flat, s)
    requires forall ref :: ref in flat ==> flat[ref].symbol in books
    ensures AggregatedShares(books) == Resting(flat)
    decreases |books|
  {
    if books == map[] {
      assert OrdersOf(flat) == map[];
    } else {
      var s :| s in books && AggregatedShares(books)
                             == BookShares(books[s]) + AggregatedShares(books - {s});
      SetAside(books, flat, s);
      BooksHoldEverything(books - {s}, Others(flat, s));
    }
  }

  // ----- The two ledgers agree -----

  lemma LevelsAreOrders(m: Multi, flat: Flat, symbol: Symbol)
    requires Refines(m, flat)
    ensures BookShares(BookOf(m, symbol)) == Total(Project(flat, symbol), AllShares)
  {
    if symbol in m.books {
      assert BookRefines(m.books[symbol], flat, symbol);
      RestingEqualsAggregated(m.books[symbol]);
    } else {
      assert Project(flat, symbol) == map[];
    }
  }

  lemma ReducedTotal(live: Live, ref: u64, quantity: u32)
    requires ref in live
    ensures Total(ReduceOrder(live, ref, quantity), AllShares)
         == Total(live, AllShares) - Min(quantity, live[ref].shares)
  {
    var o := live[ref];
    var left := o.shares - Min(quantity, o.shares);
    if left == 0 {
      TotalWithout(live, AllShares, ref);
    } else {
      TotalReplaced(live, AllShares, ref, o.(shares := left));
    }
  }

  /** What a Replace takes out of the levels are the original's shares. */
  lemma LostIsOriginal(b: Book, flat: Flat, symbol: Symbol, ref: u64)
    requires BookRefines(b, flat, symbol) && |flat| + 1 < U32_MOD && ref in b.live
    ensures BookShares(b) - BookShares(TakeOut(b, ref)) == b.live[ref].shares
  {
    ProjectionRoom(flat, symbol);
    TakeOutAggregated(b, ref);
    RestingEqualsAggregated(b);
    RestingEqualsAggregated(TakeOut(b, ref));
    TotalWithout(b.live, AllShares, ref);
  }

  lemma ReplacedTotal(live: Live, ref: u64, newRef: u64, price: u32, shares: u32)
    requires ref in live && (newRef in live ==> newRef == ref)
    ensures Total(ReplaceOrder(live, ref, newRef, price, shares), AllShares)
         == Total(live, AllShares) - live[ref].shares + shares
  {
    TotalWithout(live, AllShares, ref);
    TotalWith(live - {ref}, AllShares, newRef, Order(live[ref].side, price, shares));
  }

  /** What a message moves, by the flat rules. */
  function FlatGrowth(flat: Flat, msg: Msg): int {
    if msg.Add? then (if msg.ref in flat then 0 else msg.order.shares)
    else if msg.ref !in flat then 0
    else
      var was: int := flat[msg.ref].order.shares;
      match msg
      case Delete(_) => -was
      case Cancel(_, shares) => 0 - Min(shares, flat[msg.ref].order.shares)
      case Executed(_, shares) => 0 - Min(shares, flat[msg.ref].order.shares)
      case Replace(_, _, _, shares) => shares - was
  }

  function FlatLost(flat: Flat, msg: Msg): int {
    if msg.Replace? && msg.ref in flat then flat[msg.ref].order.shares else 0
  }

  lemma BookedIsPost(flat: Flat, msg: Msg, l: Ledger)
    ensures Booked(msg, FlatGrowth(flat, msg), FlatLost(flat, msg), l) == Post(flat, msg, l)
  {
  }

  lemma OrdersGrow(flat: Flat, msg: Msg, symbol: Symbol)
    requires Fresh(flat, msg)
    requires if msg.Add? then msg.symbol == symbol else msg.ref in flat ==> flat[msg.ref].symbol == symbol
    ensures Total(Project(FlatApply(flat, msg), symbol), AllShares)
         == Total(Project(flat, symbol), AllShares) + FlatGrowth(flat, msg)
  {
    var live := Project(flat, symbol);
    match msg
    case Add(ref, _, o) =>
      ProjectAdd(flat, ref, symbol, o);
      if ref !in flat {
        TotalWith(live, AllShares, ref, o);
      }
    case Delete(ref) =>
      ProjectDelete(flat, ref, symbol);
      if ref in flat {
        TotalWithout(live, AllShares, ref);
      } else {
        assert live - {ref} == live;
      }
    case Cancel(ref, shares) =>
      ProjectReduce(flat, ref, shares, symbol);
      if ref in flat {
        ReducedTotal(live, ref, shares);
      }
    case Executed(ref, shares) =>
      ProjectReduce(flat, ref, shares, symbol);
      if ref in flat {
        ReducedTotal(live, ref, shares);
      }
    case Replace(ref, newRef, price, shares) =>
      if ref in flat {
        ProjectReplace(flat, ref, newRef, price, shares, symbol);
        ReplacedTotal(live, ref, newRef, price, shares);
      }
  }

  lemma UnroutedMovesNothing(m: Multi, flat: Flat, msg: Msg)
    requires RoutesRefine(m, flat) && Target(m, msg).None?
    ensures FlatGrowth(flat, msg) == 0
  {
  }

  /** A message goes to the book of its order. */
  lemma TargetHoldsOrder(m: Multi, flat: Flat, msg: Msg, symbol: Symbol)
    requires RoutesRefine(m, flat) && Target(m, msg) == Some(symbol)
    ensures if msg.Add? then msg.symbol == symbol else msg.ref in flat ==> flat[msg.ref].symbol == symbol
  {
  }

  lemma GrowthAtTarget(m: Multi, m': Multi, msg: Msg, symbol: Symbol)
    requires Target(m, msg) == Some(symbol)
    ensures Growth(m, m', msg) == BookShares(BookOf(m', symbol)) - BookShares(BookOf(m, symbol))
  {
  }

  /** The levels of the routed book move by as much as the live orders. */
  lemma RoutedGrowth(m: Multi, m': Multi, flat: Flat, msg: Msg, symbol: Symbol, was: int, now: int)
    requires Target(m, msg) == Some(symbol) && RoutesRefine(m, flat) && Fresh(flat, msg)
    requires was == BookShares(BookOf(m, symbol)) == Total(Project(flat, symbol), AllShares)
    requires now == BookShares(BookOf(m', symbol)) == Total(Project(FlatApply(flat, msg), symbol), AllShares)
    ensures Growth(m, m', msg) == FlatGrowth(flat, msg)
  {
    calc {
      Growth(m, m', msg);
      { GrowthAtTarget(m, m', msg, symbol); }
      now - was;
      {
        TargetHoldsOrder(m, flat, msg, symbol);
        OrdersGrow(flat, msg, symbol);
      }
      FlatGrowth(flat, msg);
    }
  }

  lemma LostIsFlat(m: Multi, flat: Flat, msg: Msg)
    requires Refines(m, flat) && |flat| + 1 < U32_MOD
    ensures Lost(m, msg) == FlatLost(flat, msg)
  {
    if msg.Replace? && msg.ref in m.route {
      var symbol := m.route[msg.ref];
      assert BookRefines(m.books[symbol], flat, symbol);
      if msg.ref in m.books[symbol].live {
        LostIsOriginal(m.books[symbol], flat, symbol, msg.ref);
      }
    }
  }

  lemma GrowthIsFlat(m: Multi, m': Multi, flat: Flat, msg: Msg)
    requires Refines(m, flat) && Refines(m', FlatApply(flat, msg)) && Fresh(flat, msg)
    ensures Growth(m, m', msg) == FlatGrowth(flat, msg)
  {
    match Target(m, msg)
    case None => UnroutedMovesNothing(m, flat, msg);
    case Some(symbol) =>
      LevelsAreOrders(m, flat, symbol);
      LevelsAreOrders(m', FlatApply(flat, msg), symbol);
      RoutedGrowth(m, m', flat, msg, symbol, BookShares(BookOf(m, symbol)), BookShares(BookOf(m', symbol)));
  }

  /** What a message moves in the levels is what it moves by the flat rules. */
  lemma MessageBooked(m: Multi, flat: Flat, msg: Msg, l: Ledger)
    requires Refines(m, flat) && |flat| + 1 < U32_MOD && Fresh(flat, msg)
    ensures Booked(msg, Growth(m, Apply(m, msg).multi, msg), Lost(m, msg), l) == Post(flat, msg, l)
  {
    MessageRefinesExactly(m, flat, msg);
    GrowthIsFlat(m, Apply(m, msg).multi, flat, msg);
    LostIsFlat(m, flat, msg);
    BookedIsPost(flat, msg, l);
  }

  lemma {:induction false} LedgersAgree(hooked: bool, bodies: seq<seq<byte>>)
    requires Admissible(bodies)
    ensures LedgerOf(hooked, bodies) == FlatLedgerOf(bodies)
  {
    if bodies != [] {
      var n := |bodies| - 1;
      AdmissiblePrefix(bodies, n);
      LedgersAgree(hooked, bodies[..n]);
      if Decode(bodies[n]).Some? {
        BooksRefineFlatMap(hooked, bodies[..n]);
        MessageBooked(Run(hooked, bodies[..n]), FlatRun(bodies[..n]), Decode(bodies[n]).value,
                      FlatLedgerOf(bodies[..n]));
      }
    }
  }

  lemma {:induction false} FlatIsBalanced(bodies: seq<seq<byte>>)
    requires Admissible(bodies)
    ensures Balanced(FlatRun(bodies), FlatLedgerOf(bodies))
  {
    if bodies != [] {
      var n := |bodies| - 1;
      AdmissiblePrefix(bodies, n);
      FlatIsBalanced(bodies[..n]);
      if Decode(bodies[n]).Some? {
        PostBalanced(FlatRun(bodies[..n]), Decode(bodies[n]).value, FlatLedgerOf(bodies[..n]));
      }
    }
  }

  /** Share conservation over every admissible stream: what the levels of the books gained from Add
      and Replace is resting, or left them by a Cancel, Executed, Delete or Replace; and what rests is
      what the levels hold. */
  lemma SharesAreConserved(hooked: bool, bodies: seq<seq<byte>>)
    requires Admissible(bodies)
    ensures Balanced(FlatRun(bodies), LedgerOf(hooked, bodies))
    ensures AggregatedShares(Run(hooked, bodies).books) == Resting(FlatRun(bodies))
  {
    LedgersAgree(hooked, bodies);
    FlatIsBalanced(bodies);
    BooksRefineFlatMap(hooked, bodies);
    BooksHoldEverything(Run(hooked, bodies).books, FlatRun(bodies));
  }
}
