/** The single-symbol and multi-symbol books as objects that update their maps in place. */
module OrderBook {
  import opened Bytes
  import opened Itch
  import opened Orders
  import M = BookModel
  import N = MultiModel

  class OrderBook {
    var bids: M.Side
    var asks: M.Side
    var orders: Live
    var hooked: bool                 // a top-of-book callback is set
    var lastTop: Option<M.Top>       // what it was last told
    var statAdds: nat
    var statDuplicateAdd: nat
    var statDeletes: nat
    var statCancels: nat
    var statExecutes: nat
    var statReplaces: nat
    var statUnknownOrder: nat

    ghost function View(): M.Book
      reads this
    {
      M.Book(bids, asks, orders, hooked, lastTop,
             M.Counters(statAdds, statDuplicateAdd, statDeletes, statCancels, statExecutes, statReplaces,
                        statUnknownOrder))
    }

    constructor ()
      ensures View() == M.EmptyBook
    {
      bids, asks, orders, hooked, lastTop := map[], map[], map[], false, None;
      statAdds, statDuplicateAdd, statDeletes, statCancels := 0, 0, 0, 0;
      statExecutes, statReplaces, statUnknownOrder := 0, 0, 0;
    }

    method ApplyAdd(ref: u64, o: Order, recv: u64)
      returns (ghost report: Option<M.Update>)
      modifies this
      ensures var r := M.ApplyAdd(old(View()), ref, o);
              View() == r.book && report == M.Stamp(r.report, recv)
    {
      if ref in orders {
        statDuplicateAdd := statDuplicateAdd + 1;
        return None;
      }
      orders := orders[ref := o];
      AddToLevel(IsBuy(o), o.price, o.shares);
      statAdds := statAdds + 1;
      report := NotifyIfTopChanged(recv);
    }

    method ApplyDelete(ref: u64, recv: u64)
      returns (ghost report: Option<M.Update>)
      modifies this
      ensures var r := M.ApplyDelete(old(View()), ref);
              View() == r.book && report == M.Stamp(r.report, recv)
    {
      if ref !in orders {
        statUnknownOrder := statUnknownOrder + 1;
        return None;
      }
      var o := orders[ref];
      ReduceLevelShares(IsBuy(o), o.price, o.shares);
      RemoveOrderFromLevel(IsBuy(o), o.price);
      orders := orders - {ref};
      assert View() == M.TakeOut(old(View()), ref);
      statDeletes := statDeletes + 1;
      report := NotifyIfTopChanged(recv);
    }

    method ApplyCancel(ref: u64, cancelled: u32, recv: u64)
      returns (ghost report: Option<M.Update>)
      modifies this
      ensures var r := M.ApplyReduce(old(View()), ref, cancelled, M.Cancels);
              View() == r.book && report == M.Stamp(r.report, recv)
    {
      if ref !in orders {
        statUnknownOrder := statUnknownOrder + 1;
        return None;
      }
      TakeShares(ref, cancelled);
      statCancels := statCancels + 1;
      report := NotifyIfTopChanged(recv);
    }

    method ApplyExecuted(ref: u64, executed: u32, recv: u64)
      returns (ghost report: Option<M.Update>)
      modifies this
      ensures var r := M.ApplyReduce(old(View()), ref, executed, M.Executes);
              View() == r.book && report == M.Stamp(r.report, recv)
    {
      if ref !in orders {
        statUnknownOrder := statUnknownOrder + 1;
        return None;
      }
      TakeShares(ref, executed);
      statExecutes := statExecutes + 1;
      report := NotifyIfTopChanged(recv);
    }

    /** The steps Cancel and Executed have in common. */
    method TakeShares(ref: u64, quantity: u32)
      requires ref in orders
      modifies `bids, `asks, `orders
      ensures View() == M.Reduce(old(View()), ref, quantity)
    {
      var o := orders[ref];
      var taken := Min(quantity, o.shares);
      ReduceLevelShares(IsBuy(o), o.price, taken);
      orders := orders[ref := o.(shares := o.shares - taken)];
      if orders[ref].shares == 0 {
        RemoveOrderFromLevel(IsBuy(o), o.price);
        orders := orders - {ref};
        assert orders == old(orders) - {ref};
      }
    }

    method ApplyReplace(ref: u64, newRef: u64, price: u32, shares: u32, recv: u64)
      returns (ghost report: Option<M.Update>)
      modifies this
      ensures var r := M.ApplyReplace(old(View()), ref, newRef, price, shares);
              View() == r.book && report == M.Stamp(r.report, recv)
    {
      if ref !in orders {
        statUnknownOrder := statUnknownOrder + 1;
        return None;
      }
      var o := orders[ref];
      ReduceLevelShares(IsBuy(o), o.price, o.shares);
      RemoveOrderFromLevel(IsBuy(o), o.price);
      orders := orders - {ref};
      assert View() == M.TakeOut(old(View()), ref);
      var replacement := Order(o.side, price, shares);
      orders := orders[newRef := replacement];
      AddToLevel(IsBuy(o), price, shares);
      assert View() == M.Insert(M.TakeOut(old(View()), ref), newRef, replacement);
      statReplaces := statReplaces + 1;
      report := NotifyIfTopChanged(recv);
    }

    method AddToLevel(buy: bool, price: u32, shares: u32)
      modifies `bids, `asks
      ensures View() == M.SetSide(old(View()), buy, M.AddToLevel(M.SideOf(old(View()), buy), price, shares))
    {
      var side := if buy then bids else asks;
      var agg := if price in side then side[price] else M.Level(0, 0);
      side := side[price := M.Level(Wrap64(agg.shares + shares), (agg.count + 1) % U32_MOD)];
      if buy { bids := side; } else { asks := side; }
    }

    method ReduceLevelShares(buy: bool, price: u32, shares: u32)
      modifies `bids, `asks
      ensures View() == M.SetSide(old(View()), buy, M.ReduceLevelShares(M.SideOf(old(View()), buy), price, shares))
    {
      var side := if buy then bids else asks;
      if price !in side {
        return;
      }
      var agg := side[price];
      agg := agg.(shares := agg.shares - (if shares < agg.shares then shares else agg.shares));
      side := if agg.shares == 0 && agg.count == 0 then side - {price} else side[price := agg];
      if buy { bids := side; } else { asks := side; }
    }

    method RemoveOrderFromLevel(buy: bool, price: u32)
      modifies `bids, `asks
      ensures View() == M.SetSide(old(View()), buy, M.RemoveOrderFromLevel(M.SideOf(old(View()), buy), price))
    {
      var side := if buy then bids else asks;
      if price !in side {
        return;
      }
      var agg := side[price];
      if agg.count > 0 {
        agg := agg.(count := agg.count - 1);
      }
      side := if agg.count == 0 && agg.shares == 0 then side - {price} else side[price := agg];
      if buy { bids := side; } else { asks := side; }
    }

    /** The first key of each sorted side. */
    method Top() returns (t: M.Top)
      ensures t == M.TopOf(View())
    {
      t := M.Top(None, None);
      if bids != map[] {
        M.BestExists(bids, true);
        var p :| p in bids && forall q :: q in bids ==> q <= p;
        t := t.(bid := Some(M.PriceLevel(p, bids[p].shares, bids[p].count)));
      }
      if asks != map[] {
        M.BestExists(asks, false);
        var p :| p in asks && forall q :: q in asks ==> p <= q;
        t := t.(ask := Some(M.PriceLevel(p, asks[p].shares, asks[p].count)));
      }
    }

    method NotifyIfTopChanged(recv: u64) returns (ghost report: Option<M.Update>)
      modifies `lastTop
      ensures var r := M.Notify(old(View()));
              View() == r.book && report == M.Stamp(r.report, recv)
    {
      if !hooked {
        return None;
      }
      var t := Top();
      var changed :=
        || lastTop.None?
        || t.bid.Some? != lastTop.value.bid.Some?
        || t.ask.Some? != lastTop.value.ask.Some?
        || (t.bid.Some? && (t.bid.value.price != lastTop.value.bid.value.price
                            || t.bid.value.shares != lastTop.value.bid.value.shares))
        || (t.ask.Some? && (t.ask.value.price != lastTop.value.ask.value.price
                            || t.ask.value.shares != lastTop.value.ask.value.shares));
      report := None;
      if changed {
        report := Some(M.Update(t, recv));
        lastTop := Some(t);
      }
    }
  }

  lemma PutTwice(books: map<Symbol, M.Book>, symbol: Symbol, first: M.Book, second: M.Book)
    ensures books[symbol := first][symbol := second] == books[symbol := second]
  {
  }

  class MultiSymbolBook {
    var books: map<Symbol, OrderBook>
    var orderSymbol: map<u64, Symbol>
    var wired: set<Symbol>
    const hooked: bool
    var statUnrouted: nat
    ghost var reports: seq<N.Report>

    /** Distinct symbols have distinct books. */
    ghost predicate Valid()
      reads `books
    {
      forall s, t :: s in books && t in books && s != t ==> books[s] != books[t]
    }

    ghost function BookObjects(): set<object>
      reads `books
    {
      set s | s in books :: books[s] as object
    }

    ghost function Books(): map<Symbol, M.Book>
      reads `books, BookObjects()
    {
      map s | s in books :: books[s].View()
    }

    ghost function View(): N.Multi
      reads `books, `orderSymbol, `wired, `statUnrouted, BookObjects()
    {
      N.Multi(Books(), orderSymbol, wired, hooked, statUnrouted)
    }

    /** Changing one book object changes the view of one symbol. */
    twostate lemma OneBookChanged(symbol: Symbol)
      requires old(Valid()) && books == old(books) && symbol in books
      requires forall s :: s in books && books[s] != books[symbol] ==> old(allocated(books[s])) && unchanged(books[s])
      ensures Books() == old(Books())[symbol := books[symbol].View()]
    {
    }

    constructor (hooked: bool)
      ensures Valid() && View() == N.Init(hooked) && reports == [] && books == map[]
    {
      this.hooked := hooked;
      books, orderSymbol, wired, statUnrouted, reports := map[], map[], {}, 0, [];
    }

    static ghost function Appended(reports: seq<N.Report>, report: Option<N.Report>): seq<N.Report> {
      if report.Some? then reports + [report.value] else reports
    }

    /** One delivered message. */
    method Ingest(body: seq<byte>, recv: u64) returns (accepted: bool)
      requires Valid()
      modifies this, BookObjects()
      ensures Valid() && fresh(BookObjects() - old(BookObjects()))
      ensures View() == N.Ingest(old(View()), body).multi
      ensures accepted == N.Ingest(old(View()), body).accepted
      ensures reports == Appended(old(reports), N.Stamped(N.Ingest(old(View()), body).report, recv))
    {
      var decoded := Decode(body);
      if decoded.None? {
        return false;
      }
      match decoded.value {
        case Add(ref, symbol, o) => OnAdd(ref, symbol, o, recv);
        case Delete(ref) => OnDelete(ref, recv);
        case Cancel(ref, shares) => OnCancel(ref, shares, recv);
        case Executed(ref, shares) => OnExecuted(ref, shares, recv);
        case Replace(ref, newRef, price, shares) => OnReplace(ref, newRef, price, shares, recv);
      }
      return true;
    }

    /** The book of a symbol, created empty if there is none, as `operator[]` does. */
    method Slot(symbol: Symbol) returns (book: OrderBook)
      requires Valid()
      modifies `books
      ensures Valid() && symbol in books && books[symbol] == book
      ensures symbol in old(books) ==> books == old(books)
      ensures symbol !in old(books) ==>
                fresh(book) && books == old(books)[symbol := book] && book.View() == M.EmptyBook
      ensures Books() == old(Books())[symbol := N.BookOf(old(View()), symbol)]
    {
      if symbol !in books {
        var empty := new OrderBook();
        books := books[symbol := empty];
      }
      book := books[symbol];
    }

    static ghost function Named(symbol: Symbol, report: Option<M.Top>, recv: u64): Option<N.Report> {
      if report.Some? then Some(N.Report(symbol, report.value, recv)) else None
    }

    /** Record what the book's callback passes on. */
    ghost method Report(symbol: Symbol, told: Option<M.Update>)
      modifies `reports
      ensures told.None? ==> reports == old(reports)
      ensures told.Some? ==> reports == old(reports) + [N.Report(symbol, told.value.top, told.value.recv)]
    {
      if told.Some? {
        reports := reports + [N.Report(symbol, told.value.top, told.value.recv)];
      }
    }

    /** Attach the callback to a symbol's book, once. */
    method WireBook(symbol: Symbol)
      requires Valid() && symbol in books
      modifies `wired, BookObjects()
      ensures wired == old(wired) + {symbol}
      ensures Books() == old(Books())[symbol := N.Wire(old(View()), symbol, old(books[symbol].View()))]
    {
      if symbol !in wired {
        wired := wired + {symbol};
        if hooked {
          books[symbol].hooked := true;
        }
      }
      assert wired == old(wired) + {symbol};
      OneBookChanged(symbol);
    }

    /** Apply an Add to the book of its symbol and pass on what it reports. */
    method AddTo(symbol: Symbol, ref: u64, o: Order, recv: u64)
      requires Valid() && symbol in books
      modifies `reports, BookObjects()
      ensures var r := M.ApplyAdd(old(books[symbol].View()), ref, o);
              && Books() == old(Books())[symbol := r.book]
              && reports == Appended(old(reports), Named(symbol, r.report, recv))
    {
      ghost var report := books[symbol].ApplyAdd(ref, o, recv);
      OneBookChanged(symbol);
      Report(symbol, report);
    }

    method DeleteFrom(symbol: Symbol, ref: u64, recv: u64)
      requires Valid() && symbol in books
      modifies `reports, BookObjects()
      ensures var r := M.ApplyDelete(old(books[symbol].View()), ref);
              && Books() == old(Books())[symbol := r.book]
              && reports == Appended(old(reports), Named(symbol, r.report, recv))
    {
      ghost var report := books[symbol].ApplyDelete(ref, recv);
      OneBookChanged(symbol);
      Report(symbol, report);
    }

    method CancelIn(symbol: Symbol, ref: u64, shares: u32, recv: u64)
      requires Valid() && symbol in books
      modifies `reports, BookObjects()
      ensures var r := M.ApplyReduce(old(books[symbol].View()), ref, shares, M.Cancels);
              && Books() == old(Books())[symbol := r.book]
              && reports == Appended(old(reports), Named(symbol, r.report, recv))
    {
      ghost var report := books[symbol].ApplyCancel(ref, shares, recv);
      OneBookChanged(symbol);
      Report(symbol, report);
    }

    method ExecuteIn(symbol: Symbol, ref: u64, shares: u32, recv: u64)
      requires Valid() && symbol in books
      modifies `reports, BookObjects()
      ensures var r := M.ApplyReduce(old(books[symbol].View()), ref, shares, M.Executes);
              && Books() == old(Books())[symbol := r.book]
              && reports == Appended(old(reports), Named(symbol, r.report, recv))
    {
      ghost var report := books[symbol].ApplyExecuted(ref, shares, recv);
      OneBookChanged(symbol);
      Report(symbol, report);
    }

    method ReplaceIn(symbol: Symbol, ref: u64, newRef: u64, price: u32, shares: u32, recv: u64)
      requires Valid() && symbol in books
      modifies `reports, BookObjects()
      ensures var r := M.ApplyReplace(old(books[symbol].View()), ref, newRef, price, shares);
              && Books() == old(Books())[symbol := r.book]
              && reports == Appended(old(reports), Named(symbol, r.report, recv))
    {
      ghost var report := books[symbol].ApplyReplace(ref, newRef, price, shares, recv);
      OneBookChanged(symbol);
      Report(symbol, report);
    }

    /** The wired book of a symbol, ready for an Add. */
    method OpenBook(symbol: Symbol)
      requires Valid()
      modifies `books, `wired, BookObjects()
      ensures Valid() && fresh(BookObjects() - old(BookObjects())) && symbol in books
      ensures wired == old(wired) + {symbol}
      ensures books[symbol].View() == N.Wire(old(View()), symbol, N.BookOf(old(View()), symbol))
      ensures Books() == old(Books())[symbol := books[symbol].View()]
    {
      ghost var before := View();
      var _ := Slot(symbol);
      assert Books()[symbol] == books[symbol].View();
      WireBook(symbol);
      assert Books()[symbol] == books[symbol].View();
      PutTwice(before.books, symbol, N.BookOf(before, symbol), books[symbol].View());
    }

    /** Everything an Add does but the routing. */
    method AddToBook(symbol: Symbol, ref: u64, o: Order, recv: u64)
      requires Valid()
      modifies `books, `wired, `reports, BookObjects()
      ensures Valid() && fresh(BookObjects() - old(BookObjects()))
      ensures wired == old(wired) + {symbol}
      ensures var r := M.ApplyAdd(N.Wire(old(View()), symbol, N.BookOf(old(View()), symbol)), ref, o);
              && Books() == old(Books())[symbol := r.book]
              && reports == Appended(old(reports), Named(symbol, r.report, recv))
    {
      ghost var before := Books();
      OpenBook(symbol);
      ghost var b, objects := books[symbol].View(), BookObjects();
      AddTo(symbol, ref, o, recv);
      assert BookObjects() == objects;
      PutTwice(before, symbol, b, M.ApplyAdd(b, ref, o).book);
    }

    method OnAdd(ref: u64, symbol: Symbol, o: Order, recv: u64)
      requires Valid()
      modifies this, BookObjects()
      ensures Valid() && fresh(BookObjects() - old(BookObjects()))
      ensures View() == N.ApplyAddMsg(old(View()), ref, symbol, o).multi
      ensures reports == Appended(old(reports), N.Stamped(N.ApplyAddMsg(old(View()), ref, symbol, o).report, recv))
    {
      ghost var before := View();
      orderSymbol := orderSymbol[ref := symbol];
      ghost var routed := View();
      assert routed == before.(route := before.route[ref := symbol]);
      AddToBook(symbol, ref, o, recv);
      ghost var r := M.ApplyAdd(N.Wire(routed, symbol, N.BookOf(routed, symbol)), ref, o);
      assert r == M.ApplyAdd(N.Wire(before, symbol, N.BookOf(before, symbol)), ref, o);
      assert Books() == before.books[symbol := r.book];
      assert View() == N.PutBook(before.(route := before.route[ref := symbol], wired := before.wired + {symbol}),
                                 symbol, r).multi;
    }

    /** A Delete whose book is known. */
    method DeleteRouted(symbol: Symbol, ref: u64, recv: u64)
      requires Valid() && symbol in books
      modifies `orderSymbol, `reports, BookObjects()
      ensures var m, r := old(View()), M.ApplyDelete(old(books[symbol].View()), ref);
              && View() == m.(books := m.books[symbol := r.book], route := m.route - {ref})
              && reports == Appended(old(reports), Named(symbol, r.report, recv))
    {
      DeleteFrom(symbol, ref, recv);
      orderSymbol := orderSymbol - {ref};
    }

    method OnDelete(ref: u64, recv: u64)
      requires Valid()
      modifies this, BookObjects()
      ensures Valid() && BookObjects() == old(BookObjects())
      ensures View() == N.ApplyDeleteMsg(old(View()), ref).multi
      ensures reports == Appended(old(reports), N.Stamped(N.ApplyDeleteMsg(old(View()), ref).report, recv))
    {
      if ref in orderSymbol && orderSymbol[ref] in books {
        ghost var before := View();
        var symbol := orderSymbol[ref];
        assert before.books[symbol] == books[symbol].View();
        DeleteRouted(symbol, ref, recv);
        assert View() == N.PutBook(before.(route := before.route - {ref}), symbol,
                                   M.ApplyDelete(before.books[symbol], ref)).multi;
      } else {
        statUnrouted := statUnrouted + 1;
      }
    }

    method OnCancel(ref: u64, shares: u32, recv: u64)
      requires Valid()
      modifies this, BookObjects()
      ensures Valid() && BookObjects() == old(BookObjects())
      ensures View() == N.ApplyReduceMsg(old(View()), ref, shares, M.Cancels).multi
      ensures var report := N.ApplyReduceMsg(old(View()), ref, shares, M.Cancels).report;
              reports == Appended(old(reports), N.Stamped(report, recv))
    {
      if ref in orderSymbol && orderSymbol[ref] in books {
        var symbol := orderSymbol[ref];
        ghost var before := View();
        assert before.books[symbol] == books[symbol].View();
        CancelIn(symbol, ref, shares, recv);
        assert View() == N.PutBook(before, symbol,
                                   M.ApplyReduce(before.books[symbol], ref, shares, M.Cancels)).multi;
      } else {
        statUnrouted := statUnrouted + 1;
      }
    }

    method OnExecuted(ref: u64, shares: u32, recv: u64)
      requires Valid()
      modifies this, BookObjects()
      ensures Valid() && BookObjects() == old(BookObjects())
      ensures View() == N.ApplyReduceMsg(old(View()), ref, shares, M.Executes).multi
      ensures var report := N.ApplyReduceMsg(old(View()), ref, shares, M.Executes).report;
              reports == Appended(old(reports), N.Stamped(report, recv))
    {
      if ref in orderSymbol && orderSymbol[ref] in books {
        var symbol := orderSymbol[ref];
        ghost var before := View();
        assert before.books[symbol] == books[symbol].View();
        ExecuteIn(symbol, ref, shares, recv);
        assert View() == N.PutBook(before, symbol,
                                   M.ApplyReduce(before.books[symbol], ref, shares, M.Executes)).multi;
      } else {
        statUnrouted := statUnrouted + 1;
      }
    }

    /** Everything a Replace does but the routing. */
    method ReplaceInBook(symbol: Symbol, ref: u64, newRef: u64, price: u32, shares: u32, recv: u64)
      requires Valid()
      modifies `books, `reports, BookObjects()
      ensures Valid() && fresh(BookObjects() - old(BookObjects()))
      ensures var r := M.ApplyReplace(N.BookOf(old(View()), symbol), ref, newRef, price, shares);
              && Books() == old(Books())[symbol := r.book]
              && reports == Appended(old(reports), Named(symbol, r.report, recv))
    {
      ghost var before := Books();
      var _ := Slot(symbol);
      ghost var b, objects := books[symbol].View(), BookObjects();
      assert Books()[symbol] == b;
      ReplaceIn(symbol, ref, newRef, price, shares, recv);
      assert BookObjects() == objects;
      PutTwice(before, symbol, b, M.ApplyReplace(b, ref, newRef, price, shares).book);
    }

    method OnReplace(ref: u64, newRef: u64, price: u32, shares: u32, recv: u64)
      requires Valid()
      modifies this, BookObjects()
      ensures Valid() && fresh(BookObjects() - old(BookObjects()))
      ensures View() == N.ApplyReplaceMsg(old(View()), ref, newRef, price, shares).multi
      ensures var report := N.ApplyReplaceMsg(old(View()), ref, newRef, price, shares).report;
              reports == Appended(old(reports), N.Stamped(report, recv))
    {
      if ref !in orderSymbol {
        statUnrouted := statUnrouted + 1;
        return;
      }
      var symbol := orderSymbol[ref];
      ghost var before := View();
      ReplaceInBook(symbol, ref, newRef, price, shares, recv);
      orderSymbol := (orderSymbol - {ref})[newRef := symbol];
      assert View() == N.PutBook(before.(route := (before.route - {ref})[newRef := symbol]), symbol,
                                 M.ApplyReplace(N.BookOf(before, symbol), ref, newRef, price, shares)).multi;
    }
  }
}
