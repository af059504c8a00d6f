/** What the event counters of the books say after whole message streams. */
module BookCounts {
  import opened Bytes
  import opened Itch
  import opened BookModel
  import opened MultiModel
  import opened MultiFacts

  function CountOf(b: Book, what: Outcome): nat {
    match what
    case Adds => b.counters.added
    case Duplicates => b.counters.duplicate
    case Deletes => b.counters.deleted
    case Cancels => b.counters.cancelled
    case Executes => b.counters.executed
    case Replaces => b.counters.replaced
    case Unknown => b.counters.unknown
  }

  /** One counter summed over all books. */
  ghost function CountAll(books: map<Symbol, Book>, what: Outcome): nat
    decreases |books|
  {
    if books == map[] then 0
    else
      var s :| s in books;
      CountOf(books[s], what) + CountAll(books - {s}, what)
  }

  /** A message about an order no book is known for is counted beside the books. */
  ghost function Counted(m: Multi, what: Outcome): nat {
    CountAll(m.books, what) + if what == Unknown then m.unrouted else 0
  }

  lemma {:induction false} CountWithout(books: map<Symbol, Book>, what: Outcome, s: Symbol)
    requires s in books
    ensures CountAll(books, what) == CountOf(books[s], what) + CountAll(books - {s}, what)
    decreases |books|
  {
    var k :| k in books && CountAll(books, what) == CountOf(books[k], what) + CountAll(books - {k}, what);
    if k != s {
      CountWithout(books - {k}, what, s);
      CountWithout(books - {s}, what, k);
      assert books - {k} - {s} == books - {s} - {k};
    }
  }

  /** A symbol without a book counts as one with an empty book. */
  lemma CountPut(m: Multi, what: Outcome, s: Symbol, b: Book)
    ensures CountAll(m.books[s := b], what)
         == CountAll(m.books, what) - CountOf(BookOf(m, s), what) + CountOf(b, what)
  {
    CountWithout(m.books[s := b], what, s);
    assert m.books[s := b] - {s} == m.books - {s};
    if s in m.books {
      CountWithout(m.books, what, s);
    } else {
      assert m.books - {s} == m.books;
    }
  }

  // ----- One message -----

  /** What a message does to a book, depending on whether its order is live. */
  function Effect(isLive: bool, msg: Msg): Outcome {
    match msg
    case Add(_, _, _) => if isLive then Duplicates else Adds
    case Delete(_) => if isLive then Deletes else Unknown
    case Cancel(_, _) => if isLive then Cancels else Unknown
    case Executed(_, _) => if isLive then Executes else Unknown
    case Replace(_, _, _, _) => if isLive then Replaces else Unknown
  }

  ghost function ApplyToBook(b: Book, msg: Msg): Applied {
    match msg
    case Add(ref, _, o) => ApplyAdd(b, ref, o)
    case Delete(ref) => ApplyDelete(b, ref)
    case Cancel(ref, shares) => ApplyReduce(b, ref, shares, Cancels)
    case Executed(ref, shares) => ApplyReduce(b, ref, shares, Executes)
    case Replace(ref, newRef, price, shares) => ApplyReplace(b, ref, newRef, price, shares)
  }

  lemma CountsAs(b: Book, done: Outcome, what: Outcome)
    ensures CountOf(Count(b, done), what) == CountOf(b, what) + if what == done then 1 else 0
  {
  }

  lemma NotifyKeepsCounters(b: Book, changed: Book, done: Outcome)
    requires changed.counters == b.counters
    ensures Notify(Count(changed, done)).book.counters == Count(b, done).counters
  {
  }

  /** A book counts each message it is given once, as what it did. */
  lemma BookCountsOnce(b: Book, msg: Msg)
    ensures ApplyToBook(b, msg).book.counters == Count(b, Effect(msg.ref in b.live, msg)).counters
  {
    match msg
    case Add(ref, _, o) => NotifyKeepsCounters(b, Insert(b, ref, o), Adds);
    case Delete(ref) => if ref in b.live { NotifyKeepsCounters(b, TakeOut(b, ref), Deletes); }
    case Cancel(ref, shares) => if ref in b.live { NotifyKeepsCounters(b, Reduce(b, ref, shares), Cancels); }
    case Executed(ref, shares) => if ref in b.live { NotifyKeepsCounters(b, Reduce(b, ref, shares), Executes); }
    case Replace(ref, newRef, price, shares) =>
      if ref in b.live {
        NotifyKeepsCounters(b, Insert(TakeOut(b, ref), newRef, Order(b.live[ref].side, price, shares)), Replaces);
      }
  }

  /** Putting the changed book of a symbol in place. */
  lemma PutCounts(m: Multi, m': Multi, s: Symbol, b: Book, after: Book, done: Outcome, what: Outcome)
    requires m'.books == m.books[s := after] && m'.unrouted == m.unrouted
    requires b.counters == BookOf(m, s).counters && after.counters == Count(b, done).counters
    ensures Counted(m', what) == Counted(m, what) + if what == done then 1 else 0
  {
    CountsAs(b, done, what);
    CountPut(m, what, s, after);
  }

  lemma RoutedMessage(m: Multi, msg: Msg, symbol: Symbol, b: Book)
    requires if msg.Add? then symbol == msg.symbol && b == Wire(m, symbol, BookOf(m, symbol))
             else msg.ref in m.route && symbol == m.route[msg.ref] && symbol in m.books && b == m.books[symbol]
    ensures var m' := Apply(m, msg).multi;
            m'.books == m.books[symbol := ApplyToBook(b, msg).book] && m'.unrouted == m.unrouted
  {
  }

  lemma RoutedCountsOnce(m: Multi, msg: Msg, symbol: Symbol, b: Book, what: Outcome)
    requires if msg.Add? then symbol == msg.symbol && b == Wire(m, symbol, BookOf(m, symbol))
             else msg.ref in m.route && symbol == m.route[msg.ref] && symbol in m.books && b == m.books[symbol]
    ensures Counted(Apply(m, msg).multi, what)
         == Counted(m, what) + if what == Effect(msg.ref in b.live, msg) then 1 else 0
  {
    RoutedMessage(m, msg, symbol, b);
    BookCountsOnce(b, msg);
    PutCounts(m, Apply(m, msg).multi, symbol, b, ApplyToBook(b, msg).book, Effect(msg.ref in b.live, msg), what);
  }

  lemma UnroutedCountsOnce(m: Multi, msg: Msg, what: Outcome)
    requires !msg.Add? && msg.ref !in m.route
    ensures Counted(Apply(m, msg).multi, what) == Counted(m, what) + if what == Unknown then 1 else 0
  {
    assert Apply(m, msg).multi == m.(unrouted := m.unrouted + 1);
  }

  lemma MessageCountsOnce(m: Multi, flat: Flat, msg: Msg, what: Outcome)
    requires Refines(m, flat) && Fresh(flat, msg)
    ensures Counted(Apply(m, msg).multi, what)
         == Counted(m, what) + if what == Effect(msg.ref in flat, msg) then 1 else 0
  {
    if msg.Add? || msg.ref in m.route {
      var symbol := if msg.Add? then msg.symbol else m.route[msg.ref];
      var b := if msg.Add? then Wire(m, symbol, BookOf(m, symbol)) else m.books[symbol];
      assert msg.ref in b.live <==> msg.ref in flat by {
        assert symbol in m.books ==> BookRefines(m.books[symbol], flat, symbol);
      }
      RoutedCountsOnce(m, msg, symbol, b, what);
    } else {
      UnroutedCountsOnce(m, msg, what);
    }
  }

  // ----- Runs -----

  ghost function HappensAt(flat: Flat, body: seq<byte>, what: Outcome): nat {
    match Decode(body)
    case None => 0
    case Some(msg) => if Effect(msg.ref in flat, msg) == what then 1 else 0
  }

  /** How many messages of a stream had an outcome. */
  ghost function Happened(bodies: seq<seq<byte>>, what: Outcome): nat {
    if bodies == [] then 0
    else
      var n := |bodies| - 1;
      Happened(bodies[..n], what) + HappensAt(FlatRun(bodies[..n]), bodies[n], what)
  }

  lemma BodyCountsOnce(m: Multi, flat: Flat, body: seq<byte>, what: Outcome)
    requires Refines(m, flat) && (Decode(body).Some? ==> Fresh(flat, Decode(body).value))
    ensures Counted(Ingest(m, body).multi, what) == Counted(m, what) + HappensAt(flat, body, what)
  {
    if Decode(body).Some? {
      MessageCountsOnce(m, flat, Decode(body).value, what);
    }
  }

  /** Over every admissible stream each book message is counted once, by what it did to the live
      orders: the counters of all books, with the unrouted messages among the unknown ones, are the
      numbers of messages with each outcome. */
  lemma {:induction false} CountersTellOutcomes(hooked: bool, bodies: seq<seq<byte>>, what: Outcome)
    requires Admissible(bodies)
    ensures Counted(Run(hooked, bodies), what) == Happened(bodies, what)
  {
    if bodies != [] {
      var n := |bodies| - 1;
      AdmissiblePrefix(bodies, n);
      CountersTellOutcomes(hooked, bodies[..n], what);
      BooksRefineFlatMap(hooked, bodies[..n]);
      BodyCountsOnce(Run(hooked, bodies[..n]), FlatRun(bodies[..n]), bodies[n], what);
    }
  }
}
