/** The single-symbol order book as functions on values: per-price aggregates kept incrementally
    beside the live orders, with the counters' machine widths. */
module BookModel {
  import opened Bytes
  import opened Itch
  import opened Orders

  datatype Level = Level(shares: u64, count: u32)

  type Side = map<u32, Level>

  datatype PriceLevel = PriceLevel(price: u32, shares: u64, orders: u32)

  datatype Top = Top(bid: Option<PriceLevel>, ask: Option<PriceLevel>)

  /** What a message did to a book, as the book's event counters tell it apart. */
  datatype Outcome = Adds | Duplicates | Deletes | Cancels | Executes | Replaces | Unknown

  datatype Counters = Counters(
    added: nat, duplicate: nat, deleted: nat, cancelled: nat, executed: nat, replaced: nat, unknown: nat)

  datatype Book = Book(
    bids: Side, asks: Side, live: Live, hooked: bool, lastTop: Option<Top>, counters: Counters)

  const EmptyBook := Book(map[], map[], map[], false, None, Counters(0, 0, 0, 0, 0, 0, 0))

  /** The book after a message and the top of book to report, if any. */
  datatype Applied = Applied(book: Book, report: Option<Top>)

  /** What the callback is told: the top of book, and when the message that changed it arrived. */
  datatype Update = Update(top: Top, recv: u64)

  function Stamp(report: Option<Top>, recv: u64): Option<Update> {
    if report.Some? then Some(Update(report.value, recv)) else None
  }

  // ----- Levels -----

  function AddToLevel(s: Side, price: u32, shares: u32): Side {
    var was := if price in s then s[price] else Level(0, 0);
    s[price := Level(Wrap64(was.shares + shares), (was.count + 1) % U32_MOD)]
  }

  function ReduceLevelShares(s: Side, price: u32, shares: u32): Side {
    if price !in s then s
    else
      var was := s[price];
      var left := was.shares - (if shares < was.shares then shares else was.shares);
      if left == 0 && was.count == 0 then s - {price} else s[price := was.(shares := left)]
  }

  function RemoveOrderFromLevel(s: Side, price: u32): Side {
    if price !in s then s
    else
      var was := s[price];
      var count := if was.count > 0 then was.count - 1 else 0;
      if count == 0 && was.shares == 0 then s - {price} else s[price := was.(count := count)]
  }

  function SideOf(b: Book, buy: bool): Side {
    if buy then b.bids else b.asks
  }

  function SetSide(b: Book, buy: bool, s: Side): Book {
    if buy then b.(bids := s) else b.(asks := s)
  }

  // ----- Top of book -----

  /** Bids are ordered highest first, asks lowest first; the first key is the best price. */
  ghost predicate IsBest(s: Side, buy: bool, price: u32) {
    price in s && forall q :: q in s ==> if buy then q <= price else price <= q
  }

  lemma {:induction false} BestExists(s: Side, buy: bool)
    requires s != map[]
    ensures exists price :: IsBest(s, buy, price)
    decreases |s|
  {
    var k :| k in s;
    var rest := s - {k};
    if rest == map[] {
      assert s.Keys == {k} + rest.Keys;
      assert IsBest(s, buy, k);
    } else {
      BestExists(rest, buy);
      var p :| IsBest(rest, buy, p);
      assert forall q :: q in s ==> q == k || q in rest;
      assert IsBest(s, buy, if (if buy then k <= p else p <= k) then p else k);
    }
  }

  ghost function BestLevel(s: Side, buy: bool): (r: Option<PriceLevel>)
    ensures r.None? <==> s == map[]
    ensures r.Some? ==> IsBest(s, buy, r.value.price) && r.value.shares == s[r.value.price].shares
                        && r.value.orders == s[r.value.price].count
  {
    if s == map[] then None
    else
      BestExists(s, buy);
      var p :| IsBest(s, buy, p);
      Some(PriceLevel(p, s[p].shares, s[p].count))
  }

  ghost function TopOf(b: Book): Top {
    Top(BestLevel(b.bids, true), BestLevel(b.asks, false))
  }

  predicate SameLevel(a: Option<PriceLevel>, b: Option<PriceLevel>) {
    a.Some? == b.Some? && (a.Some? ==> a.value.price == b.value.price && a.value.shares == b.value.shares)
  }

  /** Order counts are not compared. */
  predicate SameTop(a: Top, b: Top) {
    SameLevel(a.bid, b.bid) && SameLevel(a.ask, b.ask)
  }

  ghost function Notify(b: Book): Applied {
    var t := TopOf(b);
    if !b.hooked || (b.lastTop.Some? && SameTop(t, b.lastTop.value)) then Applied(b, None)
    else Applied(b.(lastTop := Some(t)), Some(t))
  }

  // ----- Messages -----

  function Insert(b: Book, ref: u64, o: Order): Book {
    SetSide(b, IsBuy(o), AddToLevel(SideOf(b, IsBuy(o)), o.price, o.shares)).(live := b.live[ref := o])
  }

  /** Take an order out of its level and out of the book. */
  function TakeOut(b: Book, ref: u64): Book
    requires ref in b.live
  {
    var o := b.live[ref];
    var s := RemoveOrderFromLevel(ReduceLevelShares(SideOf(b, IsBuy(o)), o.price, o.shares), o.price);
    SetSide(b, IsBuy(o), s).(live := b.live - {ref})
  }

  function Reduce(b: Book, ref: u64, quantity: u32): Book
    requires ref in b.live
  {
    var o := b.live[ref];
    var taken := Min(quantity, o.shares);
    var s := ReduceLevelShares(SideOf(b, IsBuy(o)), o.price, taken);
    if o.shares - taken == 0 then
      SetSide(b, IsBuy(o), RemoveOrderFromLevel(s, o.price)).(live := b.live - {ref})
    else
      SetSide(b, IsBuy(o), s).(live := b.live[ref := o.(shares := o.shares - taken)])
  }

  /** One more event of a kind. */
  function Count(b: Book, what: Outcome): Book {
    var c := b.counters;
    b.(counters :=
      match what
      case Adds => c.(added := c.added + 1)
      case Duplicates => c.(duplicate := c.duplicate + 1)
      case Deletes => c.(deleted := c.deleted + 1)
      case Cancels => c.(cancelled := c.cancelled + 1)
      case Executes => c.(executed := c.executed + 1)
      case Replaces => c.(replaced := c.replaced + 1)
      case Unknown => c.(unknown := c.unknown + 1))
  }

  ghost function ApplyAdd(b: Book, ref: u64, o: Order): Applied {
    if ref in b.live then Applied(Count(b, Duplicates), None) else Notify(Count(Insert(b, ref, o), Adds))
  }

  ghost function ApplyDelete(b: Book, ref: u64): Applied {
    if ref !in b.live then Applied(Count(b, Unknown), None) else Notify(Count(TakeOut(b, ref), Deletes))
  }

  /** Cancel and Executed change the book in the same way, and count as what they are. */
  ghost function ApplyReduce(b: Book, ref: u64, quantity: u32, what: Outcome): Applied {
    if ref !in b.live then Applied(Count(b, Unknown), None) else Notify(Count(Reduce(b, ref, quantity), what))
  }

  ghost function ApplyReplace(b: Book, ref: u64, newRef: u64, price: u32, shares: u32): Applied {
    if ref !in b.live then Applied(Count(b, Unknown), None)
    else Notify(Count(Insert(TakeOut(b, ref), newRef, Order(b.live[ref].side, price, shares)), Replaces))
  }
}
