/** The multi-symbol book: one book per symbol and the index that routes a reference to a symbol. */
module MultiModel {
  import opened Bytes
  import opened Itch
  import opened BookModel

  datatype Multi = Multi(
    books: map<Symbol, Book>, route: map<u64, Symbol>, wired: set<Symbol>, hooked: bool, unrouted: nat)

  /** A top of book to report. */
  datatype Change = Change(symbol: Symbol, top: Top)

  /** The outcome of one message: new state, return value and top of book to report, if any. */
  datatype Handled = Handled(multi: Multi, accepted: bool, report: Option<Change>)

  /** One call of the callback, with the arrival time of the message that caused it. */
  datatype Report = Report(symbol: Symbol, top: Top, recv: u64)

  function Stamped(change: Option<Change>, recv: u64): Option<Report> {
    if change.Some? then Some(Report(change.value.symbol, change.value.top, recv)) else None
  }

  /** A fresh multi-symbol book; `hooked` says whether its callback is set. */
  function Init(hooked: bool): Multi {
    Multi(map[], map[], {}, hooked, 0)
  }

  function BookOf(m: Multi, symbol: Symbol): Book {
    if symbol in m.books then m.books[symbol] else EmptyBook
  }

  /** The callback is attached to a book the first time an Add names its symbol. */
  function Wire(m: Multi, symbol: Symbol, b: Book): Book {
    if symbol !in m.wired && m.hooked then b.(hooked := true) else b
  }

  function PutBook(m: Multi, symbol: Symbol, r: Applied): Handled {
    Handled(m.(books := m.books[symbol := r.book]), true,
            if r.report.Some? then Some(Change(symbol, r.report.value)) else None)
  }

  predicate Routed(m: Multi, ref: u64) {
    ref in m.route && m.route[ref] in m.books
  }

  function Unrouted(m: Multi): Handled {
    Handled(m.(unrouted := m.unrouted + 1), true, None)
  }

  ghost function ApplyAddMsg(m: Multi, ref: u64, symbol: Symbol, o: Order): Handled {
    var b := Wire(m, symbol, BookOf(m, symbol));
    PutBook(m.(route := m.route[ref := symbol], wired := m.wired + {symbol}), symbol, ApplyAdd(b, ref, o))
  }

  ghost function ApplyDeleteMsg(m: Multi, ref: u64): Handled {
    if !Routed(m, ref) then Unrouted(m)
    else
      PutBook(m.(route := m.route - {ref}), m.route[ref], ApplyDelete(m.books[m.route[ref]], ref))
  }

  ghost function ApplyReduceMsg(m: Multi, ref: u64, quantity: u32, what: Outcome): Handled {
    if !Routed(m, ref) then Unrouted(m)
    else PutBook(m, m.route[ref], ApplyReduce(m.books[m.route[ref]], ref, quantity, what))
  }

  ghost function ApplyReplaceMsg(m: Multi, ref: u64, newRef: u64, price: u32, shares: u32): Handled {
    if ref !in m.route then Unrouted(m)
    else
      var symbol := m.route[ref];
      PutBook(m.(route := (m.route - {ref})[newRef := symbol]), symbol,
              ApplyReplace(BookOf(m, symbol), ref, newRef, price, shares))
  }

  ghost function Apply(m: Multi, msg: Msg): Handled {
    match msg
    case Add(ref, symbol, o) => ApplyAddMsg(m, ref, symbol, o)
    case Delete(ref) => ApplyDeleteMsg(m, ref)
    case Cancel(ref, shares) => ApplyReduceMsg(m, ref, shares, Cancels)
    case Executed(ref, shares) => ApplyReduceMsg(m, ref, shares, Executes)
    case Replace(ref, newRef, price, shares) => ApplyReplaceMsg(m, ref, newRef, price, shares)
  }

  /** One delivered message body. */
  ghost function Ingest(m: Multi, body: seq<byte>): Handled {
    match Decode(body)
    case None => Handled(m, false, None)
    case Some(msg) => Apply(m, msg)
  }

  ghost function Run(hooked: bool, bodies: seq<seq<byte>>): Multi {
    if bodies == [] then Init(hooked)
    else Ingest(Run(hooked, bodies[..|bodies| - 1]), bodies[|bodies| - 1]).multi
  }
}
