/** Which bodies the books handle, where references are routed, and what is told to whom, over every stream
    and with no assumption on references. */
module BookRoutes {
  import opened Bytes
  import opened Itch
  import opened BookModel
  import opened MultiModel
  import opened MultiFacts

  // ----- What is handled -----

  /** A body is accepted exactly if it is a book message; any other changes no book, route or counter and
      reports nothing, and the flat map of live orders does not see it either. */
  lemma HandlesExactly(m: Multi, body: seq<byte>, earlier: seq<seq<byte>>)
    ensures Ingest(m, body).accepted <==> IsBookMessage(body)
    ensures !IsBookMessage(body) ==> Ingest(m, body) == Handled(m, false, None)
    ensures !IsBookMessage(body) ==> FlatRun(earlier + [body]) == FlatRun(earlier)
  {
    DecodesExactly(body);
    assert (earlier + [body])[..|earlier|] == earlier;
  }

  // ----- Routes -----

  /** The symbol a reference leads to, read off the stream: that of the last Add of it, or of the order
      last replaced onto it, unless it was deleted or replaced away since. */
  ghost function RouteOf(bodies: seq<seq<byte>>, ref: u64): Option<Symbol> {
    if bodies == [] then None
    else
      var n := |bodies| - 1;
      var was := RouteOf(bodies[..n], ref);
      match Decode(bodies[n])
      case None => was
      case Some(msg) =>
        match msg
        case Add(r, symbol, _) => if r == ref then Some(symbol) else was
        case Delete(r) => if r == ref then None else was
        case Cancel(_, _) => was
        case Executed(_, _) => was
        case Replace(r, newRef, _, _) =>
          var source := RouteOf(bodies[..n], r);
          if source.None? then was
          else if newRef == ref then source
          else if r == ref then None
          else was
  }

  /** The index agrees with the stream, and leads only to books that exist. */
  ghost predicate RoutesAgree(m: Multi, bodies: seq<seq<byte>>) {
    && (forall ref: u64 :: RouteOf(bodies, ref) == if ref in m.route then Some(m.route[ref]) else None)
    && forall ref :: ref in m.route ==> m.route[ref] in m.books
  }

  /** The index after one message. */
  function RouteAfter(m: Multi, msg: Msg): map<u64, Symbol> {
    match msg
    case Add(ref, symbol, _) => m.route[ref := symbol]
    case Delete(ref) => m.route - {ref}
    case Cancel(_, _) => m.route
    case Executed(_, _) => m.route
    case Replace(ref, newRef, _, _) =>
      if ref !in m.route then m.route else (m.route - {ref})[newRef := m.route[ref]]
  }

  lemma ApplyRoutes(m: Multi, msg: Msg)
    requires forall ref :: ref in m.route ==> m.route[ref] in m.books
    ensures var m' := Apply(m, msg).multi;
            && m'.route == RouteAfter(m, msg)
            && m'.unrouted == m.unrouted + (if !msg.Add? && msg.ref !in m.route then 1 else 0)
            && m.books.Keys <= m'.books.Keys && (msg.Add? ==> msg.symbol in m'.books)
  {
    if msg.Delete? && msg.ref !in m.route {
      assert m.route - {msg.ref} == m.route;
    }
  }

  /** How many messages about a reference found no route. */
  ghost function UnroutedIn(bodies: seq<seq<byte>>): nat {
    if bodies == [] then 0
    else
      var n := |bodies| - 1;
      UnroutedIn(bodies[..n])
      + match Decode(bodies[n])
        case None => 0
        case Some(msg) => if !msg.Add? && RouteOf(bodies[..n], msg.ref).None? then 1 else 0
  }

  lemma StepRoutes(m: Multi, m': Multi, bodies: seq<seq<byte>>)
    requires bodies != [] && RoutesAgree(m, bodies[..|bodies| - 1])
    requires m' == Ingest(m, bodies[|bodies| - 1]).multi
    ensures RoutesAgree(m', bodies)
    ensures m'.unrouted - m.unrouted == UnroutedIn(bodies) - UnroutedIn(bodies[..|bodies| - 1])
  {
    var n := |bodies| - 1;
    match Decode(bodies[n])
    case None =>
    case Some(msg) =>
      ApplyRoutes(m, msg);
      forall ref: u64
        ensures RouteOf(bodies, ref) == if ref in m'.route then Some(m'.route[ref]) else None
      {
        assert RouteOf(bodies[..n], ref) == if ref in m.route then Some(m.route[ref]) else None;
        assert RouteOf(bodies[..n], msg.ref) == if msg.ref in m.route then Some(m.route[msg.ref]) else None;
      }
  }

  /** Over every stream the routing index is the one read off the stream, and the messages that found no
      route are counted. */
  lemma {:induction false} RoutesAreThoseOfTheStream(hooked: bool, bodies: seq<seq<byte>>)
    ensures RoutesAgree(Run(hooked, bodies), bodies)
    ensures Run(hooked, bodies).unrouted == UnroutedIn(bodies)
  {
    if bodies != [] {
      var n := |bodies| - 1;
      RoutesAreThoseOfTheStream(hooked, bodies[..n]);
      StepRoutes(Run(hooked, bodies[..n]), Run(hooked, bodies), bodies);
    }
  }

  // ----- Without a callback -----

  ghost predicate Silent(m: Multi) {
    !m.hooked && forall s :: s in m.books ==> !m.books[s].hooked
  }

  /** A book without a callback reports nothing and gets none. */
  lemma QuietBook(b: Book, ref: u64, o: Order, quantity: u32, what: Outcome, newRef: u64)
    requires !b.hooked
    ensures ApplyAdd(b, ref, o).report.None? && !ApplyAdd(b, ref, o).book.hooked
    ensures ApplyDelete(b, ref).report.None? && !ApplyDelete(b, ref).book.hooked
    ensures var reduce := ApplyReduce(b, ref, quantity, what);
            reduce.report.None? && !reduce.book.hooked
    ensures var replace := ApplyReplace(b, ref, newRef, o.price, o.shares);
            replace.report.None? && !replace.book.hooked
  {
  }

  lemma QuietPut(m: Multi, base: Multi, symbol: Symbol, r: Applied)
    requires Silent(m) && base.books == m.books && base.hooked == m.hooked && r.report.None? && !r.book.hooked
    ensures PutBook(base, symbol, r).report.None? && Silent(PutBook(base, symbol, r).multi)
  {
  }

  lemma AddStaysSilent(m: Multi, ref: u64, symbol: Symbol, o: Order)
    requires Silent(m)
    ensures ApplyAddMsg(m, ref, symbol, o).report.None? && Silent(ApplyAddMsg(m, ref, symbol, o).multi)
  {
    var b := Wire(m, symbol, BookOf(m, symbol));
    QuietBook(b, ref, o, 0, Cancels, ref);
    QuietPut(m, m.(route := m.route[ref := symbol], wired := m.wired + {symbol}), symbol, ApplyAdd(b, ref, o));
  }

  lemma RoutedStaysSilent(m: Multi, msg: Msg)
    requires Silent(m) && !msg.Add?
    ensures Apply(m, msg).report.None? && Silent(Apply(m, msg).multi)
  {
    if msg.ref in m.route {
      var symbol := m.route[msg.ref];
      var b := BookOf(m, symbol);
      match msg
      case Delete(ref) =>
        QuietBook(b, ref, Order(0, 0, 0), 0, Cancels, ref);
        QuietPut(m, m.(route := m.route - {ref}), symbol, ApplyDelete(b, ref));
      case Cancel(ref, shares) =>
        QuietBook(b, ref, Order(0, 0, 0), shares, Cancels, ref);
        QuietPut(m, m, symbol, ApplyReduce(b, ref, shares, Cancels));
      case Executed(ref, shares) =>
        QuietBook(b, ref, Order(0, 0, 0), shares, Executes, ref);
        QuietPut(m, m, symbol, ApplyReduce(b, ref, shares, Executes));
      case Replace(ref, newRef, price, shares) =>
        QuietBook(b, ref, Order(0, price, shares), 0, Cancels, newRef);
        QuietPut(m, m.(route := (m.route - {ref})[newRef := symbol]), symbol,
                 ApplyReplace(b, ref, newRef, price, shares));
    }
  }

  lemma StaysSilent(m: Multi, body: seq<byte>)
    requires Silent(m)
    ensures Ingest(m, body).report.None? && Silent(Ingest(m, body).multi)
  {
    match Decode(body)
    case None =>
    case Some(msg) =>
      if msg.Add? {
        AddStaysSilent(m, msg.ref, msg.symbol, msg.order);
      } else {
        RoutedStaysSilent(m, msg);
      }
  }

  /** With no callback set, no stream makes any report. */
  lemma {:induction false} NoCallbackNoReport(bodies: seq<seq<byte>>, body: seq<byte>)
    ensures Silent(Run(false, bodies)) && Ingest(Run(false, bodies), body).report.None?
  {
    if bodies != [] {
      var n := |bodies| - 1;
      NoCallbackNoReport(bodies[..n], bodies[n]);
      StaysSilent(Run(false, bodies[..n]), bodies[n]);
    }
    StaysSilent(Run(false, bodies), body);
  }
}
