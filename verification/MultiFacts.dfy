/** The per-symbol books and the routing index refine one flat map of live orders. */
module MultiFacts {
  import opened Bytes
  import opened Itch
  import opened Orders
  import opened BookModel
  import opened BookFacts
  import opened MultiModel

  // ----- The flat specification -----

  datatype FlatOrder = FlatOrder(symbol: Symbol, order: Order)

  type Flat = map<u64, FlatOrder>

  function FlatReduce(flat: Flat, ref: u64, quantity: u32): Flat {
    if ref !in flat then flat
    else
      var o := flat[ref].order;
      var left := o.shares - Min(quantity, o.shares);
      if left == 0 then flat - {ref} else flat[ref := flat[ref].(order := o.(shares := left))]
  }

  function FlatApply(flat: Flat, msg: Msg): Flat {
    match msg
    case Add(ref, symbol, o) => if ref in flat then flat else flat[ref := FlatOrder(symbol, o)]
    case Delete(ref) => flat - {ref}
    case Cancel(ref, shares) => FlatReduce(flat, ref, shares)
    case Executed(ref, shares) => FlatReduce(flat, ref, shares)
    case Replace(ref, newRef, price, shares) =>
      if ref !in flat then flat
      else (flat - {ref})[newRef := FlatOrder(flat[ref].symbol, Order(flat[ref].order.side, price, shares))]
  }

  ghost function FlatRun(bodies: seq<seq<byte>>): Flat {
    if bodies == [] then map[]
    else
      var before := FlatRun(bodies[..|bodies| - 1]);
      match Decode(bodies[|bodies| - 1])
      case None => before
      case Some(msg) => FlatApply(before, msg)
  }

  /** What the venue promises of references: an Add does not reuse one that is live under another
      symbol, and a Replace takes a new one that is not live, or keeps the original. */
  ghost predicate Fresh(flat: Flat, msg: Msg) {
    match msg
    case Add(ref, symbol, _) => ref in flat ==> flat[ref].symbol == symbol
    case Replace(ref, newRef, _, _) => newRef in flat ==> newRef == ref
    case _ => true
  }

  ghost predicate Admissible(bodies: seq<seq<byte>>) {
    forall n :: 0 <= n < |bodies| ==>
      && |FlatRun(bodies[..n])| + 1 < U32_MOD
      && (Decode(bodies[n]).Some? ==> Fresh(FlatRun(bodies[..n]), Decode(bodies[n]).value))
  }

  lemma AdmissiblePrefix(bodies: seq<seq<byte>>, n: nat)
    requires Admissible(bodies) && n <= |bodies|
    ensures Admissible(bodies[..n])
  {
    forall k | 0 <= k < n
      ensures bodies[..n][..k] == bodies[..k] && bodies[..n][k] == bodies[k]
    {
    }
  }

  // ----- The refinement relation -----

  ghost function Project(flat: Flat, symbol: Symbol): Live {
    map ref | ref in flat && flat[ref].symbol == symbol :: flat[ref].order
  }

  ghost predicate BookRefines(b: Book, flat: Flat, symbol: Symbol) {
    Aggregated(b) && b.live == Project(flat, symbol)
  }

  /** Every live order is routed to the one book that holds it; stale routes may remain. */
  ghost predicate RoutesRefine(m: Multi, flat: Flat) {
    && (forall ref :: ref in flat ==>
          flat[ref].symbol in m.books && ref in m.route && m.route[ref] == flat[ref].symbol)
    && forall ref :: ref in m.route ==> m.route[ref] in m.books
  }

  ghost predicate Refines(m: Multi, flat: Flat) {
    (forall s :: s in m.books ==> BookRefines(m.books[s], flat, s)) && RoutesRefine(m, flat)
  }

  lemma {:induction false} KeysAtMost(a: set<u64>, b: set<u64>)
    requires a <= b
    ensures |a| <= |b|
  {
    if a != {} {
      var x :| x in a;
      KeysAtMost(a - {x}, b - {x});
    }
  }

  lemma ProjectionRoom(flat: Flat, symbol: Symbol)
    ensures |Project(flat, symbol)| <= |flat|
  {
    var live := Project(flat, symbol);
    KeysAtMost(live.Keys, flat.Keys);
    assert |live.Keys| == |live| && |flat.Keys| == |flat|;
  }

  /** Only orders of one symbol changed. */
  ghost predicate OnlySymbol(flat: Flat, flat': Flat, symbol: Symbol) {
    forall s :: s != symbol ==> Project(flat', s) == Project(flat, s)
  }

  /** Changing one symbol's book and the flat map alike keeps the relation. */
  lemma UpdateOneBook(m: Multi, flat: Flat, symbol: Symbol, b: Book, flat': Flat, m': Multi)
    requires Refines(m, flat) && OnlySymbol(flat, flat', symbol) && BookRefines(b, flat', symbol)
    requires m'.books == m.books[symbol := b] && RoutesRefine(m', flat')
    ensures Refines(m', flat')
  {
    forall s | s in m'.books
      ensures BookRefines(m'.books[s], flat', s)
    {
      if s != symbol {
        assert BookRefines(m.books[s], flat, s) && Project(flat', s) == Project(flat, s);
      }
    }
  }

  // ----- Flat rules, seen from one symbol -----

  lemma ProjectAdd(flat: Flat, ref: u64, symbol: Symbol, o: Order)
    requires ref in flat ==> flat[ref].symbol == symbol
    ensures var flat' := FlatApply(flat, Add(ref, symbol, o));
            && OnlySymbol(flat, flat', symbol)
            && Project(flat', symbol) == AddOrder(Project(flat, symbol), ref, o)
  {
  }

  lemma ProjectDelete(flat: Flat, ref: u64, symbol: Symbol)
    requires ref in flat ==> flat[ref].symbol == symbol
    ensures OnlySymbol(flat, flat - {ref}, symbol)
    ensures Project(flat - {ref}, symbol) == DeleteOrder(Project(flat, symbol), ref)
  {
  }

  lemma ProjectReduce(flat: Flat, ref: u64, quantity: u32, symbol: Symbol)
    requires ref in flat ==> flat[ref].symbol == symbol
    ensures var flat' := FlatReduce(flat, ref, quantity);
            && OnlySymbol(flat, flat', symbol)
            && Project(flat', symbol) == ReduceOrder(Project(flat, symbol), ref, quantity)
  {
    ProjectDelete(flat, ref, symbol);
  }

  lemma ProjectReplace(flat: Flat, ref: u64, newRef: u64, price: u32, shares: u32, symbol: Symbol)
    requires ref in flat ==> flat[ref].symbol == symbol && (newRef in flat ==> newRef == ref)
    ensures var flat' := FlatApply(flat, Replace(ref, newRef, price, shares));
            && OnlySymbol(flat, flat', symbol)
            && Project(flat', symbol) == ReplaceOrder(Project(flat, symbol), ref, newRef, price, shares)
  {
  }

  // ----- One message -----

  lemma WiringKeeps(m: Multi, flat: Flat, symbol: Symbol)
    requires Refines(m, flat)
    ensures var b := Wire(m, symbol, BookOf(m, symbol));
            Aggregated(b) && b.live == Project(flat, symbol)
  {
    if symbol !in m.books {
      assert Project(flat, symbol) == map[];
      EmptyAggregated();
    } else {
      assert BookRefines(m.books[symbol], flat, symbol);
    }
  }

  lemma EmptyAggregated()
    ensures Aggregated(EmptyBook)
  {
  }

  /** New routes lead to the symbol at hand, old ones are left, and every live order has one. */
  ghost predicate RoutesFollow(route: map<u64, Symbol>, symbol: Symbol, flat': Flat, route': map<u64, Symbol>) {
    && (forall ref :: ref in route' ==> route'[ref] == symbol || (ref in route && route'[ref] == route[ref]))
    && forall ref :: ref in flat' ==> ref in route' && route'[ref] == flat'[ref].symbol
  }

  /** Routes only matter for live orders and never lead nowhere. */
  lemma RoutesKept(m: Multi, flat: Flat, symbol: Symbol, flat': Flat, m': Multi)
    requires RoutesRefine(m, flat) && m'.books.Keys == m.books.Keys + {symbol}
    requires RoutesFollow(m.route, symbol, flat', m'.route)
    ensures RoutesRefine(m', flat')
  {
  }

  lemma AddRefines(m: Multi, flat: Flat, ref: u64, symbol: Symbol, o: Order)
    requires Refines(m, flat) && |flat| + 1 < U32_MOD && (ref in flat ==> flat[ref].symbol == symbol)
    ensures Refines(ApplyAddMsg(m, ref, symbol, o).multi, FlatApply(flat, Add(ref, symbol, o)))
  {
    var b := Wire(m, symbol, BookOf(m, symbol));
    var b' := ApplyAdd(b, ref, o).book;
    assert BookRefines(b', FlatApply(flat, Add(ref, symbol, o)), symbol) by {
      WiringKeeps(m, flat, symbol);
      ProjectionRoom(flat, symbol);
      AddKeeps(b, ref, o);
      ProjectAdd(flat, ref, symbol, o);
    }
    ProjectAdd(flat, ref, symbol, o);
    PutRefines(m, flat, symbol, b', FlatApply(flat, Add(ref, symbol, o)), ApplyAddMsg(m, ref, symbol, o).multi);
  }

  /** Putting the changed book in place, with routes that follow the flat map. */
  lemma PutRefines(m: Multi, flat: Flat, symbol: Symbol, b': Book, flat': Flat, m': Multi)
    requires Refines(m, flat) && OnlySymbol(flat, flat', symbol) && BookRefines(b', flat', symbol)
    requires m'.books == m.books[symbol := b']
    requires RoutesFollow(m.route, symbol, flat', m'.route)
    ensures Refines(m', flat')
  {
    RoutesKept(m, flat, symbol, flat', m');
    UpdateOneBook(m, flat, symbol, b', flat', m');
  }

  lemma DeleteRefines(m: Multi, flat: Flat, ref: u64)
    requires Refines(m, flat) && |flat| + 1 < U32_MOD
    ensures Refines(ApplyDeleteMsg(m, ref).multi, FlatApply(flat, Delete(ref)))
  {
    var flat' := FlatApply(flat, Delete(ref));
    if Routed(m, ref) {
      var symbol := m.route[ref];
      var b' := ApplyDelete(m.books[symbol], ref).book;
      assert BookRefines(b', flat', symbol) by {
        assert BookRefines(m.books[symbol], flat, symbol);
        ProjectionRoom(flat, symbol);
        DeleteKeeps(m.books[symbol], ref);
        ProjectDelete(flat, ref, symbol);
      }
      ProjectDelete(flat, ref, symbol);
      PutRefines(m, flat, symbol, b', flat', ApplyDeleteMsg(m, ref).multi);
    } else {
      assert flat' == flat;
    }
  }

  lemma ReduceBookRefines(b: Book, flat: Flat, symbol: Symbol, ref: u64, quantity: u32,
                          what: Outcome)
    requires BookRefines(b, flat, symbol) && |flat| + 1 < U32_MOD && (ref in flat ==> flat[ref].symbol == symbol)
    ensures BookRefines(ApplyReduce(b, ref, quantity, what).book, FlatReduce(flat, ref, quantity), symbol)
  {
    ProjectionRoom(flat, symbol);
    ReduceKeeps(b, ref, quantity, what);
    ProjectReduce(flat, ref, quantity, symbol);
  }

  lemma ReduceRefines(m: Multi, flat: Flat, ref: u64, quantity: u32, what: Outcome)
    requires Refines(m, flat) && |flat| + 1 < U32_MOD
    ensures Refines(ApplyReduceMsg(m, ref, quantity, what).multi, FlatReduce(flat, ref, quantity))
  {
    if Routed(m, ref) {
      var symbol := m.route[ref];
      assert BookRefines(m.books[symbol], flat, symbol);
      ReduceBookRefines(m.books[symbol], flat, symbol, ref, quantity, what);
      ProjectReduce(flat, ref, quantity, symbol);
      PutRefines(m, flat, symbol, ApplyReduce(m.books[symbol], ref, quantity, what).book,
                 FlatReduce(flat, ref, quantity), ApplyReduceMsg(m, ref, quantity, what).multi);
    }
  }

  /** The replaces the code handles right: nothing routed, a reference that is not live or is kept, or
      a dead original routed to the very book that holds the new reference. */
  ghost predicate SafeReplace(m: Multi, flat: Flat, ref: u64, newRef: u64) {
    || ref !in m.route || newRef !in flat || newRef == ref
    || (ref !in flat && m.route[ref] == flat[newRef].symbol)
  }

  lemma ReplaceBookRefines(b: Book, flat: Flat, symbol: Symbol, ref: u64, newRef: u64, price: u32, shares: u32)
    requires BookRefines(b, flat, symbol) && |flat| + 1 < U32_MOD
    requires ref in flat ==> flat[ref].symbol == symbol && (newRef in flat ==> newRef == ref)
    ensures BookRefines(ApplyReplace(b, ref, newRef, price, shares).book,
                        FlatApply(flat, Replace(ref, newRef, price, shares)), symbol)
  {
    ProjectionRoom(flat, symbol);
    ReplaceKeepsExactly(b, ref, newRef, price, shares);
    ProjectReplace(flat, ref, newRef, price, shares, symbol);
  }

  lemma ReplaceRoutes(m: Multi, flat: Flat, ref: u64, newRef: u64, price: u32, shares: u32)
    requires RoutesRefine(m, flat) && ref in m.route && SafeReplace(m, flat, ref, newRef)
    ensures RoutesFollow(m.route, m.route[ref], FlatApply(flat, Replace(ref, newRef, price, shares)),
                         (m.route - {ref})[newRef := m.route[ref]])
  {
  }

  lemma ReplaceRefines(m: Multi, flat: Flat, ref: u64, newRef: u64, price: u32, shares: u32)
    requires Refines(m, flat) && |flat| + 1 < U32_MOD && SafeReplace(m, flat, ref, newRef)
    ensures Refines(ApplyReplaceMsg(m, ref, newRef, price, shares).multi,
                    FlatApply(flat, Replace(ref, newRef, price, shares)))
  {
    if ref in m.route {
      var symbol := m.route[ref];
      assert BookRefines(m.books[symbol], flat, symbol);
      ReplaceBookRefines(m.books[symbol], flat, symbol, ref, newRef, price, shares);
      ProjectReplace(flat, ref, newRef, price, shares, symbol);
      ReplaceRoutes(m, flat, ref, newRef, price, shares);
      PutRefines(m, flat, symbol, ApplyReplace(m.books[symbol], ref, newRef, price, shares).book,
                 FlatApply(flat, Replace(ref, newRef, price, shares)),
                 ApplyReplaceMsg(m, ref, newRef, price, shares).multi);
    }
  }

  /** Outside the safe replaces the relation is lost at once. */
  lemma UnsafeReplaceBreaks(m: Multi, flat: Flat, ref: u64, newRef: u64, price: u32, shares: u32)
    requires Refines(m, flat) && |flat| + 1 < U32_MOD && !SafeReplace(m, flat, ref, newRef)
    ensures !Refines(ApplyReplaceMsg(m, ref, newRef, price, shares).multi,
                     FlatApply(flat, Replace(ref, newRef, price, shares)))
  {
    var symbol, other := m.route[ref], flat[newRef].symbol;
    var m' := ApplyReplaceMsg(m, ref, newRef, price, shares).multi;
    var flat' := FlatApply(flat, Replace(ref, newRef, price, shares));
    assert BookRefines(m.books[symbol], flat, symbol) && BookRefines(m.books[other], flat, other);
    if ref in flat {
      if symbol == other {
        ProjectionRoom(flat, symbol);
        ReplaceKeepsExactly(m.books[symbol], ref, newRef, price, shares);
        assert !BookRefines(m'.books[symbol], flat', symbol);
      } else {
        assert newRef in m'.books[other].live && newRef !in Project(flat', other);
        assert !BookRefines(m'.books[other], flat', other);
      }
    } else {
      assert m'.route[newRef] != flat'[newRef].symbol;
    }
  }

  /** The messages on which code and flat rules agree. */
  ghost predicate Safe(m: Multi, flat: Flat, msg: Msg) {
    match msg
    case Add(ref, symbol, _) => ref in flat ==> flat[ref].symbol == symbol
    case Replace(ref, newRef, _, _) => SafeReplace(m, flat, ref, newRef)
    case _ => true
  }

  /** When exactly one message keeps the books and routes in step with the flat map. */
  lemma MessageRefinesExactly(m: Multi, flat: Flat, msg: Msg)
    requires Refines(m, flat) && |flat| + 1 < U32_MOD
    ensures Refines(Apply(m, msg).multi, FlatApply(flat, msg)) <==> Safe(m, flat, msg)
    ensures Fresh(flat, msg) ==> Safe(m, flat, msg)
  {
    match msg
    case Add(ref, symbol, o) =>
      if Safe(m, flat, msg) {
        AddRefines(m, flat, ref, symbol, o);
      } else {
        assert Apply(m, msg).multi.route[ref] != flat[ref].symbol;
      }
    case Delete(ref) => DeleteRefines(m, flat, ref);
    case Cancel(ref, shares) => ReduceRefines(m, flat, ref, shares, Cancels);
    case Executed(ref, shares) => ReduceRefines(m, flat, ref, shares, Executes);
    case Replace(ref, newRef, price, shares) =>
      if Safe(m, flat, msg) {
        ReplaceRefines(m, flat, ref, newRef, price, shares);
      } else {
        UnsafeReplaceBreaks(m, flat, ref, newRef, price, shares);
      }
  }

  /** Refinement over every stream: on references used as the venue promises, the books and routes
      built from a stream are the flat map of its live orders. */
  lemma {:induction false} BooksRefineFlatMap(hooked: bool, bodies: seq<seq<byte>>)
    requires Admissible(bodies)
    ensures Refines(Run(hooked, bodies), FlatRun(bodies))
  {
    if bodies != [] {
      var n := |bodies| - 1;
      var earlier := bodies[..n];
      AdmissiblePrefix(bodies, n);
      BooksRefineFlatMap(hooked, earlier);
      if Decode(bodies[n]).Some? {
        MessageRefinesExactly(Run(hooked, earlier), FlatRun(earlier), Decode(bodies[n]).value);
      }
    }
  }
}
