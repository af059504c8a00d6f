/** What whole message streams report of each symbol. */
module BookRuns {
  import opened Bytes
  import opened Itch
  import opened BookModel
  import opened BookFacts
  import opened MultiModel

  // ----- Reports -----

  /** The tops of book reported for one symbol over a stream, oldest first. */
  ghost function Reports(bodies: seq<seq<byte>>, symbol: Symbol): seq<Top> {
    if bodies == [] then []
    else
      var n := |bodies| - 1;
      var report := Ingest(Run(true, bodies[..n]), bodies[n]).report;
      Reports(bodies[..n], symbol)
      + if report.Some? && report.value.symbol == symbol then [report.value.top] else []
  }

  /** With the callback set, each book reported its current top, and books exist only for symbols
      that were added and wired. */
  ghost predicate AllReported(m: Multi) {
    && m.hooked
    && (forall s :: s in m.books ==> m.books[s].hooked && m.books[s].lastTop.Some? && Reported(m.books[s]))
    && (forall s :: s in m.wired <==> s in m.books)
    && forall ref :: ref in m.route ==> m.route[ref] in m.books
  }

  /** One message reports for at most the symbol whose book it changed. */
  ghost predicate SoundHandled(m: Multi, r: Handled) {
    || (r.report.None? && r.multi.books == m.books)
    || (exists symbol :: ChangedOne(m, r, symbol))
  }

  ghost predicate ChangedOne(m: Multi, r: Handled, symbol: Symbol) {
    && symbol in r.multi.books
    && r.multi.books == m.books[symbol := r.multi.books[symbol]]
    && (r.report.Some? ==> r.report.value.symbol == symbol)
    && SoundReport(Wire(m, symbol, BookOf(m, symbol)),
                   Applied(r.multi.books[symbol], if r.report.Some? then Some(r.report.value.top) else None))
  }

  lemma PutReported(m: Multi, base: Multi, symbol: Symbol, b: Book, r: Applied)
    requires AllReported(m) && b == Wire(m, symbol, BookOf(m, symbol)) && SoundReport(b, r)
    requires b.hooked && r.book.lastTop.Some? && Reported(r.book)
    requires base.books == m.books && base.hooked && base.wired == m.wired + {symbol}
    requires forall ref :: ref in base.route ==> base.route[ref] in m.books || base.route[ref] == symbol
    ensures AllReported(PutBook(base, symbol, r).multi)
    ensures SoundHandled(m, PutBook(base, symbol, r))
  {
    var h := PutBook(base, symbol, r);
    assert h.multi.books[symbol] == r.book;
    assert r == Applied(r.book, if h.report.Some? then Some(h.report.value.top) else None);
    assert ChangedOne(m, h, symbol);
  }

  lemma AddReported(m: Multi, ref: u64, symbol: Symbol, o: Order)
    requires AllReported(m)
    ensures AllReported(ApplyAddMsg(m, ref, symbol, o).multi) && SoundHandled(m, ApplyAddMsg(m, ref, symbol, o))
  {
    var b := Wire(m, symbol, BookOf(m, symbol));
    AddFollows(b, ref, o);
    PutReported(m, m.(route := m.route[ref := symbol], wired := m.wired + {symbol}), symbol, b, ApplyAdd(b, ref, o));
  }

  lemma RoutedReported(m: Multi, ref: u64, msg: Msg)
    requires AllReported(m) && msg.ref == ref && !msg.Add?
    ensures AllReported(Apply(m, msg).multi) && SoundHandled(m, Apply(m, msg))
  {
    if ref in m.route {
      var symbol := m.route[ref];
      var b := m.books[symbol];
      assert b == Wire(m, symbol, BookOf(m, symbol)) && m.wired + {symbol} == m.wired;
      match msg
      case Delete(_) =>
        DeleteFollows(b, ref);
        PutReported(m, m.(route := m.route - {ref}), symbol, b, ApplyDelete(b, ref));
      case Cancel(_, shares) =>
        ReduceFollows(b, ref, shares, Cancels);
        PutReported(m, m, symbol, b, ApplyReduce(b, ref, shares, Cancels));
      case Executed(_, shares) =>
        ReduceFollows(b, ref, shares, Executes);
        PutReported(m, m, symbol, b, ApplyReduce(b, ref, shares, Executes));
      case Replace(_, newRef, price, shares) =>
        ReplaceFollows(b, ref, newRef, price, shares);
        PutReported(m, m.(route := (m.route - {ref})[newRef := symbol]), symbol, b,
                    ApplyReplace(b, ref, newRef, price, shares));
    }
  }

  lemma IngestReported(m: Multi, body: seq<byte>)
    requires AllReported(m)
    ensures AllReported(Ingest(m, body).multi) && SoundHandled(m, Ingest(m, body))
  {
    match Decode(body)
    case None =>
    case Some(msg) =>
      if msg.Add? {
        AddReported(m, msg.ref, msg.symbol, msg.order);
      } else {
        RoutedReported(m, msg.ref, msg);
      }
  }

  /** The reports of a symbol: the last one is remembered, and neighbours differ. */
  ghost predicate ReportsOk(m: Multi, reports: seq<Top>, symbol: Symbol) {
    && (reports != [] <==> symbol in m.books)
    && (symbol in m.books ==> m.books[symbol].lastTop == Some(reports[|reports| - 1]))
    && forall i :: 0 < i < |reports| ==> !SameTop(reports[i - 1], reports[i])
  }

  lemma StepReports(m: Multi, r: Handled, reports: seq<Top>, symbol: Symbol)
    requires AllReported(m) && AllReported(r.multi) && SoundHandled(m, r) && ReportsOk(m, reports, symbol)
    ensures var more := if r.report.Some? && r.report.value.symbol == symbol then [r.report.value.top] else [];
            ReportsOk(r.multi, reports + more, symbol)
  {
    assert reports + [] == reports;
    if !(r.report.None? && r.multi.books == m.books) {
      var changed :| ChangedOne(m, r, changed);
      if changed == symbol {
        ChangedReports(m, r, reports, symbol);
      }
    }
  }

  /** The symbol whose book was changed. */
  lemma ChangedReports(m: Multi, r: Handled, reports: seq<Top>, symbol: Symbol)
    requires AllReported(m) && AllReported(r.multi) && ChangedOne(m, r, symbol) && ReportsOk(m, reports, symbol)
    ensures ReportsOk(r.multi, if r.report.Some? then reports + [r.report.value.top] else reports, symbol)
  {
    if symbol !in m.books {
      assert BookOf(m, symbol).lastTop.None? && r.report.Some?;
    }
  }

  lemma ReportsOfStep(bodies: seq<seq<byte>>, symbol: Symbol, m: Multi, r: Handled)
    requires bodies != [] && m == Run(true, bodies[..|bodies| - 1]) && r == Ingest(m, bodies[|bodies| - 1])
    ensures Run(true, bodies) == r.multi
    ensures Reports(bodies, symbol)
         == Reports(bodies[..|bodies| - 1], symbol)
            + if r.report.Some? && r.report.value.symbol == symbol then [r.report.value.top] else []
  {
  }

  lemma {:induction false} ReportsAreRight(bodies: seq<seq<byte>>, symbol: Symbol)
    ensures AllReported(Run(true, bodies)) && ReportsOk(Run(true, bodies), Reports(bodies, symbol), symbol)
  {
    if bodies != [] {
      var n := |bodies| - 1;
      var m := Run(true, bodies[..n]);
      var r := Ingest(m, bodies[n]);
      ReportsAreRight(bodies[..n], symbol);
      IngestReported(m, bodies[n]);
      StepReports(m, r, Reports(bodies[..n], symbol), symbol);
      ReportsOfStep(bodies, symbol, m, r);
    }
  }

  /** Notification soundness, for every stream and symbol and with no assumption on references: with
      the callback set from the start, a symbol is reported once it has a book, its last report has
      the current best prices and sizes, and successive reports differ. */
  lemma LastReportIsCurrent(bodies: seq<seq<byte>>, symbol: Symbol)
    ensures AllReported(Run(true, bodies)) && ReportsOk(Run(true, bodies), Reports(bodies, symbol), symbol)
    ensures var reports := Reports(bodies, symbol);
            if symbol in Run(true, bodies).books then
              && reports != []
              && var last, top := reports[|reports| - 1], TopOf(Run(true, bodies).books[symbol]);
                 !Differ(last.bid, top.bid) && !Differ(last.ask, top.ask)
            else reports == []
    ensures forall i :: 0 < i < |Reports(bodies, symbol)| ==>
              var a, b := Reports(bodies, symbol)[i - 1], Reports(bodies, symbol)[i];
              Differ(a.bid, b.bid) || Differ(a.ask, b.ask)
  {
    ReportsAreRight(bodies, symbol);
    assert symbol in Run(true, bodies).books ==> Reported(Run(true, bodies).books[symbol]);
  }
}
