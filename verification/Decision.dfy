/** The quoting rule at the end of the pipeline, and when its quotes lie inside the market. */
module Decision {
  import opened Bytes
  import opened Itch
  import opened Orders
  import opened BookModel
  import opened BookFacts
  import opened MultiModel
  import opened MultiFacts
  import opened BookRuns
  import Stats

  datatype Config = Config(minSpreadTicks: u32, tickSize: u32, quoteSize: u32)

  datatype Decision = Decision(symbol: Symbol, price: u32, shares: u32, side: byte, recv: u64, decided: u64)

  /** The spread a market must exceed: a 32-bit product, which may wrap. */
  function Threshold(cfg: Config): u32 {
    (cfg.minSpreadTicks * cfg.tickSize) % U32_MOD
  }

  /** The price quoted for a top of book, if any: one tick above the bid. */
  function Quote(cfg: Config, top: Top): Option<u32> {
    if top.bid.None? || top.ask.None? then None
    else
      var bid, ask := top.bid.value.price, top.ask.value.price;
      var spread := if ask > bid then ask - bid else 0;
      if spread <= Threshold(cfg) then None else Some((bid + cfg.tickSize) % U32_MOD)
  }

  /** The decision made on one report, if any; `decided` is the clock at that moment. */
  function Decide(cfg: Config, r: Report, decided: u64): Option<Decision> {
    match Quote(cfg, r.top)
    case None => None
    case Some(price) => Some(Decision(r.symbol, price, cfg.quoteSize, SIDE_BUY, r.recv, decided))
  }

  /** When exactly a report leads to a decision, and to which: when both sides are there and the ask is
      above the bid by more than the product of minimum spread and tick, as 32 bits hold it; and then to
      buy the configured size one tick above the bid. */
  lemma DecidesExactly(cfg: Config, r: Report, decided: u64)
    ensures var d := Decide(cfg, r, decided);
            && (d.Some? <==> r.top.bid.Some? && r.top.ask.Some?
                             && r.top.ask.value.price
                                > r.top.bid.value.price + (cfg.minSpreadTicks * cfg.tickSize) % U32_MOD)
            && (d.Some? ==> d.value == Decision(r.symbol, (r.top.bid.value.price + cfg.tickSize) % U32_MOD,
                                                cfg.quoteSize, 66, r.recv, decided))
  {
  }

  /** The same for a threshold that fits 32 bits and asks for a spread at all: nothing wraps around. */
  lemma DecidesPlainly(cfg: Config, r: Report, decided: u64)
    requires cfg.minSpreadTicks >= 1 && cfg.minSpreadTicks * cfg.tickSize < U32_MOD
    ensures var d := Decide(cfg, r, decided);
            && (d.Some? <==> r.top.bid.Some? && r.top.ask.Some?
                             && r.top.ask.value.price
                                > r.top.bid.value.price + cfg.minSpreadTicks * cfg.tickSize)
            && (d.Some? ==> d.value.price == r.top.bid.value.price + cfg.tickSize)
  {
    DecidesExactly(cfg, r, decided);
    AtLeastOneFold(cfg.minSpreadTicks, cfg.tickSize);
  }

  /** The quote, if there is one, is strictly between bid and ask. */
  predicate Inside(cfg: Config, top: Top) {
    Quote(cfg, top).Some? ==> top.bid.value.price < Quote(cfg, top).value < top.ask.value.price
  }

  lemma QuoteInside(cfg: Config, top: Top)
    requires 1 <= cfg.tickSize <= Threshold(cfg) || Threshold(cfg) == U32_MOD - 1
    ensures Inside(cfg, top)
  {
    if Quote(cfg, top).Some? {
      assert top.bid.value.price + cfg.tickSize < top.ask.value.price;
    }
  }

  lemma QuoteIsOneTickUp(cfg: Config, top: Top)
    requires 1 <= cfg.tickSize <= Threshold(cfg) || Threshold(cfg) == U32_MOD - 1
    requires Quote(cfg, top).Some?
    ensures Quote(cfg, top).value == top.bid.value.price + cfg.tickSize
  {
    assert top.bid.value.price + cfg.tickSize < top.ask.value.price;
  }

  /** When exactly a configuration quotes inside every market: the tick is positive and no larger
      than the spread it insists on, or no spread can be wide enough to quote at all. */
  lemma QuotesInsideExactly(cfg: Config)
    ensures (forall top :: Inside(cfg, top)) <==>
              1 <= cfg.tickSize <= Threshold(cfg) || Threshold(cfg) == U32_MOD - 1
  {
    if 1 <= cfg.tickSize <= Threshold(cfg) || Threshold(cfg) == U32_MOD - 1 {
      forall top
        ensures Inside(cfg, top)
      {
        QuoteInside(cfg, top);
      }
    } else {
      var narrow := Top(Some(PriceLevel(0, 0, 0)), Some(PriceLevel(Threshold(cfg) + 1, 0, 0)));
      assert Quote(cfg, narrow) == Some(cfg.tickSize % U32_MOD);
      assert !Inside(cfg, narrow);
    }
  }

  /** A positive tick and spread whose product fits 32 bits is enough. */
  lemma SensibleConfigQuotesInside(cfg: Config)
    requires cfg.minSpreadTicks >= 1 && cfg.tickSize >= 1 && cfg.minSpreadTicks * cfg.tickSize < U32_MOD
    ensures forall top :: Inside(cfg, top)
  {
    AtLeastOneFold(cfg.minSpreadTicks, cfg.tickSize);
    QuotesInsideExactly(cfg);
  }

  lemma AtLeastOneFold(n: nat, x: nat)
    requires n >= 1 && n * x < U32_MOD
    ensures x <= n * x == (n * x) % U32_MOD
  {
    assert n * x == (n - 1) * x + x;
  }

  /** A price strictly above every live buy and strictly below every live sell of a symbol. */
  ghost predicate BetweenSides(flat: Flat, symbol: Symbol, price: u32) {
    forall ref :: ref in flat && flat[ref].symbol == symbol ==>
      if flat[ref].order.side == SIDE_BUY then flat[ref].order.price < price else price < flat[ref].order.price
  }

  lemma InsideTrueTop(cfg: Config, b: Book, flat: Flat, symbol: Symbol)
    requires BookRefines(b, flat, symbol) && Inside(cfg, TopOf(b))
    ensures Quote(cfg, TopOf(b)).Some? ==> BetweenSides(flat, symbol, Quote(cfg, TopOf(b)).value)
  {
    TopIsTrue(b);
    if Quote(cfg, TopOf(b)).Some? {
      forall ref | ref in flat && flat[ref].symbol == symbol
        ensures ref in b.live && b.live[ref] == flat[ref].order
      {
        assert ref in Project(flat, symbol);
      }
    }
  }

  /** A live buy of the symbol rests at the price, and none higher. */
  ghost predicate BestBuyAt(flat: Flat, symbol: Symbol, price: int) {
    && (exists ref :: ref in flat && flat[ref].symbol == symbol && flat[ref].order.side == SIDE_BUY
                      && flat[ref].order.price == price)
    && forall ref :: ref in flat && flat[ref].symbol == symbol && flat[ref].order.side == SIDE_BUY ==>
         flat[ref].order.price <= price
  }

  lemma BidIsBestBuy(b: Book, flat: Flat, symbol: Symbol)
    requires BookRefines(b, flat, symbol) && TopOf(b).bid.Some?
    ensures BestBuyAt(flat, symbol, TopOf(b).bid.value.price)
  {
    TopIsTrue(b);
    var price := TopOf(b).bid.value.price;
    var best :| best in b.live && b.live[best].side == SIDE_BUY && b.live[best].price == price;
    assert best in Project(flat, symbol) && flat[best].order == b.live[best];
    forall ref | ref in flat && flat[ref].symbol == symbol && flat[ref].order.side == SIDE_BUY
      ensures flat[ref].order.price <= price
    {
      assert ref in Project(flat, symbol) && b.live[ref] == flat[ref].order;
    }
  }

  /** Quote soundness over every admissible stream: whatever is quoted on a report lies strictly
      between all live buys and all live sells of the reported symbol at that moment, and one tick above
      the best of the buys. */
  lemma QuotesLieBetweenLiveOrders(cfg: Config, bodies: seq<seq<byte>>, body: seq<byte>)
    requires 1 <= cfg.tickSize <= Threshold(cfg) || Threshold(cfg) == U32_MOD - 1
    requires Admissible(bodies + [body])
    ensures var report := Ingest(Run(true, bodies), body).report;
            report.Some? && Quote(cfg, report.value.top).Some? ==>
              var flat, symbol := FlatRun(bodies + [body]), report.value.symbol;
              var price := Quote(cfg, report.value.top).value;
              BetweenSides(flat, symbol, price) && BestBuyAt(flat, symbol, price - cfg.tickSize)
  {
    var all := bodies + [body];
    assert all[..|bodies|] == bodies;
    BooksRefineFlatMap(true, all);
    LastReportIsCurrent(bodies, []);
    IngestReported(Run(true, bodies), body);
    var r := Ingest(Run(true, bodies), body);
    if r.report.Some? {
      var symbol := r.report.value.symbol;
      var changed :| ChangedOne(Run(true, bodies), r, changed);
      assert changed == symbol && r.multi == Run(true, all);
      assert BookRefines(r.multi.books[symbol], FlatRun(all), symbol);
      assert r.report.value.top == TopOf(r.multi.books[symbol]);
      QuotesInsideExactly(cfg);
      InsideTrueTop(cfg, r.multi.books[symbol], FlatRun(all), symbol);
      if Quote(cfg, r.report.value.top).Some? {
        BidIsBestBuy(r.multi.books[symbol], FlatRun(all), symbol);
        QuoteIsOneTickUp(cfg, r.report.value.top);
      }
    }
  }

  class DecisionEngine {
    const cfg: Config
    const latency: Stats.LatencyHistogram
    var decisionsEmitted: nat
    var topChangesSeen: nat
    ghost var decisions: seq<Decision>

    ghost predicate Valid()
      reads this, latency, latency.counts
    {
      latency.Valid() && decisionsEmitted == |decisions|
    }

    constructor (cfg: Config)
      ensures Valid() && this.cfg == cfg && decisions == [] && topChangesSeen == 0
      ensures fresh(latency) && fresh(latency.counts) && latency.samples == []
    {
      this.cfg := cfg;
      latency := new Stats.LatencyHistogram();
      decisionsEmitted, topChangesSeen, decisions := 0, 0, [];
    }

    /** One reported top of book; `decided` is the clock when the decision is made. */
    method OnTopOfBook(symbol: Symbol, top: Top, recv: u64, decided: u64)
      requires Valid()
      modifies this, latency, latency.counts
      ensures Valid() && topChangesSeen == old(topChangesSeen) + 1
      ensures var decision := Decide(cfg, Report(symbol, top, recv), decided);
              && decisions == (if decision.Some? then old(decisions) + [decision.value] else old(decisions))
              && latency.samples == (if decision.Some? && decided > recv
                                     then old(latency.samples) + [decided - recv] else old(latency.samples))
    {
      topChangesSeen := topChangesSeen + 1;
      if top.bid.None? || top.ask.None? {
        return;
      }
      var bid, ask := top.bid.value.price, top.ask.value.price;
      var spread := if ask > bid then ask - bid else 0;
      if spread <= (cfg.minSpreadTicks * cfg.tickSize) % U32_MOD {
        return;
      }
      var price: u32 := (bid + cfg.tickSize) % U32_MOD;
      if decided > recv {
        latency.Record(decided - recv);
      }
      decisionsEmitted := decisionsEmitted + 1;
      decisions := decisions + [Decision(symbol, price, cfg.quoteSize, SIDE_BUY, recv, decided)];
    }
  }
}
