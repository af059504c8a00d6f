/** Times through the whole pipeline: from the arrival of a datagram, over buffering, books and reports, to
    the decisions made on them. */
module Pipeline {
  import opened Bytes
  import G = GapModel
  import opened GapDelivery
  import opened GapAuthenticity
  import A = Arbitrator
  import B = MultiModel
  import D = Decision
  import opened EndToEnd

  /** The report a delivered message causes, after the messages delivered before it. */
  ghost function ReportOf(earlier: seq<G.Delivery>, d: G.Delivery): Option<B.Report> {
    B.Stamped(B.Ingest(BooksFrom(true, earlier), d.body).report, d.recv)
  }

  /** The calls of the top-of-book callback while a log is delivered, oldest first. */
  ghost function ReportsOf(log: seq<G.Delivery>): seq<B.Report> {
    if log == [] then []
    else
      var n := |log| - 1;
      var report := ReportOf(log[..n], log[n]);
      ReportsOf(log[..n]) + if report.Some? then [report.value] else []
  }

  /** The decisions made on a sequence of reports; the clock reads `clock(i)` at the i-th. */
  ghost function DecisionsOf(cfg: D.Config, reports: seq<B.Report>, clock: nat -> u64): seq<D.Decision> {
    if reports == [] then []
    else
      var n := |reports| - 1;
      var decision := D.Decide(cfg, reports[n], clock(n));
      DecisionsOf(cfg, reports[..n], clock) + if decision.Some? then [decision.value] else []
  }

  /** The k-th delivered message changed the top of book the report tells of, and arrived when it says. */
  ghost predicate Caused(log: seq<G.Delivery>, k: nat, r: B.Report) {
    && k < |log|
    && B.Ingest(BooksFrom(true, log[..k]), log[k].body).report == Some(B.Change(r.symbol, r.top))
    && r.recv == log[k].recv
  }

  lemma {:induction false} ReportHasCause(log: seq<G.Delivery>, i: nat)
    requires i < |ReportsOf(log)|
    ensures exists k: nat :: Caused(log, k, ReportsOf(log)[i])
  {
    var n := |log| - 1;
    var earlier := ReportsOf(log[..n]);
    if i < |earlier| {
      ReportHasCause(log[..n], i);
      var k: nat :| Caused(log[..n], k, earlier[i]);
      assert log[..n][..k] == log[..k];
      assert Caused(log, k, ReportsOf(log)[i]);
    } else {
      assert Caused(log, n, ReportsOf(log)[i]);
    }
  }

  /** Decision d was made on report r. */
  ghost predicate MadeOn(cfg: D.Config, d: D.Decision, r: B.Report) {
    D.Decide(cfg, r, d.decided) == Some(d)
  }

  lemma {:induction false} DecisionHasReport(cfg: D.Config, reports: seq<B.Report>, clock: nat -> u64, j: nat)
    requires j < |DecisionsOf(cfg, reports, clock)|
    ensures exists i :: 0 <= i < |reports| && MadeOn(cfg, DecisionsOf(cfg, reports, clock)[j], reports[i])
  {
    var n := |reports| - 1;
    var earlier := DecisionsOf(cfg, reports[..n], clock);
    if j < |earlier| {
      DecisionHasReport(cfg, reports[..n], clock, j);
      var i :| 0 <= i < n && MadeOn(cfg, earlier[j], reports[..n][i]);
      assert MadeOn(cfg, DecisionsOf(cfg, reports, clock)[j], reports[i]);
    } else {
      assert MadeOn(cfg, DecisionsOf(cfg, reports, clock)[j], reports[n]);
    }
  }

  /** The datagram of event e carried the k-th delivered message, whose effect on the books decision d was
      made on, and d is stamped with its arrival. */
  ghost predicate TriggeredBy(cfg: D.Config, log: seq<G.Delivery>, e: G.Event, k: nat, d: D.Decision) {
    && k < |log| && Framed(e, log[k]) && d.recv == e.now
    && exists r: B.Report :: Caused(log, k, r) && MadeOn(cfg, d, r)
  }

  /** Each delivered message was framed in a datagram of the run. */
  lemma DeliveryHasEvent(gapCfg: G.Config, es: seq<A.Event>, k: nat)
    requires AllFit(A.EraseAll(es)) && k < |A.Run(gapCfg, es).gap.log|
    ensures exists i: nat :: i < |es| && Framed(A.Erase(es[i]), A.Run(gapCfg, es).gap.log[k])
  {
    var events := A.EraseAll(es);
    A.ArbitrationErasesLabels(gapCfg, es);
    DeliveredIsAuthentic(gapCfg, events);
    assert FramedIn(events, A.Run(gapCfg, es).gap.log[k]);
    var i: nat :| i < |events| && Framed(events[i], A.Run(gapCfg, es).gap.log[k]);
    assert events[i] == A.Erase(es[i]);
  }

  lemma DecisionHasCause(cfg: D.Config, log: seq<G.Delivery>, clock: nat -> u64, j: nat)
    requires j < |DecisionsOf(cfg, ReportsOf(log), clock)|
    ensures exists k: nat, r: B.Report ::
              Caused(log, k, r) && MadeOn(cfg, DecisionsOf(cfg, ReportsOf(log), clock)[j], r)
  {
    var d := DecisionsOf(cfg, ReportsOf(log), clock)[j];
    DecisionHasReport(cfg, ReportsOf(log), clock, j);
    var i :| 0 <= i < |ReportsOf(log)| && MadeOn(cfg, d, ReportsOf(log)[i]);
    ReportHasCause(log, i);
    var k: nat :| Caused(log, k, ReportsOf(log)[i]);
    assert Caused(log, k, ReportsOf(log)[i]) && MadeOn(cfg, d, ReportsOf(log)[i]);
  }

  /** Over every arbitrated run, each decision carries the arrival time of the datagram that carried the
      message it was made on, on whichever line it came and however long it was buffered. */
  lemma DecisionsCarryArrivalTimes(gapCfg: G.Config, cfg: D.Config, es: seq<A.Event>, clock: nat -> u64, j: nat)
    requires AllFit(A.EraseAll(es))
    requires j < |DecisionsOf(cfg, ReportsOf(A.Run(gapCfg, es).gap.log), clock)|
    ensures var log := A.Run(gapCfg, es).gap.log;
            var d := DecisionsOf(cfg, ReportsOf(log), clock)[j];
            exists i: nat, k: nat :: i < |es| && TriggeredBy(cfg, log, A.Erase(es[i]), k, d)
  {
    var log := A.Run(gapCfg, es).gap.log;
    var d := DecisionsOf(cfg, ReportsOf(log), clock)[j];
    DecisionHasCause(cfg, log, clock, j);
    var k: nat, r: B.Report :| Caused(log, k, r) && MadeOn(cfg, d, r);
    DeliveryHasEvent(gapCfg, es, k);
    var i: nat :| i < |es| && Framed(A.Erase(es[i]), log[k]);
    assert d.recv == r.recv == log[k].recv;
    assert TriggeredBy(cfg, log, A.Erase(es[i]), k, d);
  }
}
