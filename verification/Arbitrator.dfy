/** Two redundant lines feeding one shared gap buffer, with per-line accounting. */
module Arbitrator {
  import opened Bytes
  import opened Wire
  import opened GapDelivery
  import opened GapAuthenticity
  import M = GapModel
  import GapBuffer

  datatype FeedLine = A | B

  datatype LineStats = LineStats(packets: nat, won: nat, redundant: nat, lastWin: u64)

  datatype State = State(gap: M.State, a: LineStats, b: LineStats) {
    function Line(line: FeedLine): LineStats {
      if line.A? then a else b
    }

    function SetLine(line: FeedLine, stats: LineStats): State {
      if line.A? then this.(a := stats) else this.(b := stats)
    }
  }

  function Init(cfg: M.Config): State {
    State(M.Init(cfg), LineStats(0, 0, 0, 0), LineStats(0, 0, 0, 0))
  }

  /** How the result of one call to the shared buffer is attributed to the line that made it. */
  function Attribute(stats: LineStats, delivered: int, now: u64): LineStats {
    var counted := stats.(packets := stats.packets + 1);
    if delivered > 0 then counted.(won := counted.won + delivered, lastWin := now)
    else if delivered == 0 then counted.(redundant := counted.redundant + 1)
    else counted
  }

  // ----- Runs of labelled datagrams -----

  datatype Event = OnLine(line: FeedLine, payload: seq<byte>, now: u64) | Tick(now: u64)

  ghost function Step(cfg: M.Config, st: State, e: Event): State {
    match e
    case OnLine(line, payload, now) =>
      var delivered := M.IngestResult(cfg, st.gap, payload, now);
      st.(gap := M.Ingest(cfg, st.gap, payload, now))
        .SetLine(line, Attribute(st.Line(line), delivered, now))
    case Tick(now) => st.(gap := M.CheckTimeout(cfg, st.gap, now))
  }

  ghost function Run(cfg: M.Config, es: seq<Event>): State {
    if es == [] then Init(cfg) else Step(cfg, Run(cfg, es[..|es| - 1]), es[|es| - 1])
  }

  function Erase(e: Event): M.Event {
    match e
    case OnLine(_, payload, now) => M.Datagram(payload, now)
    case Tick(now) => M.Tick(now)
  }

  function EraseAll(es: seq<Event>): seq<M.Event> {
    seq(|es|, i requires 0 <= i < |es| => Erase(es[i]))
  }

  lemma StepErases(cfg: M.Config, st: State, e: Event)
    ensures Step(cfg, st, e).gap == M.Step(cfg, st.gap, Erase(e))
  {
  }

  /** Arbitration is label erasure: the shared buffer cannot tell which line a datagram came on. */
  lemma {:induction false} ArbitrationErasesLabels(cfg: M.Config, es: seq<Event>)
    ensures Run(cfg, es).gap == M.Run(cfg, EraseAll(es))
  {
    if es != [] {
      var n := |es| - 1;
      ArbitrationErasesLabels(cfg, es[..n]);
      StepErases(cfg, Run(cfg, es[..n]), es[n]);
      assert EraseAll(es)[..n] == EraseAll(es[..n]) && EraseAll(es)[n] == Erase(es[n]);
    }
  }

  // ----- Accounting -----

  /** Calls on `line` whose datagram does not parse. */
  ghost function Failures(es: seq<Event>, line: FeedLine): nat {
    if es == [] then 0
    else
      var e := es[|es| - 1];
      Failures(es[..|es| - 1], line)
      + if e.OnLine? && e.line == line && ParseHeader(e.payload).None? then 1 else 0
  }

  /** Calls on `line` that delivered something, over the run itself. */
  ghost function Wins(cfg: M.Config, es: seq<Event>, line: FeedLine): nat {
    if es == [] then 0
    else
      var n := |es| - 1;
      var e := es[n];
      Wins(cfg, es[..n], line)
      + if e.OnLine? && e.line == line && M.IngestResult(cfg, Run(cfg, es[..n]).gap, e.payload, e.now) > 0
        then 1 else 0
  }

  /** The time of the last call on `line` that delivered something, or 0. */
  ghost function LastWin(cfg: M.Config, es: seq<Event>, line: FeedLine): u64 {
    if es == [] then 0
    else
      var n := |es| - 1;
      var e := es[n];
      if e.OnLine? && e.line == line && M.IngestResult(cfg, Run(cfg, es[..n]).gap, e.payload, e.now) > 0 then e.now
      else LastWin(cfg, es[..n], line)
  }

  /** For every run, with no assumption on the datagrams: the two lines' wins add up to what was
      delivered, each call on a line is a win, redundant or a parse failure, and each line knows when
      it last won. */
  lemma {:induction false} LinesAccountForEverything(cfg: M.Config, es: seq<Event>)
    ensures SlotsFit(Run(cfg, es).gap.ring)
    ensures Run(cfg, es).a.won + Run(cfg, es).b.won == |Run(cfg, es).gap.log|
    ensures forall line ::
              Run(cfg, es).Line(line).packets
              == Wins(cfg, es, line) + Run(cfg, es).Line(line).redundant + Failures(es, line)
    ensures forall line :: Run(cfg, es).Line(line).lastWin == LastWin(cfg, es, line)
  {
    if es != [] {
      var n := |es| - 1;
      LinesAccountForEverything(cfg, es[..n]);
      if es[n].OnLine? {
        CallAccounts(cfg, Run(cfg, es[..n]), es[n].line, es[n].payload, es[n].now);
      }
    }
  }

  /** One call keeps the accounts. */
  lemma CallAccounts(cfg: M.Config, st: State, on: FeedLine, payload: seq<byte>, now: u64)
    requires SlotsFit(st.gap.ring) && st.a.won + st.b.won == |st.gap.log|
    ensures var st' := Step(cfg, st, OnLine(on, payload, now));
            var result := M.IngestResult(cfg, st.gap, payload, now);
            && SlotsFit(st'.gap.ring) && st'.a.won + st'.b.won == |st'.gap.log|
            && forall line ::
                 && st'.Line(line).packets - st'.Line(line).redundant
                    == st.Line(line).packets - st.Line(line).redundant
                       + (if on == line && (result > 0 || ParseHeader(payload).None?) then 1 else 0)
                 && st'.Line(line).lastWin == if on == line && result > 0 then now else st.Line(line).lastWin
  {
    IngestAtMost(cfg, st.gap, payload, now);
  }

  /** Calls made on `line`. */
  ghost function Calls(es: seq<Event>, line: FeedLine): nat {
    if es == [] then 0
    else
      var e := es[|es| - 1];
      Calls(es[..|es| - 1], line) + if e.OnLine? && e.line == line then 1 else 0
  }

  /** Calls on `line` with a datagram that parses but delivers nothing. */
  ghost function Idle(cfg: M.Config, es: seq<Event>, line: FeedLine): nat {
    if es == [] then 0
    else
      var n := |es| - 1;
      var e := es[n];
      Idle(cfg, es[..n], line)
      + if e.OnLine? && e.line == line && ParseHeader(e.payload).Some?
           && M.Ingest(cfg, Run(cfg, es[..n]).gap, e.payload, e.now).log == Run(cfg, es[..n]).gap.log then 1 else 0
  }

  /** What one line has delivered so far: the log's growth over its calls. */
  ghost function Won(cfg: M.Config, es: seq<Event>, line: FeedLine): nat {
    if es == [] then 0
    else
      var n := |es| - 1;
      var e := es[n];
      var before := Run(cfg, es[..n]).gap;
      Won(cfg, es[..n], line)
      + if e.OnLine? && e.line == line
           && |M.Ingest(cfg, before, e.payload, e.now).log| > |before.log|
        then |M.Ingest(cfg, before, e.payload, e.now).log| - |before.log| else 0
  }

  /** The counters of each line over every run: all its calls, the messages they delivered, and the calls
      that parsed and delivered none. */
  lemma {:induction false} LineCountsAreThoseOfTheRun(cfg: M.Config, es: seq<Event>, line: FeedLine)
    ensures SlotsFit(Run(cfg, es).gap.ring)
    ensures Run(cfg, es).Line(line).packets == Calls(es, line)
    ensures Run(cfg, es).Line(line).won == Won(cfg, es, line)
    ensures Run(cfg, es).Line(line).redundant == Idle(cfg, es, line)
  {
    LinesAccountForEverything(cfg, es);
    if es != [] {
      var n := |es| - 1;
      LineCountsAreThoseOfTheRun(cfg, es[..n], line);
      if es[n].OnLine? {
        CallCounts(cfg, Run(cfg, es[..n]), es[n].line, es[n].payload, es[n].now, line);
      }
    }
  }

  /** One call: counted on its own line only, as delivering, idle or not parsed. */
  lemma CallCounts(cfg: M.Config, st: State, on: FeedLine, payload: seq<byte>, now: u64, line: FeedLine)
    requires SlotsFit(st.gap.ring)
    ensures var was, after := st.Line(line), Step(cfg, st, OnLine(on, payload, now)).Line(line);
            var log := M.Ingest(cfg, st.gap, payload, now).log;
            && |log| >= |st.gap.log| && (log == st.gap.log <==> |log| == |st.gap.log|)
            && after.packets == was.packets + (if on == line then 1 else 0)
            && after.won == was.won + (if on == line then |log| - |st.gap.log| else 0)
            && after.redundant
               == was.redundant
                  + (if on == line && ParseHeader(payload).Some? && log == st.gap.log then 1 else 0)
  {
    IngestAtMost(cfg, st.gap, payload, now);
    IngestOnlyAppends(cfg, st.gap, payload, now);
  }

  /** Inside the sequence space the wins are also the distance `next` has moved from the join. */
  lemma WinsAreProgress(cfg: M.Config, es: seq<Event>, first: u64)
    requires AllFit(EraseAll(es)) && SyncSeq(EraseAll(es)) == Option.Some(first)
    ensures Run(cfg, es).a.won + Run(cfg, es).b.won == Run(cfg, es).gap.next - first
  {
    LinesAccountForEverything(cfg, es);
    ArbitrationErasesLabels(cfg, es);
    ExactlyOnceInOrder(cfg, EraseAll(es));
  }

  // ----- The object -----

  class FeedArbitrator {
    const gapBuf: GapBuffer.GapBuffer
    const statPackets: array<nat>
    const statSeqWon: array<nat>
    const statRedundant: array<nat>
    const lastWinNs: array<u64>

    ghost predicate Valid()
      reads this, gapBuf
    {
      && gapBuf.Valid()
      && statPackets.Length == statSeqWon.Length == statRedundant.Length == lastWinNs.Length == 2
      && statPackets != statSeqWon && statPackets != statRedundant && statSeqWon != statRedundant
      && lastWinNs as object !in {statPackets as object, statSeqWon, statRedundant}
    }

    ghost function Stats(i: nat): LineStats
      requires Valid() && i < 2
      reads this, gapBuf, statPackets, statSeqWon, statRedundant, lastWinNs
    {
      LineStats(statPackets[i], statSeqWon[i], statRedundant[i], lastWinNs[i])
    }

    ghost function View(): State
      requires Valid()
      reads this, gapBuf, gapBuf.slots, statPackets, statSeqWon, statRedundant, lastWinNs
    {
      State(gapBuf.View(), Stats(0), Stats(1))
    }

    constructor (shared: GapBuffer.GapBuffer)
      requires shared.Valid()
      ensures Valid() && gapBuf == shared
      ensures fresh(statPackets) && fresh(statSeqWon) && fresh(statRedundant) && fresh(lastWinNs)
      ensures View() == State(shared.View(), LineStats(0, 0, 0, 0), LineStats(0, 0, 0, 0))
    {
      gapBuf := shared;
      statPackets := new nat[2](_ => 0);
      statSeqWon := new nat[2](_ => 0);
      statRedundant := new nat[2](_ => 0);
      lastWinNs := new u64[2](_ => 0);
    }

    method IngestLine(line: FeedLine, payload: seq<byte>, now: u64) returns (delivered: int)
      requires Valid()
      modifies gapBuf, gapBuf.slots, statPackets, statSeqWon, statRedundant, lastWinNs
      ensures Valid()
      ensures View() == Step(gapBuf.cfg, old(View()), OnLine(line, payload, now))
      ensures delivered == M.IngestResult(gapBuf.cfg, old(gapBuf.View()), payload, now)
    {
      ghost var before := View();
      var i := if line.A? then 0 else 1;
      delivered := gapBuf.Ingest(payload, now);
      ghost var after := gapBuf.View();
      assert Stats(0) == before.a && Stats(1) == before.b;
      Record(i, delivered, now);
      assert gapBuf.View() == after;
    }

    /** The bookkeeping around one call, for the line with index i. */
    method Record(i: nat, delivered: int, now: u64)
      requires Valid() && i < 2
      modifies statPackets, statSeqWon, statRedundant, lastWinNs
      ensures Stats(i) == Attribute(old(Stats(i)), delivered, now)
      ensures Stats(1 - i) == old(Stats(1 - i))
    {
      statPackets[i] := statPackets[i] + 1;
      if delivered > 0 {
        statSeqWon[i] := statSeqWon[i] + delivered;
        lastWinNs[i] := now;
      } else if delivered == 0 {
        statRedundant[i] := statRedundant[i] + 1;
      }
    }

    method Tick(now: u64)
      requires Valid()
      modifies gapBuf
      ensures Valid()
      ensures View() == Step(gapBuf.cfg, old(View()), Event.Tick(now))
    {
      gapBuf.Tick(now);
    }
  }
}
