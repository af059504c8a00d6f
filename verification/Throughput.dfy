/** The sliding-window throughput ring: 50 buckets of 100 ms against the full history. */
module Throughput {
  import opened Bytes

  const BUCKETS := 50
  const WINDOW_SECONDS := 5
  const BUCKET_NS := 100_000_000

  datatype Bucket = Bucket(window: u64, count: nat)

  type Ring = r: seq<Bucket> | |r| == BUCKETS witness seq(BUCKETS, _ => Bucket(0, 0))

  /** One call of record: the 100-ms window it fell into and the messages it counted. */
  datatype Entry = Entry(window: u64, count: nat)

  function Recorded(ring: Ring, window: u64, count: nat): Ring {
    var i := window % BUCKETS;
    var base := if ring[i].window != window then 0 else ring[i].count;
    ring[i := Bucket(window, base + count)]
  }

  /** The live part of the first n buckets, as the query loop adds it up. */
  function LiveSum(ring: Ring, cur: u64, n: nat): nat
    requires n <= BUCKETS
  {
    if n == 0 then 0
    else LiveSum(ring, cur, n - 1) + if ring[n - 1].window + BUCKETS > cur then ring[n - 1].count else 0
  }

  // ----- Totals over the history -----

  /** Messages recorded in the last 50 windows, the current one included. */
  function Recent(history: seq<Entry>, cur: u64): nat {
    if history == [] then 0
    else
      var e := history[|history| - 1];
      Recent(history[..|history| - 1], cur) + if e.window + BUCKETS > cur then e.count else 0
  }

  /** The same, for the windows that share bucket i. */
  function RecentIn(history: seq<Entry>, cur: u64, i: nat): nat {
    if history == [] then 0
    else
      var e := history[|history| - 1];
      RecentIn(history[..|history| - 1], cur, i)
      + if e.window % BUCKETS == i && e.window + BUCKETS > cur then e.count else 0
  }

  /** Messages recorded in one window. */
  function At(history: seq<Entry>, window: u64): nat {
    if history == [] then 0
    else
      var e := history[|history| - 1];
      At(history[..|history| - 1], window) + if e.window == window then e.count else 0
  }

  ghost predicate NotAfter(history: seq<Entry>, cur: u64) {
    forall k :: 0 <= k < |history| ==> history[k].window <= cur
  }

  /** Bucket i is for its latest window and holds exactly that window's messages. */
  ghost predicate BucketTracks(b: Bucket, history: seq<Entry>, i: nat) {
    && (b.window % BUCKETS == i || (b == Bucket(0, 0)))
    && (b.window % BUCKETS == i ==> b.count == At(history, b.window))
    && forall k :: 0 <= k < |history| && history[k].window % BUCKETS == i ==>
         b.window % BUCKETS == i && history[k].window <= b.window
  }

  ghost predicate Tracks(ring: Ring, history: seq<Entry>) {
    forall i :: 0 <= i < BUCKETS ==> BucketTracks(ring[i], history, i)
  }

  lemma {:induction false} NoneAt(history: seq<Entry>, window: u64)
    requires forall k :: 0 <= k < |history| ==> history[k].window != window
    ensures At(history, window) == 0
  {
    if history != [] {
      NoneAt(history[..|history| - 1], window);
    }
  }

  /** On a clock that does not run backwards, recording keeps the ring in step with the history. */
  lemma RecordTracks(ring: Ring, history: seq<Entry>, window: u64, count: nat)
    requires Tracks(ring, history) && NotAfter(history, window)
    requires forall i :: 0 <= i < BUCKETS ==> ring[i].window <= window
    ensures Tracks(Recorded(ring, window, count), history + [Entry(window, count)])
    ensures NotAfter(history + [Entry(window, count)], window)
  {
    var more := history + [Entry(window, count)];
    var ring' := Recorded(ring, window, count);
    assert more[..|history|] == history;
    var slot := window % BUCKETS;
    forall i | 0 <= i < BUCKETS
      ensures BucketTracks(ring'[i], more, i)
    {
      assert BucketTracks(ring[i], history, i);
      if i == slot && ring[i].window != window {
        forall k | 0 <= k < |history|
          ensures history[k].window != window
        {
        }
        NoneAt(history, window);
      }
    }
  }

  /** A bucket is live exactly when its messages are recent, and then they are all its recent ones. */
  lemma {:induction false} BucketIsRecent(b: Bucket, history: seq<Entry>, i: nat, cur: u64)
    requires i < BUCKETS && NotAfter(history, cur)
    requires forall k :: 0 <= k < |history| && history[k].window % BUCKETS == i ==>
               b.window % BUCKETS == i && history[k].window <= b.window
    requires b.window <= cur
    ensures RecentIn(history, cur, i)
            == if b.window % BUCKETS == i && b.window + BUCKETS > cur then At(history, b.window) else 0
  {
    if history != [] {
      var e := history[|history| - 1];
      BucketIsRecent(b, history[..|history| - 1], i, cur);
      if e.window % BUCKETS == i && e.window + BUCKETS > cur {
        SameWindow(e.window, b.window);
      }
    }
  }

  lemma SameWindow(a: u64, b: u64)
    requires a <= b < a + BUCKETS && a % BUCKETS == b % BUCKETS
    ensures a == b
  {
  }

  lemma {:induction false} BucketsPartition(history: seq<Entry>, cur: u64, n: nat)
    requires n <= BUCKETS
    ensures SumRecentIn(history, cur, n) == RecentBelow(history, cur, n)
  {
    if history == [] {
      NothingRecent(cur, n);
    } else {
      BucketsPartition(history[..|history| - 1], cur, n);
      OneMore(history, cur, n);
    }
  }

  function SumRecentIn(history: seq<Entry>, cur: u64, n: nat): nat {
    if n == 0 then 0 else SumRecentIn(history, cur, n - 1) + RecentIn(history, cur, n - 1)
  }

  function RecentBelow(history: seq<Entry>, cur: u64, n: nat): nat {
    if history == [] then 0
    else
      var e := history[|history| - 1];
      RecentBelow(history[..|history| - 1], cur, n)
      + if e.window % BUCKETS < n && e.window + BUCKETS > cur then e.count else 0
  }

  lemma {:induction false} NothingRecent(cur: u64, n: nat)
    ensures SumRecentIn([], cur, n) == 0
  {
    if n > 0 {
      NothingRecent(cur, n - 1);
    }
  }

  lemma {:induction false} OneMore(history: seq<Entry>, cur: u64, n: nat)
    requires history != []
    ensures var e := history[|history| - 1];
            SumRecentIn(history, cur, n)
            == SumRecentIn(history[..|history| - 1], cur, n)
               + if e.window % BUCKETS < n && e.window + BUCKETS > cur then e.count else 0
  {
    if n > 0 {
      OneMore(history, cur, n - 1);
    }
  }

  lemma {:induction false} AllBelow(history: seq<Entry>, cur: u64)
    ensures RecentBelow(history, cur, BUCKETS) == Recent(history, cur)
  {
    if history != [] {
      AllBelow(history[..|history| - 1], cur);
    }
  }

  lemma {:induction false} LiveIsRecent(ring: Ring, history: seq<Entry>, cur: u64, n: nat)
    requires Tracks(ring, history) && NotAfter(history, cur) && n <= BUCKETS
    requires forall i :: 0 <= i < BUCKETS ==> ring[i].window <= cur
    ensures LiveSum(ring, cur, n) == SumRecentIn(history, cur, n)
  {
    if n > 0 {
      LiveIsRecent(ring, history, cur, n - 1);
      assert BucketTracks(ring[n - 1], history, n - 1);
      BucketIsRecent(ring[n - 1], history, n - 1, cur);
    }
  }

  /** The ring answers exactly for the last 50 windows of the full history. */
  lemma RingMatchesHistory(ring: Ring, history: seq<Entry>, cur: u64)
    requires Tracks(ring, history) && NotAfter(history, cur)
    requires forall i :: 0 <= i < BUCKETS ==> ring[i].window <= cur
    ensures LiveSum(ring, cur, BUCKETS) == Recent(history, cur)
  {
    LiveIsRecent(ring, history, cur, BUCKETS);
    BucketsPartition(history, cur, BUCKETS);
    AllBelow(history, cur);
  }

  class ThroughputTracker {
    const ring: array<Bucket>
    var total: nat
    ghost var history: seq<Entry>
    ghost var latest: u64      // the latest window recorded in, while the clock was steady
    ghost var steady: bool     // every record so far was in the latest window or a later one

    ghost predicate Valid()
      reads this, ring
    {
      && ring.Length == BUCKETS
      && (steady ==>
            && Tracks(ring[..], history) && NotAfter(history, latest)
            && forall i :: 0 <= i < BUCKETS ==> ring[i].window <= latest)
    }

    constructor ()
      ensures Valid() && steady && history == [] && latest == 0 && total == 0 && fresh(ring)
    {
      ring := new Bucket[BUCKETS](_ => Bucket(0, 0));
      total, history, latest, steady := 0, [], 0, true;
    }

    method Record(now: u64, count: nat)
      requires Valid()
      modifies this, ring
      ensures Valid() && total == old(total) + count
      ensures ring[..] == Recorded(old(ring[..]), now / BUCKET_NS, count)
      ensures history == old(history) + [Entry(now / BUCKET_NS, count)] && latest == now / BUCKET_NS
      ensures steady == (old(steady) && now / BUCKET_NS >= old(latest))
    {
      var window := now / BUCKET_NS;
      if steady && window >= latest {
        RecordTracks(ring[..], history, window, count);
      }
      var i := window % BUCKETS;
      if ring[i].window != window {
        ring[i] := Bucket(window, 0);
      }
      ring[i] := ring[i].(count := ring[i].count + count);
      total := total + count;
      assert ring[..] == Recorded(old(ring[..]), window, count);
      history, steady, latest := history + [Entry(window, count)], steady && window >= latest, window;
    }

    /** Messages per second over the last five seconds of history. */
    method MsgsPerSec(now: u64) returns (rate: nat)
      requires Valid()
      ensures steady && now / BUCKET_NS >= latest ==> rate == Recent(history, now / BUCKET_NS) / WINDOW_SECONDS
      ensures rate == LiveSum(ring[..], now / BUCKET_NS, BUCKETS) / WINDOW_SECONDS
    {
      var cur := now / BUCKET_NS;
      var sum := 0;
      for i := 0 to BUCKETS
        invariant sum == LiveSum(ring[..], cur, i)
      {
        if ring[i].window + BUCKETS > cur {
          sum := sum + ring[i].count;
        }
      }
      if steady && cur >= latest {
        RingMatchesHistory(ring[..], history, cur);
      }
      rate := sum / WINDOW_SECONDS;
    }
  }
}
