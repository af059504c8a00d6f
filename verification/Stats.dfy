/** The log2 latency histogram against the full list of samples it stands for. */
module Stats {
  import opened Bytes

  // ----- The log2 histogram -----

  const BUCKETS := 64

  function Pow2(n: nat): (r: nat)
    ensures r > 0
  {
    if n == 0 then 1 else 2 * Pow2(n - 1)
  }

  lemma Pow2At8()
    ensures Pow2(8) == 0x100
  {
    assert Pow2(2) == 4;
    assert Pow2(4) == 16;
    assert Pow2(6) == 64;
  }

  lemma Pow2At32()
    ensures Pow2(32) == 0x1_0000_0000
  {
    Pow2At8();
    Pow2Sum(8, 8);
    Pow2Sum(16, 16);
  }

  lemma Pow2Values()
    ensures Pow2(63) == 0x8000_0000_0000_0000 && Pow2(64) == U64_MOD
  {
    Pow2At32();
    Pow2Sum(32, 32);
    assert Pow2(64) == 2 * Pow2(63);
  }

  lemma {:induction false} Pow2Sum(a: nat, b: nat)
    ensures Pow2(a + b) == Pow2(a) * Pow2(b)
  {
    if b > 0 {
      Pow2Sum(a, b - 1);
      calc {
        Pow2(a + b);
        2 * Pow2(a + (b - 1));
        2 * (Pow2(a) * Pow2(b - 1));
        Pow2(a) * (2 * Pow2(b - 1));
      }
    }
  }

  lemma {:induction false} Pow2Grows(a: nat, b: nat)
    requires a <= b
    ensures Pow2(a) <= Pow2(b)
  {
    if a < b {
      Pow2Grows(a, b - 1);
    }
  }

  /** The position of the highest set bit. */
  function Log2(x: nat): (n: nat)
    requires x > 0
    ensures Pow2(n) <= x < Pow2(n + 1)
  {
    if x == 1 then 0 else Log2(x / 2) + 1
  }

  lemma Log2Below(x: u64)
    requires x > 0
    ensures Log2(x) < BUCKETS
  {
    if Log2(x) >= BUCKETS {
      Pow2Values();
      Pow2Grows(BUCKETS, Log2(x));
    }
  }

  function BucketOf(ns: u64): (b: nat)
    ensures b < BUCKETS
  {
    if ns == 0 then 0 else Log2Below(ns); Log2(ns)
  }

  /** A sample falls into bucket i or below exactly when it is less than 2^(i + 1). */
  lemma BucketBound(ns: u64, i: nat)
    requires i < BUCKETS
    ensures BucketOf(ns) <= i <==> ns < Pow2(i + 1)
  {
    if ns > 0 {
      if BucketOf(ns) <= i {
        Pow2Grows(BucketOf(ns) + 1, i + 1);
      } else {
        Pow2Grows(i + 1, BucketOf(ns));
      }
    } else {
      assert Pow2(i + 1) > 0;
    }
  }

  // Counts over the full list of samples.

  function CountBelow(samples: seq<u64>, bound: nat): (n: nat)
    ensures n <= |samples|
  {
    if samples == [] then 0
    else CountBelow(samples[..|samples| - 1], bound) + if samples[|samples| - 1] < bound then 1 else 0
  }

  lemma {:induction false} CountBelowGrows(samples: seq<u64>, a: nat, b: nat)
    requires a <= b
    ensures CountBelow(samples, a) <= CountBelow(samples, b)
  {
    if samples != [] {
      CountBelowGrows(samples[..|samples| - 1], a, b);
    }
  }

  /** x is the k-th smallest sample, counting from 0. */
  ghost predicate IsRank(samples: seq<u64>, k: nat, x: u64) {
    x in samples && CountBelow(samples, x) <= k < CountBelow(samples, x + 1)
  }

  lemma {:induction false} CountEnds(samples: seq<u64>)
    ensures CountBelow(samples, 0) == 0 && CountBelow(samples, U64_MOD) == |samples|
  {
    if samples != [] {
      CountEnds(samples[..|samples| - 1]);
    }
  }

  /** The count passes k between two bounds at some number, and that number is a sample. */
  lemma {:induction false} RankBetween(samples: seq<u64>, k: nat, low: nat, high: nat)
    requires low < high <= U64_MOD && CountBelow(samples, low) <= k < CountBelow(samples, high)
    ensures exists x: u64 :: IsRank(samples, k, x)
    decreases high - low
  {
    if CountBelow(samples, low + 1) > k {
      CountedBetween(samples, low);
      assert IsRank(samples, k, low);
    } else {
      RankBetween(samples, k, low + 1, high);
    }
  }

  lemma {:induction false} CountedBetween(samples: seq<u64>, x: u64)
    requires CountBelow(samples, x) < CountBelow(samples, x + 1)
    ensures x in samples
  {
    var n := |samples| - 1;
    if samples[n] != x {
      CountedBetween(samples[..n], x);
    }
  }

  /** There is a k-th smallest sample exactly when there are more than k samples, and there is only
      one. */
  lemma RankExistsExactly(samples: seq<u64>, k: nat)
    ensures (exists x: u64 :: IsRank(samples, k, x)) <==> k < |samples|
    ensures forall x: u64, y: u64 :: IsRank(samples, k, x) && IsRank(samples, k, y) ==> x == y
  {
    CountEnds(samples);
    if k < |samples| {
      RankBetween(samples, k, 0, U64_MOD);
    }
    forall x: u64, y: u64 | IsRank(samples, k, x) && IsRank(samples, k, y)
      ensures x >= y
    {
      if x < y {
        CountBelowGrows(samples, x + 1, y);
      }
    }
  }

  /** The bucket counters summed up to and including bucket i. */
  function Cumulative(counts: seq<nat>, i: nat): nat
    requires i <= |counts|
  {
    if i == 0 then 0 else Cumulative(counts, i - 1) + counts[i - 1]
  }

  /** The histogram stands for the samples. */
  ghost predicate Counts(counts: seq<nat>, samples: seq<u64>) {
    && |counts| == BUCKETS
    && forall i :: 1 <= i <= BUCKETS ==> Cumulative(counts, i) == CountBelow(samples, Pow2(i))
  }

  lemma {:induction false} CumulativeAfter(counts: seq<nat>, b: nat, i: nat)
    requires b < |counts| && i <= |counts|
    ensures Cumulative(counts[b := counts[b] + 1], i) == Cumulative(counts, i) + if b < i then 1 else 0
  {
    if i > 0 {
      CumulativeAfter(counts, b, i - 1);
    }
  }

  lemma RecordCounts(counts: seq<nat>, samples: seq<u64>, ns: u64)
    requires Counts(counts, samples)
    ensures Counts(counts[BucketOf(ns) := counts[BucketOf(ns)] + 1], samples + [ns])
  {
    var b := BucketOf(ns);
    var counts' := counts[b := counts[b] + 1];
    forall i | 1 <= i <= BUCKETS
      ensures Cumulative(counts', i) == CountBelow(samples + [ns], Pow2(i))
    {
      CumulativeAfter(counts, b, i);
      BucketBound(ns, i - 1);
      assert (samples + [ns])[..|samples|] == samples;
    }
  }

  lemma {:induction false} NoneCounted(counts: seq<nat>, i: nat)
    requires i <= |counts| && forall j :: 0 <= j < |counts| ==> counts[j] == 0
    ensures Cumulative(counts, i) == 0
  {
    if i > 0 {
      NoneCounted(counts, i - 1);
    }
  }

  /** The bucket of rank k is the bucket of the k-th smallest sample. */
  lemma RankBucket(samples: seq<u64>, k: nat, x: u64, i: nat)
    requires IsRank(samples, k, x) && i < BUCKETS
    requires CountBelow(samples, Pow2(i + 1)) > k && (i > 0 ==> CountBelow(samples, Pow2(i)) <= k)
    ensures x < Pow2(i + 1) && (i > 0 ==> Pow2(i) <= x)
  {
    if x >= Pow2(i + 1) {
      CountBelowGrows(samples, Pow2(i + 1), x);
    }
    if i > 0 && x < Pow2(i) {
      CountBelowGrows(samples, x + 1, Pow2(i));
    }
  }

  class LatencyHistogram {
    const counts: array<nat>
    var total: nat
    ghost var samples: seq<u64>

    ghost predicate Valid()
      reads this, counts
    {
      Counts(counts[..], samples) && total == |samples|
    }

    constructor ()
      ensures Valid() && samples == [] && fresh(counts)
    {
      counts := new nat[BUCKETS](_ => 0);
      total, samples := 0, [];
      new;
      forall i | 1 <= i <= BUCKETS
        ensures Cumulative(counts[..], i) == CountBelow([], Pow2(i))
      {
        NoneCounted(counts[..], i);
      }
    }

    method Record(ns: u64)
      requires Valid()
      modifies this, counts
      ensures Valid() && samples == old(samples) + [ns]
    {
      RecordCounts(counts[..], samples, ns);
      var b := BucketOf(ns);
      counts[b] := counts[b] + 1;
      total := total + 1;
      samples := samples + [ns];
    }

    /** The bound for target rank k is tight within a factor of two for every sample below 2^63, and
        always an upper bound. With nothing recorded the result is 0. */
    method Percentile(k: nat) returns (bound: u64)
      requires Valid()
      ensures total == 0 ==> bound == 0
      ensures forall x: u64 :: IsRank(samples, k, x) && x < Pow2(63) ==> x < bound <= 2 * (if x == 0 then 1 else x)
      ensures forall x: u64 :: IsRank(samples, k, x) && x >= Pow2(63) ==> bound == U64_MOD - 1
      ensures total > 0 && k >= total ==> bound == U64_MOD - 1
    {
      Pow2Values();
      if total == 0 {
        return 0;
      }
      var cumulative, i := 0, 0;
      while i < BUCKETS
        invariant 0 <= i <= BUCKETS
        invariant cumulative == Cumulative(counts[..], i) <= k
      {
        cumulative := cumulative + counts[i];
        assert cumulative == Cumulative(counts[..], i + 1) == CountBelow(samples, Pow2(i + 1));
        assert i > 0 ==> Cumulative(counts[..], i) == CountBelow(samples, Pow2(i));
        if cumulative > k {
          forall x: u64 | IsRank(samples, k, x)
            ensures x < Pow2(i + 1) && (i > 0 ==> Pow2(i) <= x)
          {
            RankBucket(samples, k, x, i);
          }
          Pow2Grows(i + 1, BUCKETS);
          if i < 63 {
            Pow2Grows(i + 1, 63);
          }
          bound := if i >= 63 then U64_MOD - 1 else Pow2(i + 1);
          return;
        }
        i := i + 1;
      }
      assert Cumulative(counts[..], 64) == CountBelow(samples, Pow2(64));
      forall x: u64 | IsRank(samples, k, x)
        ensures false
      {
        CountBelowGrows(samples, x + 1, Pow2(64));
      }
      bound := U64_MOD - 1;
    }
  }
}
