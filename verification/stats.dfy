/**
 * Windowed statistics for one rate: a wrapping ring of the newest 1024
 * nanosecond samples, and for the windows of 16, 128 and 1024 samples a
 * maximum and an accumulator (the source divides the accumulator by the
 * window size into an `f64` average; the model keeps the integer).
 */
module Stats {

  import opened Numeric

  const RING_CAPACITY: nat := 1024

  /** The ring holds at most 1024 samples, oldest first. */
  type Ring = s: seq<u64> | |s| <= 1024

  datatype RateStats = RateStats(
    ring: Ring,
    acc16: u64, acc128: u64, acc1024: u64,  // windowed sums, wrapping like the u64 accumulators
    max16: u64, max128: u64, max1024: u64
  )

  /** `RateStats::new` / `default`: an empty ring and all figures zero. */
  function New(): (st: RateStats)
    ensures |st.ring| == 0
    ensures forall k :: Back(st.ring, k) == 0
    ensures st.acc16 == st.acc128 == st.acc1024 == 0
    ensures st.max16 == st.max128 == st.max1024 == 0
  {
    RateStats([], 0, 0, 0, 0, 0, 0)
  }

  /** The sample `k` places back from the newest one, or 0 once the ring runs out (`next_back().unwrap_or(&0)`). */
  function Back(ring: Ring, k: nat): u64
  {
    if k < |ring| then ring[|ring| - 1 - k] else 0
  }

  /**
   * `ArrayDeque::push_back` on a `Wrapping` deque of capacity 1024: the new
   * sample becomes the newest, everything else moves one place back, and
   * the oldest falls off once the ring is full.
   */
  function Push(ring: Ring, v: u64): (r: Ring)
    ensures |r| == Min(|ring| + 1, RING_CAPACITY)
    ensures Back(r, 0) == v
    ensures forall k :: 0 < k < RING_CAPACITY ==> Back(r, k) == Back(ring, k - 1)
    ensures forall k :: RING_CAPACITY <= k ==> Back(r, k) == 0
  {
    if |ring| == RING_CAPACITY then ring[1..] + [v] else ring + [v]
  }

  /** `RateStats::add`: a negative duration is recorded as 0, a positive one through the `as u64` cast. */
  function Add(st: RateStats, nanoseconds: int): (r: RateStats)
    ensures Back(r.ring, 0) == (if nanoseconds < 0 then 0 else WrapU64(nanoseconds))
    ensures 0 <= nanoseconds < U64_MODULUS ==> Back(r.ring, 0) == nanoseconds
    ensures r == st.(ring := r.ring)
    ensures forall k :: 0 < k < RING_CAPACITY ==> Back(r.ring, k) == Back(st.ring, k - 1)
  {
    st.(ring := Push(st.ring, WrapU64(Max(0, nanoseconds))))
  }

  /** `RateStats::add_ns`: records the sample unchanged. */
  function AddNs(st: RateStats, nanoseconds: u64): (r: RateStats)
    ensures Back(r.ring, 0) == nanoseconds
    ensures |r.ring| == Min(|st.ring| + 1, RING_CAPACITY)
    ensures r == st.(ring := r.ring)
    ensures forall k :: 0 < k < RING_CAPACITY ==> Back(r.ring, k) == Back(st.ring, k - 1)
  {
    st.(ring := Push(st.ring, nanoseconds))
  }

  // ---------------------------------------------------------------------------
  // Windows

  /** The newest `n` samples, newest first, with missing ones read as 0. */
  function Newest(ring: Ring, n: nat): (w: seq<u64>)
    ensures |w| == n
  {
    seq(n, k requires 0 <= k => Back(ring, k))
  }

  /** The samples at even distances 0, 2, ..., 2(n-1) from the newest. */
  function EvenOffsets(ring: Ring, n: nat): (w: seq<u64>)
    ensures |w| == n
  {
    seq(n, j requires 0 <= j => Back(ring, 2 * j))
  }

  /** The samples at odd distances 1, 3, ..., 2n-1 from the newest. */
  function OddOffsets(ring: Ring, n: nat): (w: seq<u64>)
    ensures |w| == n
  {
    seq(n, j requires 0 <= j => Back(ring, 2 * j + 1))
  }

  function Sum(s: seq<u64>): nat
  {
    if |s| == 0 then 0 else s[0] + Sum(s[1..])
  }

  /** The largest element, or 0 for the empty sequence (the scans start from 0). */
  function MaxOf(s: seq<u64>): u64
  {
    if |s| == 0 then 0 else Max(s[0], MaxOf(s[1..]))
  }

  /** `MaxOf` is the largest element: an upper bound that is attained. */
  lemma {:induction false} MaxOfIsMaximum(s: seq<u64>)
    ensures forall i :: 0 <= i < |s| ==> s[i] <= MaxOf(s)
    ensures |s| > 0 ==> exists i :: 0 <= i < |s| && s[i] == MaxOf(s)
    decreases |s|
  {
    if |s| > 0 {
      MaxOfIsMaximum(s[1..]);
      if s[0] < MaxOf(s[1..]) {
        var i :| 0 <= i < |s| - 1 && s[1..][i] == MaxOf(s[1..]);
        assert s[i + 1] == MaxOf(s);
      }
      forall i | 0 < i < |s|
        ensures s[i] <= MaxOf(s)
      {
        assert s[i] == s[1..][i - 1];
      }
    }
  }

  /** Peeling the first element off a suffix. */
  lemma SuffixStep(s: seq<u64>, i: nat)
    requires i < |s|
    ensures MaxOf(s[i..]) == Max(s[i], MaxOf(s[i + 1..]))
    ensures Sum(s[i..]) == s[i] + Sum(s[i + 1..])
  {
    assert s[i..][1..] == s[i + 1..];
  }

  /** One iteration of a scan: folding `v` into the maximum and `w` into the wrapping accumulator. */
  lemma ScanStep(s: seq<u64>, t: seq<u64>, i: nat, acc: u64, mx: u64)
    requires i < |s| && i < |t|
    ensures Max(Max(mx, s[i]), MaxOf(s[i + 1..])) == Max(mx, MaxOf(s[i..]))
    ensures ((acc + t[i]) % U64_MODULUS + Sum(t[i + 1..])) % U64_MODULUS == (acc + Sum(t[i..])) % U64_MODULUS
  {
    SuffixStep(s, i);
    SuffixStep(t, i);
    ModAddReduced(acc + t[i], Sum(t[i + 1..]), U64_MODULUS);
  }

  /**
   * The 16-sample loop of `update` as written: each of its `n`
   * iterations takes one sample from the back into the maximum and the next
   * one into the accumulator, so the maximum sees the even distances and the
   * accumulator the odd ones. `done` counts finished iterations.
   */
  function ScanPairs(ring: Ring, n: nat, done: nat, acc: u64, mx: u64): (r: (u64, u64))
    requires done <= n
    ensures r.0 == Max(mx, MaxOf(EvenOffsets(ring, n)[done..]))
    ensures r.1 == (acc + Sum(OddOffsets(ring, n)[done..])) % U64_MODULUS
    decreases n - done
  {
    if done == n then (mx, acc)
    else
      var v := Back(ring, 2 * done);
      var w := Back(ring, 2 * done + 1);
      assert EvenOffsets(ring, n)[done] == v && OddOffsets(ring, n)[done] == w;
      ScanStep(EvenOffsets(ring, n), OddOffsets(ring, n), done, acc, mx);
      ScanPairs(ring, n, done + 1, (acc + w) % U64_MODULUS, Max(mx, v))
  }

  /**
   * The 128- and 1024-sample loops of `update`: each
   * iteration takes one sample from the back into both the maximum and the
   * accumulator.
   */
  function ScanWindow(ring: Ring, n: nat, done: nat, acc: u64, mx: u64): (r: (u64, u64))
    requires done <= n
    ensures r.0 == Max(mx, MaxOf(Newest(ring, n)[done..]))
    ensures r.1 == (acc + Sum(Newest(ring, n)[done..])) % U64_MODULUS
    decreases n - done
  {
    if done == n then (mx, acc)
    else
      var v := Back(ring, done);
      assert Newest(ring, n)[done] == v;
      ScanStep(Newest(ring, n), Newest(ring, n), done, acc, mx);
      ScanWindow(ring, n, done + 1, (acc + v) % U64_MODULUS, Max(mx, v))
  }

  /** Every tick count that refreshes a larger window also refreshes the 16-sample one. */
  lemma LargerWindowsAlign(t: nat)
    ensures t % 128 == 0 ==> t % 16 == 0
    ensures t % 1024 == 0 ==> t % 16 == 0 && t % 128 == 0
  {
    if t % 128 == 0 {
      var q := t / 128;
      assert t == (8 * q) * 16 + 0;
      ModUnique(t, 8 * q, 0, 16);
    }
    if t % 1024 == 0 {
      var q := t / 1024;
      assert t == (64 * q) * 16 + 0;
      ModUnique(t, 64 * q, 0, 16);
      assert t == (8 * q) * 128 + 0;
      ModUnique(t, 8 * q, 0, 128);
    }
  }

  /** The 128- and 1024-window part of `RateStats::update`, shared by both versions below. */
  function UpdateLargeWindows(st: RateStats, tickCount: nat): (r: RateStats)
    ensures r.ring == st.ring && r.acc16 == st.acc16 && r.max16 == st.max16
    ensures tickCount % 128 != 0 ==> r.acc128 == st.acc128 && r.max128 == st.max128
    ensures tickCount % 128 == 0 ==>
      r.max128 == MaxOf(Newest(st.ring, 128)) && r.acc128 == Sum(Newest(st.ring, 128)) % U64_MODULUS
    ensures tickCount % 1024 != 0 ==> r.acc1024 == st.acc1024 && r.max1024 == st.max1024
    ensures tickCount % 1024 == 0 ==>
      r.max1024 == MaxOf(Newest(st.ring, 1024)) && r.acc1024 == Sum(Newest(st.ring, 1024)) % U64_MODULUS
  {
    var (max128, acc128) := if tickCount % 128 == 0 then ScanWindow(st.ring, 128, 0, 0, 0) else (st.max128, st.acc128);
    var (max1024, acc1024) := if tickCount % 1024 == 0 then ScanWindow(st.ring, 1024, 0, 0, 0) else (st.max1024, st.acc1024);
    st.(acc128 := acc128, max128 := max128, acc1024 := acc1024, max1024 := max1024)
  }

  /**
   * `RateStats::update` exactly as written: the 16-sample window uses the
   * paired loop, so its maximum covers distances 0, 2, ..., 30 and its
   * accumulator distances 1, 3, ..., 31.
   */
  function UpdateAsWritten(st: RateStats, tickCount: nat): (r: RateStats)
    ensures r.ring == st.ring
    ensures tickCount % 16 != 0 ==> r == st
    ensures tickCount % 16 == 0 ==>
      && (forall j :: 0 <= j < 16 ==> Back(st.ring, 2 * j) <= r.max16)
      && (exists j :: 0 <= j < 16 && Back(st.ring, 2 * j) == r.max16)
      && r.acc16 == Sum(OddOffsets(st.ring, 16)) % U64_MODULUS
    ensures r.(acc16 := st.acc16, max16 := st.max16) == UpdateLargeWindows(st, tickCount)
  {
    LargerWindowsAlign(tickCount);
    if tickCount % 16 == 0 then
      var (max16, acc16) := ScanPairs(st.ring, 16, 0, 0, 0);
      var e := EvenOffsets(st.ring, 16);
      assert e[0..] == e;
      MaxOfIsMaximum(e);
      assert forall j :: 0 <= j < 16 ==> Back(st.ring, 2 * j) == e[j];
      UpdateLargeWindows(st.(acc16 := acc16, max16 := max16), tickCount)
    else
      st
  }

  /**
   * `RateStats::update` with the 16-sample window read like the two larger
   * ones: every window's maximum and accumulator cover exactly its newest
   * samples. This is the corrected reading of the paired loop; the looper
   * records statistics through `UpdateAsWritten`, as the program does.
   */
  function Update(st: RateStats, tickCount: nat): (r: RateStats)
    ensures r.ring == st.ring
    ensures tickCount % 16 != 0 ==> r == st
    ensures tickCount % 16 == 0 ==>
      r.max16 == MaxOf(Newest(st.ring, 16)) && r.acc16 == Sum(Newest(st.ring, 16)) % U64_MODULUS
    ensures r.(acc16 := st.acc16, max16 := st.max16) == UpdateLargeWindows(st, tickCount)
  {
    LargerWindowsAlign(tickCount);
    if tickCount % 16 == 0 then
      var (max16, acc16) := ScanWindow(st.ring, 16, 0, 0, 0);
      assert Newest(st.ring, 16)[0..] == Newest(st.ring, 16);
      UpdateLargeWindows(st.(acc16 := acc16, max16 := max16), tickCount)
    else
      st
  }

  /** `RateStats::reset`: zeroes the accumulators and the two larger maxima; the 16-sample maximum and the ring stay. */
  function Reset(st: RateStats): (r: RateStats)
    ensures r.ring == st.ring && r.max16 == st.max16
    ensures r.acc16 == 0 && r.acc128 == 0 && r.acc1024 == 0
    ensures r.max128 == 0 && r.max1024 == 0
  {
    st.(acc16 := 0, acc128 := 0, acc1024 := 0, max128 := 0, max1024 := 0)
  }

  // ---------------------------------------------------------------------------
  // Properties

  lemma {:induction false} SumSnoc(s: seq<u64>, x: u64)
    ensures Sum(s + [x]) == Sum(s) + x
    decreases |s|
  {
    if |s| == 0 {
      assert s + [x] == [x];
    } else {
      assert (s + [x])[1..] == s[1..] + [x];
      SumSnoc(s[1..], x);
    }
  }

  lemma {:induction false} MaxSnoc(s: seq<u64>, x: u64)
    ensures MaxOf(s + [x]) == Max(MaxOf(s), x)
    decreases |s|
  {
    if |s| == 0 {
      assert s + [x] == [x];
    } else {
      assert (s + [x])[1..] == s[1..] + [x];
      MaxSnoc(s[1..], x);
    }
  }

  /**
   * A window reads the newest samples of the ring: with at least `n` samples
   * its sum and maximum are those of the ring's last `n` entries, and with
   * fewer they are those of the whole ring (missing samples count as 0).
   */
  lemma WindowIsNewestSamples(ring: Ring, n: nat)
    ensures var tail := ring[|ring| - Min(n, |ring|)..];
      Sum(Newest(ring, n)) == Sum(tail) && MaxOf(Newest(ring, n)) == MaxOf(tail)
  {
    WindowSum(ring, n);
    WindowMax(ring, n);
  }

  lemma {:induction false} WindowSum(ring: Ring, n: nat)
    ensures Sum(Newest(ring, n)) == Sum(ring[|ring| - Min(n, |ring|)..])
    decreases n
  {
    if n > 0 {
      WindowSum(ring, n - 1);
      var x := Back(ring, n - 1);
      assert Newest(ring, n) == Newest(ring, n - 1) + [x];
      SumSnoc(Newest(ring, n - 1), x);
      if n <= |ring| {
        var tail := ring[|ring| - n..];
        assert Min(n, |ring|) == n && Min(n - 1, |ring|) == n - 1;
        assert tail[1..] == ring[|ring| - (n - 1)..];
        assert tail[0] == x;
        assert Sum(tail) == tail[0] + Sum(tail[1..]);
      } else {
        assert Min(n, |ring|) == |ring| && Min(n - 1, |ring|) == |ring|;
        assert x == 0;
      }
    }
  }

  lemma {:induction false} WindowMax(ring: Ring, n: nat)
    ensures MaxOf(Newest(ring, n)) == MaxOf(ring[|ring| - Min(n, |ring|)..])
    decreases n
  {
    if n > 0 {
      WindowMax(ring, n - 1);
      var x := Back(ring, n - 1);
      assert Newest(ring, n) == Newest(ring, n - 1) + [x];
      MaxSnoc(Newest(ring, n - 1), x);
      if n <= |ring| {
        var tail := ring[|ring| - n..];
        assert Min(n, |ring|) == n && Min(n - 1, |ring|) == n - 1;
        assert tail[1..] == ring[|ring| - (n - 1)..];
        assert tail[0] == x;
        assert MaxOf(tail) == Max(tail[0], MaxOf(tail[1..]));
      } else {
        assert Min(n, |ring|) == |ring| && Min(n - 1, |ring|) == |ring|;
        assert x == 0;
      }
    }
  }

  /** Refreshing twice with the same tick count changes nothing more: the figures depend on the ring alone. */
  lemma UpdateIdempotent(st: RateStats, tickCount: nat)
    ensures Update(Update(st, tickCount), tickCount) == Update(st, tickCount)
    ensures UpdateAsWritten(UpdateAsWritten(st, tickCount), tickCount) == UpdateAsWritten(st, tickCount)
  {
    LargerWindowsAlign(tickCount);
  }

  /** A tick count of 0 refreshes all three windows, so the result depends on the ring alone. */
  lemma UpdateZeroRefreshesAll(st: RateStats, other: RateStats)
    requires st.ring == other.ring
    ensures Update(st, 0) == Update(other, 0)
    ensures UpdateAsWritten(st, 0) == UpdateAsWritten(other, 0)
  {
  }

  /** A reset loses nothing that the next full refresh recomputes. */
  lemma ResetThenFullRefresh(st: RateStats)
    ensures Update(Reset(st), 0) == Update(st, 0)
    ensures UpdateAsWritten(Reset(st), 0) == UpdateAsWritten(st, 0)
  {
    UpdateZeroRefreshesAll(Reset(st), st);
  }

  /** The two versions of `update` differ in the 16-sample figures only. */
  lemma UpdateVersionsAgreeOutside16(st: RateStats, tickCount: nat)
    ensures UpdateAsWritten(st, tickCount).(acc16 := 0, max16 := 0) == Update(st, tickCount).(acc16 := 0, max16 := 0)
  {
  }

  /** Records every sample in order with `add_ns`. */
  function AddAll(st: RateStats, samples: seq<u64>): (r: RateStats)
    decreases |samples|
  {
    if |samples| == 0 then st else AddAll(AddNs(st, samples[0]), samples[1..])
  }

  /** After recording up to 1024 samples, reading back from the newest gives them in reverse order. */
  lemma {:induction false} AddAllNewestFirst(st: RateStats, samples: seq<u64>)
    requires |samples| <= RING_CAPACITY
    ensures forall k :: 0 <= k < |samples| ==> Back(AddAll(st, samples).ring, k) == samples[|samples| - 1 - k]
    ensures AddAll(st, samples) == st.(ring := AddAll(st, samples).ring)
    decreases |samples|
  {
    if |samples| > 0 {
      var st' := AddNs(st, samples[0]);
      AddAllNewestFirst(st', samples[1..]);
      var r := AddAll(st, samples);
      forall k | 0 <= k < |samples|
        ensures Back(r.ring, k) == samples[|samples| - 1 - k]
      {
        if k == |samples| - 1 {
          if |samples| > 1 {
            OlderSamplesShift(st', samples[1..], 0);
          }
        }
      }
    }
  }

  /** Recording `n` more samples pushes an existing sample `n` places further back. */
  lemma {:induction false} OlderSamplesShift(st: RateStats, samples: seq<u64>, k: nat)
    requires k + |samples| < RING_CAPACITY
    ensures Back(AddAll(st, samples).ring, k + |samples|) == Back(st.ring, k)
    decreases |samples|
  {
    if |samples| > 0 {
      var st' := AddNs(st, samples[0]);
      OlderSamplesShift(st', samples[1..], k + 1);
    }
  }

  /**
   * Sixteen samples recorded into fresh statistics and refreshed at a tick
   * count divisible by 16: the 16-sample maximum is their maximum and the
   * accumulator their sum.
   */
  lemma SixteenSamples(samples: seq<u64>, tickCount: nat)
    requires |samples| == 16 && tickCount % 16 == 0
    ensures var r := Update(AddAll(New(), samples), tickCount);
      r.max16 == MaxOf(samples) && r.acc16 == Sum(samples) % U64_MODULUS
  {
    var ring := AddAll(New(), samples).ring;
    AddAllNewestFirst(New(), samples);
    assert |ring| == 16 by {
      RingGrowth(New(), samples);
    }
    WindowIsNewestSamples(ring, 16);
    assert ring[|ring| - 16..] == ring;
    assert ring == samples by {
      forall i | 0 <= i < 16
        ensures ring[i] == samples[i]
      {
        assert Back(ring, 15 - i) == samples[i];
      }
    }
  }

  lemma {:induction false} RingGrowth(st: RateStats, samples: seq<u64>)
    requires |st.ring| + |samples| <= RING_CAPACITY
    ensures |AddAll(st, samples).ring| == |st.ring| + |samples|
    decreases |samples|
  {
    if |samples| > 0 {
      RingGrowth(AddNs(st, samples[0]), samples[1..]);
    }
  }

  /** A sequence that is zero after its first element has that element as sum and maximum. */
  lemma {:induction false} LeadingThenZeros(s: seq<u64>)
    requires |s| > 0
    requires forall i :: 1 <= i < |s| ==> s[i] == 0
    ensures Sum(s) == s[0] && MaxOf(s) == s[0]
    decreases |s|
  {
    if |s| > 1 {
      LeadingThenZeros(s[1..]);
    }
  }

  /** The ring after recording 9 and then 1 into fresh statistics. */
  lemma TwoSampleRing()
    ensures AddAll(New(), [9, 1]).ring == [9, 1]
  {
    assert AddAll(New(), [9, 1]) == AddAll(AddNs(New(), 9), [1]);
  }

  /**
   * The 16-sample loop as written skips every other sample: with the
   * samples 9 and then 1 recorded, its maximum is 1 and its accumulator 9,
   * where the newest sixteen samples have maximum 9 and sum 10.
   */
  lemma Window16SkipsSamples()
    ensures UpdateAsWritten(AddAll(New(), [9, 1]), 16).max16 == 1
    ensures UpdateAsWritten(AddAll(New(), [9, 1]), 16).acc16 == 9
  {
    TwoSampleRing();
    PairedScanOfTwoSamples(AddAll(New(), [9, 1]), 16);
  }

  lemma PairedScanOfTwoSamples(st: RateStats, tickCount: nat)
    ensures st.ring == [9, 1] && tickCount % 16 == 0 ==>
      UpdateAsWritten(st, tickCount).max16 == 1 && UpdateAsWritten(st, tickCount).acc16 == 9
  {
    if st.ring == [9, 1] && tickCount % 16 == 0 {
      OddOffsetsOfTwoSamples(st.ring);
      EvenOffsetsOfTwoSamples(st.ring);
    }
  }

  /** With the samples 9 and then 1 the odd distances hold only the 9. */
  lemma OddOffsetsOfTwoSamples(ring: Ring)
    requires ring == [9, 1]
    ensures Sum(OddOffsets(ring, 16)) == 9
  {
    var odd := OddOffsets(ring, 16);
    assert odd[0] == 9;
    assert forall j :: 1 <= j < 16 ==> odd[j] == Back(ring, 2 * j + 1) == 0;
    LeadingThenZeros(odd);
  }

  /** With the samples 9 and then 1 the even distances hold only the 1. */
  lemma EvenOffsetsOfTwoSamples(ring: Ring)
    requires ring == [9, 1]
    ensures Back(ring, 0) == 1
    ensures forall j :: 1 <= j < 16 ==> Back(ring, 2 * j) == 0
  {
  }

  /** The corrected window sees both samples of the same input. */
  lemma Window16ReadsEverySample()
    ensures Update(AddAll(New(), [9, 1]), 16).max16 == 9
    ensures Update(AddAll(New(), [9, 1]), 16).acc16 == 10
  {
    var st := AddAll(New(), [9, 1]);
    TwoSampleRing();
    var newest := Newest(st.ring, 16);
    assert newest[0] == 1 && newest[1] == 9;
    assert forall j :: 1 <= j < 15 ==> newest[1..][j] == Back(st.ring, j + 1) == 0;
    LeadingThenZeros(newest[1..]);
    assert Sum(newest) == 1 + Sum(newest[1..]);
    assert MaxOf(newest) == Max(1, MaxOf(newest[1..]));
  }
}
