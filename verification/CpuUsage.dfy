/**
 CPU usage from two samples of the per-core time counters. All counters are 64-bit and wrap around; a
 rate is kept as an exact real.
 */
module CpuUsage {

  const WORD := 0x1_0000_0000_0000_0000

  function Mod(x: int): (r: int)
    ensures 0 <= r < WORD
  {
    x % WORD
  }

  // ---- Counters and deltas ----

  /** What the system reports for one core: KernelTime includes IdleTime. */
  datatype Counters = Counters(kernel: int, user: int, idle: int)

  datatype Times = Times(kernel: int, user: int, idle: int)

  const Zero := Times(0, 0, 0)

  function Plus(a: Times, b: Times): Times {
    Times(a.kernel + b.kernel, a.user + b.user, a.idle + b.idle)
  }

  function Minus(a: Times, b: Times): Times {
    Times(a.kernel - b.kernel, a.user - b.user, a.idle - b.idle)
  }

  function Wrapped(t: Times): Times {
    Times(Mod(t.kernel), Mod(t.user), Mod(t.idle))
  }

  /** The counters of one core after the idle time is taken out of the kernel time. */
  function Net(c: Counters): Times {
    Times(c.kernel - c.idle, c.user, c.idle)
  }

  function Nets(sample: seq<Counters>): (n: seq<Times>)
    ensures |n| == |sample|
  {
    seq(|sample|, i requires 0 <= i < |sample| => Net(sample[i]))
  }

  function Sum(ts: seq<Times>): Times {
    if ts == [] then Zero else Plus(Sum(ts[..|ts| - 1]), ts[|ts| - 1])
  }

  /** The change of each core's counters as UpdateDelta computes it. */
  function CoreDeltas(before: seq<Counters>, after: seq<Counters>): (d: seq<Times>)
    requires |before| == |after|
    ensures |d| == |before|
  {
    seq(|before|, i requires 0 <= i < |before| => Wrapped(Minus(Net(after[i]), Net(before[i]))))
  }

  // ---- Rates ----

  /** (kernel + user) * 100.0 / (kernel + user + idle), in 64-bit sums, or 0.0 when the divisor is 0. */
  function Rate(d: Times): real {
    var busy, total := Mod(d.kernel + d.user), Mod(d.kernel + d.user + d.idle);
    if total != 0 then busy as real * 100.0 / total as real else 0.0
  }

  function Rates(ds: seq<Times>): (r: seq<real>)
    ensures |r| == |ds|
  {
    seq(|ds|, i requires 0 <= i < |ds| => Rate(ds[i]))
  }

  // ---- The classes ----

  datatype Delta = Delta(value: int, delta: int)

  function Updated(d: Delta, value: int): Delta {
    Delta(value, Mod(value - d.value))
  }

  datatype CpuTime = CpuTime(kernel: Delta, user: Delta, idle: Delta)

  function UpdatedTime(t: CpuTime, n: Times): CpuTime {
    CpuTime(Updated(t.kernel, n.kernel), Updated(t.user, n.user), Updated(t.idle, n.idle))
  }

  function DeltaOf(t: CpuTime): Times {
    Times(t.kernel.delta, t.user.delta, t.idle.delta)
  }

  const ZeroTime := CpuTime(Delta(0, 0), Delta(0, 0), Delta(0, 0))

  function DeltasOf(ts: seq<CpuTime>): (d: seq<Times>)
    ensures |d| == |ts|
  {
    seq(|ts|, i requires 0 <= i < |ts| => DeltaOf(ts[i]))
  }

  function UpdatedAll(ts: seq<CpuTime>, sample: seq<Counters>): (u: seq<CpuTime>)
    requires |ts| == |sample|
    ensures |u| == |ts|
  {
    seq(|ts|, i requires 0 <= i < |ts| => UpdatedTime(ts[i], Wrapped(Net(sample[i]))))
  }

  /** The function-local statics of getCPUTime, shared by all instances and kept between calls. */
  class Statics {
    var total: CpuTime

    constructor ()
      ensures total == ZeroTime
    {
      total := ZeroTime;
    }
  }

  class CpuInfo {
    const statics: Statics
    var totalUsage: real
    var cores: seq<real>

    constructor (statics: Statics)
      ensures this.statics == statics
    {
      this.statics, totalUsage, cores := statics, 0.0, [];
    }

    /** One core of the loop, with the rate appended if wanted. */
    method UpdateCore(getUsage: bool, c: Counters, times: array<CpuTime>, i: nat) returns (net: Times)
      requires i < times.Length
      modifies this`cores, times
      ensures net == Wrapped(Net(c))
      ensures times[..] == old(times[..])[i := UpdatedTime(old(times[i]), net)]
      ensures cores == old(cores) + if getUsage then [Rate(DeltaOf(times[i]))] else []
    {
      net := Times(Mod(c.kernel - c.idle), Mod(c.user), Mod(c.idle));
      var t := times[i];
      t := t.(kernel := Updated(t.kernel, net.kernel));
      t := t.(user := Updated(t.user, net.user));
      t := t.(idle := Updated(t.idle, net.idle));
      times[i] := t;
      if getUsage {
        var rate := RateOf(t);
        cores := cores + [rate];
      }
    }

    /** Lines 136 to 142 of CpuInfo.cpp for a core, and 158 to 163 for the totals. */
    static method RateOf(t: CpuTime) returns (rate: real)
      ensures rate == Rate(DeltaOf(t))
    {
      var total := Mod(t.kernel.delta + t.user.delta + t.idle.delta);
      if total != 0 {
        rate := Mod(t.kernel.delta + t.user.delta) as real * 100.0 / total as real;
      } else {
        rate := 0.0;
      }
    }

    /** The loop invariant: the first i cores are done. */
    ghost predicate Done(getUsage: bool, sample: seq<Counters>, before: seq<CpuTime>, rates: seq<real>,
                         times: array<CpuTime>, i: nat, totals: Times)
      reads this`cores, times
    {
      && i <= |sample| == |before|
      && times[..] == Partly(before, sample, i)
      && totals == Wrapped(Sum(Nets(sample)[..i]))
      && cores == rates + if getUsage then Rates(DeltasOf(UpdatedAll(before, sample)))[..i] else []
    }

    /** One iteration. */
    method NextCore(getUsage: bool, sample: seq<Counters>, ghost before: seq<CpuTime>, ghost rates: seq<real>,
                    times: array<CpuTime>, i: nat, totals: Times) returns (newTotals: Times)
      requires i < |sample| && Done(getUsage, sample, before, rates, times, i, totals)
      modifies this`cores, times
      ensures Done(getUsage, sample, before, rates, times, i + 1, newTotals)
    {
      PartlyStep(before, sample, i);
      assert i < |times[..]|;
      var net := UpdateCore(getUsage, sample[i], times, i);
      newTotals := Wrapped(Plus(totals, net));
      TotalsStep(totals, sample, i);
    }

    /** The loop over the cores. */
    method UpdateCores(getUsage: bool, sample: seq<Counters>, times: array<CpuTime>) returns (totals: Times)
      requires |sample| == times.Length
      modifies this`cores, times
      ensures times[..] == UpdatedAll(old(times[..]), sample)
      ensures totals == Wrapped(Sum(Nets(sample)))
      ensures cores == old(cores) + if getUsage then Rates(DeltasOf(times[..])) else []
    {
      totals := Zero;
      ghost var before, rates := times[..], cores;
      var i := 0;
      while i < |sample|
        invariant i <= |sample|
        invariant Done(getUsage, sample, before, rates, times, i, totals)
      {
        totals := NextCore(getUsage, sample, before, rates, times, i, totals);
        i := i + 1;
      }
      assert Nets(sample)[..i] == Nets(sample);
      assert Partly(before, sample, i) == UpdatedAll(before, sample);
    }

    /** The sample stands for what NtQuerySystemInformation fills in. */
    method GetCpuTime(getUsage: bool, sample: seq<Counters>, times: array<CpuTime>)
      requires |sample| == times.Length
      modifies this, statics, times
      ensures times[..] == UpdatedAll(old(times[..]), sample)
      ensures statics.total == UpdatedTime(old(statics.total), Wrapped(Sum(Nets(sample))))
      ensures cores == old(cores) + if getUsage then Rates(DeltasOf(times[..])) else []
      ensures totalUsage == if getUsage then Rate(DeltaOf(statics.total)) else old(totalUsage)
    {
      var totals := UpdateCores(getUsage, sample, times);
      statics.total := UpdatedTime(statics.total, totals);
      if getUsage {
        totalUsage := RateOf(statics.total);
      }
    }

    /**
     Whatever the statics held, the new core rates are those of the changes between the two samples, and
     the total deltas are the sums of the per-core deltas modulo 2^64.
     */
    method GetCpuUsage(first: seq<Counters>, second: seq<Counters>)
      requires |first| == |second|
      modifies this, statics
      ensures cores == Rates(CoreDeltas(first, second))
      ensures DeltaOf(statics.total) == Wrapped(Sum(CoreDeltas(first, second)))
      ensures totalUsage == Rate(DeltaOf(statics.total))
      ensures SteadyCounters(first, second) ==>
                && |cores| == |first|
                && (forall i :: 0 <= i < |first| ==> IsUsage(cores[i], first[i], second[i]))
                && IsUsage(totalUsage, Summed(first), Summed(second))
    {
      if SteadyCounters(first, second) {
        RatesFromCounters(first, second);
      }
      var times := new CpuTime[|first|](_ => ZeroTime);
      ghost var zeros := times[..];
      cores := [];
      GetCpuTime(false, first, times);
      GetCpuTime(true, second, times);
      TwoCalls(old(statics.total), zeros, first, second);
      assert cores == Rates(DeltasOf(times[..]));
    }
  }

  /** The array while the loop has updated the first n cores. */
  ghost function Partly(ts: seq<CpuTime>, sample: seq<Counters>, n: nat): seq<CpuTime>
    requires |ts| == |sample| && n <= |ts|
  {
    UpdatedAll(ts, sample)[..n] + ts[n..]
  }

  lemma PartlyStep(ts: seq<CpuTime>, sample: seq<Counters>, i: nat)
    requires |ts| == |sample| && i < |ts|
    ensures Partly(ts, sample, i)[i] == ts[i]
    ensures Partly(ts, sample, i)[i := UpdatedTime(ts[i], Wrapped(Net(sample[i])))] == Partly(ts, sample, i + 1)
    ensures var r := Rates(DeltasOf(UpdatedAll(ts, sample)));
            r[..i + 1] == r[..i] + [Rate(DeltaOf(UpdatedTime(ts[i], Wrapped(Net(sample[i])))))]
  {
  }

  lemma TotalsStep(totals: Times, sample: seq<Counters>, i: nat)
    requires i < |sample| && totals == Wrapped(Sum(Nets(sample)[..i]))
    ensures Wrapped(Plus(totals, Wrapped(Net(sample[i])))) == Wrapped(Sum(Nets(sample)[..i + 1]))
  {
    SumSnoc(Nets(sample), i);
    WrappedPlus(Sum(Nets(sample)[..i]), Net(sample[i]));
  }

  lemma TwoUpdates(t: CpuTime, a: Times, b: Times)
    ensures DeltaOf(UpdatedTime(UpdatedTime(t, a), b)) == Wrapped(Minus(b, a))
  {
  }

  /** Between two samples the deltas do not depend on what the counters held before the first. */
  lemma TwoSamples(ts: seq<CpuTime>, first: seq<Counters>, second: seq<Counters>)
    requires |ts| == |first| == |second|
    ensures DeltasOf(UpdatedAll(UpdatedAll(ts, first), second)) == CoreDeltas(first, second)
  {
    forall i | 0 <= i < |ts|
      ensures DeltasOf(UpdatedAll(UpdatedAll(ts, first), second))[i] == CoreDeltas(first, second)[i]
    {
      TwoUpdates(ts[i], Wrapped(Net(first[i])), Wrapped(Net(second[i])));
      WrappedMinus(Net(second[i]), Net(first[i]));
    }
  }

  lemma SumSnoc(ts: seq<Times>, i: nat)
    requires i < |ts|
    ensures Sum(ts[..i + 1]) == Plus(Sum(ts[..i]), ts[i])
  {
    assert ts[..i + 1][..i] == ts[..i];
  }

  /** What two calls of getCPUTime leave in the deltas. */
  lemma TwoCalls(t: CpuTime, ts: seq<CpuTime>, first: seq<Counters>, second: seq<Counters>)
    requires |ts| == |first| == |second|
    ensures DeltasOf(UpdatedAll(UpdatedAll(ts, first), second)) == CoreDeltas(first, second)
    ensures DeltaOf(UpdatedTime(UpdatedTime(t, Wrapped(Sum(Nets(first)))), Wrapped(Sum(Nets(second))))) ==
            Wrapped(Sum(CoreDeltas(first, second)))
  {
    TwoSamples(ts, first, second);
    TwoUpdates(t, Wrapped(Sum(Nets(first))), Wrapped(Sum(Nets(second))));
    TotalIsSumOfCores(first, second);
  }

  // ---- Conservation modulo 2^64 ----

  lemma ModIs(x: int, r: int, q: int)
    requires 0 <= r < WORD && x == r + WORD * q
    ensures Mod(x) == r
  {
  }

  lemma ModSplit(x: int)
    ensures x == Mod(x) + WORD * (x / WORD)
  {
  }

  lemma ModPlus(a: int, b: int)
    ensures Mod(Mod(a) + Mod(b)) == Mod(a + b) && Mod(Mod(a) + b) == Mod(a + b)
  {
    ModSplit(a);
    ModSplit(b);
    ModSplit(a + b);
    ModIs(Mod(a) + Mod(b), Mod(a + b), (a + b) / WORD - a / WORD - b / WORD);
    ModIs(Mod(a) + b, Mod(a + b), (a + b) / WORD - a / WORD);
  }

  lemma ModMinus(a: int, b: int)
    ensures Mod(Mod(a) - Mod(b)) == Mod(a - b)
  {
    ModSplit(a);
    ModSplit(b);
    ModSplit(a - b);
    ModIs(Mod(a) - Mod(b), Mod(a - b), (a - b) / WORD - a / WORD + b / WORD);
  }

  lemma WrappedPlus(a: Times, b: Times)
    ensures Wrapped(Plus(Wrapped(a), Wrapped(b))) == Wrapped(Plus(a, b))
    ensures Wrapped(Plus(Wrapped(a), b)) == Wrapped(Plus(a, b))
  {
    ModPlus(a.kernel, b.kernel);
    ModPlus(a.user, b.user);
    ModPlus(a.idle, b.idle);
  }

  lemma WrappedMinus(a: Times, b: Times)
    ensures Wrapped(Minus(Wrapped(a), Wrapped(b))) == Wrapped(Minus(a, b))
  {
    ModMinus(a.kernel, b.kernel);
    ModMinus(a.user, b.user);
    ModMinus(a.idle, b.idle);
  }

  lemma {:induction false} SumOfDeltas(first: seq<Counters>, second: seq<Counters>, n: nat)
    requires |first| == |second| && n <= |first|
    ensures Wrapped(Sum(CoreDeltas(first, second)[..n])) ==
            Wrapped(Minus(Sum(Nets(second)[..n]), Sum(Nets(first)[..n])))
  {
    if n > 0 {
      var m := n - 1;
      SumOfDeltas(first, second, m);
      SumSnoc(CoreDeltas(first, second), m);
      SumSnoc(Nets(second), m);
      SumSnoc(Nets(first), m);
      var change := Minus(Net(second[m]), Net(first[m]));
      var whole := Minus(Sum(Nets(second)[..m]), Sum(Nets(first)[..m]));
      WrappedPlus(Sum(CoreDeltas(first, second)[..m]), Wrapped(change));
      WrappedPlus(whole, change);
      assert Plus(whole, change) == Minus(Sum(Nets(second)[..n]), Sum(Nets(first)[..n]));
    }
  }

  /** The total deltas are the sums of the core deltas modulo 2^64, for any two samples. */
  lemma TotalIsSumOfCores(first: seq<Counters>, second: seq<Counters>)
    requires |first| == |second|
    ensures Wrapped(Minus(Wrapped(Sum(Nets(second))), Wrapped(Sum(Nets(first))))) ==
            Wrapped(Sum(CoreDeltas(first, second)))
  {
    var n := |first|;
    SumOfDeltas(first, second, n);
    WrappedMinus(Sum(Nets(second)), Sum(Nets(first)));
    assert CoreDeltas(first, second)[..n] == CoreDeltas(first, second);
    assert Nets(second)[..n] == Nets(second) && Nets(first)[..n] == Nets(first);
  }

  // ---- Rates as percentages ----

  function Busy(t: Times): int {
    t.kernel + t.user
  }

  function Total(t: Times): int {
    t.kernel + t.user + t.idle
  }

  predicate IsPercentage(r: real) {
    0.0 <= r <= 100.0
  }

  lemma ScaleIff(x: real, y: real, t: real)
    requires t > 0.0
    ensures x <= y <==> x * t <= y * t
  {
  }

  lemma Quotient(b: int, t: int)
    requires 0 <= b && 0 < t
    ensures var r := b as real * 100.0 / t as real;
            r * t as real == 100.0 * b as real && r >= 0.0 && (r <= 100.0 <==> b <= t)
  {
    var r := b as real * 100.0 / t as real;
    ScaleIff(r, 100.0, t as real);
    ScaleIff(0.0, r, t as real);
  }

  /**
   A rate is a percentage exactly when adding the idle time to the busy time, both taken modulo 2^64,
   stays within 2^64.
   */
  lemma {:induction false} RateIsPercentageIff(d: Times)
    requires 0 <= d.kernel < WORD && 0 <= d.user < WORD && 0 <= d.idle < WORD
    ensures IsPercentage(Rate(d)) <==> Mod(d.kernel + d.user) + d.idle <= WORD
  {
    RateIsPercentage(d);
    BusyAndIdle(d.kernel + d.user, d.idle);
  }

  lemma RateIsPercentage(d: Times)
    ensures IsPercentage(Rate(d)) <==> Mod(Total(d)) == 0 || Mod(Busy(d)) <= Mod(Total(d))
  {
    PercentageOf(Mod(Busy(d)), Mod(Total(d)), Rate(d));
  }

  lemma BusyAndIdle(busy: int, idle: int)
    requires 0 <= idle < WORD
    ensures Mod(busy + idle) == 0 || Mod(busy) <= Mod(busy + idle) <==> Mod(busy) + idle <= WORD
  {
    ModPlus(busy, idle);
    OneCarry(Mod(busy), idle);
  }

  lemma OneCarry(busy: int, idle: int)
    requires 0 <= busy < WORD && 0 <= idle < WORD
    ensures Mod(busy + idle) == 0 || busy <= Mod(busy + idle) <==> busy + idle <= WORD
  {
    if busy + idle < WORD {
      ModIs(busy + idle, busy + idle, 0);
    } else {
      ModIs(busy + idle, busy + idle - WORD, 1);
    }
  }

  lemma PercentageOf(busy: int, total: int, r: real)
    requires 0 <= busy && 0 <= total
    requires r == if total != 0 then busy as real * 100.0 / total as real else 0.0
    ensures IsPercentage(r) <==> total == 0 || busy <= total
  {
    if total != 0 {
      Quotient(busy, total);
    }
  }

  /** An idle counter that grows faster than the kernel counter gives a rate above 100. */
  lemma IdleOvertakesKernel()
    ensures CoreDeltas([Counters(10, 0, 5)], [Counters(15, 0, 11)]) == [Times(WORD - 1, 0, 6)]
    ensures !IsPercentage(Rate(Times(WORD - 1, 0, 6)))
  {
    ModIs(-1, WORD - 1, -1);
    ModIs(0, 0, 0);
    ModIs(6, 6, 0);
    ModIs(WORD - 1, WORD - 1, 0);
    RateIsPercentageIff(Times(WORD - 1, 0, 6));
  }

  // ---- The mediant ----

  /** No counter runs backwards, idle no faster than kernel, and all cores together stay below 2^64. */
  predicate Steady(ds: seq<Times>) {
    && Total(Sum(ds)) < WORD
    && forall i :: 0 <= i < |ds| ==> NonNegative(ds[i])
  }

  predicate NonNegative(d: Times) {
    d.kernel >= 0 && d.user >= 0 && d.idle >= 0
  }

  /** r * t, as repeated addition: keeps products out of the inductions below. */
  function Scale(r: real, t: int): real
    decreases if t < 0 then 0 else t
  {
    if t <= 0 then 0.0 else Scale(r, t - 1) + r
  }

  lemma {:induction false} ScaleIsProduct(r: real, t: int)
    requires t >= 0
    ensures Scale(r, t) == r * t as real
    decreases t
  {
    if t > 0 {
      ScaleIsProduct(r, t - 1);
      assert r * t as real == r * (t - 1) as real + r;
    }
  }

  lemma ScaleSum(r: real, a: int, b: int)
    requires a >= 0 && b >= 0
    ensures Scale(r, a + b) == Scale(r, a) + Scale(r, b)
  {
    ScaleIsProduct(r, a);
    ScaleIsProduct(r, b);
    ScaleIsProduct(r, a + b);
    assert r * (a + b) as real == r * a as real + r * b as real;
  }

  lemma ScaleOrder(x: real, y: real, t: int)
    requires t >= 0
    ensures x <= y ==> Scale(x, t) <= Scale(y, t)
    ensures t > 0 && Scale(x, t) <= Scale(y, t) ==> x <= y
  {
    ScaleIsProduct(x, t);
    ScaleIsProduct(y, t);
    if t > 0 {
      ScaleIff(x, y, t as real);
    }
  }

  /** r is the exact percentage of busy time in d, and 0.0 when d is empty. */
  predicate IsShare(r: real, d: Times) {
    Scale(r, Total(d)) == 100.0 * Busy(d) as real && (Total(d) == 0 ==> r == 0.0)
  }

  lemma RateIsShare(d: Times)
    requires NonNegative(d) && Total(d) < WORD
    ensures IsPercentage(Rate(d)) && IsShare(Rate(d), d)
  {
    ModIs(Busy(d), Busy(d), 0);
    ModIs(Total(d), Total(d), 0);
    ScaleIsProduct(Rate(d), Total(d));
    if Total(d) > 0 {
      Quotient(Busy(d), Total(d));
    }
  }

  lemma WrappedSmall(d: Times)
    requires NonNegative(d) && Total(d) < WORD
    ensures Wrapped(d) == d
  {
    ModIs(d.kernel, d.kernel, 0);
    ModIs(d.user, d.user, 0);
    ModIs(d.idle, d.idle, 0);
  }

  lemma {:induction false} SumNonNegative(ds: seq<Times>)
    requires forall i :: 0 <= i < |ds| ==> NonNegative(ds[i])
    ensures NonNegative(Sum(ds))
  {
    if ds != [] {
      SumNonNegative(ds[..|ds| - 1]);
    }
  }

  lemma {:induction false} EachBelowTotal(ds: seq<Times>, i: nat)
    requires forall j :: 0 <= j < |ds| ==> NonNegative(ds[j])
    requires i < |ds|
    ensures Total(ds[i]) <= Total(Sum(ds))
  {
    SumNonNegative(ds[..|ds| - 1]);
    if i < |ds| - 1 {
      EachBelowTotal(ds[..|ds| - 1], i);
    }
  }

  predicate AreShares(rs: seq<real>, ds: seq<Times>) {
    |rs| == |ds| && forall i :: 0 <= i < |ds| ==> NonNegative(ds[i]) && IsShare(rs[i], ds[i])
  }

  /** The rates weighted by each core's time. */
  function Weighted(rs: seq<real>, ds: seq<Times>): real
    requires |rs| == |ds|
  {
    if ds == [] then 0.0
    else
      var n := |ds| - 1;
      Weighted(rs[..n], ds[..n]) + Scale(rs[n], Total(ds[n]))
  }

  lemma {:induction false} WeightedIsBusy(rs: seq<real>, ds: seq<Times>)
    requires AreShares(rs, ds)
    ensures Weighted(rs, ds) == 100.0 * Busy(Sum(ds)) as real
  {
    if ds != [] {
      var n := |ds| - 1;
      WeightedIsBusy(rs[..n], ds[..n]);
      assert IsShare(rs[n], ds[n]);
    }
  }

  lemma BetweenStep(lo: real, hi: real, w: real, a: int, r: real, t: int)
    requires a >= 0 && t >= 0 && lo <= r <= hi
    requires Scale(lo, a) <= w <= Scale(hi, a)
    ensures Scale(lo, a + t) <= w + Scale(r, t) <= Scale(hi, a + t)
  {
    ScaleSum(lo, a, t);
    ScaleSum(hi, a, t);
    ScaleOrder(lo, r, t);
    ScaleOrder(r, hi, t);
  }

  lemma FrontShares(rs: seq<real>, ds: seq<Times>, lo: real, hi: real)
    requires AreShares(rs, ds) && ds != []
    requires forall i :: 0 <= i < |ds| ==> lo <= rs[i] <= hi
    ensures var n := |ds| - 1;
            && AreShares(rs[..n], ds[..n]) && (forall i :: 0 <= i < n ==> lo <= rs[..n][i] <= hi)
            && Total(Sum(ds)) == Total(Sum(ds[..n])) + Total(ds[n])
            && Total(Sum(ds[..n])) >= 0 && Total(ds[n]) >= 0 && lo <= rs[n] <= hi
  {
    SumNonNegative(ds[..|ds| - 1]);
  }

  lemma {:induction false} WeightedBetween(rs: seq<real>, ds: seq<Times>, lo: real, hi: real)
    requires AreShares(rs, ds)
    requires forall i :: 0 <= i < |ds| ==> lo <= rs[i] <= hi
    ensures Scale(lo, Total(Sum(ds))) <= Weighted(rs, ds) <= Scale(hi, Total(Sum(ds)))
  {
    if ds != [] {
      var n := |ds| - 1;
      FrontShares(rs, ds, lo, hi);
      WeightedBetween(rs[..n], ds[..n], lo, hi);
      BetweenStep(lo, hi, Weighted(rs[..n], ds[..n]), Total(Sum(ds[..n])), rs[n], Total(ds[n]));
    }
  }

  /** The mediant: the share of the sum lies between the smallest and the largest share. */
  lemma {:induction false} MeanBetween(rs: seq<real>, ds: seq<Times>, usage: real, lo: real, hi: real)
    requires AreShares(rs, ds) && IsShare(usage, Sum(ds))
    requires forall i :: 0 <= i < |ds| ==> lo <= rs[i] <= hi
    ensures Scale(usage, Total(Sum(ds))) == Weighted(rs, ds)
    ensures |ds| > 0 ==> lo <= usage <= hi
  {
    WeightedIsBusy(rs, ds);
    if |ds| > 0 {
      MeanInRange(rs, ds, usage, lo, hi);
    }
  }

  lemma MeanInRange(rs: seq<real>, ds: seq<Times>, usage: real, lo: real, hi: real)
    requires AreShares(rs, ds) && IsShare(usage, Sum(ds)) && |ds| > 0
    requires Scale(usage, Total(Sum(ds))) == Weighted(rs, ds)
    requires forall i :: 0 <= i < |ds| ==> lo <= rs[i] <= hi
    ensures lo <= usage <= hi
  {
    SumNonNegative(ds);
    if Total(Sum(ds)) > 0 {
      WeightedBetween(rs, ds, lo, hi);
      ScaleOrder(lo, usage, Total(Sum(ds)));
      ScaleOrder(usage, hi, Total(Sum(ds)));
    } else {
      EachBelowTotal(ds, 0);
      assert NonNegative(ds[0]) && IsShare(rs[0], ds[0]);
    }
  }

  /** The true changes of each core's counters. */
  function Changes(first: seq<Counters>, second: seq<Counters>): (c: seq<Times>)
    requires |first| == |second|
    ensures |c| == |first|
  {
    seq(|first|, i requires 0 <= i < |first| => Minus(Net(second[i]), Net(first[i])))
  }

  lemma SteadyDeltas(first: seq<Counters>, second: seq<Counters>)
    requires |first| == |second| && Steady(Changes(first, second))
    ensures CoreDeltas(first, second) == Changes(first, second)
  {
    forall i | 0 <= i < |first| ensures CoreDeltas(first, second)[i] == Changes(first, second)[i] {
      EachBelowTotal(Changes(first, second), i);
      WrappedSmall(Changes(first, second)[i]);
    }
  }

  lemma SteadyShares(ds: seq<Times>)
    requires Steady(ds)
    ensures AreShares(Rates(ds), ds)
    ensures forall i :: 0 <= i < |ds| ==> IsPercentage(Rates(ds)[i])
    ensures IsShare(Rate(Wrapped(Sum(ds))), Sum(ds)) && IsPercentage(Rate(Wrapped(Sum(ds))))
  {
    forall i | 0 <= i < |ds| ensures IsPercentage(Rates(ds)[i]) && IsShare(Rates(ds)[i], ds[i]) {
      EachBelowTotal(ds, i);
      RateIsShare(ds[i]);
    }
    SumNonNegative(ds);
    WrappedSmall(Sum(ds));
    RateIsShare(Sum(ds));
  }

  /**
   What getCPUUsage reports for steady counters: every core rate is a percentage, the total usage is the
   mean of the core rates weighted by the cores' times, and it lies between the smallest and the largest.
   */
  lemma {:induction false} UsageIsWeightedMean(first: seq<Counters>, second: seq<Counters>, lo: real, hi: real)
    requires |first| == |second| && Steady(Changes(first, second))
    requires var rs := Rates(CoreDeltas(first, second)); forall i :: 0 <= i < |rs| ==> lo <= rs[i] <= hi
    ensures var ds := CoreDeltas(first, second);
            var rs := Rates(ds);
            var usage := Rate(Wrapped(Sum(ds)));
            && (forall i :: 0 <= i < |rs| ==> IsPercentage(rs[i]))
            && IsPercentage(usage)
            && Scale(usage, Total(Sum(ds))) == Weighted(rs, ds)
            && (|first| > 0 ==> lo <= usage <= hi)
  {
    SteadyDeltas(first, second);
    UsageOfShares(CoreDeltas(first, second), lo, hi);
  }

  lemma UsageOfShares(ds: seq<Times>, lo: real, hi: real)
    requires Steady(ds)
    requires forall i :: 0 <= i < |ds| ==> lo <= Rates(ds)[i] <= hi
    ensures forall i :: 0 <= i < |ds| ==> IsPercentage(Rates(ds)[i])
    ensures var usage := Rate(Wrapped(Sum(ds)));
            && IsPercentage(usage)
            && Scale(usage, Total(Sum(ds))) == Weighted(Rates(ds), ds)
            && (|ds| > 0 ==> lo <= usage <= hi)
  {
    SteadyShares(ds);
    MeanBetween(Rates(ds), ds, Rate(Wrapped(Sum(ds))), lo, hi);
  }

  // ---- The rates in terms of the counters that the system reports ----

  /** Field by field. */
  function Summed(sample: seq<Counters>): Counters {
    if sample == [] then Counters(0, 0, 0)
    else
      var rest, c := Summed(sample[..|sample| - 1]), sample[|sample| - 1];
      Counters(rest.kernel + c.kernel, rest.user + c.user, rest.idle + c.idle)
  }

  /** On no core does user or idle time run backwards, or idle time grow faster than kernel time, which includes it. */
  predicate SteadyCounters(first: seq<Counters>, second: seq<Counters>)
    requires |first| == |second|
  {
    && (forall i :: 0 <= i < |first| ==>
          && first[i].user <= second[i].user && first[i].idle <= second[i].idle
          && second[i].idle - first[i].idle <= second[i].kernel - first[i].kernel)
    && (Summed(second).kernel - Summed(first).kernel) + (Summed(second).user - Summed(first).user) < 18446744073709551616
  }

  /**
   r is the percentage of the time between two samples that was not idle: with dk, du and di the growth of
   the kernel, user and idle counters, r * (dk + du) is 100 * (dk - di + du), and r is 0.0 when dk + du is 0.
   */
  predicate IsUsage(r: real, a: Counters, b: Counters) {
    var dk, du, di := b.kernel - a.kernel, b.user - a.user, b.idle - a.idle;
    if dk + du == 0 then r == 0.0 else r * (dk + du) as real == 100.0 * (dk - di + du) as real
  }

  lemma {:induction false} SumOfNets(sample: seq<Counters>)
    ensures Sum(Nets(sample)) == Net(Summed(sample))
  {
    if sample == [] {
      assert Nets(sample) == [];
    } else {
      var front := sample[..|sample| - 1];
      SumOfNets(front);
      assert Nets(sample)[..|front|] == Nets(front);
      SumSnoc(Nets(sample), |front|);
      assert Nets(sample)[..|sample|] == Nets(sample);
    }
  }

  lemma {:induction false} SumOfChanges(first: seq<Counters>, second: seq<Counters>, n: nat)
    requires |first| == |second| && n <= |first|
    ensures Sum(Changes(first, second)[..n]) == Minus(Sum(Nets(second)[..n]), Sum(Nets(first)[..n]))
  {
    if n > 0 {
      SumOfChanges(first, second, n - 1);
      SumSnoc(Changes(first, second), n - 1);
      SumSnoc(Nets(second), n - 1);
      SumSnoc(Nets(first), n - 1);
    }
  }

  lemma TotalOfChanges(first: seq<Counters>, second: seq<Counters>)
    requires |first| == |second|
    ensures Sum(Changes(first, second)) == Minus(Net(Summed(second)), Net(Summed(first)))
  {
    SumOfChanges(first, second, |first|);
    assert Changes(first, second)[..|first|] == Changes(first, second);
    assert Nets(first)[..|first|] == Nets(first) && Nets(second)[..|first|] == Nets(second);
    SumOfNets(first);
    SumOfNets(second);
  }

  lemma SteadyCountersAreSteady(first: seq<Counters>, second: seq<Counters>)
    requires |first| == |second| && SteadyCounters(first, second)
    ensures Steady(Changes(first, second))
  {
    TotalOfChanges(first, second);
  }

  lemma ShareIsUsage(r: real, d: Times, a: Counters, b: Counters)
    requires IsShare(r, d) && NonNegative(d) && d == Minus(Net(b), Net(a))
    ensures IsUsage(r, a, b)
  {
    ScaleIsProduct(r, Total(d));
  }

  /** For steady counters every rate, and the total, is the exact percentage of the time not spent idle. */
  lemma {:induction false} RatesFromCounters(first: seq<Counters>, second: seq<Counters>)
    requires |first| == |second| && SteadyCounters(first, second)
    ensures var rs := Rates(CoreDeltas(first, second));
            |rs| == |first| && forall i :: 0 <= i < |first| ==> IsUsage(rs[i], first[i], second[i])
    ensures IsUsage(Rate(Wrapped(Sum(CoreDeltas(first, second)))), Summed(first), Summed(second))
  {
    SteadyCountersAreSteady(first, second);
    SteadyDeltas(first, second);
    SharesAreUsage(first, second, Rates(Changes(first, second)), Rate(Wrapped(Sum(Changes(first, second)))));
  }

  lemma SharesAreUsage(first: seq<Counters>, second: seq<Counters>, rs: seq<real>, usage: real)
    requires |first| == |second| && Steady(Changes(first, second))
    requires rs == Rates(Changes(first, second)) && usage == Rate(Wrapped(Sum(Changes(first, second))))
    ensures |rs| == |first| && forall i :: 0 <= i < |first| ==> IsUsage(rs[i], first[i], second[i])
    ensures IsUsage(usage, Summed(first), Summed(second))
  {
    var ds := Changes(first, second);
    SteadyShares(ds);
    SumNonNegative(ds);
    TotalOfChanges(first, second);
    ShareIsUsage(usage, Sum(ds), Summed(first), Summed(second));
    forall i | 0 <= i < |first|
      ensures IsUsage(rs[i], first[i], second[i])
    {
      ShareIsUsage(rs[i], ds[i], first[i], second[i]);
    }
  }
}
