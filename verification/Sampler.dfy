/** The delta sampler of cmd/metrics-agent/main.go, with exact rates. */
module Sampler {
  import opened Bytes
  import opened Options

  type Name = bytes

  // Accumulated since the container started.
  datatype Stats = Stats(rxBytes: nat, txBytes: nat, cpuNanos: nat, memBytes: nat)

  datatype Sample = Sample(txMbps: real, rxMbps: real, vcpu: real, mem: nat, txTotal: nat)

  type Reading = map<Name, Stats>

  // The counters that rates are taken of, and how much of each a rate of one stands for in a second.
  datatype Counter = Tx | Rx | Cpu {
    function Of(st: Stats): nat {
      match this
      case Tx => st.txBytes
      case Rx => st.rxBytes
      case Cpu => st.cpuNanos
    }

    function RateIn(m: Sample): real {
      match this
      case Tx => m.txMbps
      case Rx => m.rxMbps
      case Cpu => m.vcpu
    }

    function PerUnit(): real {
      match this
      case Tx => 1000000.0 / 8.0
      case Rx => 1000000.0 / 8.0
      case Cpu => 1000000000.0
    }
  }

  function Mbps(before: nat, now: nat, elapsed: real): real
    requires 0.0 < elapsed
  {
    if before <= now then (now - before) as real * 8.0 / 1000000.0 / elapsed else 0.0
  }

  function Vcpus(before: nat, now: nat, elapsed: real): real
    requires 0.0 < elapsed
  {
    if before <= now then (now - before) as real / 1000000000.0 / elapsed else 0.0
  }

  // What one container's reading makes of the previous ones.
  function SampleOf(prev: Reading, name: Name, st: Stats, elapsed: real): Sample {
    if name in prev && 0.0 < elapsed then
      var before := prev[name];
      Sample(Mbps(before.txBytes, st.txBytes, elapsed), Mbps(before.rxBytes, st.rxBytes, elapsed),
             Vcpus(before.cpuNanos, st.cpuNanos, elapsed), st.memBytes, st.txBytes)
    else Sample(0.0, 0.0, 0.0, st.memBytes, st.txBytes)
  }

  function Samples(prev: Reading, cur: Reading, elapsed: real): map<Name, Sample> {
    map name | name in cur :: SampleOf(prev, name, cur[name], elapsed)
  }

  // ---- Sums over containers, in whatever order a map is ranged over ----

  ghost function Sum(f: map<Name, real>): real {
    if f == map[] then 0.0
    else
      var n :| n in f;
      f[n] + Sum(f - {n})
  }

  lemma {:induction false} SumWithout(f: map<Name, real>, n: Name)
    requires n in f
    ensures Sum(f) == f[n] + Sum(f - {n})
    decreases |f|
  {
    var k :| k in f && Sum(f) == f[k] + Sum(f - {k});
    if k != n {
      SumWithout(f - {k}, n);
      SumWithout(f - {n}, k);
      assert f - {k} - {n} == f - {n} - {k};
    }
  }

  lemma {:induction false} SumOfSum(f: map<Name, real>, g: map<Name, real>, h: map<Name, real>)
    requires f.Keys == g.Keys == h.Keys && forall n :: n in h ==> h[n] == f[n] + g[n]
    ensures Sum(h) == Sum(f) + Sum(g)
    decreases |h|
  {
    if h != map[] {
      var n :| n in h;
      SumWithout(f, n);
      SumWithout(g, n);
      SumWithout(h, n);
      SumOfSum(f - {n}, g - {n}, h - {n});
    } else {
      assert f == map[] && g == map[];
    }
  }

  lemma SumOfNothing()
    ensures Sum(map[]) == 0.0
  {
  }

  // What a rate stands for over a time in seconds.
  function Amount(rate: real, elapsed: real, k: Counter): real {
    rate * elapsed * k.PerUnit()
  }

  lemma AmountOfSum(a: real, b: real, elapsed: real, k: Counter)
    ensures Amount(a + b, elapsed, k) == Amount(a, elapsed, k) + Amount(b, elapsed, k)
    ensures Amount(0.0, elapsed, k) == 0.0
  {
  }

  // h holds what the rates in f stand for, and zeros.
  lemma {:induction false} SumOfAmounts(f: map<Name, real>, elapsed: real, k: Counter, h: map<Name, real>)
    requires f.Keys <= h.Keys && forall n :: n in h ==> h[n] == if n in f then Amount(f[n], elapsed, k) else 0.0
    ensures Sum(h) == Amount(Sum(f), elapsed, k)
    decreases |h|
  {
    hide Amount, Sum, Counter.PerUnit;
    if h != map[] {
      var n :| n in h;
      SumWithout(h, n);
      if n in f {
        SumWithout(f, n);
        SumOfAmounts(f - {n}, elapsed, k, h - {n});
        AmountOfSum(f[n], Sum(f - {n}), elapsed, k);
      } else {
        SumOfAmounts(f, elapsed, k, h - {n});
      }
    } else {
      assert f == map[];
      SumOfNothing();
      AmountOfSum(0.0, 0.0, elapsed, k);
    }
  }

  function TxRates(samples: map<Name, Sample>): map<Name, real> {
    map n | n in samples :: samples[n].txMbps
  }

  /** totalOf: the same for every order in which the map is ranged over. */
  method TotalOf(samples: map<Name, Sample>) returns (t: real)
    ensures t == Sum(TxRates(samples))
  {
    t := 0.0;
    ghost var f := TxRates(samples);
    var left := samples.Keys;
    while left != {}
      invariant left <= samples.Keys && f.Keys == left
      invariant forall n :: n in f ==> f[n] == samples[n].txMbps
      invariant t + Sum(f) == Sum(TxRates(samples))
      decreases left
    {
      var n :| n in left;
      SumWithout(f, n);
      f := f - {n};
      t := t + samples[n].txMbps;
      left := left - {n};
    }
  }

  class Sampler {
    var prev: Reading
    var at: real

    constructor ()
      ensures prev == map[]
    {
      prev, at := map[], 0.0;
    }

    /** The first baseline; a failed collection leaves the sampler as it was. */
    method Prime(collected: Option<Reading>, now: real)
      modifies this
      ensures prev == (if collected.Some? then collected.value else old(prev))
      ensures at == if collected.Some? then now else old(at)
      ensures State(prev, at) == Next(old(State(prev, at)), Tick(collected, now))
    {
      if collected.Some? {
        prev, at := collected.value, now;
      }
    }

    method Measure(collected: Option<Reading>, now: real) returns (out: Option<map<Name, Sample>>)
      modifies this
      ensures match collected
        case None => out == None && prev == old(prev) && at == old(at)
        case Some(cur) => out == Some(Samples(old(prev), cur, now - old(at))) && prev == cur && at == now
      ensures State(prev, at) == Next(old(State(prev, at)), Tick(collected, now))
    {
      if collected.None? {
        return None;
      }
      var cur, elapsed := collected.value, now - at;
      var samples: map<Name, Sample> := map[];
      var left := cur.Keys;
      while left != {}
        invariant left <= cur.Keys && samples.Keys == cur.Keys - left
        invariant forall n :: n in samples ==> samples[n] == SampleOf(prev, n, cur[n], elapsed)
        invariant prev == old(prev) && at == old(at)
        decreases left
      {
        var n :| n in left;
        var st := cur[n];
        var m := Sample(0.0, 0.0, 0.0, st.memBytes, st.txBytes);
        if n in prev && 0.0 < elapsed {
          var before := prev[n];
          if before.txBytes <= st.txBytes {
            m := m.(txMbps := (st.txBytes - before.txBytes) as real * 8.0 / 1000000.0 / elapsed);
          }
          if before.rxBytes <= st.rxBytes {
            m := m.(rxMbps := (st.rxBytes - before.rxBytes) as real * 8.0 / 1000000.0 / elapsed);
          }
          if before.cpuNanos <= st.cpuNanos {
            m := m.(vcpu := (st.cpuNanos - before.cpuNanos) as real / 1000000000.0 / elapsed);
          }
        }
        samples := samples[n := m];
        left := left - {n};
      }
      prev, at := cur, now;
      out := Some(samples);
      assert samples == Samples(old(prev), cur, elapsed);
    }
  }

  // ---- Whole runs, failed collections included ----

  datatype State = State(prev: Reading, at: real)

  // One tick of the main loop: what was collected, if anything, and when.
  datatype Tick = Tick(collected: Option<Reading>, now: real)

  function Next(s: State, t: Tick): State {
    if t.collected.Some? then State(t.collected.value, t.now) else s
  }

  function After(s: State, ticks: seq<Tick>): State
    decreases |ticks|
  {
    if ticks == [] then s else After(Next(s, ticks[0]), ticks[1..])
  }

  // What the rate reported for a container at one tick stands for.
  function SentAt(s: State, t: Tick, n: Name, k: Counter): real {
    match t.collected
    case None => 0.0
    case Some(cur) =>
      if n in cur then Amount(k.RateIn(Samples(s.prev, cur, t.now - s.at)[n]), t.now - s.at, k) else 0.0
  }

  function Sent(s: State, ticks: seq<Tick>, n: Name, k: Counter): real
    decreases |ticks|
  {
    if ticks == [] then 0.0 else SentAt(s, ticks[0], n, k) + Sent(Next(s, ticks[0]), ticks[1..], n, k)
  }

  // The change of a container's counter at one tick, where both ends of it are known.
  function Change(s: State, t: Tick, n: Name, k: Counter): int {
    if t.collected.Some? && n in s.prev && n in t.collected.value
    then k.Of(t.collected.value[n]) - k.Of(s.prev[n]) else 0
  }

  // Split three ways: a rise the clock makes measurable, a rise it does not, and a counter reset.
  function CountedAt(s: State, t: Tick, n: Name, k: Counter): nat {
    if 0 <= Change(s, t, n, k) && s.at < t.now then Change(s, t, n, k) else 0
  }

  function LostAt(s: State, t: Tick, n: Name, k: Counter): nat {
    if 0 <= Change(s, t, n, k) && t.now <= s.at then Change(s, t, n, k) else 0
  }

  function ResetAt(s: State, t: Tick, n: Name, k: Counter): nat {
    if Change(s, t, n, k) < 0 then -Change(s, t, n, k) else 0
  }

  function Counted(s: State, ticks: seq<Tick>, n: Name, k: Counter): nat
    decreases |ticks|
  {
    if ticks == [] then 0 else CountedAt(s, ticks[0], n, k) + Counted(Next(s, ticks[0]), ticks[1..], n, k)
  }

  function Lost(s: State, ticks: seq<Tick>, n: Name, k: Counter): nat
    decreases |ticks|
  {
    if ticks == [] then 0 else LostAt(s, ticks[0], n, k) + Lost(Next(s, ticks[0]), ticks[1..], n, k)
  }

  function Resets(s: State, ticks: seq<Tick>, n: Name, k: Counter): nat
    decreases |ticks|
  {
    if ticks == [] then 0 else ResetAt(s, ticks[0], n, k) + Resets(Next(s, ticks[0]), ticks[1..], n, k)
  }

  // The rate, times the seconds and its units in a second, is the rise of the counter, or zero after a reset.
  predicate IsRise(rate: real, elapsed: real, units: real, before: nat, now: nat) {
    rate * elapsed * units == if before <= now then (now - before) as real else 0.0
  }

  lemma RateTimesElapsed(before: nat, now: nat, elapsed: real)
    requires 0.0 < elapsed
    ensures IsRise(Mbps(before, now, elapsed), elapsed, 125000.0, before, now)
    ensures IsRise(Vcpus(before, now, elapsed), elapsed, 1000000000.0, before, now)
    ensures 0.0 <= Mbps(before, now, elapsed) && 0.0 <= Vcpus(before, now, elapsed)
  {
    if before <= now {
      var x, y := (now - before) as real * 8.0 / 1000000.0, (now - before) as real / 1000000000.0;
      assert x / elapsed * elapsed == x && y / elapsed * elapsed == y;
    }
  }

  /** A sample field by field: each rate is that of its own counter, and the rest is the reading's own. */
  lemma SampleInNumbers(prev: Reading, cur: Reading, elapsed: real, n: Name)
    requires n in cur
    ensures var m, now := Samples(prev, cur, elapsed)[n], cur[n];
      && m.mem == now.memBytes && m.txTotal == now.txBytes
      && if n in prev && 0.0 < elapsed then
           && IsRise(m.txMbps, elapsed, 125000.0, prev[n].txBytes, now.txBytes)
           && IsRise(m.rxMbps, elapsed, 125000.0, prev[n].rxBytes, now.rxBytes)
           && IsRise(m.vcpu, elapsed, 1000000000.0, prev[n].cpuNanos, now.cpuNanos)
         else m.txMbps == m.rxMbps == m.vcpu == 0.0
  {
    hide Mbps, Vcpus, IsRise;
    if n in prev && 0.0 < elapsed {
      RateTimesElapsed(prev[n].txBytes, cur[n].txBytes, elapsed);
      RateTimesElapsed(prev[n].rxBytes, cur[n].rxBytes, elapsed);
      RateTimesElapsed(prev[n].cpuNanos, cur[n].cpuNanos, elapsed);
    }
  }

  lemma SentAtIsCounted(s: State, t: Tick, n: Name, k: Counter)
    ensures SentAt(s, t, n, k) == CountedAt(s, t, n, k) as real
  {
    if t.collected.Some? && n in t.collected.value && n in s.prev && s.at < t.now {
      RateTimesElapsed(k.Of(s.prev[n]), k.Of(t.collected.value[n]), t.now - s.at);
    }
  }

  /** Rates times elapsed time add up to what was counted: nothing is counted twice or made up. */
  lemma {:induction false} Conservation(s: State, ticks: seq<Tick>, n: Name, k: Counter)
    ensures Sent(s, ticks, n, k) == Counted(s, ticks, n, k) as real
    decreases |ticks|
  {
    if ticks != [] {
      SentAtIsCounted(s, ticks[0], n, k);
      hide SentAt, CountedAt;
      Conservation(Next(s, ticks[0]), ticks[1..], n, k);
    }
  }

  // n is in the baseline and in every reading of the run.
  predicate AlwaysThere(s: State, ticks: seq<Tick>, n: Name) {
    n in s.prev && forall i :: 0 <= i < |ticks| ==> ticks[i].collected.Some? ==> n in ticks[i].collected.value
  }

  predicate ClockAdvances(s: State, ticks: seq<Tick>)
    decreases |ticks|
  {
    ticks == [] || ((ticks[0].collected.Some? ==> s.at < ticks[0].now) && ClockAdvances(Next(s, ticks[0]), ticks[1..]))
  }

  predicate NeverReset(s: State, ticks: seq<Tick>, n: Name, k: Counter)
    decreases |ticks|
  {
    ticks == [] || (0 <= Change(s, ticks[0], n, k) && NeverReset(Next(s, ticks[0]), ticks[1..], n, k))
  }

  /** The whole movement of a counter over a run, whatever the clock and however often it was reset. */
  lemma {:induction false} Account(s: State, ticks: seq<Tick>, n: Name, k: Counter)
    requires AlwaysThere(s, ticks, n)
    ensures n in After(s, ticks).prev
    ensures k.Of(After(s, ticks).prev[n]) - k.Of(s.prev[n])
         == Counted(s, ticks, n, k) + Lost(s, ticks, n, k) - Resets(s, ticks, n, k)
    decreases |ticks|
  {
    if ticks != [] {
      Account(Next(s, ticks[0]), ticks[1..], n, k);
    }
  }

  lemma {:induction false} NothingLost(s: State, ticks: seq<Tick>, n: Name, k: Counter)
    requires ClockAdvances(s, ticks)
    ensures Lost(s, ticks, n, k) == 0
    decreases |ticks|
  {
    if ticks != [] {
      NothingLost(Next(s, ticks[0]), ticks[1..], n, k);
    }
  }

  lemma {:induction false} ResetsOrNot(s: State, ticks: seq<Tick>, n: Name, k: Counter)
    ensures NeverReset(s, ticks, n, k) <==> Resets(s, ticks, n, k) == 0
    decreases |ticks|
  {
    if ticks != [] {
      ResetsOrNot(Next(s, ticks[0]), ticks[1..], n, k);
    }
  }

  /**
   With a clock that advances, what the rates stand for is the last reading less the first exactly if
   the counter was never reset in between; failed collections make no difference.
   */
  lemma Telescopes(s: State, ticks: seq<Tick>, n: Name, k: Counter)
    requires AlwaysThere(s, ticks, n) && ClockAdvances(s, ticks)
    ensures n in After(s, ticks).prev
    ensures Sent(s, ticks, n, k) == (k.Of(After(s, ticks).prev[n]) - k.Of(s.prev[n])) as real
      <==> NeverReset(s, ticks, n, k)
  {
    Conservation(s, ticks, n, k);
    Account(s, ticks, n, k);
    NothingLost(s, ticks, n, k);
    ResetsOrNot(s, ticks, n, k);
  }

  // No counter rose at a tick whose clock stood still.
  predicate NeverMissed(s: State, ticks: seq<Tick>, n: Name, k: Counter)
    decreases |ticks|
  {
    ticks == [] ||
      ((0 < Change(s, ticks[0], n, k) ==> s.at < ticks[0].now) && NeverMissed(Next(s, ticks[0]), ticks[1..], n, k))
  }

  lemma {:induction false} MissedOrNot(s: State, ticks: seq<Tick>, n: Name, k: Counter)
    ensures NeverMissed(s, ticks, n, k) <==> Lost(s, ticks, n, k) == 0
    decreases |ticks|
  {
    if ticks != [] {
      MissedOrNot(Next(s, ticks[0]), ticks[1..], n, k);
    }
  }

  /** With any clock at all, for a counter that was never reset: exactly if no rise was missed. */
  lemma TelescopesOnAnyClock(s: State, ticks: seq<Tick>, n: Name, k: Counter)
    requires AlwaysThere(s, ticks, n) && NeverReset(s, ticks, n, k)
    ensures n in After(s, ticks).prev
    ensures Sent(s, ticks, n, k) == (k.Of(After(s, ticks).prev[n]) - k.Of(s.prev[n])) as real
      <==> NeverMissed(s, ticks, n, k)
  {
    Conservation(s, ticks, n, k);
    Account(s, ticks, n, k);
    MissedOrNot(s, ticks, n, k);
    ResetsOrNot(s, ticks, n, k);
  }

  /** A tick at which the clock has not advanced loses the bytes counted since the tick before. */
  lemma StandingClockLoses(n: Name, bytes: nat)
    requires 0 < bytes
    ensures var s := State(map[n := Stats(0, 0, 0, 0)], 0.0);
      var ticks := [Tick(Some(map[n := Stats(0, bytes, 0, 0)]), 0.0)];
      && AlwaysThere(s, ticks, n) && NeverReset(s, ticks, n, Tx)
      && Sent(s, ticks, n, Tx) == 0.0 && After(s, ticks).prev == map[n := Stats(0, bytes, 0, 0)]
  {
  }

  /** No rate is ever negative. */
  lemma RatesNotNegative(prev: Reading, cur: Reading, elapsed: real, n: Name)
    requires n in cur
    ensures var m := Samples(prev, cur, elapsed)[n]; 0.0 <= m.txMbps && 0.0 <= m.rxMbps && 0.0 <= m.vcpu
  {
  }

  // ---- The same for the total that goes to Redis ----

  // The bytes the total reported at one tick stands for.
  ghost function TotalSentAt(s: State, t: Tick): real {
    match t.collected
    case None => 0.0
    case Some(cur) =>
      Amount(Sum(TxRates(Samples(s.prev, cur, t.now - s.at))), t.now - s.at, Tx)
  }

  ghost function TotalSent(s: State, ticks: seq<Tick>): real
    decreases |ticks|
  {
    if ticks == [] then 0.0 else TotalSentAt(s, ticks[0]) + TotalSent(Next(s, ticks[0]), ticks[1..])
  }

  predicate NamesWithin(ticks: seq<Tick>, names: set<Name>) {
    forall i :: 0 <= i < |ticks| ==> ticks[i].collected.Some? ==> ticks[i].collected.value.Keys <= names
  }

  function CountedMap(s: State, t: Tick, names: set<Name>): map<Name, real> {
    map n | n in names :: CountedAt(s, t, n, Tx) as real
  }

  lemma TotalSentAtIsSum(s: State, t: Tick, names: set<Name>)
    requires t.collected.Some? ==> t.collected.value.Keys <= names
    ensures TotalSentAt(s, t) == Sum(CountedMap(s, t, names))
  {
    var h := CountedMap(s, t, names);
    hide Amount, CountedAt;
    if t.collected.Some? {
      var samples := Samples(s.prev, t.collected.value, t.now - s.at);
      forall n | n in h
        ensures h[n] == if n in TxRates(samples) then Amount(TxRates(samples)[n], t.now - s.at, Tx) else 0.0
      {
        SentAtIsCounted(s, t, n, Tx);
      }
      assert TxRates(samples).Keys == t.collected.value.Keys;
      SumOfAmounts(TxRates(samples), t.now - s.at, Tx, h);
    } else {
      forall n | n in h
        ensures h[n] == 0.0
      {
        SentAtIsCounted(s, t, n, Tx);
      }
      SumOfZeros(h);
    }
  }

  lemma SumOfZeros(h: map<Name, real>)
    requires forall n :: n in h ==> h[n] == 0.0
    ensures Sum(h) == 0.0
  {
  }

  function CountedInAll(s: State, ticks: seq<Tick>, names: set<Name>): map<Name, real> {
    map n | n in names :: Counted(s, ticks, n, Tx) as real
  }

  /** The totals, too, add up to the bytes counted, over all containers that ever appeared. */
  lemma {:induction false} TotalConservation(s: State, ticks: seq<Tick>, names: set<Name>)
    requires NamesWithin(ticks, names)
    ensures TotalSent(s, ticks) == Sum(CountedInAll(s, ticks, names))
    decreases |ticks|
  {
    var h := CountedInAll(s, ticks, names);
    if ticks == [] {
      SumOfZeros(h);
    } else {
      var first, rest := ticks[0], ticks[1..];
      TotalSentAtIsSum(s, first, names);
      TotalConservation(Next(s, first), rest, names);
      hide CountedAt, Sum, TotalSentAt, Next;
      SumOfSum(CountedMap(s, first, names), CountedInAll(Next(s, first), rest, names), h);
    }
  }
}
