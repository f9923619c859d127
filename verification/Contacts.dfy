/** The memory of completed full handshakes (contacts.go), with its generation guard: a decision and
    its recording straddle a whole handshake, and a Reset can land between them. */
module Contacts {
  import opened Bytes
  import opened Sets

  /** Host names of the two ends; ports are dropped before they get here. */
  datatype Pair = Pair(local: string, remote: string)

  type Seen = map<Pair, int>

  const GENERATIONS: nat := 0x1_0000_0000_0000_0000

  function NextGen(gen: U64): U64 {
    (gen + 1) % GENERATIONS
  }

  function Live(seen: Seen, now: int, horizon: int): Seen {
    map k | k in seen && now - seen[k] < horizon :: seen[k]
  }

  /** Dropping these keys brings the map down to its bound and takes none that is newer than one it
      leaves. */
  ghost predicate Trims(seen: Seen, max: nat, victims: set<Pair>) {
    && victims <= seen.Keys
    && |seen - victims| == (if |seen| > max then max else |seen|)
    && forall v, k :: v in victims && k in seen && k !in victims ==> seen[v] <= seen[k]
  }

  class ContactMemory {
    const horizon: int
    const max: nat
    var seen: Seen
    var gen: U64

    /** Non-positive arguments fall back to six hours and 1024 entries. */
    constructor (horizon: int, max: int)
      ensures this.horizon == (if horizon <= 0 then 6 * 3600 * 1_000_000_000 else horizon)
      ensures this.max == (if max <= 0 then 1024 else max)
      ensures Valid() && Value() == Memory(map[], 0)
    {
      this.horizon := if horizon <= 0 then 6 * 3600 * 1_000_000_000 else horizon;
      this.max := if max <= 0 then 1024 else max;
      seen, gen := map[], 0;
    }

    ghost predicate Valid()
      reads this
    {
      0 < max && 0 < horizon && |seen| <= max
    }

    ghost function Value(): Memory
      reads this
    {
      Memory(seen, gen)
    }

    method Reset()
      requires Valid()
      modifies this
      ensures Valid() && Value() == Cleared(old(Value()))
    {
      seen := map[];
      gen := NextGen(gen);
    }

    /** Whether to open with a full handshake, and the generation the answer belongs to. */
    method NeedsFull(k: Pair, now: int) returns (full: bool, under: U64)
      requires Valid()
      modifies this`seen
      ensures Valid() && Value() == Decided(old(Value()), horizon, now)
      ensures full == !Resumes(old(Value()), horizon, k, now) && under == gen
    {
      SubsetSize(Live(seen, now, horizon).Keys, seen.Keys);
      ghost var live := Live(seen, now, horizon);
      ghost var victims := EvictLocked(now);
      assert live.Keys - victims == (live - victims).Keys;
      NothingDropped(live.Keys, victims);
      assert seen == live;
      full := k !in seen || now - seen[k] >= horizon;
      under := gen;
    }

    method Record(k: Pair, now: int, under: U64) returns (ghost victims: set<Pair>)
      requires Valid()
      modifies this`seen
      ensures Valid() && Value() == Recorded(old(Value()), horizon, k, now, under, victims)
      ensures under == gen ==> Trims(Live(old(seen)[k := now], now, horizon), max, victims)
    {
      victims := {};
      if under != gen {
        return;
      }
      seen := seen[k := now];
      victims := EvictLocked(now);
    }

    /** Drops what is past the horizon, then the oldest until the bound is met. A map within its
        bound loses nothing to the bound. */
    method EvictLocked(now: int) returns (ghost victims: set<Pair>)
      modifies this`seen
      ensures Trims(Live(old(seen), now, horizon), max, victims)
      ensures seen == Live(old(seen), now, horizon) - victims
    {
      DropExpired(now);
      ghost var live := seen;
      victims := {};
      assert live - victims == live;
      while |seen| > max
        invariant victims <= live.Keys && seen == live - victims
        invariant |live| > max ==> |seen| >= max
        invariant |live| <= max ==> victims == {}
        invariant forall v, k :: v in victims && k in live && k !in victims ==> live[v] <= live[k]
      {
        var oldest := FindOldest();
        ghost var before := seen;
        forall k | k in live && k !in victims ensures live[oldest] <= live[k] {
          assert k in live - victims && (live - victims)[k] == live[k];
          assert oldest in live - victims;
        }
        seen := seen - {oldest};
        assert seen.Keys == before.Keys - {oldest};
        victims := victims + {oldest};
        assert seen == live - victims;
      }
    }

    method DropExpired(now: int)
      modifies this`seen
      ensures seen == Live(old(seen), now, horizon)
    {
      ghost var was := seen;
      var ks := seen.Keys;
      while ks != {}
        invariant ks <= was.Keys
        invariant seen == map k | k in was && (k in ks || now - was[k] < horizon) :: was[k]
        decreases |ks|
      {
        var k :| k in ks;
        ks := ks - {k};
        if now - seen[k] >= horizon {
          seen := seen - {k};
        }
      }
    }

    method FindOldest() returns (oldest: Pair)
      requires seen != map[]
      ensures oldest in seen && forall k :: k in seen ==> seen[oldest] <= seen[k]
    {
      var ks := seen.Keys;
      oldest :| oldest in ks;
      while ks != {}
        invariant ks <= seen.Keys && oldest in seen
        invariant forall k :: k in seen && k !in ks ==> seen[oldest] <= seen[k]
        decreases |ks|
      {
        var k :| k in ks;
        ks := ks - {k};
        if seen[k] < seen[oldest] {
          oldest := k;
        }
      }
    }
  }

  // --------------------------------------------------------- the steps, on values

  datatype Memory = Memory(seen: Seen, gen: U64)

  function Cleared(m: Memory): Memory {
    Memory(map[], NextGen(m.gen))
  }

  function Decided(m: Memory, horizon: int, now: int): Memory {
    m.(seen := Live(m.seen, now, horizon))
  }

  predicate Resumes(m: Memory, horizon: int, k: Pair, now: int) {
    k in m.seen && now - m.seen[k] < horizon
  }

  function Recorded(m: Memory, horizon: int, k: Pair, now: int, under: U64, victims: set<Pair>): Memory {
    if under != m.gen then m else m.(seen := Live(m.seen[k := now], now, horizon) - victims)
  }

  /** One lock section. A recording names the decision it belongs to by its place in the run. */
  datatype Event =
    | Decide(key: Pair, now: int)
    | Forget
    | Note(key: Pair, now: int, decision: nat, victims: set<Pair>)

  /** The memory after the first i events. */
  function After(horizon: int, run: seq<Event>, i: nat): Memory
    requires i <= |run|
    decreases i
  {
    if i == 0 then Memory(map[], 0)
    else
      var m, e := After(horizon, run, i - 1), run[i - 1];
      match e
      case Decide(_, now) => Decided(m, horizon, now)
      case Forget => Cleared(m)
      case Note(k, now, d, victims) =>
        if d < i - 1 then Recorded(m, horizon, k, now, After(horizon, run, d).gen, victims) else m
  }

  /** Resets among the first i events. */
  function Resets(run: seq<Event>, i: nat): (n: nat)
    requires i <= |run|
    ensures n <= i
    decreases i
  {
    if i == 0 then 0 else Resets(run, i - 1) + if run[i - 1].Forget? then 1 else 0
  }

  /** A recording carries the generation of an earlier decision about the same pair. */
  predicate Paired(run: seq<Event>, i: nat)
    requires i < |run|
  {
    run[i].Note? ==> run[i].decision < i && run[run[i].decision].Decide? && run[run[i].decision].key == run[i].key
  }

  /** The bound drops the oldest entries and only when it must. */
  ghost predicate RealVictims(horizon: int, max: nat, run: seq<Event>, i: nat)
    requires i < |run|
  {
    run[i].Note? && run[i].decision < i && After(horizon, run, run[i].decision).gen == After(horizon, run, i).gen ==>
      Trims(Live(After(horizon, run, i).seen[run[i].key := run[i].now], run[i].now, horizon), max, run[i].victims)
  }

  lemma {:induction false} GenCounts(horizon: int, run: seq<Event>, i: nat)
    requires i <= |run| && |run| < GENERATIONS
    ensures After(horizon, run, i).gen == Resets(run, i)
    decreases i
  {
    if i > 0 {
      GenCounts(horizon, run, i - 1);
    }
  }

  lemma {:induction false} ResetsGrow(run: seq<Event>, i: nat, j: nat)
    requires i <= j <= |run|
    ensures Resets(run, i) <= Resets(run, j)
    ensures Resets(run, i) == Resets(run, j) <==> forall k :: i <= k < j ==> !run[k].Forget?
    decreases j
  {
    if i < j {
      ResetsGrow(run, i, j - 1);
    }
  }

  /** Event r recorded this pair at this time, under a decision after which no reset has come before
      event i. */
  predicate Vouches(run: seq<Event>, r: nat, i: nat, k: Pair, t: int)
    requires r < i <= |run|
  {
    && run[r].Note? && run[r].key == k && run[r].now == t && run[r].decision < r
    && run[run[r].decision].Decide? && run[run[r].decision].key == k
    && forall n :: run[r].decision <= n < i ==> !run[n].Forget?
  }

  ghost predicate Vouched(run: seq<Event>, i: nat, k: Pair, t: int)
    requires i <= |run|
  {
    exists r: nat :: r < i && Vouches(run, r, i, k, t)
  }

  lemma VouchedNow(horizon: int, run: seq<Event>, i: nat)
    requires i < |run| < GENERATIONS && run[i].Note? && Paired(run, i)
    requires After(horizon, run, run[i].decision).gen == After(horizon, run, i).gen
    ensures Vouched(run, i + 1, run[i].key, run[i].now)
  {
    GenCounts(horizon, run, run[i].decision);
    GenCounts(horizon, run, i);
    ResetsGrow(run, run[i].decision, i);
    assert Vouches(run, i, i + 1, run[i].key, run[i].now);
  }

  lemma VouchedLater(run: seq<Event>, i: nat, k: Pair, t: int)
    requires i < |run| && Vouched(run, i, k, t) && !run[i].Forget?
    ensures Vouched(run, i + 1, k, t)
  {
    var r: nat :| r < i && Vouches(run, r, i, k, t);
    assert Vouches(run, r, i + 1, k, t);
  }

  lemma VouchedNext(horizon: int, run: seq<Event>, i: nat, k: Pair)
    requires i < |run| < GENERATIONS && Paired(run, i)
    requires k in After(horizon, run, i).seen ==> Vouched(run, i, k, After(horizon, run, i).seen[k])
    requires k in After(horizon, run, i + 1).seen
    ensures Vouched(run, i + 1, k, After(horizon, run, i + 1).seen[k])
  {
    var m, m', e := After(horizon, run, i), After(horizon, run, i + 1), run[i];
    if k in m.seen && m'.seen[k] == m.seen[k] && !e.Forget? {
      VouchedLater(run, i, k, m.seen[k]);
    } else {
      VouchedNow(horizon, run, i);
    }
  }

  lemma {:induction false} EntriesVouched(horizon: int, run: seq<Event>, i: nat, k: Pair)
    requires i <= |run| < GENERATIONS && k in After(horizon, run, i).seen
    requires forall n :: 0 <= n < |run| ==> Paired(run, n)
    ensures Vouched(run, i, k, After(horizon, run, i).seen[k])
    decreases i
  {
    if i > 0 {
      var n: nat := i - 1;
      if k in After(horizon, run, n).seen {
        EntriesVouched(horizon, run, n, k);
      }
      VouchedNext(horizon, run, n, k);
    }
  }

  /** In every interleaving of decisions, resets and recordings, a decision to resume rests on a full
      handshake of the same pair, recorded less than a horizon earlier, under a decision made after
      the last reset. */
  lemma ResumeIsVouched(horizon: int, run: seq<Event>, i: nat)
    requires i < |run| < GENERATIONS && run[i].Decide?
    requires forall n :: 0 <= n < |run| ==> Paired(run, n)
    requires Resumes(After(horizon, run, i), horizon, run[i].key, run[i].now)
    ensures exists t :: run[i].now - t < horizon && Vouched(run, i, run[i].key, t)
  {
    EntriesVouched(horizon, run, i, run[i].key);
  }

  lemma NothingDropped(all: set<Pair>, victims: set<Pair>)
    requires victims <= all && |all - victims| == |all|
    ensures victims == {}
  {
    assert all == (all - victims) + victims;
  }

  /** What a recording needs to be remembered through event n: no reset, no other recording of the
      pair, no clock at or past its horizon, and not being dropped for the bound. */
  predicate Spares(run: seq<Event>, n: nat, k: Pair, t: int, horizon: int)
    requires n < |run|
  {
    && !run[n].Forget?
    && (run[n].Decide? ==> run[n].now - t < horizon)
    && (run[n].Note? ==> run[n].key != k && run[n].now - t < horizon && k !in run[n].victims)
  }

  lemma SparedNext(horizon: int, run: seq<Event>, n: nat, k: Pair, t: int)
    requires n < |run| && Spares(run, n, k, t, horizon)
    requires k in After(horizon, run, n).seen && After(horizon, run, n).seen[k] == t
    ensures k in After(horizon, run, n + 1).seen && After(horizon, run, n + 1).seen[k] == t
  {
  }

  lemma {:induction false} Remembered(horizon: int, run: seq<Event>, r: nat, i: nat)
    requires r < i <= |run| < GENERATIONS && 0 < horizon
    requires run[r].Note? && run[r].key !in run[r].victims && Vouches(run, r, r + 1, run[r].key, run[r].now)
    requires forall n :: r < n < i ==> Spares(run, n, run[r].key, run[r].now, horizon)
    ensures run[r].key in After(horizon, run, i).seen && After(horizon, run, i).seen[run[r].key] == run[r].now
    decreases i
  {
    var n: nat := i - 1;
    if n == r {
      GenCounts(horizon, run, run[r].decision);
      GenCounts(horizon, run, r);
      ResetsGrow(run, run[r].decision, r);
    } else {
      Remembered(horizon, run, r, n);
      assert Spares(run, n, run[r].key, run[r].now, horizon);
      SparedNext(horizon, run, n, run[r].key, run[r].now);
    }
  }

  /** The other direction: after a recording under a decision no reset has overtaken, the pair is
      resumed exactly until the horizon. */
  lemma ResumedUntilHorizon(horizon: int, run: seq<Event>, r: nat, i: nat)
    requires r < i < |run| < GENERATIONS && 0 < horizon && run[i].Decide?
    requires run[r].Note? && run[r].key !in run[r].victims && Vouches(run, r, r + 1, run[r].key, run[r].now)
    requires forall n :: r < n < i ==> Spares(run, n, run[r].key, run[r].now, horizon)
    requires run[i].key == run[r].key
    ensures Resumes(After(horizon, run, i), horizon, run[i].key, run[i].now) <==> run[i].now - run[r].now < horizon
  {
    Remembered(horizon, run, r, i);
  }

  // -------------------------------------------------------------------- bound

  lemma BoundedNext(horizon: int, max: nat, run: seq<Event>, i: nat)
    requires i < |run| && |After(horizon, run, i).seen| <= max && RealVictims(horizon, max, run, i)
    ensures |After(horizon, run, i + 1).seen| <= max
  {
    SubsetSize(After(horizon, run, i + 1).seen.Keys * After(horizon, run, i).seen.Keys, After(horizon, run, i).seen.Keys);
    if run[i].Decide? {
      SubsetSize(After(horizon, run, i + 1).seen.Keys, After(horizon, run, i).seen.Keys);
    }
  }

  /** The memory never exceeds its bound. */
  lemma {:induction false} Bounded(horizon: int, max: nat, run: seq<Event>, i: nat)
    requires i <= |run|
    requires forall n :: 0 <= n < |run| ==> RealVictims(horizon, max, run, n)
    ensures |After(horizon, run, i).seen| <= max
    decreases i
  {
    if i > 0 {
      var n: nat := i - 1;
      Bounded(horizon, max, run, n);
      assert RealVictims(horizon, max, run, n);
      BoundedNext(horizon, max, run, n);
    }
  }
}
