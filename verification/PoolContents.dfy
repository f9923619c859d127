/** What a device pool holds after an offer, record by record (harvester.go): which records stay, in which
    order, where the one offered is, and which one makes room for it. */
module PoolContents {
  import opened Bytes
  import opened Runs
  import opened Sorting
  import opened DevicePool

  // ------------------------------------------------------------- groups by place

  /** g is what stands at the places ps of hs. */
  predicate Picked(hs: seq<bytes>, ps: seq<nat>, g: seq<bytes>) {
    |ps| == |g| && Increasing(ps) && forall k :: 0 <= k < |ps| ==> ps[k] < |hs| && hs[ps[k]] == g[k]
  }

  /** ps are exactly the places of build b among the first i. */
  ghost predicate PlacesOf(ids: Ids, hs: seq<bytes>, b: Build, i: nat, ps: seq<nat>)
    requires i <= |hs|
  {
    && (forall k :: 0 <= k < |ps| ==> ps[k] < i)
    && forall j: nat :: j < i ==> (ids.build(hs[j]) == b <==> j in ps)
  }

  lemma {:induction false} GroupPlacesTo(ids: Ids, hs: seq<bytes>, b: Build, i: nat) returns (ps: seq<nat>)
    requires i <= |hs|
    ensures Picked(hs, ps, GroupTo(ids, hs, b, i)) && PlacesOf(ids, hs, b, i, ps)
    decreases i
  {
    if i == 0 {
      ps := [];
    } else {
      ps := GroupPlacesTo(ids, hs, b, i - 1);
      if ids.build(hs[i - 1]) == b {
        ps := ps + [i - 1];
      }
    }
  }

  /** A group is all of its build, once each and in the list's order; so its size is how many there are. */
  lemma GroupPlaces(ids: Ids, hs: seq<bytes>, b: Build) returns (ps: seq<nat>)
    ensures Picked(hs, ps, Group(ids, hs, b)) && PlacesOf(ids, hs, b, |hs|, ps) && Count(ids, hs, b) == |ps|
  {
    ps := GroupPlacesTo(ids, hs, b, |hs|);
  }

  // ------------------------------------------------------------------- one offer

  /** q is the end of all, as long as the bound allows. */
  predicate LatestOf(q: seq<bytes>, all: seq<bytes>, max: nat) {
    && |q| == (if |all| <= max then |all| else max)
    && forall i :: 0 <= i < |q| ==> q[i] == all[|all| - |q| + i]
  }

  /** No build held aside outnumbers the pool. */
  ghost predicate Outnumbered(ids: Ids, p: Pool) {
    AtMost(ids, p.pending, |p.hellos|)
  }

  ghost predicate AtMost(ids: Ids, hs: seq<bytes>, n: nat) {
    forall b :: Count(ids, hs, b) <= n
  }

  predicate Held(ids: Ids, hs: seq<bytes>, rec: bytes) {
    exists i :: 0 <= i < |hs| && ids.key(hs[i]) == ids.key(rec)
  }

  lemma HeldMeans(ids: Ids, hs: seq<bytes>, rec: bytes)
    ensures Held(ids, hs, rec) <==> ids.key(rec) in Keys(ids, hs)
  {
  }

  predicate Joins(ids: Ids, p: Pool, rec: bytes) {
    p.hellos == [] || ids.build(rec) == ids.build(p.hellos[0])
  }

  lemma NewestIsLatest(hs: seq<bytes>, max: nat)
    ensures LatestOf(Newest(hs, max), hs, max)
  {
  }

  /** A record whose key is in the pool changes nothing. */
  lemma HeldChangesNothing(ids: Ids, max: nat, p: Pool, rec: bytes)
    requires Held(ids, p.hellos, rec)
    ensures Offered(ids, max, p, rec) == (p, false)
  {
    HeldMeans(ids, p.hellos, rec);
  }

  /** A record of the pool's build joins it at its end, and the oldest one makes room. */
  lemma JoinKeepsLatest(ids: Ids, max: nat, p: Pool, rec: bytes)
    requires !Held(ids, p.hellos, rec) && Joins(ids, p, rec)
    ensures var (q, got) := Offered(ids, max, p, rec);
            got && q.pending == p.pending && LatestOf(q.hellos, p.hellos + [rec], max)
  {
    HeldMeans(ids, p.hellos, rec);
    NewestIsLatest(p.hellos + [rec], max);
  }

  /** With no build outnumbering the pool, a new leader is the build of the record offered. */
  lemma LeaderIsOffered(ids: Ids, p: Pool, rec: bytes)
    requires Outnumbered(ids, p)
    ensures var pending := p.pending + [rec];
            var leader := LeaderOf(ids, pending, |pending|);
            && (|Largest(ids, pending)| > |p.hellos| <==> Count(ids, p.pending, ids.build(rec)) == |p.hellos|)
            && (|Largest(ids, pending)| > |p.hellos| ==>
                leader == ids.build(rec) && Largest(ids, pending) == Group(ids, p.pending, leader) + [rec])
  {
    var pending, b := p.pending + [rec], ids.build(rec);
    var leader := LeaderOf(ids, pending, |pending|);
    GroupSnoc(ids, p.pending, rec, b);
    GroupSnoc(ids, p.pending, rec, leader);
    LeaderCount(ids, pending, b);
    assert Count(ids, p.pending, b) <= |p.hellos| && Count(ids, p.pending, leader) <= |p.hellos|;
  }

  /** A record of another build: it is refused when it is already held aside; it takes over, with all that is
      held aside of its build in front of it and the oldest of them making room, when those are as many as
      the pool; and otherwise it is held aside itself. */
  lemma OtherBuildOffered(ids: Ids, max: nat, p: Pool, rec: bytes)
    requires !Held(ids, p.hellos, rec) && !Joins(ids, p, rec) && Outnumbered(ids, p)
    ensures var (q, got) := Offered(ids, max, p, rec);
            && (Held(ids, p.pending, rec) ==> q == p && !got)
            && (!Held(ids, p.pending, rec) ==> (got <==> Count(ids, p.pending, ids.build(rec)) == |p.hellos|))
            && (got ==> q.pending == [] && LatestOf(q.hellos, Group(ids, p.pending, ids.build(rec)) + [rec], max))
            && (!got ==> q.hellos == p.hellos)
  {
    HeldMeans(ids, p.hellos, rec);
    HeldMeans(ids, p.pending, rec);
    LeaderIsOffered(ids, p, rec);
    NewestIsLatest(Group(ids, p.pending, ids.build(rec)) + [rec], max);
  }

  /** The record held at place j is the first of the smallest build, of several such of the one with the
      smallest fingerprint. */
  ghost predicate GoesFirst(ids: Ids, hs: seq<bytes>, j: nat)
    requires j < |hs|
  {
    var b := ids.build(hs[j]);
    && (forall k :: 0 <= k < j ==> ids.build(hs[k]) != b)
    && forall k :: 0 <= k < |hs| ==>
         var c := ids.build(hs[k]);
         Count(ids, hs, b) < Count(ids, hs, c) || (Count(ids, hs, b) == Count(ids, hs, c) && b <= c)
  }

  lemma DropGoesFirst(ids: Ids, hs: seq<bytes>)
    requires hs != []
    ensures GoesFirst(ids, hs, DropAt(ids, hs))
  {
    var j := DropAt(ids, hs);
    forall k | 0 <= k < |hs|
      ensures var b, c := ids.build(hs[j]), ids.build(hs[k]);
              Count(ids, hs, b) < Count(ids, hs, c) || (Count(ids, hs, b) == Count(ids, hs, c) && b <= c)
    {
      assert Trails(ids, hs, VictimOf(ids, hs, |hs|), ids.build(hs[k]));
    }
  }

  /** What is held aside after a record joined it: all of it and the record, or, past the bound, all but the
      one that goes first. */
  lemma AsideKeeps(ids: Ids, max: nat, p: Pool, rec: bytes)
    requires !Held(ids, p.hellos, rec) && !Joins(ids, p, rec) && !Held(ids, p.pending, rec)
    requires |p.pending| <= max + 1 && !Offered(ids, max, p, rec).1
    ensures var q, all := Offered(ids, max, p, rec).0.pending, p.pending + [rec];
            if |all| <= max + 1 then q == all
            else exists j: nat :: j < |all| && GoesFirst(ids, all, j) && q == all[..j] + all[j + 1..]
  {
    HeldMeans(ids, p.hellos, rec);
    HeldMeans(ids, p.pending, rec);
    var all := p.pending + [rec];
    if |all| > max + 1 {
      var j := DropAt(ids, all);
      DropGoesFirst(ids, all);
      TrimOne(SmallestFirst(ids), all, max + 1);
      assert Offered(ids, max, p, rec).0.pending == all[..j] + all[j + 1..];
    }
  }

  // ------------------------------------------------------------------- any run

  lemma {:induction false} TrimCounts(ids: Ids, drop: seq<bytes> -> nat, hs: seq<bytes>, budget: nat, n: nat)
    requires AtMost(ids, hs, n)
    ensures AtMost(ids, Trimmed(drop, hs, budget), n)
    decreases |hs|
  {
    if |hs| > budget {
      var j := Within(drop(hs), hs);
      FewerCounts(ids, hs, j, n);
      TrimCounts(ids, drop, Removed(hs, j), budget, n);
    }
  }

  lemma FewerCounts(ids: Ids, hs: seq<bytes>, j: nat, n: nat)
    requires AtMost(ids, hs, n) && j < |hs|
    ensures AtMost(ids, Removed(hs, j), n)
  {
    var r := Removed(hs, j);
    forall b ensures Count(ids, r, b) <= n {
      CountRemoved(ids, hs, j, b);
    }
  }

  lemma OfferOutnumbers(ids: Ids, max: nat, p: Pool, rec: bytes)
    requires |p.hellos| <= max && Outnumbered(ids, p)
    ensures Outnumbered(ids, Offered(ids, max, p, rec).0)
  {
    var pending, q := p.pending + [rec], Offered(ids, max, p, rec).0;
    if q.pending == p.pending {
      GrowsOrStays(ids, max, p, rec);
    } else if q.pending != [] {
      NoneLarger(ids, pending, |p.hellos|);
      TrimCounts(ids, SmallestFirst(ids), pending, max + 1, |p.hellos|);
    }
  }

  lemma GrowsOrStays(ids: Ids, max: nat, p: Pool, rec: bytes)
    requires |p.hellos| <= max && Offered(ids, max, p, rec).0.pending == p.pending
    ensures |Offered(ids, max, p, rec).0.hellos| >= |p.hellos|
  {
  }

  ghost predicate OutnumberedAt(ids: Ids, max: nat, start: seq<bytes>, offers: seq<bytes>, i: nat)
    requires i <= |offers|
  {
    Outnumbered(ids, After(ids, max, start, offers, i))
  }

  lemma {:induction false} AlwaysOutnumbered(ids: Ids, max: nat, start: seq<bytes>, offers: seq<bytes>, i: nat)
    requires 0 < max && i <= |offers| && |start| <= max && Distinct(ids, start)
    ensures OutnumberedAt(ids, max, start, offers, i)
    decreases i
  {
    if i > 0 {
      var n: nat := i - 1;
      AlwaysOutnumbered(ids, max, start, offers, n);
      AlwaysBounded(ids, max, start, offers, n);
      OfferOutnumbers(ids, max, After(ids, max, start, offers, n), offers[n]);
    }
  }

  /** From any file, of one build or of several, at every point of every sequence of offers: an offer is
      accepted exactly when its key is new to the pool and it is of the pool's build, or new to what is held
      aside and its build has as many samples there as the pool; then the pool ends in it. An offer that
      is not accepted leaves the pool as it was. */
  lemma AcceptedIsLast(ids: Ids, max: nat, start: seq<bytes>, offers: seq<bytes>, i: nat)
    requires 0 < max && i < |offers| && |start| <= max && Distinct(ids, start)
    ensures var p, q, rec := After(ids, max, start, offers, i), After(ids, max, start, offers, i + 1), offers[i];
            && (Offered(ids, max, p, rec).1 <==>
                !Held(ids, p.hellos, rec)
                && (Joins(ids, p, rec) || (!Held(ids, p.pending, rec) && Count(ids, p.pending, ids.build(rec)) == |p.hellos|)))
            && if Offered(ids, max, p, rec).1 then q.hellos != [] && q.hellos[|q.hellos| - 1] == rec else q.hellos == p.hellos
  {
    var p, rec := After(ids, max, start, offers, i), offers[i];
    AlwaysOutnumbered(ids, max, start, offers, i);
    if Held(ids, p.hellos, rec) {
      HeldChangesNothing(ids, max, p, rec);
    } else if Joins(ids, p, rec) {
      JoinKeepsLatest(ids, max, p, rec);
    } else {
      OtherBuildOffered(ids, max, p, rec);
    }
  }

  // ------------------------------------------------------------------- loading

  /** The loaded records are records of the file that parse, in its order. */
  ghost predicate Chosen(ok: bytes -> bool, file: seq<bytes>, i: nat, hs: seq<bytes>, ps: seq<nat>) {
    Picked(file, ps, hs) && forall k :: 0 <= k < |ps| ==> ps[k] < i && ok(hs[k])
  }

  /** An earlier loaded record has record j's key. */
  predicate Repeats(ids: Ids, file: seq<bytes>, ps: seq<nat>, j: nat)
    requires j < |file|
  {
    exists k :: 0 <= k < |ps| && ps[k] < j && ids.key(file[ps[k]]) == ids.key(file[j])
  }

  /** The pool was full when record j was reached. */
  predicate FullBefore(max: nat, ps: seq<nat>, j: nat) {
    |ps| == max && forall k :: 0 <= k < |ps| ==> ps[k] < j
  }

  /** A record that parses is left out only for one of these reasons. */
  ghost predicate NoneMissed(ids: Ids, ok: bytes -> bool, max: nat, file: seq<bytes>, i: nat, ps: seq<nat>)
    requires i <= |file|
  {
    forall j: nat :: j < i && ok(file[j]) ==> j in ps || Repeats(ids, file, ps, j) || FullBefore(max, ps, j)
  }

  lemma ChosenSnoc(ok: bytes -> bool, file: seq<bytes>, n: nat, hs: seq<bytes>, ps: seq<nat>)
    requires n < |file| && Chosen(ok, file, n, hs, ps) && ok(file[n])
    ensures Chosen(ok, file, n + 1, hs + [file[n]], ps + [n])
  {
  }

  lemma StillAccounted(ids: Ids, file: seq<bytes>, ps: seq<nat>, n: nat, j: nat)
    requires j < |file|
    ensures j in ps ==> j in ps + [n]
    ensures Repeats(ids, file, ps, j) ==> Repeats(ids, file, ps + [n], j)
    ensures n in ps + [n]
  {
    if Repeats(ids, file, ps, j) {
      var k :| 0 <= k < |ps| && ps[k] < j && ids.key(file[ps[k]]) == ids.key(file[j]);
      assert (ps + [n])[k] == ps[k];
    }
    assert (ps + [n])[|ps|] == n;
  }

  lemma NoneMissedSnoc(ids: Ids, ok: bytes -> bool, max: nat, file: seq<bytes>, n: nat, ps: seq<nat>)
    requires n < |file| && NoneMissed(ids, ok, max, file, n, ps) && |ps| < max
    ensures NoneMissed(ids, ok, max, file, n + 1, ps + [n])
  {
    forall j: nat | j < n + 1 && ok(file[j]) ensures j in ps + [n] || Repeats(ids, file, ps + [n], j) {
      StillAccounted(ids, file, ps, n, j);
    }
  }

  lemma NoneMissedStay(ids: Ids, ok: bytes -> bool, max: nat, file: seq<bytes>, n: nat, hs: seq<bytes>, ps: seq<nat>)
    requires n < |file| && |hs| <= max && Chosen(ok, file, n, hs, ps) && NoneMissed(ids, ok, max, file, n, ps)
    requires |hs| == max || !ok(file[n]) || ids.key(file[n]) in Keys(ids, hs)
    ensures NoneMissed(ids, ok, max, file, n + 1, ps)
  {
    if |hs| < max && ok(file[n]) {
      var k :| 0 <= k < |hs| && ids.key(hs[k]) == ids.key(file[n]);
      assert file[ps[k]] == hs[k];
      assert Repeats(ids, file, ps, n);
    }
  }

  lemma LoadOne(ids: Ids, ok: bytes -> bool, max: nat, file: seq<bytes>, n: nat, hs: seq<bytes>, qs: seq<nat>) returns (ps: seq<nat>)
    requires n < |file| && |hs| <= max && Chosen(ok, file, n, hs, qs) && NoneMissed(ids, ok, max, file, n, qs)
    ensures Chosen(ok, file, n + 1, Grown(ids, ok, max, hs, file[n]), ps) && NoneMissed(ids, ok, max, file, n + 1, ps)
  {
    if |hs| < max && ok(file[n]) && ids.key(file[n]) !in Keys(ids, hs) {
      ChosenSnoc(ok, file, n, hs, qs);
      NoneMissedSnoc(ids, ok, max, file, n, qs);
      ps := qs + [n];
    } else {
      NoneMissedStay(ids, ok, max, file, n, hs, qs);
      ps := qs;
    }
  }

  /** Loaded from the places ps of the first i records of the file, none missed. */
  ghost predicate LoadedAt(ids: Ids, ok: bytes -> bool, max: nat, file: seq<bytes>, i: nat, ps: seq<nat>)
    requires i <= |file|
  {
    Chosen(ok, file, i, Loaded(ids, ok, max, file, i), ps) && NoneMissed(ids, ok, max, file, i, ps)
  }

  ghost predicate LoadsAt(ids: Ids, ok: bytes -> bool, max: nat, file: seq<bytes>, i: nat)
    requires i <= |file|
  {
    exists ps :: LoadedAt(ids, ok, max, file, i, ps)
  }

  lemma LoadsNext(ids: Ids, ok: bytes -> bool, max: nat, file: seq<bytes>, i: nat)
    requires i < |file| && LoadsAt(ids, ok, max, file, i)
    ensures LoadsAt(ids, ok, max, file, i + 1)
  {
    var qs :| LoadedAt(ids, ok, max, file, i, qs);
    var ps := LoadOne(ids, ok, max, file, i, Loaded(ids, ok, max, file, i), qs);
    assert LoadedAt(ids, ok, max, file, i + 1, ps);
  }

  /** What the constructor loads: records of the file that parse, in its order and without repeated keys; and
      of the file's records that parse none is missing, unless its key was loaded before it or the pool was
      full by then. */
  lemma LoadsFirst(ids: Ids, ok: bytes -> bool, max: nat, file: seq<bytes>, i: nat) returns (ps: seq<nat>)
    requires i <= |file|
    ensures Chosen(ok, file, i, Loaded(ids, ok, max, file, i), ps) && NoneMissed(ids, ok, max, file, i, ps)
    ensures Distinct(ids, Loaded(ids, ok, max, file, i))
  {
    assert LoadedAt(ids, ok, max, file, 0, []);
    forall n: nat | n < i && LoadsAt(ids, ok, max, file, n) ensures LoadsAt(ids, ok, max, file, n + 1) {
      LoadsNext(ids, ok, max, file, n);
    }
    StepByStep((m: nat) => m <= |file| && LoadsAt(ids, ok, max, file, m), 0, i);
    LoadedDistinct(ids, ok, max, file, i);
    ps :| LoadedAt(ids, ok, max, file, i, ps);
  }
}
