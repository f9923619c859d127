/** The device pool (harvester.go): one browser build in use, other builds held aside until one of them
    outnumbers it. A record is known here by its build and its contribution key. */
module DevicePool {
  import opened Bytes
  import opened Runs

  type Build = nat
  type Key = bytes

  /** recordBuild and contributionKey. */
  datatype Ids = Ids(build: bytes -> Build, key: bytes -> Key)

  /** The records of one build among the first i, in order. */
  function GroupTo(ids: Ids, hs: seq<bytes>, b: Build, i: nat): (r: seq<bytes>)
    requires i <= |hs|
    ensures |r| <= i
    decreases i
  {
    if i == 0 then [] else GroupTo(ids, hs, b, i - 1) + if ids.build(hs[i - 1]) == b then [hs[i - 1]] else []
  }

  /** The records of one build. */
  function Group(ids: Ids, hs: seq<bytes>, b: Build): (r: seq<bytes>)
    ensures |r| <= |hs|
  {
    GroupTo(ids, hs, b, |hs|)
  }

  function Count(ids: Ids, hs: seq<bytes>, b: Build): nat {
    |Group(ids, hs, b)|
  }

  function Keys(ids: Ids, hs: seq<bytes>): set<Key> {
    set i | 0 <= i < |hs| :: ids.key(hs[i])
  }

  ghost predicate Distinct(ids: Ids, hs: seq<bytes>) {
    forall i, j :: 0 <= i < j < |hs| ==> ids.key(hs[i]) != ids.key(hs[j])
  }

  ghost predicate OneBuild(ids: Ids, hs: seq<bytes>, b: Build) {
    forall i :: 0 <= i < |hs| ==> ids.build(hs[i]) == b
  }

  /** b comes before c when the larger group wins and ties go to the smaller fingerprint. */
  predicate Leads(ids: Ids, hs: seq<bytes>, b: Build, c: Build) {
    Count(ids, hs, b) > Count(ids, hs, c) || (Count(ids, hs, b) == Count(ids, hs, c) && b <= c)
  }

  /** b comes before c when the smaller group goes and ties go to the smaller fingerprint. */
  predicate Trails(ids: Ids, hs: seq<bytes>, b: Build, c: Build) {
    Count(ids, hs, b) < Count(ids, hs, c) || (Count(ids, hs, b) == Count(ids, hs, c) && b <= c)
  }

  /** The leading build among the first i records. */
  function LeaderOf(ids: Ids, hs: seq<bytes>, i: nat): (b: Build)
    requires 0 < i <= |hs|
    ensures exists j :: 0 <= j < i && ids.build(hs[j]) == b
    ensures forall j :: 0 <= j < i ==> Leads(ids, hs, b, ids.build(hs[j]))
    decreases i
  {
    var c := ids.build(hs[i - 1]);
    if i == 1 then c
    else
      var b := LeaderOf(ids, hs, i - 1);
      if Leads(ids, hs, b, c) then b else c
  }

  function VictimOf(ids: Ids, hs: seq<bytes>, i: nat): (b: Build)
    requires 0 < i <= |hs|
    ensures exists j :: 0 <= j < i && ids.build(hs[j]) == b
    ensures forall j :: 0 <= j < i ==> Trails(ids, hs, b, ids.build(hs[j]))
    decreases i
  {
    var c := ids.build(hs[i - 1]);
    if i == 1 then c
    else
      var b := VictimOf(ids, hs, i - 1);
      if Trails(ids, hs, b, c) then b else c
  }

  /** largestBuild's group. */
  function Largest(ids: Ids, hs: seq<bytes>): seq<bytes> {
    if hs == [] then [] else Group(ids, hs, LeaderOf(ids, hs, |hs|))
  }

  /** The position of the oldest record of a build. */
  function OldestOf(ids: Ids, hs: seq<bytes>, b: Build, i: nat): (j: nat)
    requires i <= |hs| && exists k :: i <= k < |hs| && ids.build(hs[k]) == b
    ensures i <= j < |hs| && ids.build(hs[j]) == b && forall k :: i <= k < j ==> ids.build(hs[k]) != b
    decreases |hs| - i
  {
    if ids.build(hs[i]) == b then i else OldestOf(ids, hs, b, i + 1)
  }

  /** Which record trimming drops next. */
  function DropAt(ids: Ids, hs: seq<bytes>): (j: nat)
    requires hs != []
    ensures j < |hs|
  {
    OldestOf(ids, hs, VictimOf(ids, hs, |hs|), 0)
  }

  function Removed(hs: seq<bytes>, j: nat): (r: seq<bytes>)
    requires j < |hs|
    ensures |r| == |hs| - 1
  {
    hs[..j] + hs[j + 1..]
  }

  /** Dropping records at the places `drop` names until the budget is met. */
  function Trimmed(drop: seq<bytes> -> nat, hs: seq<bytes>, budget: nat): (r: seq<bytes>)
    ensures |r| == if |hs| <= budget then |hs| else budget
    decreases |hs|
  {
    if |hs| <= budget then hs else Trimmed(drop, Removed(hs, Within(drop(hs), hs)), budget)
  }

  function Within(j: nat, hs: seq<bytes>): (r: nat)
    requires hs != []
    ensures r < |hs| && (j < |hs| ==> r == j)
  {
    if j < |hs| then j else 0
  }

  /** trimPendingLocked's choice. */
  function SmallestFirst(ids: Ids): seq<bytes> -> nat {
    (hs: seq<bytes>) => if hs == [] then 0 else DropAt(ids, hs)
  }

  /** At most max records, the latest ones. */
  function Newest(hs: seq<bytes>, max: nat): (r: seq<bytes>)
    ensures |r| == if |hs| <= max then |hs| else max
  {
    if |hs| > max then hs[|hs| - max..] else hs
  }

  datatype Pool = Pool(hellos: seq<bytes>, pending: seq<bytes>)

  /** Offer on a screened record: the new pool, and whether the record got in. */
  function Offered(ids: Ids, max: nat, p: Pool, rec: bytes): (Pool, bool) {
    if ids.key(rec) in Keys(ids, p.hellos) then (p, false)
    else if p.hellos == [] || ids.build(rec) == ids.build(p.hellos[0]) then
      (p.(hellos := Newest(p.hellos + [rec], max)), true)
    else if ids.key(rec) in Keys(ids, p.pending) then (p, false)
    else
      var pending := p.pending + [rec];
      var best := Largest(ids, pending);
      if |best| <= |p.hellos| then (p.(pending := Trimmed(SmallestFirst(ids), pending, max + 1)), false)
      else (Pool(Newest(best, max), []), true)
  }

  // ------------------------------------------------------------------- groups

  lemma {:induction false} GroupFront(ids: Ids, hs: seq<bytes>, ts: seq<bytes>, b: Build, i: nat)
    requires i <= |hs|
    ensures GroupTo(ids, hs + ts, b, i) == GroupTo(ids, hs, b, i)
    decreases i
  {
    if i > 0 {
      GroupFront(ids, hs, ts, b, i - 1);
    }
  }

  lemma GroupSnoc(ids: Ids, hs: seq<bytes>, r: bytes, b: Build)
    ensures Group(ids, hs + [r], b) == Group(ids, hs, b) + if ids.build(r) == b then [r] else []
  {
    GroupFront(ids, hs, [r], b, |hs|);
    assert (hs + [r])[|hs|] == r;
  }

  lemma {:induction false} GroupAppend(ids: Ids, hs: seq<bytes>, ts: seq<bytes>, b: Build, i: nat)
    requires i <= |ts|
    ensures GroupTo(ids, hs + ts, b, |hs| + i) == Group(ids, hs, b) + GroupTo(ids, ts, b, i)
    decreases i
  {
    if i == 0 {
      GroupFront(ids, hs, ts, b, |hs|);
    } else {
      GroupAppend(ids, hs, ts, b, i - 1);
      assert (hs + ts)[|hs| + i - 1] == ts[i - 1];
    }
  }

  lemma GroupOne(ids: Ids, r: bytes, b: Build)
    ensures Group(ids, [r], b) == if ids.build(r) == b then [r] else []
  {
    GroupSnoc(ids, [], r, b);
    assert [] + [r] == [r];
  }

  lemma CountAppend(ids: Ids, hs: seq<bytes>, ts: seq<bytes>, b: Build)
    ensures Count(ids, hs + ts, b) == Count(ids, hs, b) + Count(ids, ts, b)
  {
    GroupAppend(ids, hs, ts, b, |ts|);
  }

  /** Dropping a record takes it from its own build's group only. */
  lemma CountRemoved(ids: Ids, hs: seq<bytes>, j: nat, b: Build)
    requires j < |hs|
    ensures Count(ids, Removed(hs, j), b) == Count(ids, hs, b) - if ids.build(hs[j]) == b then 1 else 0
  {
    var front, back := hs[..j], hs[j + 1..];
    GroupOne(ids, hs[j], b);
    CountAppend(ids, front, back, b);
    CountAppend(ids, front, [hs[j]], b);
    CountAppend(ids, front + [hs[j]], back, b);
    assert hs == front + [hs[j]] + back;
  }

  /** A group holds records of its build only, drawn from the list. */
  lemma {:induction false} MembersTo(ids: Ids, hs: seq<bytes>, b: Build, i: nat)
    requires i <= |hs|
    ensures var g := GroupTo(ids, hs, b, i);
            OneBuild(ids, g, b) && forall k :: 0 <= k < |g| ==> exists j :: 0 <= j < i && hs[j] == g[k]
    decreases i
  {
    if i > 0 {
      MembersTo(ids, hs, b, i - 1);
    }
  }

  lemma GroupMembers(ids: Ids, hs: seq<bytes>, b: Build)
    ensures OneBuild(ids, Group(ids, hs, b), b)
    ensures forall i :: 0 <= i < |Group(ids, hs, b)| ==> Group(ids, hs, b)[i] in hs
  {
    MembersTo(ids, hs, b, |hs|);
  }

  /** A later record repeats no key of an earlier group. */
  lemma FreshBehind(ids: Ids, hs: seq<bytes>, b: Build, i: nat, k: nat)
    requires Distinct(ids, hs) && i < |hs| && k < |GroupTo(ids, hs, b, i)|
    ensures ids.key(GroupTo(ids, hs, b, i)[k]) != ids.key(hs[i])
  {
    MembersTo(ids, hs, b, i);
    var j :| 0 <= j < i && hs[j] == GroupTo(ids, hs, b, i)[k];
  }

  lemma {:induction false} DistinctTo(ids: Ids, hs: seq<bytes>, b: Build, i: nat)
    requires Distinct(ids, hs) && i <= |hs|
    ensures Distinct(ids, GroupTo(ids, hs, b, i))
    decreases i
  {
    if i > 0 {
      var n: nat := i - 1;
      DistinctTo(ids, hs, b, n);
      var g := GroupTo(ids, hs, b, n);
      forall k | 0 <= k < |g| ensures ids.key(g[k]) != ids.key(hs[n]) {
        FreshBehind(ids, hs, b, n, k);
      }
      SnocDistinct(ids, g, hs[n]);
    }
  }

  lemma SnocDistinct(ids: Ids, hs: seq<bytes>, r: bytes)
    requires Distinct(ids, hs) && forall k :: 0 <= k < |hs| ==> ids.key(hs[k]) != ids.key(r)
    ensures Distinct(ids, hs + [r])
  {
  }

  lemma GroupDistinct(ids: Ids, hs: seq<bytes>, b: Build)
    requires Distinct(ids, hs)
    ensures Distinct(ids, Group(ids, hs, b))
  {
    DistinctTo(ids, hs, b, |hs|);
  }

  lemma {:induction false} AllOfOneTo(ids: Ids, hs: seq<bytes>, b: Build, i: nat)
    requires i <= |hs| && OneBuild(ids, hs, b)
    ensures GroupTo(ids, hs, b, i) == hs[..i]
    decreases i
  {
    if i > 0 {
      AllOfOneTo(ids, hs, b, i - 1);
      assert hs[..i] == hs[..i - 1] + [hs[i - 1]];
    }
  }

  lemma AllOfOne(ids: Ids, hs: seq<bytes>, b: Build)
    requires OneBuild(ids, hs, b)
    ensures Group(ids, hs, b) == hs
  {
    AllOfOneTo(ids, hs, b, |hs|);
    assert hs[..|hs|] == hs;
  }

  /** The leader's count is the greatest. */
  lemma LeaderCount(ids: Ids, hs: seq<bytes>, b: Build)
    requires hs != []
    ensures Count(ids, hs, b) <= |Largest(ids, hs)|
  {
    GroupMembers(ids, hs, b);
    if Count(ids, hs, b) > 0 {
      var r := Group(ids, hs, b)[0];
      assert r in hs && ids.build(r) == b;
      var i: int :| 0 <= i < |hs| && hs[i] == r;
      assert Leads(ids, hs, LeaderOf(ids, hs, |hs|), ids.build(hs[i]));
    }
  }

  // ------------------------------------------------------------------ trimming

  /** b outnumbers every other build among these records. */
  ghost predicate StrictlyLeads(ids: Ids, hs: seq<bytes>, b: Build) {
    forall i :: 0 <= i < |hs| && ids.build(hs[i]) != b ==> Count(ids, hs, ids.build(hs[i])) < Count(ids, hs, b)
  }

  /** Trimming never touches a strictly leading build, as long as there is another one. */
  lemma LeaderSpared(ids: Ids, hs: seq<bytes>, b: Build)
    requires StrictlyLeads(ids, hs, b) && hs != [] && !OneBuild(ids, hs, b)
    ensures ids.build(hs[DropAt(ids, hs)]) != b
  {
    var i :| 0 <= i < |hs| && ids.build(hs[i]) != b;
    assert Trails(ids, hs, VictimOf(ids, hs, |hs|), ids.build(hs[i]));
  }

  lemma DistinctRemoved(ids: Ids, hs: seq<bytes>, j: nat)
    requires j < |hs| && Distinct(ids, hs)
    ensures Distinct(ids, Removed(hs, j))
    ensures Keys(ids, Removed(hs, j)) == Keys(ids, hs) - {ids.key(hs[j])}
  {
    var r := Removed(hs, j);
    assert forall i :: 0 <= i < |r| ==> r[i] == if i < j then hs[i] else hs[i + 1];
    forall k | k in Keys(ids, hs) - {ids.key(hs[j])} ensures k in Keys(ids, r) {
      var i :| 0 <= i < |hs| && ids.key(hs[i]) == k;
      assert r[if i < j then i else i - 1] == hs[i];
    }
    forall k | k in Keys(ids, r) ensures k in Keys(ids, hs) - {ids.key(hs[j])} {
      var i :| 0 <= i < |r| && ids.key(r[i]) == k;
      assert r[i] == if i < j then hs[i] else hs[i + 1];
    }
  }

  // ----------------------------------------------------------------- invariant

  /** Nothing held aside is of the pool's build, and no build held aside outnumbers the pool. */
  ghost predicate Aside(ids: Ids, p: Pool) {
    && (p.pending != [] ==> p.hellos != [])
    && (forall i :: 0 <= i < |p.pending| ==> ids.build(p.pending[i]) != ids.build(p.hellos[0]))
    && (forall b :: Count(ids, p.pending, b) <= |p.hellos|)
  }

  /** Within the bounds, and no contribution twice. */
  ghost predicate Bounded(ids: Ids, max: nat, p: Pool) {
    && |p.hellos| <= max && |p.pending| <= max + 1
    && Distinct(ids, p.hellos) && Distinct(ids, p.pending)
  }

  /** Besides, one build in use, and what is held aside is of other builds and outnumbered. */
  ghost predicate Sound(ids: Ids, max: nat, p: Pool) {
    && Bounded(ids, max, p)
    && (p.hellos != [] ==> OneBuild(ids, p.hellos, ids.build(p.hellos[0])))
    && Aside(ids, p)
  }

  lemma DistinctSnoc(ids: Ids, hs: seq<bytes>, r: bytes)
    requires Distinct(ids, hs) && ids.key(r) !in Keys(ids, hs)
    ensures Distinct(ids, hs + [r])
  {
    forall i | 0 <= i < |hs| ensures ids.key(hs[i]) != ids.key(r) {
      assert ids.key(hs[i]) in Keys(ids, hs);
    }
    SnocDistinct(ids, hs, r);
  }

  lemma JoinPool(ids: Ids, max: nat, p: Pool, rec: bytes)
    requires 0 < max && Sound(ids, max, p) && ids.key(rec) !in Keys(ids, p.hellos)
    requires p.hellos == [] || ids.build(rec) == ids.build(p.hellos[0])
    ensures Sound(ids, max, p.(hellos := Newest(p.hellos + [rec], max)))
  {
    DistinctSnoc(ids, p.hellos, rec);
    var all, kept := p.hellos + [rec], Newest(p.hellos + [rec], max);
    var cut := |all| - |kept|;
    assert forall i :: 0 <= i < |kept| ==> kept[i] == all[cut + i];
    assert p.hellos != [] ==> ids.build(kept[0]) == ids.build(p.hellos[0]);
    forall b ensures Count(ids, p.pending, b) <= |kept| {
      assert Count(ids, p.pending, b) <= |p.hellos|;
    }
  }

  lemma Promote(ids: Ids, max: nat, hs: seq<bytes>, b: Build)
    requires 0 < max && Distinct(ids, hs)
    ensures Sound(ids, max, Pool(Newest(Group(ids, hs, b), max), []))
  {
    GroupMembers(ids, hs, b);
    GroupDistinct(ids, hs, b);
    KeepNewest(ids, max, Group(ids, hs, b), b);
  }

  lemma KeepNewest(ids: Ids, max: nat, hs: seq<bytes>, b: Build)
    requires 0 < max && Distinct(ids, hs) && OneBuild(ids, hs, b)
    ensures Sound(ids, max, Pool(Newest(hs, max), []))
  {
    var kept := Newest(hs, max);
    assert forall i :: 0 <= i < |kept| ==> kept[i] == hs[|hs| - |kept| + i];
  }

  /** What may be held aside: no repeats, none of the pool's build, none outnumbering the pool. */
  ghost predicate MayHold(ids: Ids, hellos: seq<bytes>, hs: seq<bytes>) {
    && hellos != [] && Distinct(ids, hs)
    && (forall i :: 0 <= i < |hs| ==> ids.build(hs[i]) != ids.build(hellos[0]))
    && (forall b :: Count(ids, hs, b) <= |hellos|)
  }

  lemma HoldFewer(ids: Ids, hellos: seq<bytes>, hs: seq<bytes>, j: nat)
    requires MayHold(ids, hellos, hs) && j < |hs|
    ensures MayHold(ids, hellos, Removed(hs, j))
  {
    var less := Removed(hs, j);
    DistinctRemoved(ids, hs, j);
    forall b ensures Count(ids, less, b) <= |hellos| {
      CountRemoved(ids, hs, j, b);
    }
    assert forall i :: 0 <= i < |less| ==> less[i] == if i < j then hs[i] else hs[i + 1];
  }

  lemma {:induction false} TrimKeeps(ids: Ids, drop: seq<bytes> -> nat, hellos: seq<bytes>, hs: seq<bytes>, budget: nat)
    requires MayHold(ids, hellos, hs)
    ensures MayHold(ids, hellos, Trimmed(drop, hs, budget))
    decreases |hs|
  {
    if |hs| > budget {
      var j := Within(drop(hs), hs);
      HoldFewer(ids, hellos, hs, j);
      TrimKeeps(ids, drop, hellos, Removed(hs, j), budget);
    }
  }

  lemma SetAside(ids: Ids, max: nat, p: Pool, aside: seq<bytes>)
    requires Sound(ids, max, p) && MayHold(ids, p.hellos, aside) && |aside| <= max + 1
    ensures Sound(ids, max, p.(pending := aside))
  {
  }

  lemma NoneLarger(ids: Ids, hs: seq<bytes>, n: nat)
    requires hs != [] && |Largest(ids, hs)| <= n
    ensures forall b :: Count(ids, hs, b) <= n
  {
    forall b ensures Count(ids, hs, b) <= n {
      LeaderCount(ids, hs, b);
    }
  }

  /** An offer of another build, once it is counted among what is held aside. */
  lemma OtherBuild(ids: Ids, max: nat, p: Pool, rec: bytes, drop: seq<bytes> -> nat)
    requires 0 < max && Sound(ids, max, p) && p.hellos != [] && ids.build(rec) != ids.build(p.hellos[0])
    requires ids.key(rec) !in Keys(ids, p.pending)
    requires forall b :: Count(ids, p.pending + [rec], b) <= |p.hellos|
    ensures Sound(ids, max, p.(pending := Trimmed(drop, p.pending + [rec], max + 1)))
  {
    DistinctSnoc(ids, p.pending, rec);
    TrimKeeps(ids, drop, p.hellos, p.pending + [rec], max + 1);
    SetAside(ids, max, p, Trimmed(drop, p.pending + [rec], max + 1));
  }

  /** Every Offer keeps the pool one build, within its bound and free of repeats, and what is held aside
      bounded and outnumbered. */
  lemma OfferSound(ids: Ids, max: nat, p: Pool, rec: bytes)
    requires 0 < max && Sound(ids, max, p)
    ensures Sound(ids, max, Offered(ids, max, p, rec).0)
  {
    if ids.key(rec) !in Keys(ids, p.hellos) {
      if p.hellos == [] || ids.build(rec) == ids.build(p.hellos[0]) {
        JoinPool(ids, max, p, rec);
      } else if ids.key(rec) !in Keys(ids, p.pending) {
        var pending := p.pending + [rec];
        if |Largest(ids, pending)| <= |p.hellos| {
          NoneLarger(ids, pending, |p.hellos|);
          OtherBuild(ids, max, p, rec, SmallestFirst(ids));
        } else {
          DistinctSnoc(ids, p.pending, rec);
          Promote(ids, max, pending, LeaderOf(ids, pending, |pending|));
        }
      }
    }
  }

  lemma NewestDistinct(ids: Ids, hs: seq<bytes>, max: nat)
    requires Distinct(ids, hs)
    ensures Distinct(ids, Newest(hs, max))
  {
    var kept := Newest(hs, max);
    assert forall i :: 0 <= i < |kept| ==> kept[i] == hs[|hs| - |kept| + i];
  }

  lemma {:induction false} TrimDistinct(ids: Ids, drop: seq<bytes> -> nat, hs: seq<bytes>, budget: nat)
    requires Distinct(ids, hs)
    ensures Distinct(ids, Trimmed(drop, hs, budget))
    decreases |hs|
  {
    if |hs| > budget {
      var j := Within(drop(hs), hs);
      DistinctRemoved(ids, hs, j);
      TrimDistinct(ids, drop, Removed(hs, j), budget);
    }
  }

  /** Every Offer keeps any pool, mixed or not, within its bounds and free of repeats. */
  lemma OfferBounded(ids: Ids, max: nat, p: Pool, rec: bytes)
    requires 0 < max && Bounded(ids, max, p)
    ensures Bounded(ids, max, Offered(ids, max, p, rec).0)
  {
    if ids.key(rec) !in Keys(ids, p.hellos) {
      if p.hellos == [] || ids.build(rec) == ids.build(p.hellos[0]) {
        DistinctSnoc(ids, p.hellos, rec);
        NewestDistinct(ids, p.hellos + [rec], max);
      } else if ids.key(rec) !in Keys(ids, p.pending) {
        var pending := p.pending + [rec];
        DistinctSnoc(ids, p.pending, rec);
        if |Largest(ids, pending)| <= |p.hellos| {
          TrimDistinct(ids, SmallestFirst(ids), pending, max + 1);
        } else {
          Promote(ids, max, pending, LeaderOf(ids, pending, |pending|));
        }
      }
    }
  }

  /** The pool after the first i offers. */
  function After(ids: Ids, max: nat, start: seq<bytes>, offers: seq<bytes>, i: nat): Pool
    requires i <= |offers|
    decreases i
  {
    if i == 0 then Pool(start, []) else Offered(ids, max, After(ids, max, start, offers, i - 1), offers[i - 1]).0
  }

  lemma SoundNext(ids: Ids, max: nat, start: seq<bytes>, offers: seq<bytes>, i: nat)
    requires 0 < max && i < |offers| && Sound(ids, max, After(ids, max, start, offers, i))
    ensures Sound(ids, max, After(ids, max, start, offers, i + 1))
  {
    OfferSound(ids, max, After(ids, max, start, offers, i), offers[i]);
  }

  /** From an empty or single-build file, after every sequence of offers. */
  lemma {:induction false} AlwaysSound(ids: Ids, max: nat, start: seq<bytes>, offers: seq<bytes>, i: nat)
    requires 0 < max && i <= |offers|
    requires |start| <= max && Distinct(ids, start) && (start != [] ==> OneBuild(ids, start, ids.build(start[0])))
    ensures Sound(ids, max, After(ids, max, start, offers, i))
    decreases i
  {
    if i > 0 {
      var n: nat := i - 1;
      AlwaysSound(ids, max, start, offers, n);
      SoundNext(ids, max, start, offers, n);
    }
  }

  /** From any file, of one build or of several, after every sequence of offers. */
  lemma {:induction false} AlwaysBounded(ids: Ids, max: nat, start: seq<bytes>, offers: seq<bytes>, i: nat)
    requires 0 < max && i <= |offers| && |start| <= max && Distinct(ids, start)
    ensures Bounded(ids, max, After(ids, max, start, offers, i))
    decreases i
  {
    if i > 0 {
      var n: nat := i - 1;
      AlwaysBounded(ids, max, start, offers, n);
      OfferBounded(ids, max, After(ids, max, start, offers, n), offers[n]);
    }
  }

  /** The i-th offer is of another build and promotes it. */
  predicate Promotes(ids: Ids, max: nat, start: seq<bytes>, offers: seq<bytes>, i: nat)
    requires i < |offers|
  {
    var p := After(ids, max, start, offers, i);
    && p.hellos != [] && ids.build(offers[i]) != ids.build(p.hellos[0])
    && Offered(ids, max, p, offers[i]).1
  }

  lemma PromotedSound(ids: Ids, max: nat, p: Pool, rec: bytes)
    requires 0 < max && Distinct(ids, p.pending) && p.hellos != [] && ids.build(rec) != ids.build(p.hellos[0])
    requires Offered(ids, max, p, rec).1
    ensures Sound(ids, max, Offered(ids, max, p, rec).0)
  {
    var pending := p.pending + [rec];
    DistinctSnoc(ids, p.pending, rec);
    Promote(ids, max, pending, LeaderOf(ids, pending, |pending|));
  }

  ghost predicate SoundAt(ids: Ids, max: nat, start: seq<bytes>, offers: seq<bytes>, i: nat)
    requires i <= |offers|
  {
    Sound(ids, max, After(ids, max, start, offers, i))
  }

  lemma PromotedAt(ids: Ids, max: nat, start: seq<bytes>, offers: seq<bytes>, i: nat)
    requires 0 < max && i < |offers| && |start| <= max && Distinct(ids, start) && Promotes(ids, max, start, offers, i)
    ensures SoundAt(ids, max, start, offers, i + 1)
  {
    AlwaysBounded(ids, max, start, offers, i);
    PromotedSound(ids, max, After(ids, max, start, offers, i), offers[i]);
  }

  lemma SoundAtNext(ids: Ids, max: nat, start: seq<bytes>, offers: seq<bytes>, i: nat)
    requires 0 < max && i < |offers| && SoundAt(ids, max, start, offers, i)
    ensures SoundAt(ids, max, start, offers, i + 1)
  {
    SoundNext(ids, max, start, offers, i);
  }

  /** From any file, of one build or of several: once an offer has promoted a build, the pool is sound ever
      after. */
  lemma SoundOncePromoted(ids: Ids, max: nat, start: seq<bytes>, offers: seq<bytes>, i: nat, n: nat)
    requires 0 < max && i < n <= |offers| && |start| <= max && Distinct(ids, start)
    requires Promotes(ids, max, start, offers, i)
    ensures SoundAt(ids, max, start, offers, n)
  {
    PromotedAt(ids, max, start, offers, i);
    forall k: nat | i < k < n && SoundAt(ids, max, start, offers, k) ensures SoundAt(ids, max, start, offers, k + 1) {
      SoundAtNext(ids, max, start, offers, k);
    }
    StepByStep((m: nat) => m <= |offers| && SoundAt(ids, max, start, offers, m), i + 1, n);
  }

  // ------------------------------------------------------------------- provenance

  ghost predicate Among(hs: seq<bytes>, source: set<bytes>) {
    forall i :: 0 <= i < |hs| ==> hs[i] in source
  }

  lemma {:induction false} TrimAmong(drop: seq<bytes> -> nat, hs: seq<bytes>, budget: nat, source: set<bytes>)
    requires Among(hs, source)
    ensures Among(Trimmed(drop, hs, budget), source)
    decreases |hs|
  {
    if |hs| > budget {
      TrimAmong(drop, Removed(hs, Within(drop(hs), hs)), budget, source);
    }
  }

  lemma GroupAmong(ids: Ids, hs: seq<bytes>, b: Build, source: set<bytes>)
    requires Among(hs, source)
    ensures Among(Group(ids, hs, b), source)
  {
    GroupMembers(ids, hs, b);
  }

  /** An offer brings in nothing but the record offered. */
  lemma OfferAmong(ids: Ids, max: nat, p: Pool, rec: bytes, source: set<bytes>)
    requires Among(p.hellos, source) && Among(p.pending, source) && rec in source
    ensures Among(Offered(ids, max, p, rec).0.hellos, source) && Among(Offered(ids, max, p, rec).0.pending, source)
  {
    if ids.key(rec) !in Keys(ids, p.hellos) && p.hellos != [] && ids.build(rec) != ids.build(p.hellos[0]) && ids.key(rec) !in Keys(ids, p.pending) {
      var pending := p.pending + [rec];
      if |Largest(ids, pending)| <= |p.hellos| {
        TrimAmong(SmallestFirst(ids), pending, max + 1, source);
      } else {
        GroupAmong(ids, pending, LeaderOf(ids, pending, |pending|), source);
        NewestAmong(Largest(ids, pending), max, source);
      }
    } else {
      NewestAmong(p.hellos + [rec], max, source);
    }
  }

  lemma NewestAmong(hs: seq<bytes>, max: nat, source: set<bytes>)
    requires Among(hs, source)
    ensures Among(Newest(hs, max), source)
  {
  }

  lemma {:induction false} OnlyOffered(ids: Ids, max: nat, start: seq<bytes>, offers: seq<bytes>, i: nat, source: set<bytes>)
    requires i <= |offers| && Among(start, source) && Among(offers, source)
    ensures Among(After(ids, max, start, offers, i).hellos, source) && Among(After(ids, max, start, offers, i).pending, source)
    decreases i
  {
    if i > 0 {
      var n: nat := i - 1;
      OnlyOffered(ids, max, start, offers, n, source);
      OfferAmong(ids, max, After(ids, max, start, offers, n), offers[n], source);
    }
  }

  lemma TrimOne(drop: seq<bytes> -> nat, hs: seq<bytes>, budget: nat)
    requires |hs| == budget + 1
    ensures Trimmed(drop, hs, budget) == Removed(hs, Within(drop(hs), hs))
  {
  }

  /** A build that strictly leads what is held aside loses nothing to the bound: an offer that is held
      aside leaves it every sample it had, and the one just offered. */
  lemma LeaderKeepsSamples(ids: Ids, max: nat, p: Pool, rec: bytes, b: Build)
    requires 0 < max && Sound(ids, max, p)
    requires ids.key(rec) !in Keys(ids, p.hellos) && ids.key(rec) !in Keys(ids, p.pending)
    requires p.hellos != [] && ids.build(rec) != ids.build(p.hellos[0])
    requires StrictlyLeads(ids, p.pending + [rec], b) && !Offered(ids, max, p, rec).1
    ensures Count(ids, Offered(ids, max, p, rec).0.pending, b) == Count(ids, p.pending, b) + if ids.build(rec) == b then 1 else 0
  {
    var pending := p.pending + [rec];
    GroupSnoc(ids, p.pending, rec, b);
    if |pending| > max + 1 {
      if OneBuild(ids, pending, b) {
        AllOfOne(ids, pending, b);
        LeaderCount(ids, pending, b);
        assert false;
      }
      LeaderSpared(ids, pending, b);
      TrimOne(SmallestFirst(ids), pending, max + 1);
      CountRemoved(ids, pending, DropAt(ids, pending), b);
    }
  }

  /** A new build takes over: when its samples come to outnumber the pool, the pool is exactly the
      latest of them and nothing is held aside. */
  lemma TakesOver(ids: Ids, max: nat, p: Pool, rec: bytes)
    requires 0 < max && Sound(ids, max, p) && p.hellos != [] && ids.build(rec) != ids.build(p.hellos[0])
    requires ids.key(rec) !in Keys(ids, p.hellos) && ids.key(rec) !in Keys(ids, p.pending)
    ensures Offered(ids, max, p, rec).1 <==> Count(ids, p.pending, ids.build(rec)) == |p.hellos|
    ensures Offered(ids, max, p, rec).1 ==>
      Offered(ids, max, p, rec).0 == Pool(Newest(Group(ids, p.pending, ids.build(rec)) + [rec], max), [])
  {
    var pending, b := p.pending + [rec], ids.build(rec);
    var leader := LeaderOf(ids, pending, |pending|);
    GroupSnoc(ids, p.pending, rec, b);
    GroupSnoc(ids, p.pending, rec, leader);
    LeaderCount(ids, pending, b);
    assert Count(ids, p.pending, b) <= |p.hellos| && Count(ids, p.pending, leader) <= |p.hellos|;
  }

  // ------------------------------------------------------------------ loading

  lemma KeysSnoc(ids: Ids, hs: seq<bytes>, r: bytes)
    ensures Keys(ids, hs + [r]) == Keys(ids, hs) + {ids.key(r)}
  {
    var all := hs + [r];
    assert all[|hs|] == r;
    forall k | k in Keys(ids, hs) ensures k in Keys(ids, all) {
      var i :| 0 <= i < |hs| && ids.key(hs[i]) == k;
      assert all[i] == hs[i];
    }
  }

  function Grown(ids: Ids, ok: bytes -> bool, max: nat, hs: seq<bytes>, rec: bytes): (r: seq<bytes>)
    ensures |hs| <= max ==> |r| <= max
  {
    if |hs| < max && ok(rec) && ids.key(rec) !in Keys(ids, hs) then hs + [rec] else hs
  }

  /** The first max of the first i records that parse, without repeated keys. */
  function Loaded(ids: Ids, ok: bytes -> bool, max: nat, file: seq<bytes>, i: nat): (r: seq<bytes>)
    requires i <= |file|
    ensures |r| <= max
    decreases i
  {
    if i == 0 then [] else Grown(ids, ok, max, Loaded(ids, ok, max, file, i - 1), file[i - 1])
  }

  method Grow(ids: Ids, ok: bytes -> bool, max: nat, hs: seq<bytes>, ks: set<Key>, rec: bytes) returns (hs': seq<bytes>, ks': set<Key>)
    requires |hs| < max && ks == Keys(ids, hs)
    ensures hs' == Grown(ids, ok, max, hs, rec) && ks' == Keys(ids, hs')
  {
    hs', ks' := hs, ks;
    if ok(rec) && ids.key(rec) !in ks {
      KeysSnoc(ids, hs, rec);
      ks' := ks + {ids.key(rec)};
      hs' := hs + [rec];
    }
  }

  method Load(ids: Ids, ok: bytes -> bool, max: nat, file: seq<bytes>) returns (hs: seq<bytes>, ks: set<Key>)
    ensures hs == Loaded(ids, ok, max, file, |file|) && ks == Keys(ids, hs)
  {
    hs, ks := [], {};
    var i := 0;
    while i < |file|
      invariant 0 <= i <= |file| && hs == Loaded(ids, ok, max, file, i) && ks == Keys(ids, hs)
    {
      if |hs| >= max {
        break;
      }
      hs, ks := Grow(ids, ok, max, hs, ks, file[i]);
      i := i + 1;
    }
    LoadedFull(ids, ok, max, file, i);
  }

  lemma {:induction false} LoadedFull(ids: Ids, ok: bytes -> bool, max: nat, file: seq<bytes>, i: nat)
    requires i <= |file| && (i < |file| ==> |Loaded(ids, ok, max, file, i)| >= max)
    ensures Loaded(ids, ok, max, file, |file|) == Loaded(ids, ok, max, file, i)
    decreases |file| - i
  {
    if i < |file| {
      LoadedFull(ids, ok, max, file, i + 1);
    }
  }

  ghost predicate SingleBuild(ids: Ids, file: seq<bytes>) {
    forall i, j :: 0 <= i < |file| && 0 <= j < |file| ==> ids.build(file[i]) == ids.build(file[j])
  }

  ghost predicate Drawn(ids: Ids, hs: seq<bytes>, file: seq<bytes>) {
    Distinct(ids, hs) && forall k :: 0 <= k < |hs| ==> hs[k] in file
  }

  lemma GrownDrawn(ids: Ids, ok: bytes -> bool, max: nat, hs: seq<bytes>, rec: bytes, file: seq<bytes>)
    requires Drawn(ids, hs, file) && rec in file
    ensures Drawn(ids, Grown(ids, ok, max, hs, rec), file)
  {
    if ids.key(rec) !in Keys(ids, hs) {
      DistinctSnoc(ids, hs, rec);
    }
  }

  lemma {:induction false} LoadedDistinct(ids: Ids, ok: bytes -> bool, max: nat, file: seq<bytes>, i: nat)
    requires i <= |file|
    ensures Drawn(ids, Loaded(ids, ok, max, file, i), file)
    decreases i
  {
    if i > 0 {
      var n: nat := i - 1;
      LoadedDistinct(ids, ok, max, file, n);
      GrownDrawn(ids, ok, max, Loaded(ids, ok, max, file, n), file[n], file);
    }
  }

  lemma OneBuildDrawn(ids: Ids, file: seq<bytes>, hs: seq<bytes>)
    requires SingleBuild(ids, file) && Drawn(ids, hs, file) && hs != []
    ensures OneBuild(ids, hs, ids.build(hs[0]))
  {
    forall i | 0 <= i < |hs| ensures ids.build(hs[i]) == ids.build(hs[0]) {
      assert hs[i] in file && hs[0] in file;
    }
  }

  lemma LoadedSound(ids: Ids, ok: bytes -> bool, max: nat, file: seq<bytes>)
    requires 0 < max
    ensures Bounded(ids, max, Pool(Loaded(ids, ok, max, file, |file|), []))
    ensures SingleBuild(ids, file) ==> Sound(ids, max, Pool(Loaded(ids, ok, max, file, |file|), []))
  {
    var hs := Loaded(ids, ok, max, file, |file|);
    LoadedDistinct(ids, ok, max, file, |file|);
    if SingleBuild(ids, file) && hs != [] {
      OneBuildDrawn(ids, file, hs);
    }
  }
}
