/** The single-use gate on tickets (replay.go). Times are integers; a ticket is spent under the hash
    of its bytes. Calls are serialised by the cache's lock, but each brings a clock reading taken
    before it got the lock. */
module Replay {
  import opened Bytes
  import opened Sets
  import opened Runs

  /** One client's freshness record. */
  datatype Seen = Seen(newest: int, ties: set<bytes>, seenAt: int)

  type Clients = map<U64, Seen>

  /** One Consume, in lock order. The victim is the client the backstop drops, if it fires. */
  datatype Call = Call(id: U64, issued: int, key: bytes, now: int, victim: U64)

  /** The same ticket: one client, one issue time, one hash. */
  predicate SameTicket(a: Call, b: Call) {
    a.id == b.id && a.issued == b.issued && a.key == b.key
  }

  function Evicted(cs: Clients, now: int, horizon: int): Clients {
    map id | id in cs && now - cs[id].newest < horizon :: cs[id]
  }

  /** Least recently active; several clients may be. */
  predicate Oldest(cs: Clients, victim: U64) {
    victim in cs && forall id :: id in cs ==> cs[victim].seenAt <= cs[id].seenAt
  }

  predicate Drops(cs: Clients, horizon: int, max: nat, c: Call) {
    var kept := Evicted(cs, c.now, horizon);
    c.id !in kept && |kept| >= max
  }

  /** What one Consume answers and leaves. */
  function Step(cs: Clients, horizon: int, max: nat, c: Call): (bool, Clients) {
    var kept := Evicted(cs, c.now, horizon);
    if c.id !in kept then
      var room := if |kept| >= max then kept - {c.victim} else kept;
      (true, room[c.id := Seen(c.issued, {c.key}, c.now)])
    else
      var seen := kept[c.id];
      if c.issued > seen.newest then (true, kept[c.id := Seen(c.issued, {c.key}, c.now)])
      else if c.issued == seen.newest && c.key !in seen.ties then
        (true, kept[c.id := Seen(seen.newest, seen.ties + {c.key}, c.now)])
      else (false, kept)
  }

  /** If the backstop fires, it drops a least recently active client. */
  predicate TrueVictim(cs: Clients, horizon: int, max: nat, c: Call) {
    Drops(cs, horizon, max, c) ==> Oldest(Evicted(cs, c.now, horizon), c.victim)
  }

  class ReplayCache {
    const horizon: int
    const max: nat
    const hash: bytes -> bytes
    var clients: Clients

    /** Non-positive arguments fall back to 65536 clients and 24 hours. */
    constructor (max: int, horizon: int, hash: bytes -> bytes)
      ensures this.max == (if max <= 0 then 65536 else max)
      ensures this.horizon == (if horizon <= 0 then 86400 * 1_000_000_000 else horizon)
      ensures this.hash == hash && clients == map[]
    {
      this.max := if max <= 0 then 65536 else max;
      this.horizon := if horizon <= 0 then 86400 * 1_000_000_000 else horizon;
      this.hash := hash;
      clients := map[];
    }

    method Consume(id: U64, issued: int, ticket: bytes, now: int) returns (ok: bool, ghost victim: U64)
      requires 0 < max
      modifies this
      ensures (ok, clients) == Step(old(clients), horizon, max, Call(id, issued, hash(ticket), now, victim))
      ensures TrueVictim(old(clients), horizon, max, Call(id, issued, hash(ticket), now, victim))
    {
      victim := 0;
      var key := hash(ticket);
      EvictLocked(now);
      if id !in clients {
        victim := AdmitLocked(id, issued, key, now);
        return true, victim;
      }
      var seen := clients[id];
      if issued > seen.newest {
        clients := clients[id := Seen(issued, {key}, now)];
        ok := true;
      } else if issued == seen.newest {
        if key in seen.ties {
          return false, victim;
        }
        clients := clients[id := Seen(seen.newest, seen.ties + {key}, now)];
        ok := true;
      } else {
        ok := false;
      }
    }

    method AdmitLocked(id: U64, issued: int, key: bytes, now: int) returns (ghost victim: U64)
      requires 0 < max && id !in clients
      modifies this
      ensures clients == (if |old(clients)| >= max then old(clients) - {victim} else old(clients))[id := Seen(issued, {key}, now)]
      ensures |old(clients)| >= max ==> Oldest(old(clients), victim)
    {
      victim := 0;
      if |clients| >= max {
        victim := DropOldestLocked();
      }
      clients := clients[id := Seen(issued, {key}, now)];
    }

    /** Forgets the clients whose newest ticket has reached the horizon. */
    method EvictLocked(now: int)
      modifies this
      ensures clients == Evicted(old(clients), now, horizon)
    {
      ghost var was := clients;
      var ids := clients.Keys;
      while ids != {}
        invariant ids <= was.Keys
        invariant clients == map id | id in was && (id in ids || now - was[id].newest < horizon) :: was[id]
        decreases |ids|
      {
        var id :| id in ids;
        ids := ids - {id};
        if now - clients[id].newest >= horizon {
          clients := clients - {id};
        }
      }
    }

    method DropOldestLocked() returns (victim: U64)
      requires clients != map[]
      modifies this
      ensures Oldest(old(clients), victim) && clients == old(clients) - {victim}
    {
      var ids := clients.Keys;
      var oldest := 0;
      var first := true;
      victim := 0;
      while ids != {}
        invariant ids <= clients.Keys && (first ==> ids == clients.Keys)
        invariant !first ==> victim in clients && oldest == clients[victim].seenAt
        invariant !first ==> forall id :: id in clients && id !in ids ==> oldest <= clients[id].seenAt
        decreases |ids|
      {
        var id :| id in ids;
        ids := ids - {id};
        if first || clients[id].seenAt < oldest {
          victim, oldest, first := id, clients[id].seenAt, false;
        }
      }
      clients := clients - {victim};
    }
  }

  // --------------------------------------------------------------------- runs

  datatype Gate = Gate(horizon: int, max: nat)

  /** The clients after the first i calls on an empty cache. */
  function After(g: Gate, calls: seq<Call>, i: nat): Clients
    requires i <= |calls|
    decreases i
  {
    if i == 0 then map[] else Step(After(g, calls, i - 1), g.horizon, g.max, calls[i - 1]).1
  }

  predicate Accepts(g: Gate, calls: seq<Call>, i: nat)
    requires i < |calls|
  {
    Step(After(g, calls, i), g.horizon, g.max, calls[i]).0
  }

  /** The backstop fires at call i. */
  predicate Overflows(g: Gate, calls: seq<Call>, i: nat)
    requires i < |calls|
  {
    Drops(After(g, calls, i), g.horizon, g.max, calls[i])
  }

  /** The backstop drops this client at call i. */
  predicate Forgets(g: Gate, calls: seq<Call>, i: nat, id: U64)
    requires i < |calls|
  {
    Overflows(g, calls, i) && calls[i].victim == id
  }

  /** The record refuses this ticket. */
  predicate Guards(cs: Clients, c: Call) {
    c.id in cs && (cs[c.id].newest > c.issued || (cs[c.id].newest == c.issued && c.key in cs[c.id].ties))
  }

  /** An accepted ticket is guarded at once. */
  lemma AcceptGuards(cs: Clients, horizon: int, max: nat, c: Call)
    requires Step(cs, horizon, max, c).0
    ensures Guards(Step(cs, horizon, max, c).1, c)
  {
  }

  /** A guarded ticket stays guarded through a call whose clock has not reached its horizon, unless
      the backstop drops its client. */
  lemma GuardStays(cs: Clients, horizon: int, max: nat, c: Call, spent: Call)
    requires Guards(cs, spent) && c.now - spent.issued < horizon
    requires !(Drops(cs, horizon, max, c) && c.victim == spent.id)
    ensures Guards(Step(cs, horizon, max, c).1, spent)
    ensures SameTicket(c, spent) ==> !Step(cs, horizon, max, c).0
  {
    assert spent.id in Evicted(cs, c.now, horizon);
  }

  lemma GuardNext(g: Gate, calls: seq<Call>, k: nat, spent: Call)
    requires k < |calls| && Guards(After(g, calls, k), spent)
    requires calls[k].now - spent.issued < g.horizon && !Forgets(g, calls, k, spent.id)
    ensures Guards(After(g, calls, k + 1), spent)
    ensures SameTicket(calls[k], spent) ==> !Accepts(g, calls, k)
  {
    GuardStays(After(g, calls, k), g.horizon, g.max, calls[k], spent);
  }

  lemma {:induction false} GuardLasts(g: Gate, calls: seq<Call>, i: nat, j: nat)
    requires i < j <= |calls| && Accepts(g, calls, i)
    requires forall k :: i < k < j ==> calls[k].now - calls[i].issued < g.horizon
    requires forall k :: i < k < j ==> !Forgets(g, calls, k, calls[i].id)
    ensures Guards(After(g, calls, j), calls[i])
    decreases j
  {
    var k: nat := j - 1;
    if k == i {
      AcceptGuards(After(g, calls, i), g.horizon, g.max, calls[i]);
    } else {
      GuardLasts(g, calls, i, k);
      assert !Forgets(g, calls, k, calls[i].id);
      GuardNext(g, calls, k, calls[i]);
    }
  }

  /** No ticket is accepted twice: a second presentation is refused as long as no call since the
      first read a clock at or past the ticket's horizon and the backstop left its client alone. */
  lemma NeverTwice(g: Gate, calls: seq<Call>, i: nat, j: nat)
    requires i < j < |calls| && SameTicket(calls[i], calls[j])
    requires Accepts(g, calls, i)
    requires forall k :: i < k <= j ==> calls[k].now - calls[i].issued < g.horizon
    requires forall k :: i < k <= j ==> !Forgets(g, calls, k, calls[i].id)
    ensures !Accepts(g, calls, j)
  {
    GuardLasts(g, calls, i, j);
    assert !Forgets(g, calls, j, calls[i].id);
    GuardNext(g, calls, j, calls[i]);
  }

  /** No call after i and before j read a clock more than skew after the reading of call j. */
  predicate WithinSkew(calls: seq<Call>, i: nat, j: nat, skew: nat)
    requires j < |calls|
  {
    forall k :: i < k < j ==> calls[k].now <= calls[j].now + skew
  }

  /** The backstop leaves a client alone from after call i up to and including call j. */
  predicate Remembered(g: Gate, calls: seq<Call>, i: nat, j: nat, id: U64)
    requires j < |calls|
  {
    forall k :: i < k <= j ==> !Forgets(g, calls, k, id)
  }

  /** When the readings since the first presentation are at most skew ahead of the second's, it is
      enough that the second presentation is more than the skew below the horizon. */
  lemma NeverTwiceWithinSkew(g: Gate, calls: seq<Call>, i: nat, j: nat, skew: nat)
    requires i < j < |calls| && SameTicket(calls[i], calls[j])
    requires WithinSkew(calls, i, j, skew) && calls[j].now - calls[j].issued + skew < g.horizon
    requires Remembered(g, calls, i, j, calls[i].id)
    ensures !(Accepts(g, calls, i) && Accepts(g, calls, j))
  {
    if Accepts(g, calls, i) {
      NeverTwice(g, calls, i, j);
    }
  }

  /** Clock readings do not run backwards in lock order. */
  predicate InOrder(calls: seq<Call>) {
    forall m, n :: 0 <= m < n < |calls| ==> calls[m].now <= calls[n].now
  }

  /** With the clock readings in lock order, it is enough that the ticket itself is presented below
      the horizon. */
  lemma NeverTwiceInOrder(g: Gate, calls: seq<Call>, i: nat, j: nat)
    requires i < j < |calls| && SameTicket(calls[i], calls[j])
    requires InOrder(calls) && calls[j].now - calls[j].issued < g.horizon
    requires Remembered(g, calls, i, j, calls[i].id)
    ensures !(Accepts(g, calls, i) && Accepts(g, calls, j))
  {
    NeverTwiceWithinSkew(g, calls, i, j, 0);
  }

  /** What is left of a spent ticket that was its client's last: while it is held, its client's record
      carries its issue time and its hash; once it is gone, so is the record. */
  predicate HeldOrGone(cs: Clients, spent: Call, held: bool) {
    if held then spent.id in cs && cs[spent.id].newest == spent.issued && spent.key in cs[spent.id].ties
    else spent.id !in cs
  }

  /** A call that does not admit the client keeps its ticket held exactly when it reads a clock below
      the ticket's horizon and the backstop does not drop the client. */
  lemma HeldStep(cs: Clients, horizon: int, max: nat, c: Call, spent: Call, held: bool)
    requires HeldOrGone(cs, spent, held)
    requires c.id == spent.id ==> !Step(cs, horizon, max, c).0
    ensures HeldOrGone(Step(cs, horizon, max, c).1, spent,
                       held && c.now - spent.issued < horizon && !(Drops(cs, horizon, max, c) && c.victim == spent.id))
  {
    assert held ==> (spent.id in Evicted(cs, c.now, horizon) <==> c.now - spent.issued < horizon);
  }

  /** Call k ends what the cache remembers of the ticket spent at call i: it reads a clock at or past
      the ticket's horizon, or the backstop drops the client at it. */
  predicate Lapses(g: Gate, calls: seq<Call>, i: nat, k: nat)
    requires i < |calls| && k < |calls|
  {
    calls[k].now - calls[i].issued >= g.horizon || Forgets(g, calls, k, calls[i].id)
  }

  /** Some call after i and before j does. */
  predicate Lapsed(g: Gate, calls: seq<Call>, i: nat, j: nat)
    requires i < |calls| && j <= |calls|
  {
    exists k :: i < k < j && Lapses(g, calls, i, k)
  }

  predicate Admits(g: Gate, calls: seq<Call>, k: nat, id: U64)
    requires k < |calls|
  {
    calls[k].id == id && Accepts(g, calls, k)
  }

  /** No call after i and before j admits a ticket of this client. */
  predicate NoneAdmitted(g: Gate, calls: seq<Call>, i: nat, j: nat, id: U64)
    requires j <= |calls|
  {
    forall k :: i < k < j ==> !Admits(g, calls, k, id)
  }

  /** The ticket spent at call i is held before call m as long as nothing between made it lapse. */
  predicate HeldAt(g: Gate, calls: seq<Call>, i: nat, m: nat)
    requires i < |calls| && m <= |calls|
  {
    HeldOrGone(After(g, calls, m), calls[i], !Lapsed(g, calls, i, m))
  }

  lemma HeldNext(g: Gate, calls: seq<Call>, i: nat, k: nat)
    requires i < k < |calls| && !Admits(g, calls, k, calls[i].id)
    requires HeldAt(g, calls, i, k)
    ensures HeldAt(g, calls, i, k + 1)
  {
    HeldStep(After(g, calls, k), g.horizon, g.max, calls[k], calls[i], !Lapsed(g, calls, i, k));
    assert Lapsed(g, calls, i, k + 1) <==> Lapsed(g, calls, i, k) || Lapses(g, calls, i, k);
  }

  lemma HeldFirst(g: Gate, calls: seq<Call>, i: nat)
    requires i < |calls| && Accepts(g, calls, i)
    ensures HeldAt(g, calls, i, i + 1)
  {
    assert !Lapsed(g, calls, i, i + 1);
  }

  lemma HeldUntil(g: Gate, calls: seq<Call>, i: nat, j: nat)
    requires i < j <= |calls| && Accepts(g, calls, i) && NoneAdmitted(g, calls, i, j, calls[i].id)
    ensures HeldAt(g, calls, i, j)
  {
    HeldFirst(g, calls, i);
    forall k: nat | i < k < j && HeldAt(g, calls, i, k) ensures HeldAt(g, calls, i, k + 1) {
      assert !Admits(g, calls, k, calls[i].id);
      HeldNext(g, calls, i, k);
    }
    StepByStep((m: nat) => m <= |calls| && HeldAt(g, calls, i, m), i + 1, j);
  }

  /** The first admission of the client after its ticket was spent, if it presents that ticket again: it
      happens exactly when some call since, itself included, read a clock at or past the ticket's
      horizon or made the backstop drop the client. */
  lemma FirstRepeat(g: Gate, calls: seq<Call>, i: nat, j: nat)
    requires i < j < |calls| && SameTicket(calls[i], calls[j])
    requires Accepts(g, calls, i) && NoneAdmitted(g, calls, i, j, calls[i].id)
    ensures Accepts(g, calls, j) <==> exists k :: i < k <= j && Lapses(g, calls, i, k)
  {
    HeldUntil(g, calls, i, j);
    assert Lapsed(g, calls, i, j + 1) <==> Lapsed(g, calls, i, j) || Lapses(g, calls, i, j);
  }

  /** A call takes a client's record away: its newest ticket has reached the horizon, or the backstop
      drops it. */
  predicate Ousts(cs: Clients, horizon: int, max: nat, c: Call, id: U64) {
    id in cs && (c.now - cs[id].newest >= horizon || (Drops(cs, horizon, max, c) && c.victim == id))
  }

  /** A call that renews the guard over a ticket: the same one, or a newer one of its client. */
  predicate Renews(c: Call, t: Call) {
    c.id == t.id && (c.issued > t.issued || (c.issued == t.issued && c.key == t.key))
  }

  /** One call decides whether a ticket is guarded after it: exactly when the call is accepted and renews
      the guard, or the ticket was guarded and the call does not oust its client. */
  lemma GuardStep(cs: Clients, horizon: int, max: nat, c: Call, t: Call)
    ensures var (ok, after) := Step(cs, horizon, max, c);
            Guards(after, t) <==> (ok && Renews(c, t)) || (Guards(cs, t) && !Ousts(cs, horizon, max, c, t.id))
  {
    assert t.id in cs ==> (t.id in Evicted(cs, c.now, horizon) <==> c.now - cs[t.id].newest < horizon);
  }

  /** A repeated ticket is refused exactly when it is guarded and the call does not oust its client. */
  lemma RepeatStep(cs: Clients, horizon: int, max: nat, c: Call)
    ensures Step(cs, horizon, max, c).0 <==> !Guards(cs, c) || Ousts(cs, horizon, max, c, c.id)
  {
    assert c.id in cs ==> (c.id in Evicted(cs, c.now, horizon) <==> c.now - cs[c.id].newest < horizon);
  }

  predicate OustsAt(g: Gate, calls: seq<Call>, k: nat, id: U64)
    requires k < |calls|
  {
    Ousts(After(g, calls, k), g.horizon, g.max, calls[k], id)
  }

  predicate RenewsAt(g: Gate, calls: seq<Call>, n: nat, t: Call)
    requires n < |calls|
  {
    Accepts(g, calls, n) && Renews(calls[n], t)
  }

  predicate Renewed(g: Gate, calls: seq<Call>, k: nat, j: nat, t: Call)
    requires j <= |calls|
  {
    exists n :: k <= n < j && RenewsAt(g, calls, n, t)
  }

  /** Some call after i and before j ousted the ticket's client, and none from then on renewed the guard. */
  predicate Lost(g: Gate, calls: seq<Call>, i: nat, j: nat, t: Call)
    requires j <= |calls|
  {
    exists k :: i < k < j && OustsAt(g, calls, k, t.id) && !Renewed(g, calls, k, j, t)
  }

  lemma RenewedNext(g: Gate, calls: seq<Call>, k: nat, m: nat, t: Call)
    requires k <= m < |calls|
    ensures Renewed(g, calls, k, m + 1, t) <==> Renewed(g, calls, k, m, t) || RenewsAt(g, calls, m, t)
  {
  }

  lemma LostNext(g: Gate, calls: seq<Call>, i: nat, m: nat, t: Call)
    requires i < m < |calls|
    ensures Lost(g, calls, i, m + 1, t)
            <==> !RenewsAt(g, calls, m, t) && (Lost(g, calls, i, m, t) || OustsAt(g, calls, m, t.id))
  {
    forall k: nat | k <= m ensures Renewed(g, calls, k, m + 1, t) <==> Renewed(g, calls, k, m, t) || RenewsAt(g, calls, m, t) {
      RenewedNext(g, calls, k, m, t);
    }
    assert !Renewed(g, calls, m, m, t);
  }

  /** The ticket spent at call i is guarded before call m exactly when it is not lost by then. */
  predicate GuardedAt(g: Gate, calls: seq<Call>, i: nat, m: nat)
    requires i < |calls| && m <= |calls|
  {
    Guards(After(g, calls, m), calls[i]) <==> !Lost(g, calls, i, m, calls[i])
  }

  lemma GuardedNext(g: Gate, calls: seq<Call>, i: nat, m: nat)
    requires i < m < |calls| && GuardedAt(g, calls, i, m)
    ensures GuardedAt(g, calls, i, m + 1)
  {
    GuardStep(After(g, calls, m), g.horizon, g.max, calls[m], calls[i]);
    LostNext(g, calls, i, m, calls[i]);
  }

  lemma GuardedFirst(g: Gate, calls: seq<Call>, i: nat)
    requires i < |calls| && Accepts(g, calls, i)
    ensures GuardedAt(g, calls, i, i + 1)
  {
    AcceptGuards(After(g, calls, i), g.horizon, g.max, calls[i]);
  }

  lemma GuardedUntil(g: Gate, calls: seq<Call>, i: nat, j: nat)
    requires i < j <= |calls| && Accepts(g, calls, i)
    ensures GuardedAt(g, calls, i, j)
  {
    GuardedFirst(g, calls, i);
    forall m: nat | i < m < j && GuardedAt(g, calls, i, m) ensures GuardedAt(g, calls, i, m + 1) {
      GuardedNext(g, calls, i, m);
    }
    StepByStep((m: nat) => m <= |calls| && GuardedAt(g, calls, i, m), i + 1, j);
  }

  /** The promise and its failure in one, for every run and whatever the client presented in between: a
      ticket once accepted is accepted again exactly when this very call ousts its client, or an earlier
      one since did and no call from then on was accepted with that ticket or a newer one. */
  lemma TwiceExactly(g: Gate, calls: seq<Call>, i: nat, j: nat)
    requires i < j < |calls| && SameTicket(calls[i], calls[j]) && Accepts(g, calls, i)
    ensures Accepts(g, calls, j) <==> OustsAt(g, calls, j, calls[i].id) || Lost(g, calls, i, j, calls[i])
  {
    GuardedUntil(g, calls, i, j);
    RepeatStep(After(g, calls, j), g.horizon, g.max, calls[j]);
  }

  /** Exactly when the next call repeats an accepted ticket successfully: at or past the horizon. */
  lemma RepeatAccepted(cs: Clients, horizon: int, max: nat, c: Call, again: Call)
    requires Step(cs, horizon, max, c).0 && SameTicket(c, again)
    ensures Step(Step(cs, horizon, max, c).1, horizon, max, again).0 <==> again.now - c.issued >= horizon
  {
    var cs1 := Step(cs, horizon, max, c).1;
    AcceptGuards(cs, horizon, max, c);
    assert cs1[c.id].newest == c.issued;
    assert c.id in Evicted(cs1, again.now, horizon) <==> again.now - c.issued < horizon;
  }

  /** A ticket whose age equals both the maximum age and the horizon passes the age check and is
      spent twice: the gate evicts at the horizon, the age check refuses only beyond it. */
  lemma TwiceAtTheHorizon(maxAge: int)
    requires 0 < maxAge
    ensures var g, call := Gate(maxAge, 65536), Call(7, 0, [1], maxAge, 0);
            var calls := [call, call];
            && !(call.now - call.issued > maxAge)
            && Accepts(g, calls, 0) && Accepts(g, calls, 1)
  {
    var g, call := Gate(maxAge, 65536), Call(7, 0, [1], maxAge, 0);
    var calls := [call, call];
    assert After(g, calls, 0) == map[];
    assert Evicted(map[], maxAge, maxAge) == map[];
    assert Step(map[], maxAge, 65536, call).0;
    RepeatAccepted(map[], maxAge, 65536, call, call);
    assert After(g, calls, 1) == Step(After(g, calls, 0), maxAge, 65536, call).1;
  }

  /** The clock is read before the lock is taken. A late reading that gets the lock first evicts a
      ticket that is then spent again under an earlier reading, at an age well below the horizon. */
  lemma TwiceOutOfOrder(horizon: int)
    requires 2 <= horizon
    ensures var g := Gate(horizon, 65536);
            var calls := [Call(7, 0, [1], 0, 0), Call(8, horizon, [2], horizon, 0), Call(7, 0, [1], 1, 0)];
            && (forall k :: 0 <= k < 3 ==> calls[k].now - calls[k].issued < horizon)
            && Accepts(g, calls, 0) && Accepts(g, calls, 2)
  {
    var g := Gate(horizon, 65536);
    var calls := [Call(7, 0, [1], 0, 0), Call(8, horizon, [2], horizon, 0), Call(7, 0, [1], 1, 0)];
    assert After(g, calls, 0) == map[];
    assert Evicted(map[], 0, horizon) == map[];
    var c1 := map[7 := Seen(0, {[1]}, 0)];
    assert After(g, calls, 1) == c1;
    assert Evicted(c1, horizon, horizon) == map[];
    var c2 := map[8 := Seen(horizon, {[2]}, horizon)];
    assert After(g, calls, 2) == c2;
    assert 7 !in Evicted(c2, 1, horizon);
  }

  // ------------------------------------------------------------------- bounds

  /** The backstop picks the least recently active client it tracks. */
  predicate RealVictim(g: Gate, calls: seq<Call>, i: nat)
    requires i < |calls|
  {
    TrueVictim(After(g, calls, i), g.horizon, g.max, calls[i])
  }

  lemma StepSize(cs: Clients, horizon: int, max: nat, c: Call)
    requires 0 < max && |cs| <= max
    requires TrueVictim(cs, horizon, max, c)
    ensures |Step(cs, horizon, max, c).1| <= max
  {
    var kept := Evicted(cs, c.now, horizon);
    SubsetSize(kept.Keys, cs.Keys);
    if c.id !in kept {
      var room := if |kept| >= max then kept - {c.victim} else kept;
      if |kept| >= max {
        assert room.Keys == kept.Keys - {c.victim};
        assert |room.Keys| == |kept.Keys| - 1;
      }
      assert room[c.id := Seen(c.issued, {c.key}, c.now)].Keys == room.Keys + {c.id};
    } else {
      var seen := Step(cs, horizon, max, c).1;
      assert seen.Keys == kept.Keys;
    }
  }

  lemma BoundedNext(g: Gate, calls: seq<Call>, i: nat)
    requires 0 < g.max && i < |calls| && RealVictim(g, calls, i)
    requires |After(g, calls, i)| <= g.max
    ensures |After(g, calls, i + 1)| <= g.max
  {
    StepSize(After(g, calls, i), g.horizon, g.max, calls[i]);
  }

  predicate BoundedAt(g: Gate, calls: seq<Call>, i: nat)
    requires i <= |calls|
  {
    |After(g, calls, i)| <= g.max
  }

  /** The tracked set never exceeds its bound. */
  lemma Bounded(g: Gate, calls: seq<Call>, i: nat)
    requires 0 < g.max && i <= |calls|
    requires forall k :: 0 <= k < |calls| ==> RealVictim(g, calls, k)
    ensures |After(g, calls, i)| <= g.max
  {
    assert BoundedAt(g, calls, 0);
    forall k: nat | k < i && BoundedAt(g, calls, k) ensures BoundedAt(g, calls, k + 1) {
      BoundedNext(g, calls, k);
    }
    StepByStep((m: nat) => m <= |calls| && BoundedAt(g, calls, m), 0, i);
  }

  // -------------------------------------------------------------- who is let in

  predicate SpentAt(g: Gate, calls: seq<Call>, k: nat, id: U64, issued: int, key: bytes)
    requires k < |calls|
  {
    Accepts(g, calls, k) && calls[k].id == id && calls[k].issued == issued && calls[k].key == key
  }

  /** Some call before i accepted a ticket of this client with this issue time and this hash. */
  predicate Spent(g: Gate, calls: seq<Call>, i: nat, id: U64, issued: int, key: bytes)
    requires i <= |calls|
  {
    exists k :: 0 <= k < i && SpentAt(g, calls, k, id, issued, key)
  }

  /** No call before i accepted a ticket of this client issued later. */
  ghost predicate NoneNewer(g: Gate, calls: seq<Call>, i: nat, id: U64, issued: int)
    requires i <= |calls|
  {
    forall later, key :: Spent(g, calls, i, id, later, key) ==> later <= issued
  }

  /** A record is made of tickets accepted before: its newest time is one of theirs, and its ties are
      hashes spent at that time. */
  ghost predicate Justified(g: Gate, calls: seq<Call>, i: nat, id: U64, seen: Seen)
    requires i <= |calls|
  {
    && (exists key :: Spent(g, calls, i, id, seen.newest, key))
    && (forall key :: key in seen.ties ==> Spent(g, calls, i, id, seen.newest, key))
  }

  lemma JustifiedLater(g: Gate, calls: seq<Call>, i: nat, id: U64, seen: Seen)
    requires i < |calls| && Justified(g, calls, i, id, seen)
    ensures Justified(g, calls, i + 1, id, seen)
  {
    forall key | Spent(g, calls, i, id, seen.newest, key) ensures Spent(g, calls, i + 1, id, seen.newest, key) {
      SpentLater(g, calls, i, i + 1, id, seen.newest, key);
    }
  }

  lemma SpentNow(g: Gate, calls: seq<Call>, i: nat)
    requires i < |calls| && Accepts(g, calls, i)
    ensures Spent(g, calls, i + 1, calls[i].id, calls[i].issued, calls[i].key)
  {
    assert SpentAt(g, calls, i, calls[i].id, calls[i].issued, calls[i].key);
  }

  lemma SpentLater(g: Gate, calls: seq<Call>, i: nat, j: nat, id: U64, issued: int, key: bytes)
    requires i <= j <= |calls| && Spent(g, calls, i, id, issued, key)
    ensures Spent(g, calls, j, id, issued, key)
  {
  }

  /** A record after a call is the one before it, or is made of the ticket just accepted and, at
      the same second, the ties before it. */
  lemma StepRecord(cs: Clients, horizon: int, max: nat, c: Call, id: U64)
    requires id in Step(cs, horizon, max, c).1
    ensures var seen := Step(cs, horizon, max, c).1[id];
            || (id in cs && seen == cs[id])
            || (id == c.id && Step(cs, horizon, max, c).0 && seen.newest == c.issued
                && (seen.ties == {c.key} || (id in cs && cs[id].newest == c.issued && seen.ties == cs[id].ties + {c.key})))
  {
  }

  lemma RecordNext(g: Gate, calls: seq<Call>, i: nat, id: U64)
    requires i < |calls| && id in After(g, calls, i + 1)
    requires id in After(g, calls, i) ==> Justified(g, calls, i, id, After(g, calls, i)[id])
    ensures Justified(g, calls, i + 1, id, After(g, calls, i + 1)[id])
  {
    var cs, seen := After(g, calls, i), After(g, calls, i + 1)[id];
    StepRecord(cs, g.horizon, g.max, calls[i], id);
    if id in cs {
      JustifiedLater(g, calls, i, id, cs[id]);
    }
    if !(id in cs && seen == cs[id]) {
      SpentNow(g, calls, i);
    }
  }

  ghost predicate JustifiedAt(g: Gate, calls: seq<Call>, i: nat, id: U64)
    requires i <= |calls|
  {
    id in After(g, calls, i) ==> Justified(g, calls, i, id, After(g, calls, i)[id])
  }

  lemma RecordsJustified(g: Gate, calls: seq<Call>, i: nat, id: U64)
    requires i <= |calls|
    ensures JustifiedAt(g, calls, i, id)
  {
    assert JustifiedAt(g, calls, 0, id);
    forall k: nat | k < i && JustifiedAt(g, calls, k, id) ensures JustifiedAt(g, calls, k + 1, id) {
      if id in After(g, calls, k + 1) {
        RecordNext(g, calls, k, id);
      }
    }
    StepByStep((m: nat) => m <= |calls| && JustifiedAt(g, calls, m, id), 0, i);
  }

  /** A ticket never spent before, and not older than any spent ticket of its client, is accepted,
      whatever the clocks read and whatever was evicted. */
  lemma FreshAccepted(g: Gate, calls: seq<Call>, i: nat)
    requires i < |calls|
    requires !Spent(g, calls, i, calls[i].id, calls[i].issued, calls[i].key)
    requires NoneNewer(g, calls, i, calls[i].id, calls[i].issued)
    ensures Accepts(g, calls, i)
  {
    var id := calls[i].id;
    if id in After(g, calls, i) {
      RecordsJustified(g, calls, i, id);
    }
  }

  /** The two tickets of one credential carry one issue time. With none newer spent, both are
      accepted, in either order and with any calls of other clients between them. */
  lemma BothSpendable(g: Gate, calls: seq<Call>, i: nat, j: nat)
    requires i < j < |calls|
    requires calls[i].id == calls[j].id && calls[i].issued == calls[j].issued && calls[i].key != calls[j].key
    requires !Spent(g, calls, i, calls[i].id, calls[i].issued, calls[i].key)
    requires !Spent(g, calls, j, calls[j].id, calls[j].issued, calls[j].key)
    requires NoneNewer(g, calls, j, calls[i].id, calls[i].issued)
    ensures Accepts(g, calls, i) && Accepts(g, calls, j)
  {
    forall later, key | Spent(g, calls, i, calls[i].id, later, key) ensures later <= calls[i].issued {
      SpentLater(g, calls, i, j, calls[i].id, later, key);
    }
    FreshAccepted(g, calls, i);
    FreshAccepted(g, calls, j);
  }

  // ------------------------------------------------------------------ activity

  /** Call k is the last before call i at which a ticket of this client was accepted. */
  predicate LastAdmission(g: Gate, calls: seq<Call>, i: nat, k: nat, id: U64)
    requires i <= |calls|
  {
    k < i && Admits(g, calls, k, id) && NoneAdmitted(g, calls, k, i, id)
  }

  /** A record is left by a call of the client that is accepted, and by no other. */
  lemma RecordStep(cs: Clients, horizon: int, max: nat, c: Call, id: U64)
    ensures var (ok, after) := Step(cs, horizon, max, c);
            id in after ==> if c.id == id && ok then after[id].seenAt == c.now && after[id].newest == c.issued && c.key in after[id].ties
                            else id in cs && after[id] == cs[id]
  {
  }

  /** The record held of a client is the one call k left. */
  predicate LeftBy(cs: Clients, id: U64, c: Call) {
    id in cs && cs[id].seenAt == c.now && cs[id].newest == c.issued && c.key in cs[id].ties
  }

  lemma AdmissionNext(g: Gate, calls: seq<Call>, i: nat, k: nat, id: U64)
    requires i < |calls| && LastAdmission(g, calls, i, k, id) && !Admits(g, calls, i, id)
    ensures LastAdmission(g, calls, i + 1, k, id)
  {
  }

  lemma KeptOrLeft(g: Gate, calls: seq<Call>, i: nat, id: U64)
    requires i < |calls| && id in After(g, calls, i + 1)
    ensures if Admits(g, calls, i, id) then LeftBy(After(g, calls, i + 1), id, calls[i])
            else id in After(g, calls, i) && After(g, calls, i + 1)[id] == After(g, calls, i)[id]
  {
    RecordStep(After(g, calls, i), g.horizon, g.max, calls[i], id);
  }

  /** What the cache holds of a client dates from its last accepted call: when it was active is the clock that
      call read, and the newest ticket is the one it presented. */
  lemma {:induction false} RecordIsLast(g: Gate, calls: seq<Call>, i: nat, id: U64) returns (k: nat)
    requires i <= |calls| && id in After(g, calls, i)
    ensures LastAdmission(g, calls, i, k, id) && LeftBy(After(g, calls, i), id, calls[k])
    decreases i
  {
    var n: nat := i - 1;
    KeptOrLeft(g, calls, n, id);
    if Admits(g, calls, n, id) {
      k := n;
    } else {
      k := RecordIsLast(g, calls, n, id);
      AdmissionNext(g, calls, n, k, id);
    }
  }

  /** When the backstop fires it drops the client whose last accepted call read the earliest clock, among
      those still held at that moment. */
  lemma DropsLeastRecent(g: Gate, calls: seq<Call>, i: nat, id: U64) returns (v: nat, k: nat)
    requires i < |calls| && Overflows(g, calls, i) && TrueVictim(After(g, calls, i), g.horizon, g.max, calls[i])
    requires id in Evicted(After(g, calls, i), calls[i].now, g.horizon)
    ensures LastAdmission(g, calls, i, v, calls[i].victim) && LastAdmission(g, calls, i, k, id)
    ensures calls[v].now <= calls[k].now
  {
    v := RecordIsLast(g, calls, i, calls[i].victim);
    k := RecordIsLast(g, calls, i, id);
  }

  // --------------------------------------------------------------- what is forgotten

  /** The other clients, at any call: one is forgotten only at its horizon or by the backstop, which fires only
      for a client not held and only when max or more are; else its record stays as it is, and none appears. */
  lemma OthersStay(g: Gate, calls: seq<Call>, i: nat, id: U64)
    requires i < |calls| && id != calls[i].id
    ensures var cs, after, c := After(g, calls, i), After(g, calls, i + 1), calls[i];
            var live := Evicted(cs, c.now, g.horizon);
            && (forall j :: j in live <==> j in cs && c.now - cs[j].newest < g.horizon)
            && (id in after <==> id in live && !(c.id !in live && |live| >= g.max && c.victim == id))
            && (id in after ==> after[id] == cs[id])
  {
  }
}
