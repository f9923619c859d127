/** Every record that reaches a Server call sharing a ticket key and a replay cache, recognised or not
    (handshake.go Server): no ticket is answered twice. */
module ServerRuns {
  import opened Bytes
  import opened Twiddle
  import opened Opening
  import opened Replay
  import opened Runs
  import opened ServerGate

  /** One Server call that got a record: its profile, its two clock readings, the client the backstop drops
      if it fires, its draws, and whether the socket takes its two records. Calls stand in the order in
      which they get the cache's lock. */
  datatype Visit = Visit(
    profile: Profile, dh: DH, rec: bytes, verifiedAt: int, spentAt: int, victim: U64, draws: ServerDraws, goes: bool)

  ghost function BeginOn(v: Server, x: Visit, before: Clients): Begun
    requires Configured(v)
  {
    Begin(v.crypto, x.dh, x.profile, v.maxAge, x.verifiedAt,
          Spending(v.gate.horizon, v.gate.max, v.hash, x.spentAt, x.victim), before, x.draws, x.goes, x.rec)
  }

  /** The cache after the first i calls. */
  ghost function CacheAfter(v: Server, xs: seq<Visit>, i: nat): Clients
    requires Configured(v) && i <= |xs|
    decreases i
  {
    if i == 0 then map[] else BeginOn(v, xs[i - 1], CacheAfter(v, xs, i - 1)).clients
  }

  /** What call i does. */
  ghost function BegunAt(v: Server, xs: seq<Visit>, i: nat): Begun
    requires Configured(v) && i < |xs|
  {
    BeginOn(v, xs[i], CacheAfter(v, xs, i))
  }

  /** The hello is recognised, so the call presents a ticket to the cache. */
  ghost predicate Presents(v: Server, x: Visit)
    requires Configured(v)
  {
    Recognised(v.crypto, x.profile.cover, v.maxAge, x.verifiedAt, x.rec).Some?
  }

  /** Once its ticket is accepted, the call gets its reply out. */
  ghost predicate Answerable(v: Server, x: Visit)
    requires Configured(v) && Presents(v, x)
  {
    var (h, auth) := Recognised(v.crypto, x.profile.cover, v.maxAge, x.verifiedAt, x.rec).value;
    x.goes && Reply(x.dh, x.profile, x.draws, x.rec, h, auth).Some?
  }

  ghost function AttemptOf(v: Server, x: Visit): (a: Attempt)
    requires Configured(v) && Presents(v, x)
    ensures Authentic(v, a) && a.verifiedAt == x.verifiedAt && a.spentAt == x.spentAt && a.victim == x.victim
  {
    var h := Recognised(v.crypto, x.profile.cover, v.maxAge, x.verifiedAt, x.rec).value.0;
    Attempt(x.profile.cover, h, x.verifiedAt, x.spentAt, x.victim)
  }

  /** The ticket a call presents. */
  ghost function Ticket(v: Server, x: Visit): bytes
    requires Configured(v) && Presents(v, x)
  {
    TicketOf(AttemptOf(v, x))
  }

  /** What each call presents to the cache. */
  ghost function Picks(v: Server, xs: seq<Visit>): nat -> Option<Attempt>
    requires Configured(v)
  {
    (k: nat) => if k < |xs| && Presents(v, xs[k]) then Some(AttemptOf(v, xs[k])) else None
  }

  /** The attempts among the first i calls. */
  ghost function Attempts(v: Server, xs: seq<Visit>, i: nat): (run: seq<Attempt>)
    requires Configured(v) && i <= |xs|
    ensures AllAuthentic(v, run)
  {
    KeptAll(Picks(v, xs), i, a => Authentic(v, a));
    Kept(Picks(v, xs), i)
  }

  ghost function AllCalls(v: Server, xs: seq<Visit>): seq<Call>
    requires Configured(v)
  {
    Calls(v, Attempts(v, xs, |xs|))
  }

  /** Where call i stands among those that present a ticket. */
  ghost function Place(v: Server, xs: seq<Visit>, i: nat): nat
    requires Configured(v) && i <= |xs|
  {
    |Attempts(v, xs, i)|
  }

  /** A call that presents a ticket stands at its place. */
  lemma StandsAt(v: Server, xs: seq<Visit>, i: nat)
    requires Configured(v) && i < |xs| && Presents(v, xs[i])
    ensures Place(v, xs, i) < |Attempts(v, xs, |xs|)| && Attempts(v, xs, |xs|)[Place(v, xs, i)] == AttemptOf(v, xs[i])
  {
    KeptAt(Picks(v, xs), i, |xs|);
  }

  lemma PlacesGrow(v: Server, xs: seq<Visit>, i: nat, n: nat)
    requires Configured(v) && i <= n <= |xs|
    ensures Place(v, xs, i) <= Place(v, xs, n)
    ensures i < n && Presents(v, xs[i]) ==> Place(v, xs, i) < Place(v, xs, n)
  {
    KeptGrows(Picks(v, xs), i, n);
    if i < n && Presents(v, xs[i]) {
      KeptAt(Picks(v, xs), i, n);
    }
  }

  // ---------------------------------------------------------------- one cache, one run

  lemma AfterStep(g: Gate, a: seq<Call>, b: seq<Call>, n: nat)
    requires n < |a| && a <= b && After(g, b, n) == After(g, a, n)
    ensures After(g, b, n + 1) == After(g, a, n + 1)
  {
  }

  lemma AfterPrefix(g: Gate, a: seq<Call>, b: seq<Call>, n: nat)
    requires n <= |a| && a <= b
    ensures After(g, b, n) == After(g, a, n)
  {
    forall k: nat | k < n && After(g, b, k) == After(g, a, k) ensures After(g, b, k + 1) == After(g, a, k + 1) {
      AfterStep(g, a, b, k);
    }
    StepByStep((m: nat) => m <= |a| && After(g, b, m) == After(g, a, m), 0, n);
  }

  lemma UnseenBegin(v: Server, x: Visit, before: Clients)
    requires Configured(v) && !Presents(v, x)
    ensures BeginOn(v, x, before).clients == before && BeginOn(v, x, before).start.None?
  {
  }

  lemma AttemptCalls(v: Server, x: Visit)
    requires Configured(v) && Presents(v, x)
    ensures var (h, auth) := Recognised(v.crypto, x.profile.cover, v.maxAge, x.verifiedAt, x.rec).value;
            && Validated(x.profile.cover, h).Some?
            && CallOf(v, AttemptOf(v, x))
               == SpendCall(Spending(v.gate.horizon, v.gate.max, v.hash, x.spentAt, x.victim), auth, Validated(x.profile.cover, h).value)
  {
  }

  /** What Begin does to the cache for a recognised hello is the call its attempt makes. */
  lemma BeginIsStep(v: Server, x: Visit, before: Clients)
    requires Configured(v) && Presents(v, x)
    ensures var c := CallOf(v, AttemptOf(v, x));
            && BeginOn(v, x, before).call == Some(c)
            && BeginOn(v, x, before).clients == Step(before, v.gate.horizon, v.gate.max, c).1
            && (BeginOn(v, x, before).start.Some? <==> Step(before, v.gate.horizon, v.gate.max, c).0 && Answerable(v, x))
  {
    AttemptCalls(v, x);
  }

  ghost predicate CacheIs(v: Server, xs: seq<Visit>, i: nat)
    requires Configured(v) && i <= |xs|
  {
    CacheAfter(v, xs, i) == After(v.gate, Calls(v, Attempts(v, xs, i)), Place(v, xs, i))
  }

  lemma CallsSnoc(v: Server, run: seq<Attempt>, a: Attempt)
    requires Configured(v) && AllAuthentic(v, run) && Authentic(v, a) && AllAuthentic(v, run + [a])
    ensures Calls(v, run + [a]) == Calls(v, run) + [CallOf(v, a)]
  {
  }

  /** The run of one attempt more. */
  lemma AfterAttempt(v: Server, run: seq<Attempt>, a: Attempt)
    requires Configured(v) && AllAuthentic(v, run) && Authentic(v, a) && AllAuthentic(v, run + [a])
    ensures After(v.gate, Calls(v, run + [a]), |run| + 1)
            == Step(After(v.gate, Calls(v, run), |run|), v.gate.horizon, v.gate.max, CallOf(v, a)).1
  {
    CallsSnoc(v, run, a);
    AfterPrefix(v.gate, Calls(v, run), Calls(v, run + [a]), |run|);
  }

  lemma CacheNext(v: Server, xs: seq<Visit>, i: nat)
    requires Configured(v) && i < |xs| && CacheIs(v, xs, i)
    ensures CacheIs(v, xs, i + 1)
  {
    if Presents(v, xs[i]) {
      BeginIsStep(v, xs[i], CacheAfter(v, xs, i));
      assert Attempts(v, xs, i + 1) == Attempts(v, xs, i) + [AttemptOf(v, xs[i])];
      AfterAttempt(v, Attempts(v, xs, i), AttemptOf(v, xs[i]));
    } else {
      UnseenBegin(v, xs[i], CacheAfter(v, xs, i));
      assert Attempts(v, xs, i + 1) == Attempts(v, xs, i);
    }
  }

  lemma CacheIsRun(v: Server, xs: seq<Visit>, i: nat)
    requires Configured(v) && i <= |xs|
    ensures CacheIs(v, xs, i)
  {
    assert CacheIs(v, xs, 0);
    forall k: nat | k < i && CacheIs(v, xs, k) ensures CacheIs(v, xs, k + 1) {
      CacheNext(v, xs, k);
    }
    StepByStep((m: nat) => m <= |xs| && CacheIs(v, xs, m), 0, i);
  }

  lemma CallsGrow(v: Server, a: seq<Attempt>, b: seq<Attempt>)
    requires Configured(v) && AllAuthentic(v, a) && AllAuthentic(v, b) && a <= b
    ensures Calls(v, a) <= Calls(v, b)
  {
    assert forall i :: 0 <= i < |a| ==> Calls(v, a)[i] == Calls(v, b)[i];
  }

  /** The cache a call meets is the one the run of all tickets presented gives at its place. */
  lemma MeetsRun(v: Server, xs: seq<Visit>, i: nat)
    requires Configured(v) && i <= |xs|
    ensures Place(v, xs, i) <= |AllCalls(v, xs)|
    ensures CacheAfter(v, xs, i) == After(v.gate, AllCalls(v, xs), Place(v, xs, i))
  {
    CacheIsRun(v, xs, i);
    KeptGrows(Picks(v, xs), i, |xs|);
    CallsGrow(v, Attempts(v, xs, i), Attempts(v, xs, |xs|));
    AfterPrefix(v.gate, Calls(v, Attempts(v, xs, i)), AllCalls(v, xs), Place(v, xs, i));
  }

  /** A call is answered exactly when it can be and its ticket is accepted at its place. */
  lemma AnsweredIsAccepted(v: Server, xs: seq<Visit>, i: nat)
    requires Configured(v) && i < |xs| && Presents(v, xs[i])
    ensures Place(v, xs, i) < |AllCalls(v, xs)| && BegunAt(v, xs, i).call == Some(AllCalls(v, xs)[Place(v, xs, i)])
    ensures BegunAt(v, xs, i).start.Some? <==> Accepts(v.gate, AllCalls(v, xs), Place(v, xs, i)) && Answerable(v, xs[i])
  {
    StandsAt(v, xs, i);
    MeetsRun(v, xs, i);
    BeginIsStep(v, xs[i], CacheAfter(v, xs, i));
  }

  // --------------------------------------------------------------------- the promise

  /** The backstop drops this client at call k. */
  ghost predicate Forgot(v: Server, xs: seq<Visit>, k: nat, id: U64)
    requires Configured(v) && k < |xs|
  {
    Presents(v, xs[k]) && xs[k].victim == id
    && Drops(CacheAfter(v, xs, k), v.gate.horizon, v.gate.max, CallOf(v, AttemptOf(v, xs[k])))
  }

  /** From after call i up to and including call j the backstop leaves the client alone, and no reading in
      between is more than skew after that of call j. */
  ghost predicate Quiet(v: Server, xs: seq<Visit>, i: nat, j: nat, skew: nat, id: U64)
    requires Configured(v) && i < j < |xs|
  {
    forall k :: i < k <= j ==> !Forgot(v, xs, k, id) && xs[k].spentAt <= xs[j].spentAt + skew
  }

  predicate QuietCall(g: Gate, calls: seq<Call>, j: nat, skew: nat, id: U64, m: nat)
    requires j < |calls| && m < |calls|
  {
    calls[m].now <= calls[j].now + skew && !Forgets(g, calls, m, id)
  }

  lemma QuietCalls(g: Gate, calls: seq<Call>, i: nat, j: nat, skew: nat, id: U64)
    requires j < |calls| && forall m: nat :: i < m <= j ==> QuietCall(g, calls, j, skew, id, m)
    ensures WithinSkew(calls, i, j, skew) && Remembered(g, calls, i, j, id)
  {
    forall k: nat | i < k <= j ensures calls[k].now <= calls[j].now + skew && !Forgets(g, calls, k, id) {
      assert QuietCall(g, calls, j, skew, id, k);
    }
  }

  lemma PlacesApart(v: Server, xs: seq<Visit>, i: nat, j: nat)
    requires Configured(v) && i < j < |xs| && Presents(v, xs[i]) && Presents(v, xs[j])
    ensures Place(v, xs, i) < Place(v, xs, j) < |AllCalls(v, xs)|
  {
    PlacesGrow(v, xs, i, j);
    StandsAt(v, xs, j);
  }

  /** The same, read off the run of tickets presented. */
  lemma QuietRun(v: Server, xs: seq<Visit>, i: nat, j: nat, skew: nat, id: U64)
    requires Configured(v) && i < j < |xs| && Presents(v, xs[i]) && Presents(v, xs[j]) && Quiet(v, xs, i, j, skew, id)
    ensures Place(v, xs, i) < Place(v, xs, j) < |AllCalls(v, xs)|
    ensures WithinSkew(AllCalls(v, xs), Place(v, xs, i), Place(v, xs, j), skew)
    ensures Remembered(v.gate, AllCalls(v, xs), Place(v, xs, i), Place(v, xs, j), id)
  {
    PlacesApart(v, xs, i, j);
    var calls, a, b := AllCalls(v, xs), Place(v, xs, i), Place(v, xs, j);
    forall m: nat | a < m <= b ensures QuietCall(v.gate, calls, b, skew, id, m) {
      QuietAt(v, xs, i, j, skew, id, m);
    }
    QuietCalls(v.gate, calls, a, b, skew, id);
  }

  /** Every place after that of call i and up to that of call j is that of a call in between. */
  lemma WhoStandsAt(v: Server, xs: seq<Visit>, i: nat, j: nat, m: nat) returns (k: nat)
    requires Configured(v) && i < j < |xs| && Presents(v, xs[j]) && Place(v, xs, i) < m <= Place(v, xs, j)
    ensures i < k <= j && Presents(v, xs[k]) && Place(v, xs, k) == m
  {
    KeptAt(Picks(v, xs), j, j + 1);
    k := KeptFrom(Picks(v, xs), m, j + 1);
    if k <= i {
      KeptGrows(Picks(v, xs), k, i);
    }
  }

  lemma QuietOne(v: Server, xs: seq<Visit>, j: nat, skew: nat, id: U64, k: nat)
    requires Configured(v) && j < |xs| && k < |xs| && Presents(v, xs[j]) && Presents(v, xs[k])
    requires !Forgot(v, xs, k, id) && xs[k].spentAt <= xs[j].spentAt + skew
    ensures Place(v, xs, k) < |AllCalls(v, xs)| && Place(v, xs, j) < |AllCalls(v, xs)|
    ensures QuietCall(v.gate, AllCalls(v, xs), Place(v, xs, j), skew, id, Place(v, xs, k))
  {
    StandsAt(v, xs, j);
    StandsAt(v, xs, k);
    MeetsRun(v, xs, k);
  }

  lemma QuietAt(v: Server, xs: seq<Visit>, i: nat, j: nat, skew: nat, id: U64, m: nat)
    requires Configured(v) && i < j < |xs| && Presents(v, xs[j]) && Quiet(v, xs, i, j, skew, id)
    requires Place(v, xs, i) < m <= Place(v, xs, j) < |AllCalls(v, xs)|
    ensures QuietCall(v.gate, AllCalls(v, xs), Place(v, xs, j), skew, id, m)
  {
    var k := WhoStandsAt(v, xs, i, j, m);
    QuietOne(v, xs, j, skew, id, k);
  }

  /** No ticket is answered twice: over all records that reach the Server calls sharing the key and the cache,
      of two that present the same ticket one at most is answered, whatever comes in between and in
      whatever order the calls get the lock, provided the horizon exceeds MaxAge by more than the delay
      between the second call's two clock readings plus the lead of any reading in between, and the
      backstop leaves the client alone. */
  lemma NotAnsweredTwice(v: Server, xs: seq<Visit>, delay: nat, skew: nat, i: nat, j: nat)
    requires Configured(v) && i < j < |xs| && Presents(v, xs[i]) && Presents(v, xs[j])
    requires Ticket(v, xs[i]) == Ticket(v, xs[j])
    requires v.maxAge + delay + skew < v.gate.horizon && xs[j].spentAt <= xs[j].verifiedAt + delay
    requires Quiet(v, xs, i, j, skew, CallOf(v, AttemptOf(v, xs[i])).id)
    ensures !(BegunAt(v, xs, i).start.Some? && BegunAt(v, xs, j).start.Some?)
  {
    var run := Attempts(v, xs, |xs|);
    AnsweredIsAccepted(v, xs, i);
    AnsweredIsAccepted(v, xs, j);
    StandsAt(v, xs, i);
    StandsAt(v, xs, j);
    QuietRun(v, xs, i, j, skew, CallOf(v, AttemptOf(v, xs[i])).id);
    NoTicketTwice(v, run, delay, skew, Place(v, xs, i), Place(v, xs, j));
  }

  /** Exactly when a ticket that was answered is answered again, whatever came in between: when its call can be
      answered at all and ousts its client from the cache, or an earlier call since did and none from
      then on was accepted with that ticket or a newer one. */
  lemma AnsweredAgain(v: Server, xs: seq<Visit>, i: nat, j: nat)
    requires Configured(v) && i < j < |xs| && Presents(v, xs[i]) && Presents(v, xs[j])
    requires Ticket(v, xs[i]) == Ticket(v, xs[j]) && BegunAt(v, xs, i).start.Some?
    ensures Place(v, xs, i) < Place(v, xs, j) < |AllCalls(v, xs)|
    ensures var calls, a, b := AllCalls(v, xs), Place(v, xs, i), Place(v, xs, j);
            BegunAt(v, xs, j).start.Some?
            <==> Answerable(v, xs[j]) && (OustsAt(v.gate, calls, b, calls[a].id) || Lost(v.gate, calls, a, b, calls[a]))
  {
    AnsweredIsAccepted(v, xs, i);
    AnsweredIsAccepted(v, xs, j);
    StandsAt(v, xs, i);
    StandsAt(v, xs, j);
    PlacesApart(v, xs, i, j);
    TicketTwiceExactly(v, Attempts(v, xs, |xs|), Place(v, xs, i), Place(v, xs, j));
  }
}
