/** Every Server call that shares a ticket key and a replay cache (handshake.go Server, cover.go,
    replay.go): which hellos get as far as a ServerHello. */
module ServerGate {
  import opened Bytes
  import opened HelloCodec
  import opened Auth
  import opened Replay
  import opened Twiddle

  /** One Server call that authenticated, in the order the calls got the cache's lock. The two clock
      readings are the verifier's and the cache's. */
  datatype Attempt = Attempt(cover: Cover, hello: Hello, verifiedAt: int, spentAt: int, victim: U64)

  datatype Server = Server(crypto: Crypto, hash: bytes -> bytes, maxAge: int, gate: Gate)

  /** What Server checks of its configuration before it reads anything. */
  ghost predicate Configured(v: Server) {
    Ideal(v.crypto) && 0 < v.maxAge <= v.gate.horizon && 0 < v.gate.max
  }

  /** The attempt passed the validators and the verifier. */
  ghost predicate Authentic(v: Server, a: Attempt)
    requires Configured(v)
  {
    Validated(a.cover, a.hello).Some? && Verified(v.crypto, a.hello, v.maxAge, a.verifiedAt).Some?
  }

  /** The call the attempt makes on the cache. */
  ghost function CallOf(v: Server, a: Attempt): Call
    requires Configured(v) && Authentic(v, a)
  {
    var r := Verified(v.crypto, a.hello, v.maxAge, a.verifiedAt).value;
    Call(r.clientID, r.issuedSeconds * SECOND, v.hash(Validated(a.cover, a.hello).value), a.spentAt, a.victim)
  }

  ghost predicate AllAuthentic(v: Server, run: seq<Attempt>)
    requires Configured(v)
  {
    forall i :: 0 <= i < |run| ==> Authentic(v, run[i])
  }

  ghost function Calls(v: Server, run: seq<Attempt>): (r: seq<Call>)
    requires Configured(v) && AllAuthentic(v, run)
    ensures |r| == |run| && forall i :: 0 <= i < |run| ==> r[i] == CallOf(v, run[i])
  {
    seq(|run|, i requires 0 <= i < |run| => CallOf(v, run[i]))
  }

  /** The ticket an attempt presents. */
  function TicketOf(a: Attempt): bytes
    requires Validated(a.cover, a.hello).Some?
  {
    Validated(a.cover, a.hello).value
  }

  /** The same ticket bytes make the same call on the cache, whichever shape carried them and whichever
      hello they came in. */
  lemma SameTicketSameCall(v: Server, a: Attempt, b: Attempt)
    requires Configured(v) && Authentic(v, a) && Authentic(v, b) && TicketOf(a) == TicketOf(b)
    ensures SameTicket(CallOf(v, a), CallOf(v, b))
  {
    SpendsWhatItOpened(v.crypto, a.cover, a.hello, v.maxAge, a.verifiedAt);
    SpendsWhatItOpened(v.crypto, b.cover, b.hello, v.maxAge, b.verifiedAt);
  }

  /** When the cache is asked, an authenticated ticket is at most as old as MaxAge and the delay between
      the two readings make it. */
  lemma AgeAtTheGate(v: Server, a: Attempt, delay: nat)
    requires Configured(v) && Authentic(v, a) && a.spentAt <= a.verifiedAt + delay
    ensures CallOf(v, a).now - CallOf(v, a).issued <= v.maxAge + delay
  {
    SpendsWhatItOpened(v.crypto, a.cover, a.hello, v.maxAge, a.verifiedAt);
  }

  /** No ticket reaches a ServerHello twice: over all calls sharing the key and the cache, of two that
      present the same ticket one at most is let through, provided no call between them read a clock
      more than skew after the second one's, the horizon exceeds MaxAge by more than that skew and the
      delay between the second call's own two readings, and the backstop left the client alone. */
  lemma NoTicketTwice(v: Server, run: seq<Attempt>, delay: nat, skew: nat, i: nat, j: nat)
    requires Configured(v) && AllAuthentic(v, run) && i < j < |run|
    requires Authentic(v, run[i]) && Authentic(v, run[j]) && TicketOf(run[i]) == TicketOf(run[j])
    requires v.maxAge + delay + skew < v.gate.horizon
    requires run[j].spentAt <= run[j].verifiedAt + delay
    requires WithinSkew(Calls(v, run), i, j, skew)
    requires Remembered(v.gate, Calls(v, run), i, j, Calls(v, run)[i].id)
    ensures !(Accepts(v.gate, Calls(v, run), i) && Accepts(v.gate, Calls(v, run), j))
  {
    var calls := Calls(v, run);
    SameTicketSameCall(v, run[i], run[j]);
    AgeAtTheGate(v, run[j], delay);
    NeverTwiceWithinSkew(v.gate, calls, i, j, skew);
  }

  /** Without any margin, and whatever else was presented in between: a ticket once let through is let
      through again exactly when the second presentation ousts its client from the cache, or an earlier
      call since the first did and none from then on was let through with that ticket or a newer one. */
  lemma TicketTwiceExactly(v: Server, run: seq<Attempt>, i: nat, j: nat)
    requires Configured(v) && AllAuthentic(v, run) && i < j < |run|
    requires Authentic(v, run[i]) && Authentic(v, run[j]) && TicketOf(run[i]) == TicketOf(run[j])
    requires Accepts(v.gate, Calls(v, run), i)
    ensures Accepts(v.gate, Calls(v, run), j)
            <==> OustsAt(v.gate, Calls(v, run), j, Calls(v, run)[i].id) || Lost(v.gate, Calls(v, run), i, j, Calls(v, run)[i])
  {
    SameTicketSameCall(v, run[i], run[j]);
    TwiceExactly(v.gate, Calls(v, run), i, j);
  }

  /** The configuration Server accepts allows a horizon equal to MaxAge. Then the second of two
      presentations in a row is let through exactly when its age has reached MaxAge by the time the
      cache reads its clock. */
  lemma TwiceAtMaxAge(v: Server, a: Attempt, b: Attempt, before: Clients)
    requires Configured(v) && Authentic(v, a) && Authentic(v, b) && TicketOf(a) == TicketOf(b)
    requires v.gate.horizon == v.maxAge
    requires Step(before, v.gate.horizon, v.gate.max, CallOf(v, a)).0
    ensures Step(Step(before, v.gate.horizon, v.gate.max, CallOf(v, a)).1, v.gate.horizon, v.gate.max, CallOf(v, b)).0
            <==> CallOf(v, b).now - CallOf(v, b).issued >= v.maxAge
  {
    SameTicketSameCall(v, a, b);
    RepeatAccepted(before, v.gate.horizon, v.gate.max, CallOf(v, a), CallOf(v, b));
  }

  /** The two tickets of one credential are both spendable, in either order, as long as neither has been
      spent, none of the client's newer tickets has, and their hashes differ. */
  lemma BothTicketsSpendable(v: Server, run: seq<Attempt>, i: nat, j: nat)
    requires Configured(v) && AllAuthentic(v, run) && i < j < |run|
    requires Authentic(v, run[i]) && Authentic(v, run[j])
    requires OpenTicket(v.crypto, TicketOf(run[i])) == OpenTicket(v.crypto, TicketOf(run[j]))
    requires v.hash(TicketOf(run[i])) != v.hash(TicketOf(run[j]))
    requires var calls := Calls(v, run);
             && !Spent(v.gate, calls, i, calls[i].id, calls[i].issued, calls[i].key)
             && !Spent(v.gate, calls, j, calls[j].id, calls[j].issued, calls[j].key)
             && NoneNewer(v.gate, calls, j, calls[i].id, calls[i].issued)
    ensures Accepts(v.gate, Calls(v, run), i) && Accepts(v.gate, Calls(v, run), j)
  {
    SpendsWhatItOpened(v.crypto, run[i].cover, run[i].hello, v.maxAge, run[i].verifiedAt);
    SpendsWhatItOpened(v.crypto, run[j].cover, run[j].hello, v.maxAge, run[j].verifiedAt);
    BothSpendable(v.gate, Calls(v, run), i, j);
  }
}
