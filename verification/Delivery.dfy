/** What every schedule of Writes, Closes and a hostile network keeps (conn.go): distinct nonces, wire
    order, one close_notify, no deadlock, and a peer that delivers a prefix of what was queued. */
module Delivery {
  import opened Bytes
  import opened RecordLayer
  import opened Runs
  import opened Interleaving

  // -------------------------------------------------------------- close_notify

  function Alerts(log: seq<Entry>): nat {
    if log == [] then 0 else Alerts(log[..|log| - 1]) + if log[|log| - 1].content.typ == ALERT then 1 else 0
  }

  lemma AlertsSnoc(log: seq<Entry>, e: Entry)
    ensures Alerts(log + [e]) == Alerts(log) + if e.content.typ == ALERT then 1 else 0
  {
    assert (log + [e])[..|log|] == log;
  }

  /** How many alerts there are while this thread runs the once body. */
  function AlertsBy(pc: PC): nat {
    if pc.Unlocking? || (pc.Emitting? && pc.stage.Sealed?) then 1 else 0
  }

  predicate OneAlertAt(pc: PC, l: Locks, d: Data, t: nat) {
    l.once == Running(t) ==> Alerts(d.log) == AlertsBy(pc)
  }

  /** None before the once body seals one, one afterwards. */
  ghost predicate OneAlert(s: State) {
    && (s.locks.once == Fresh ==> Alerts(s.data.log) == 0)
    && (s.locks.once == Done ==> Alerts(s.data.log) == 1)
    && forall t: nat :: t < |s.threads| ==> OneAlertAt(s.threads[t], s.locks, s.data, t)
  }

  lemma AdvanceAlerts(k: Keys, t: nat, x: Turn, c: Choice)
    requires LockedAt(x.pc, x.locks, t) && Proper(x.pc) && OneAlertAt(x.pc, x.locks, x.data, t)
    requires x.locks.once == Fresh ==> Alerts(x.data.log) == 0
    requires x.locks.once == Done ==> Alerts(x.data.log) == 1
    ensures var y := Advance(k, t, x, c);
            && OneAlertAt(y.pc, y.locks, y.data, t)
            && (y.locks.once == Fresh ==> Alerts(y.data.log) == 0)
            && (y.locks.once == Done ==> Alerts(y.data.log) == 1)
            && (Alerts(y.data.log) == Alerts(x.data.log) || x.locks.once == Running(t))
  {
    if x.pc.Emitting? && x.pc.stage.Numbered? {
      AlertsSnoc(x.data.log, Entry(x.pc.stage.n, x.pc.content));
    }
  }

  /** A step that neither logs nor runs the once body leaves the others where they are. */
  lemma OthersAlert(pc: PC, l: Locks, l': Locks, d: Data, d': Data, t: nat, u: nat)
    requires u != t && OneAlertAt(pc, l, d, u) && FairLocks(l, l', t)
    requires Alerts(d'.log) == Alerts(d.log) || l.once == Running(t)
    ensures OneAlertAt(pc, l', d', u)
  {
  }

  lemma OneAlertGo(k: Keys, s: State, t: nat, c: Choice)
    requires t < |s.threads| && Locked(s) && Wired(k, s) && OneAlert(s)
    ensures OneAlert(Step(k, s, Go(t, c)))
  {
    assert LockedAt(s.threads[t], s.locks, t) && WireAt(k, s.threads[t], s.data) && OneAlertAt(s.threads[t], s.locks, s.data, t);
    AdvanceAlerts(k, t, Turn(s.threads[t], s.locks, s.data), c);
    AdvanceLocks(k, t, Turn(s.threads[t], s.locks, s.data), c);
    var s' := Step(k, s, Go(t, c));
    forall u: nat | u < |s.threads| ensures OneAlertAt(s'.threads[u], s'.locks, s'.data, u) {
      assert OneAlertAt(s.threads[u], s.locks, s.data, u);
      if u != t {
        OthersAlert(s.threads[u], s.locks, s'.locks, s.data, s'.data, t, u);
      }
    }
  }

  lemma OneAlertStep(k: Keys, s: State, e: Event)
    requires Locked(s) && Wired(k, s) && OneAlert(s)
    ensures OneAlert(Step(k, s, e))
  {
    if e.Go? && e.t < |s.threads| {
      OneAlertGo(k, s, e.t, e.choice);
    } else if e.Call? && e.t < |s.threads| {
      var s' := Step(k, s, e);
      assert LockedAt(s.threads[e.t], s.locks, e.t);
      forall u: nat | u < |s.threads| ensures OneAlertAt(s'.threads[u], s'.locks, s'.data, u) {
        assert OneAlertAt(s.threads[u], s.locks, s.data, u);
      }
    }
  }

  // ------------------------------------------------------------ nothing left over

  /** Without a flusher the buffer is empty, unless a write failed; only a failed write says so. */
  predicate Drained(l: Locks, d: Data) {
    && (l.flushing == None && !d.werr ==> d.wbuf == [])
    && (d.werr ==> Broken(d))
  }

  predicate FailureSeen(pc: PC, d: Data) {
    pc == Flushed(false) ==> Broken(d)
  }

  /** A failure stays on record, and a failed write is one. */
  lemma BrokenSnoc(d: Data, w: Wrote)
    ensures Broken(d) ==> Broken(d.(pieces := d.pieces + [w]))
    ensures !w.fine ==> Broken(d.(pieces := d.pieces + [w]))
  {
    var r := d.(pieces := d.pieces + [w]);
    assert r.pieces[|d.pieces|] == w;
    if Broken(d) {
      var i :| 0 <= i < |d.pieces| && !d.pieces[i].fine;
      assert r.pieces[i] == d.pieces[i];
    }
  }

  lemma AdvanceDrained(k: Keys, t: nat, x: Turn, c: Choice)
    requires LockedAt(x.pc, x.locks, t) && Drained(x.locks, x.data) && FailureSeen(x.pc, x.data)
    ensures var y := Advance(k, t, x, c);
            Drained(y.locks, y.data) && FailureSeen(y.pc, y.data) && (Broken(x.data) ==> Broken(y.data))
  {
    var y := Advance(k, t, x, c);
    if x.pc.Emitting? && x.pc.stage.Sealed? {
      BrokenSnoc(x.data, y.data.pieces[|x.data.pieces|]);
    }
  }

  ghost predicate Tidy(s: State) {
    Drained(s.locks, s.data) && forall t: nat :: t < |s.threads| ==> FailureSeen(s.threads[t], s.data)
  }

  lemma TidyStep(k: Keys, s: State, e: Event)
    requires Locked(s) && Tidy(s)
    ensures Tidy(Step(k, s, e))
  {
    if e.Go? && e.t < |s.threads| {
      var t := e.t;
      assert LockedAt(s.threads[t], s.locks, t) && FailureSeen(s.threads[t], s.data);
      AdvanceDrained(k, t, Turn(s.threads[t], s.locks, s.data), e.choice);
      var s' := Step(k, s, e);
      forall u: nat | u < |s.threads| ensures FailureSeen(s'.threads[u], s'.data) {
        assert FailureSeen(s.threads[u], s.data);
      }
    }
  }

  // ------------------------------------------------------------------- the peer

  /** The AEAD is not forged at this step: what opens was sealed, under this nonce and header. */
  ghost predicate Unforged(k: Keys, s: State, e: Event) {
    e.Receive? && SplitRecord(e.arrived).Some? ==>
      var (hdr, ct, _) := SplitRecord(e.arrived).value;
      OpenRecord(k.aead, k.iv, s.peer.recvSeq, hdr, ct).Some? ==> WasSealed(k, s.data.log, s.peer.recvSeq, hdr, ct)
  }

  ghost predicate WasSealed(k: Keys, log: seq<Entry>, n: U64, hdr: bytes, ct: bytes) {
    exists i: nat :: i < |log| && SealedAs(k, log[i], NonceFor(k.iv, n), hdr, ct)
  }

  ghost predicate SealedAs(k: Keys, e: Entry, nonce: bytes, hdr: bytes, ct: bytes) {
    NonceFor(k.iv, e.n) == nonce && RecordOf(k, e) == hdr + ct
  }

  /** What the peer has delivered or is about to is what the records it opened carry. */
  ghost predicate InStep(s: State) {
    && s.peer.recvSeq <= |s.data.log|
    && s.peer.delivered + s.peer.pending == AppBytes(s.data.log[..s.peer.recvSeq])
  }

  /** A ciphertext that opens under the peer's nonce is the next record sealed, and nothing else. */
  lemma OpensNext(k: Keys, log: seq<Entry>, n: U64, hdr: bytes, ct: bytes)
    requires Correct(k.aead) && NumberedInOrder(log) && Typed(log) && |log| < COUNTER && |hdr| == RECORD_HEADER_LEN
    requires WasSealed(k, log, n, hdr, ct)
    ensures n < |log| && OpenRecord(k.aead, k.iv, n, hdr, ct) == Some((log[n].content.typ, log[n].content.payload))
  {
    var i: nat :| i < |log| && SealedAs(k, log[i], NonceFor(k.iv, n), hdr, ct);
    NonceInjective(k.iv, log[i].n, n);
    CountBelow(i);
    OpensTo(k, log[i], hdr, ct);
  }

  lemma OpensTo(k: Keys, e: Entry, hdr: bytes, ct: bytes)
    requires Correct(k.aead) && |hdr| == RECORD_HEADER_LEN && e.content.typ != 0
    requires RecordOf(k, e) == hdr + ct
    ensures OpenRecord(k.aead, k.iv, e.n, hdr, ct) == Some((e.content.typ, e.content.payload))
  {
    var inner := Inner(e.content);
    var h := Header(|inner| + OVERHEAD);
    SplitsAlike(h, k.aead.seal(NonceFor(k.iv, e.n), inner, h), hdr, ct);
    StripInner(e.content);
  }

  lemma SplitsAlike(a: bytes, b: bytes, c: bytes, d: bytes)
    requires |a| == |c| && a + b == c + d
    ensures a == c && b == d
  {
    assert (a + b)[..|a|] == a && (c + d)[..|c|] == c;
    assert (a + b)[|a|..] == b && (c + d)[|c|..] == d;
  }

  /** Every logged record has a content type. */
  predicate Typed(log: seq<Entry>) {
    forall i :: 0 <= i < |log| ==> log[i].content.typ != 0
  }

  /** Whatever arrives, the peer either fails or reads exactly the next record sealed. */
  lemma PeerReadsNext(k: Keys, s: State, arrived: bytes)
    requires Correct(k.aead) && NumberedInOrder(s.data.log) && Typed(s.data.log) && |s.data.log| < COUNTER
    requires Unforged(k, s, Receive(arrived)) && ReadOne(k.aead, k.iv, s.peer.recvSeq, arrived).Some?
    ensures s.peer.recvSeq < |s.data.log|
    ensures var c := s.data.log[s.peer.recvSeq].content;
            ReadOne(k.aead, k.iv, s.peer.recvSeq, arrived).value.0 == (c.typ, c.payload)
  {
    var (hdr, ct, _) := SplitRecord(arrived).value;
    OpensNext(k, s.data.log, s.peer.recvSeq, hdr, ct);
  }

  lemma PeerStep(k: Keys, s: State, arrived: bytes)
    requires Correct(k.aead) && NumberedInOrder(s.data.log) && Typed(s.data.log) && |s.data.log| < COUNTER
    requires Unforged(k, s, Receive(arrived)) && InStep(s)
    ensures InStep(Step(k, s, Receive(arrived)))
  {
    var p := s.peer;
    if !p.failed && p.pending == [] && ReadOne(k.aead, k.iv, p.recvSeq, arrived).Some? {
      PeerReadsNext(k, s, arrived);
      TakesNext(s.data.log, p.recvSeq, p.delivered);
    }
  }

  lemma TakesNext(log: seq<Entry>, n: nat, delivered: bytes)
    requires n < |log| < COUNTER && delivered + [] == AppBytes(log[..n])
    ensures NextSeq(n) == n + 1
    ensures delivered + Carried(log[n].content.typ, log[n].content.payload) == AppBytes(log[..n + 1])
  {
    AppBytesSnoc(log[..n], log[n]);
    assert log[..n + 1] == log[..n] + [log[n]];
    assert delivered + [] == delivered;
  }

  lemma LogGrows(k: Keys, t: nat, x: Turn, c: Choice)
    ensures x.data.log <= Advance(k, t, x, c).data.log
  {
  }

  lemma InStepStep(k: Keys, s: State, e: Event)
    requires Correct(k.aead) && Ordered(k, s.data) && Typed(s.data.log) && |s.data.log| < COUNTER
    requires Unforged(k, s, e) && InStep(s)
    ensures InStep(Step(k, s, e))
  {
    match e
    case Receive(arrived) => PeerStep(k, s, arrived);
    case Call(_, _) =>
    case Go(t, c) =>
      if t < |s.threads| {
        LogGrows(k, t, Turn(s.threads[t], s.locks, s.data), c);
        assert Step(k, s, e).data.log[..s.peer.recvSeq] == s.data.log[..s.peer.recvSeq];
      }
    case Deliver(n) =>
      var p := s.peer;
      var m := if n < |p.pending| then n else |p.pending|;
      assert p.delivered + p.pending[..m] + p.pending[m..] == p.delivered + p.pending;
  }

  lemma TypedStep(k: Keys, s: State, e: Event)
    requires Wired(k, s) && Typed(s.data.log)
    ensures Typed(Step(k, s, e).data.log)
  {
    if e.Go? && e.t < |s.threads| {
      assert WireAt(k, s.threads[e.t], s.data);
    }
  }

  // ------------------------------------------------------------------- all runs

  /** What holds between any two steps. */
  ghost predicate Sound(k: Keys, s: State) {
    Locked(s) && Wired(k, s) && Conserved(s) && OneAlert(s) && Tidy(s) && Typed(s.data.log)
  }

  lemma SoundStep(k: Keys, s: State, e: Event)
    requires Sound(k, s)
    ensures Sound(k, Step(k, s, e))
  {
    LockedStep(k, s, e);
    WiredStep(k, s, e);
    ConservedStep(k, s, e);
    OneAlertStep(k, s, e);
    TidyStep(k, s, e);
    TypedStep(k, s, e);
  }

  lemma SoundNext(k: Keys, threads: nat, run: seq<Event>, n: nat)
    requires n < |run| && Sound(k, After(k, threads, run, n))
    ensures Sound(k, After(k, threads, run, n + 1))
  {
    SoundStep(k, After(k, threads, run, n), run[n]);
  }

  lemma SoundAtStart(k: Keys, threads: nat)
    ensures Sound(k, Initial(threads))
  {
  }

  ghost predicate SoundAfter(k: Keys, threads: nat, run: seq<Event>, i: nat)
    requires i <= |run|
  {
    Sound(k, After(k, threads, run, i))
  }

  lemma AlwaysSound(k: Keys, threads: nat, run: seq<Event>, i: nat)
    requires i <= |run|
    ensures Sound(k, After(k, threads, run, i))
  {
    SoundAtStart(k, threads);
    forall n: nat | n < i && SoundAfter(k, threads, run, n) ensures SoundAfter(k, threads, run, n + 1) {
      SoundNext(k, threads, run, n);
    }
    StepByStep((m: nat) => m <= |run| && SoundAfter(k, threads, run, m), 0, i);
  }

  /** No nonce twice: in every schedule, two records of the first 2^64 are sealed under different
      nonces. */
  lemma NoncesDiffer(k: Keys, threads: nat, run: seq<Event>, i: nat, m: nat, n: nat)
    requires i <= |run|
    requires var log := After(k, threads, run, i).data.log; m < n < |log| <= COUNTER
    ensures var log := After(k, threads, run, i).data.log; NonceFor(k.iv, log[m].n) != NonceFor(k.iv, log[n].n)
  {
    AlwaysSound(k, threads, run, i);
    var log := After(k, threads, run, i).data.log;
    NonceInjective(k.iv, log[m].n, log[n].n);
    CountBelow(m);
    CountBelow(n);
  }

  /** Wire order is sealing order: the socket writes are, one for one in the order of their nonces, those of
      the records sealed, all but the one being written. Each that went through put the whole record out,
      whatever happened to the others, and a failed one a prefix of it. */
  lemma WireOrder(k: Keys, threads: nat, run: seq<Event>, i: nat)
    requires i <= |run|
    ensures var d := After(k, threads, run, i).data;
            && |d.pieces| <= |d.log| <= |d.pieces| + 1
            && (forall j :: 0 <= j < |d.pieces| ==>
                d.pieces[j].sent <= RecordOf(k, d.log[j]) && (d.pieces[j].fine ==> d.pieces[j].sent == RecordOf(k, d.log[j])))
  {
    var s := After(k, threads, run, i);
    AlwaysSound(k, threads, run, i);
    if s.locks.wireMu.Some? {
      var t := s.locks.wireMu.value;
      assert LockedAt(s.threads[t], s.locks, t) && WireAt(k, s.threads[t], s.data);
    }
  }

  /** At most one close_notify is sealed, and exactly one once a Close has got past it. */
  lemma AtMostOneAlert(k: Keys, threads: nat, run: seq<Event>, i: nat)
    requires i <= |run|
    ensures var s := After(k, threads, run, i);
            Alerts(s.data.log) <= 1 && (s.locks.once.Done? ==> Alerts(s.data.log) == 1) && (s.locks.once.Fresh? ==> Alerts(s.data.log) == 0)
  {
    var s := After(k, threads, run, i);
    AlwaysSound(k, threads, run, i);
    if s.locks.once.Running? {
      assert OneAlertAt(s.threads[s.locks.once.t], s.locks, s.data, s.locks.once.t);
    }
  }

  /** Some thread is inside an operation. */
  predicate Busy(s: State) {
    exists t :: 0 <= t < |s.threads| && s.threads[t] != Idle
  }

  /** Whoever holds wireMu can go on. */
  lemma WireHolderMoves(k: Keys, s: State, t: nat)
    requires Locked(s) && Wired(k, s) && s.locks.wireMu == Some(t)
    ensures t < |s.threads| && Step(k, s, Go(t, Choice(1, 0, 0, true))) != s
  {
    assert LockedAt(s.threads[t], s.locks, t);
    var y := Advance(k, t, Turn(s.threads[t], s.locks, s.data), Choice(1, 0, 0, true));
    assert y.pc != s.threads[t];
  }

  /** With wireMu free, whoever holds wmu can go on. */
  lemma WriteHolderMoves(k: Keys, s: State, t: nat)
    requires Locked(s) && s.locks.wireMu == None && s.locks.wmu == Some(t)
    ensures t < |s.threads| && Step(k, s, Go(t, Choice(1, 0, 0, true))) != s
  {
    assert LockedAt(s.threads[t], s.locks, t);
    var y := Advance(k, t, Turn(s.threads[t], s.locks, s.data), Choice(1, 0, 0, true));
    assert y.pc != s.threads[t];
  }

  /** With both free, any thread can go on, except one that waits for the once. */
  lemma FreeMoves(k: Keys, s: State, t: nat)
    requires Locked(s) && s.locks.wireMu == None && s.locks.wmu == None && t < |s.threads| && s.threads[t] != Idle
    requires s.threads[t] == Entering(Close) ==> !s.locks.once.Running?
    ensures Step(k, s, Go(t, Choice(1, 0, 0, true))) != s
  {
    assert LockedAt(s.threads[t], s.locks, t);
    var y := Advance(k, t, Turn(s.threads[t], s.locks, s.data), Choice(1, 0, 0, true));
    assert y.pc != s.threads[t];
  }

  /** No deadlock: while any thread is inside Write or Close, some thread can take a step. */
  lemma NoDeadlock(k: Keys, threads: nat, run: seq<Event>, i: nat) returns (t: nat)
    requires i <= |run| && Busy(After(k, threads, run, i))
    ensures var s := After(k, threads, run, i); t < |s.threads| && Step(k, s, Go(t, Choice(1, 0, 0, true))) != s
  {
    var s := After(k, threads, run, i);
    AlwaysSound(k, threads, run, i);
    if s.locks.wireMu.Some? {
      t := s.locks.wireMu.value;
      WireHolderMoves(k, s, t);
    } else if s.locks.wmu.Some? {
      t := s.locks.wmu.value;
      WriteHolderMoves(k, s, t);
    } else {
      if s.locks.once.Running? {
        t := s.locks.once.t;
        assert LockedAt(s.threads[t], s.locks, t);
      } else {
        var u: int :| 0 <= u < |s.threads| && s.threads[u] != Idle;
        t := u;
      }
      FreeMoves(k, s, t);
    }
  }

  /** The AEAD holds throughout, and the 64-bit counter does not wrap. */
  ghost predicate AeadHolds(k: Keys, threads: nat, run: seq<Event>, i: nat)
    requires i < |run|
  {
    var s := After(k, threads, run, i);
    |s.data.log| < COUNTER && Unforged(k, s, run[i])
  }

  lemma InStepNext(k: Keys, threads: nat, run: seq<Event>, n: nat)
    requires n < |run| && Correct(k.aead) && AeadHolds(k, threads, run, n)
    requires InStep(After(k, threads, run, n))
    ensures InStep(After(k, threads, run, n + 1))
  {
    AlwaysSound(k, threads, run, n);
    InStepStep(k, After(k, threads, run, n), run[n]);
  }

  lemma {:induction false} AlwaysInStep(k: Keys, threads: nat, run: seq<Event>, i: nat)
    requires i <= |run| && Correct(k.aead)
    requires forall n :: 0 <= n < |run| ==> AeadHolds(k, threads, run, n)
    ensures InStep(After(k, threads, run, i))
    decreases i
  {
    if i > 0 {
      var n: nat := i - 1;
      AlwaysInStep(k, threads, run, n);
      assert AeadHolds(k, threads, run, n);
      InStepNext(k, threads, run, n);
    }
  }

  lemma {:induction false} AppBytesPrefix(log: seq<Entry>, n: nat)
    requires n <= |log|
    ensures AppBytes(log[..n]) <= AppBytes(log)
    decreases |log| - n
  {
    if n < |log| {
      AppBytesPrefix(log, n + 1);
      AppBytesSnoc(log[..n], log[n]);
      assert log[..n + 1] == log[..n] + [log[n]];
    } else {
      assert log[..n] == log;
    }
  }

  /** Safety: in every schedule, for every shaper, whatever the socket fails at and whatever the network
      makes of the bytes, the peer delivers a prefix of the bytes queued by Write, in lock order. */
  lemma PeerDeliversPrefix(k: Keys, threads: nat, run: seq<Event>, i: nat)
    requires i <= |run| && Correct(k.aead)
    requires forall n :: 0 <= n < |run| ==> AeadHolds(k, threads, run, n)
    ensures var s := After(k, threads, run, i); s.peer.delivered + s.peer.pending <= s.data.queued
  {
    var s := After(k, threads, run, i);
    AlwaysSound(k, threads, run, i);
    AlwaysInStep(k, threads, run, i);
    AppBytesPrefix(s.data.log, s.peer.recvSeq);
  }

  // ----------------------------------------------------------- nothing is lost

  /** Every record is small enough for the peer. */
  predicate AllReadable(log: seq<Entry>) {
    forall i :: 0 <= i < |log| ==> Readable(log[i].content)
  }

  predicate ReadableAt(pc: PC) {
    pc.Emitting? ==> Readable(pc.content)
  }

  /** The shaper asks for at least one byte and at most a record's worth. */
  predicate FitTake(e: Event) {
    e.Go? ==> 1 <= e.choice.take <= MAX_PLAINTEXT
  }

  lemma AdvanceReadable(k: Keys, t: nat, x: Turn, c: Choice)
    requires ReadableAt(x.pc) && AllReadable(x.data.log) && 1 <= c.take <= MAX_PLAINTEXT
    ensures ReadableAt(Advance(k, t, x, c).pc) && AllReadable(Advance(k, t, x, c).data.log)
  {
  }

  ghost predicate Legible(s: State) {
    AllReadable(s.data.log) && forall t: nat :: t < |s.threads| ==> ReadableAt(s.threads[t])
  }

  lemma LegibleStep(k: Keys, s: State, e: Event)
    requires Legible(s) && FitTake(e)
    ensures Legible(Step(k, s, e))
  {
    if e.Go? && e.t < |s.threads| {
      assert ReadableAt(s.threads[e.t]);
      AdvanceReadable(k, e.t, Turn(s.threads[e.t], s.locks, s.data), e.choice);
    }
  }

  lemma {:induction false} AlwaysLegible(k: Keys, threads: nat, run: seq<Event>, i: nat)
    requires i <= |run|
    requires forall n :: 0 <= n < |run| ==> FitTake(run[n])
    ensures Legible(After(k, threads, run, i))
    decreases i
  {
    if i > 0 {
      var n: nat := i - 1;
      AlwaysLegible(k, threads, run, n);
      LegibleStep(k, After(k, threads, run, n), run[n]);
    }
  }

  /** What reached the socket in each write, in every schedule with takes of 1 to 16384 bytes: when the
      write went through, one whole record under the next number, and a front of it otherwise. */
  lemma PieceOnTheWire(k: Keys, threads: nat, run: seq<Event>, i: nat, j: nat) returns (r: bytes)
    requires i <= |run| && Correct(k.aead)
    requires forall n :: 0 <= n < |run| ==> FitTake(run[n])
    requires j < |After(k, threads, run, i).data.pieces|
    ensures var d := After(k, threads, run, i).data;
            && j < |d.log| && OnTheWire(k.aead, k.iv, Count(j), d.log[j].content, r)
            && d.pieces[j].sent <= r && (d.pieces[j].fine ==> d.pieces[j].sent == r)
  {
    var d := After(k, threads, run, i).data;
    WireOrder(k, threads, run, i);
    AlwaysSound(k, threads, run, i);
    AlwaysLegible(k, threads, run, i);
    assert Readable(d.log[j].content) && d.log[j].n == Count(j);
    RecordOnTheWire(k.aead, k.iv, Count(j), d.log[j].content);
    r := RecordOf(k, d.log[j]);
  }

  /** Everything on the socket from piece j on. */
  function Joined(pieces: seq<Wrote>, j: nat): bytes
    requires j <= |pieces|
    decreases |pieces| - j
  {
    if j == |pieces| then [] else pieces[j].sent + Joined(pieces, j + 1)
  }

  /** What a reader starting at record n delivers from a stream, up to its end, an alert or an error. */
  function Drain(k: Keys, n: U64, stream: bytes): bytes
    decreases |stream|
  {
    match ReadOne(k.aead, k.iv, n, stream)
    case None => []
    case Some(((typ, payload), rest)) =>
      if typ == ALERT then []
      else Carried(typ, payload) + Drain(k, NextSeq(n), rest)
  }

  /** Where the first alert stands at or after record j, or the end. */
  function FirstAlert(log: seq<Entry>, j: nat): (a: nat)
    requires j <= |log|
    ensures j <= a <= |log| && (a < |log| ==> log[a].content.typ == ALERT)
    ensures forall i :: j <= i < a ==> log[i].content.typ != ALERT
    decreases |log| - j
  {
    if j == |log| || log[j].content.typ == ALERT then j else FirstAlert(log, j + 1)
  }

  /** What the records in front of the first alert carry. */
  function BeforeAlert(log: seq<Entry>): bytes {
    AppBytes(log[..FirstAlert(log, 0)])
  }

  lemma DrainOne(k: Keys, log: seq<Entry>, j: nat, rest: bytes)
    requires Correct(k.aead) && NumberedInOrder(log) && AllReadable(log) && j < |log|
    ensures Drain(k, Count(j), RecordOf(k, log[j]) + rest)
            == if log[j].content.typ == ALERT then []
               else Carried(log[j].content.typ, log[j].content.payload) + Drain(k, Count(j + 1), rest)
  {
    ReadRecord(k.aead, k.iv, Count(j), log[j].content, rest);
  }

  lemma AppBytesTo(log: seq<Entry>, j: nat)
    requires j < |log|
    ensures AppBytes(log[..j + 1]) == AppBytes(log[..j]) + Carried(log[j].content.typ, log[j].content.payload)
  {
    AppBytesSnoc(log[..j], log[j]);
    assert log[..j + 1] == log[..j] + [log[j]];
  }

  lemma DrainNext(k: Keys, log: seq<Entry>, j: nat, rest: bytes)
    requires Correct(k.aead) && NumberedInOrder(log) && AllReadable(log) && j < |log| && log[j].content.typ != ALERT
    ensures AppBytes(log[..j]) + Drain(k, Count(j), RecordOf(k, log[j]) + rest)
            == AppBytes(log[..j + 1]) + Drain(k, Count(j + 1), rest)
  {
    DrainOne(k, log, j, rest);
    AppBytesTo(log, j);
    Assoc(AppBytes(log[..j]), Carried(log[j].content.typ, log[j].content.payload), Drain(k, Count(j + 1), rest));
  }

  /** Whole records, one for one, on the socket. */
  ghost predicate AllWhole(k: Keys, log: seq<Entry>, pieces: seq<Wrote>) {
    |pieces| == |log| && forall i :: 0 <= i < |log| ==> pieces[i].sent == RecordOf(k, log[i])
  }

  lemma {:induction false} DrainHonest(k: Keys, log: seq<Entry>, pieces: seq<Wrote>, j: nat)
    requires Correct(k.aead) && NumberedInOrder(log) && AllReadable(log) && AllWhole(k, log, pieces) && j <= |log|
    ensures AppBytes(log[..j]) + Drain(k, Count(j), Joined(pieces, j)) == AppBytes(log[..FirstAlert(log, j)])
    decreases |log| - j
  {
    if j == |log| {
      DrainEmpty(k, Count(j), AppBytes(log[..j]));
    } else if log[j].content.typ == ALERT {
      DrainOne(k, log, j, Joined(pieces, j + 1));
      assert AppBytes(log[..j]) + [] == AppBytes(log[..j]);
    } else {
      DrainHonest(k, log, pieces, j + 1);
      DrainNext(k, log, j, Joined(pieces, j + 1));
    }
  }

  lemma DrainEmpty(k: Keys, n: U64, before: bytes)
    ensures before + Drain(k, n, []) == before
  {
    assert SplitRecord([]).None?;
  }

  lemma DrainAll(k: Keys, log: seq<Entry>, pieces: seq<Wrote>)
    requires Correct(k.aead) && NumberedInOrder(log) && AllReadable(log) && AllWhole(k, log, pieces)
    ensures Drain(k, 0, Joined(pieces, 0)) == BeforeAlert(log)
  {
    DrainHonest(k, log, pieces, 0);
    assert log[..0] == [];
    assert [] + Drain(k, 0, Joined(pieces, 0)) == Drain(k, 0, Joined(pieces, 0));
  }

  /** The records whose socket writes are done. */
  function Written(d: Data): seq<Entry>
    requires |d.pieces| <= |d.log|
  {
    d.log[..|d.pieces|]
  }

  lemma WrittenDrains(k: Keys, d: Data)
    requires Correct(k.aead) && Ordered(k, d) && AllReadable(d.log) && !Broken(d)
    ensures Drain(k, 0, Joined(d.pieces, 0)) == BeforeAlert(Written(d))
  {
    var log := Written(d);
    forall i | 0 <= i < |log| ensures d.pieces[i].sent == RecordOf(k, log[i]) {
      assert log[i] == d.log[i] && d.pieces[i].fine;
    }
    DrainAll(k, log, d.pieces);
  }

  /** At any point of any schedule with takes of 1 to 16384 bytes and no failed write: a peer reading the
      socket's bytes from the start delivers exactly what the records written so far carry in front of
      the close_notify, if there is one among them. */
  lemma PeerDeliversWritten(k: Keys, threads: nat, run: seq<Event>, i: nat)
    requires i <= |run| && Correct(k.aead)
    requires forall n :: 0 <= n < |run| ==> FitTake(run[n])
    requires !Broken(After(k, threads, run, i).data)
    ensures var d := After(k, threads, run, i).data;
            |d.pieces| <= |d.log| && Drain(k, 0, Joined(d.pieces, 0)) == BeforeAlert(Written(d))
  {
    AlwaysSound(k, threads, run, i);
    AlwaysLegible(k, threads, run, i);
    WrittenDrains(k, After(k, threads, run, i).data);
  }

  lemma NothingHeld(k: Keys, s: State)
    requires Sound(k, s) && !Busy(s)
    ensures |s.data.pieces| == |s.data.log| && Written(s.data) == s.data.log
    ensures !Broken(s.data) ==> s.data.queued == AppBytes(s.data.log)
  {
    AllFree(s);
    if !Broken(s.data) {
      NothingInFlight(s);
    }
  }

  lemma {:induction false} NoAlerts(log: seq<Entry>, i: nat)
    requires Alerts(log) == 0 && i < |log|
    ensures log[i].content.typ != ALERT
    decreases |log|
  {
    if i < |log| - 1 {
      NoAlerts(log[..|log| - 1], i);
    }
  }

  lemma AllBeforeAlert(log: seq<Entry>)
    requires Alerts(log) == 0
    ensures BeforeAlert(log) == AppBytes(log)
  {
    var a := FirstAlert(log, 0);
    if a < |log| {
      NoAlerts(log, a);
    }
    assert log[..a] == log;
  }

  /** Completeness: once every call has returned, with no failed write and takes of 1 to 16384 bytes, a peer
      reading the socket's bytes from the start delivers everything sealed before the close_notify, and
      everything queued when nothing was closed. */
  lemma PeerDeliversAll(k: Keys, threads: nat, run: seq<Event>)
    requires Correct(k.aead)
    requires forall n :: 0 <= n < |run| ==> FitTake(run[n])
    requires var s := After(k, threads, run, |run|); !Busy(s) && !Broken(s.data)
    ensures var s := After(k, threads, run, |run|);
            && s.data.queued == AppBytes(s.data.log)
            && Drain(k, 0, Joined(s.data.pieces, 0)) == BeforeAlert(s.data.log)
            && (s.locks.once == Fresh ==> Drain(k, 0, Joined(s.data.pieces, 0)) == s.data.queued)
  {
    var s := After(k, threads, run, |run|);
    AlwaysSound(k, threads, run, |run|);
    PeerDeliversWritten(k, threads, run, |run|);
    NothingHeld(k, s);
    if s.locks.once == Fresh {
      AllBeforeAlert(s.data.log);
    }
  }

  lemma HolderIsBusy(s: State, t: nat)
    requires Locked(s) && (s.locks.wmu == Some(t) || s.locks.wireMu == Some(t) || s.locks.flushing == Some(t))
    ensures Busy(s)
  {
    assert LockedAt(s.threads[t], s.locks, t);
  }

  lemma AllFree(s: State)
    requires Locked(s) && !Busy(s)
    ensures s.locks.wmu == None && s.locks.wireMu == None && s.locks.flushing == None
  {
    if s.locks.wmu.Some? {
      HolderIsBusy(s, s.locks.wmu.value);
    } else if s.locks.wireMu.Some? {
      HolderIsBusy(s, s.locks.wireMu.value);
    } else if s.locks.flushing.Some? {
      HolderIsBusy(s, s.locks.flushing.value);
    }
  }

  lemma NothingInFlight(s: State)
    requires Conserved(s) && Tidy(s) && s.locks.flushing == None && !Broken(s.data)
    ensures s.data.queued == AppBytes(s.data.log)
  {
    assert AppBytes(s.data.log) + [] + [] == AppBytes(s.data.log);
  }
}
