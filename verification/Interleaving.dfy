/** The sending half of a Conn under concurrency (conn.go): any number of threads calling Write and
    Close over two mutexes, and a peer that reads whatever the network gives it. Each event is one step
    of one party; a step that cannot be taken (a mutex is held, nothing to deliver) changes nothing, so
    every list of events is a schedule. */
module Interleaving {
  import opened Bytes
  import opened RecordLayer

  datatype Op = Write(b: bytes) | Sized(payload: bytes, wireLen: int) | Close

  /** Which function called writeRecord. */
  datatype Caller = Flush | Direct | CloseNotify

  /** Where a thread stands inside writeRecord. */
  datatype Stage = Wanting | Holding | Numbered(n: U64) | Sealed(rec: bytes)

  datatype PC =
    | Idle
    | Entering(op: Op)
    | InOnce
    | Looping
    | Emitting(caller: Caller, content: Content, stage: Stage)
    | Flushed(ok: bool)
    | Unlocking(caller: Caller)
    | Closing

  datatype Once = Fresh | Running(t: nat) | Done

  datatype Entry = Entry(n: U64, content: Content)

  datatype Peer = Peer(recvSeq: U64, pending: bytes, failed: bool, delivered: bytes)

  /** The two mutexes, the flushing flag and the once, each with the thread that holds or set it. */
  datatype Locks = Locks(wmu: Option<nat>, wireMu: Option<nat>, flushing: Option<nat>, once: Once)

  /** One socket write: what of it reached the socket, and whether it went through. */
  datatype Wrote = Wrote(sent: bytes, fine: bool)

  /** The other fields of the Conn and the history: every record sealed, the socket write of each, and
      every byte ever appended to wbuf. */
  datatype Data = Data(
    wbuf: bytes, werr: bool, closed: bool, sendSeq: U64,
    log: seq<Entry>, pieces: seq<Wrote>, queued: bytes)

  datatype State = State(threads: seq<PC>, locks: Locks, data: Data, peer: Peer)

  datatype Keys = Keys(aead: Aead, iv: IV)

  /** What the shaper and the socket answer. */
  datatype Choice = Choice(take: int, padTo: int, sent: nat, ok: bool)

  /** A thread calls an operation or takes its next step; bytes arrive at the peer; the peer's caller
      takes up to n bytes. */
  datatype Event = Call(t: nat, op: Op) | Go(t: nat, choice: Choice) | Receive(arrived: bytes) | Deliver(n: nat)

  function Initial(threads: nat): State {
    State(seq(threads, _ => Idle), Locks(None, None, None, Fresh), Data([], false, false, 0, [], [], []), Peer(0, [], false, []))
  }

  /** One thread's view: its program counter and what the threads share. */
  datatype Turn = Turn(pc: PC, locks: Locks, data: Data)

  function Step(k: Keys, s: State, e: Event): State {
    match e
    case Call(t, op) =>
      if t < |s.threads| && s.threads[t].Idle? then s.(threads := s.threads[t := Entering(op)]) else s
    case Go(t, c) =>
      if t >= |s.threads| then s
      else
        var x := Advance(k, t, Turn(s.threads[t], s.locks, s.data), c);
        s.(threads := s.threads[t := x.pc], locks := x.locks, data := x.data)
    case Receive(arrived) => s.(peer := PeerReads(k, s.peer, arrived))
    case Deliver(n) =>
      var m := if n < |s.peer.pending| then n else |s.peer.pending|;
      s.(peer := s.peer.(delivered := s.peer.delivered + s.peer.pending[..m], pending := s.peer.pending[m..]))
  }

  /** The next step of thread t, or nothing when it must wait. */
  function Advance(k: Keys, t: nat, x: Turn, c: Choice): Turn {
    match x.pc
    case Idle => x
    case Entering(Write(b)) => if x.locks.wmu.Some? then x else Append(t, x, b)
    case Entering(Sized(p, n)) => if x.locks.wmu.Some? then x else StartSized(t, x, p, n)
    case Entering(Close) => EnterOnce(t, x)
    case InOnce => if x.locks.wmu.Some? then x else x.(pc := Emitting(CloseNotify, CLOSE_NOTIFY, Wanting), locks := x.locks.(wmu := Some(t)))
    case Looping => FlushNext(x, c)
    case Emitting(_, _, Wanting) => if x.locks.wireMu.Some? then x else x.(pc := x.pc.(stage := Holding), locks := x.locks.(wireMu := Some(t)))
    case Emitting(_, _, Holding) => x.(pc := x.pc.(stage := Numbered(x.data.sendSeq)))
    case Emitting(_, content, Numbered(n)) => x.(pc := x.pc.(stage := Sealed(Record(k.aead, k.iv, n, content))), data := Logged(x.data, n, content))
    case Emitting(caller, _, Sealed(rec)) => Send(x, caller, rec, c)
    case Flushed(fine) => if x.locks.wmu.Some? then x else Resume(t, x, fine)
    case Unlocking(caller) => Unlock(x, caller)
    case Closing => x.(pc := Idle, data := x.data.(closed := true))
  }

  const CLOSE_NOTIFY: Content := Content(ALERT, [0x01, 0x00], CLOSE_NOTIFY_WIRE - RECORD_HEADER_LEN - OVERHEAD)

  /** Write, up to the head of its loop. */
  function Append(t: nat, x: Turn, b: bytes): Turn {
    if x.data.werr then x.(pc := Idle)
    else
      var d := x.data.(wbuf := x.data.wbuf + b, queued := x.data.queued + b);
      if x.locks.flushing.Some? then Turn(Idle, x.locks, d)
      else Turn(Looping, x.locks.(flushing := Some(t), wmu := Some(t)), d)
  }

  /** A take the buffer cannot give means all of it. */
  function Taken(available: nat, take: int): (n: nat)
    ensures n <= available && (available > 0 ==> n > 0)
  {
    if take <= 0 || take > available then available else take
  }

  /** The flush loop with the mutex held: done, or one chunk cut off and the mutex released. */
  function FlushNext(x: Turn, c: Choice): Turn {
    if x.data.wbuf == [] then x.(pc := Idle, locks := x.locks.(flushing := None, wmu := None))
    else
      var n := Taken(|x.data.wbuf|, c.take);
      Turn(Emitting(Flush, Content(APP_DATA, x.data.wbuf[..n], c.padTo), Wanting), x.locks.(wmu := None), x.data.(wbuf := x.data.wbuf[n..]))
  }

  /** Write, after writeRecord returned and the mutex is free to take back. */
  function Resume(t: nat, x: Turn, fine: bool): Turn {
    if fine then x.(pc := Looping, locks := x.locks.(wmu := Some(t)))
    else Turn(Idle, x.locks.(flushing := None), x.data.(werr := true))
  }

  /** writeSized: it keeps the mutex until its record is out, or refuses at once. */
  function StartSized(t: nat, x: Turn, payload: bytes, wireLen: int): Turn {
    var padTo := wireLen - RECORD_HEADER_LEN - OVERHEAD;
    if padTo < |payload| + 1 || padTo > MAX_INNER then x.(pc := Idle)
    else x.(pc := Emitting(Direct, Content(HANDSHAKE, payload, padTo), Wanting), locks := x.locks.(wmu := Some(t)))
  }

  function EnterOnce(t: nat, x: Turn): Turn {
    match x.locks.once
    case Fresh => x.(pc := InOnce, locks := x.locks.(once := Running(t)))
    case Running(_) => x
    case Done => x.(pc := Closing)
  }

  function Logged(d: Data, n: U64, content: Content): Data {
    d.(log := d.log + [Entry(n, content)], sendSeq := NextSeq(d.sendSeq))
  }

  /** The socket write and the release of wireMu. A failed write may leave any prefix; a closed socket
      takes no complete record. */
  function Send(x: Turn, caller: Caller, rec: bytes, c: Choice): Turn {
    var fine := c.ok && !x.data.closed;
    var piece := if fine || c.sent > |rec| then rec else rec[..c.sent];
    Turn(if caller.Flush? then Flushed(fine) else Unlocking(caller),
         x.locks.(wireMu := None),
         x.data.(pieces := x.data.pieces + [Wrote(piece, fine)]))
  }

  function Unlock(x: Turn, caller: Caller): Turn {
    if caller.CloseNotify? then x.(pc := Closing, locks := x.locks.(wmu := None, once := Done))
    else x.(pc := Idle, locks := x.locks.(wmu := None))
  }

  /** decryptRecord and readRecord on what arrived; an error sticks. The peer reads a record only when
      it has nothing left to deliver. */
  function PeerReads(k: Keys, p: Peer, arrived: bytes): Peer {
    if p.failed || p.pending != [] then p
    else
      match ReadOne(k.aead, k.iv, p.recvSeq, arrived)
      case None => p.(failed := true)
      case Some(((typ, payload), _)) =>
        p.(recvSeq := NextSeq(p.recvSeq), pending := Carried(typ, payload), failed := typ == ALERT)
  }

  /** The state after the first i events. */
  function After(k: Keys, threads: nat, run: seq<Event>, i: nat): State
    requires i <= |run|
    decreases i
  {
    if i == 0 then Initial(threads) else Step(k, After(k, threads, run, i - 1), run[i - 1])
  }

  // ------------------------------------------------------------------- mutexes

  predicate HoldsWmu(pc: PC) {
    pc.Looping? || pc.Unlocking? || (pc.Emitting? && !pc.caller.Flush?)
  }

  predicate HoldsWire(pc: PC) {
    pc.Emitting? && !pc.stage.Wanting?
  }

  predicate Flushes(pc: PC) {
    pc.Looping? || pc.Flushed? || (pc.Emitting? && pc.caller.Flush?)
  }

  predicate InBody(pc: PC) {
    pc.InOnce? || (pc.Emitting? && pc.caller.CloseNotify?) || (pc.Unlocking? && pc.caller.CloseNotify?)
  }

  /** Thread t stands where only the owner of a mutex, of the flush or of the once body may stand
      exactly when it is the owner. */
  predicate LockedAt(pc: PC, l: Locks, t: nat) {
    && (HoldsWmu(pc) <==> l.wmu == Some(t))
    && (HoldsWire(pc) <==> l.wireMu == Some(t))
    && (Flushes(pc) <==> l.flushing == Some(t))
    && (InBody(pc) <==> l.once == Running(t))
  }

  /** Mutual exclusion: nobody but the owners, who exist, stands where only they may. */
  ghost predicate Locked(s: State) {
    && (s.locks.wmu.Some? ==> s.locks.wmu.value < |s.threads|)
    && (s.locks.wireMu.Some? ==> s.locks.wireMu.value < |s.threads|)
    && (s.locks.flushing.Some? ==> s.locks.flushing.value < |s.threads|)
    && (s.locks.once.Running? ==> s.locks.once.t < |s.threads|)
    && forall t: nat :: t < |s.threads| ==> LockedAt(s.threads[t], s.locks, t)
  }

  /** Taken when free, given up by its owner, or left alone. */
  predicate HandedOver(before: Option<nat>, after: Option<nat>, t: nat) {
    after == before || (before == None && after == Some(t)) || (before == Some(t) && after == None)
  }

  predicate FairLocks(l: Locks, l': Locks, t: nat) {
    && HandedOver(l.wmu, l'.wmu, t) && HandedOver(l.wireMu, l'.wireMu, t) && HandedOver(l.flushing, l'.flushing, t)
    && (l'.once == l.once || (l.once == Fresh && l'.once == Running(t)) || (l.once == Running(t) && l'.once == Done))
  }

  lemma AdvanceLocks(k: Keys, t: nat, x: Turn, c: Choice)
    requires LockedAt(x.pc, x.locks, t)
    ensures var y := Advance(k, t, x, c); LockedAt(y.pc, y.locks, t) && FairLocks(x.locks, y.locks, t)
  {
  }

  lemma OthersKeep(pc: PC, l: Locks, l': Locks, t: nat, u: nat)
    requires u != t && LockedAt(pc, l, u) && FairLocks(l, l', t)
    ensures LockedAt(pc, l', u)
  {
  }

  lemma LockedStep(k: Keys, s: State, e: Event)
    requires Locked(s)
    ensures Locked(Step(k, s, e))
  {
    if e.Go? && e.t < |s.threads| {
      var t := e.t;
      AdvanceLocks(k, t, Turn(s.threads[t], s.locks, s.data), e.choice);
      var s' := Step(k, s, e);
      forall u: nat | u < |s.threads| ensures LockedAt(s'.threads[u], s'.locks, u) {
        assert LockedAt(s.threads[u], s.locks, u);
        if u != t {
          OthersKeep(s.threads[u], s.locks, s'.locks, t, u);
        }
      }
    }
  }

  // ------------------------------------------------------- numbers and the wire

  /** The bytes of the record an entry stands for. */
  function RecordOf(k: Keys, e: Entry): bytes {
    Record(k.aead, k.iv, e.n, e.content)
  }

  predicate NumberedInOrder(log: seq<Entry>) {
    forall i :: 0 <= i < |log| ==> log[i].n == Count(i)
  }

  /** Some socket write failed. */
  predicate Broken(d: Data) {
    exists i :: 0 <= i < |d.pieces| && !d.pieces[i].fine
  }

  /** Each sealed record reached the socket in its turn: all of it, or a prefix if that write failed. */
  ghost predicate SentInOrder(k: Keys, d: Data) {
    && |d.pieces| <= |d.log|
    && forall i :: 0 <= i < |d.pieces| ==>
        d.pieces[i].sent <= RecordOf(k, d.log[i]) && (d.pieces[i].fine ==> d.pieces[i].sent == RecordOf(k, d.log[i]))
  }

  ghost predicate Ordered(k: Keys, d: Data) {
    && d.sendSeq == Count(|d.log|) && NumberedInOrder(d.log) && SentInOrder(k, d)
  }

  /** What each caller writes. */
  predicate Proper(pc: PC) {
    pc.Emitting? ==>
      match pc.caller
      case Flush => pc.content.typ == APP_DATA
      case Direct => pc.content.typ == HANDSHAKE
      case CloseNotify => pc.content == CLOSE_NOTIFY
  }

  /** Whoever is past Wanting sees the counter it took, and after sealing is the only record behind. */
  ghost predicate WireAt(k: Keys, pc: PC, d: Data) {
    && Proper(pc)
    && (pc.Emitting? && pc.stage.Numbered? ==> pc.stage.n == d.sendSeq)
    && (HoldsWire(pc) && !pc.stage.Sealed? ==> |d.pieces| == |d.log|)
    && (pc.Emitting? && pc.stage.Sealed? ==>
        |d.log| == |d.pieces| + 1 && d.log[|d.pieces|].content == pc.content && pc.stage.rec == RecordOf(k, d.log[|d.pieces|]))
  }

  ghost predicate WireFree(l: Locks, d: Data) {
    l.wireMu == None ==> |d.pieces| == |d.log|
  }

  predicate SameWire(d: Data, d': Data) {
    d'.log == d.log && d'.sendSeq == d.sendSeq && d'.pieces == d.pieces
  }

  lemma SealKeepsOrder(k: Keys, d: Data, content: Content)
    requires Ordered(k, d) && |d.pieces| == |d.log|
    ensures Ordered(k, Logged(d, d.sendSeq, content))
  {
    var d' := Logged(d, d.sendSeq, content);
    assert forall i :: 0 <= i < |d.log| ==> d'.log[i] == d.log[i];
  }

  lemma SendKeepsOrder(k: Keys, x: Turn, caller: Caller, rec: bytes, c: Choice)
    requires Ordered(k, x.data) && |x.data.log| == |x.data.pieces| + 1 && rec == RecordOf(k, x.data.log[|x.data.pieces|])
    ensures Ordered(k, Send(x, caller, rec, c).data)
  {
  }

  /** A thread that does not hold wireMu leaves the wire alone. */
  lemma QuietAdvance(k: Keys, t: nat, x: Turn, c: Choice)
    requires LockedAt(x.pc, x.locks, t) && !HoldsWire(x.pc) && Proper(x.pc) && WireFree(x.locks, x.data)
    ensures var y := Advance(k, t, x, c);
            SameWire(x.data, y.data) && WireAt(k, y.pc, y.data) && WireFree(y.locks, y.data)
  {
  }

  lemma EmittingAdvance(k: Keys, t: nat, x: Turn, c: Choice)
    requires LockedAt(x.pc, x.locks, t) && HoldsWire(x.pc) && Ordered(k, x.data) && WireAt(k, x.pc, x.data)
    ensures var y := Advance(k, t, x, c);
            Ordered(k, y.data) && WireAt(k, y.pc, y.data) && WireFree(y.locks, y.data)
  {
    match x.pc.stage
    case Numbered(n) => SealKeepsOrder(k, x.data, x.pc.content);
    case Sealed(rec) => SendKeepsOrder(k, x, x.pc.caller, rec, c);
    case Holding =>
  }

  lemma AdvanceWire(k: Keys, t: nat, x: Turn, c: Choice)
    requires LockedAt(x.pc, x.locks, t) && Ordered(k, x.data) && WireAt(k, x.pc, x.data) && WireFree(x.locks, x.data)
    ensures var y := Advance(k, t, x, c);
            && Ordered(k, y.data) && WireAt(k, y.pc, y.data) && WireFree(y.locks, y.data)
            && (SameWire(x.data, y.data) || HoldsWire(x.pc))
  {
    if HoldsWire(x.pc) {
      EmittingAdvance(k, t, x, c);
    } else {
      QuietAdvance(k, t, x, c);
      SameOrder(k, x.data, Advance(k, t, x, c).data);
    }
  }

  lemma SameOrder(k: Keys, d: Data, d': Data)
    requires Ordered(k, d) && SameWire(d, d')
    ensures Ordered(k, d')
  {
  }

  ghost predicate Wired(k: Keys, s: State) {
    && Ordered(k, s.data) && WireFree(s.locks, s.data)
    && forall t: nat :: t < |s.threads| ==> WireAt(k, s.threads[t], s.data)
  }

  lemma OthersWire(k: Keys, pc: PC, d: Data, d': Data)
    requires WireAt(k, pc, d) && (SameWire(d, d') || !HoldsWire(pc))
    ensures WireAt(k, pc, d')
  {
  }

  lemma WiredStep(k: Keys, s: State, e: Event)
    requires Locked(s) && Wired(k, s)
    ensures Wired(k, Step(k, s, e))
  {
    if e.Go? && e.t < |s.threads| {
      var t := e.t;
      assert LockedAt(s.threads[t], s.locks, t) && WireAt(k, s.threads[t], s.data);
      AdvanceWire(k, t, Turn(s.threads[t], s.locks, s.data), e.choice);
      var s' := Step(k, s, e);
      forall u: nat | u < |s.threads| ensures WireAt(k, s'.threads[u], s'.data) {
        assert LockedAt(s.threads[u], s.locks, u) && WireAt(k, s.threads[u], s.data);
        if u != t {
          OthersWire(k, s.threads[u], s.data, s'.data);
        }
      }
    }
  }

  // ---------------------------------------------------------------- conservation

  /** What a record adds to the stream: only application data counts. */
  function Carried(typ: byte, payload: bytes): bytes {
    if typ == APP_DATA then payload else []
  }

  /** The application bytes a log carries. */
  function AppBytes(log: seq<Entry>): bytes {
    if log == [] then []
    else
      var e := log[|log| - 1];
      AppBytes(log[..|log| - 1]) + Carried(e.content.typ, e.content.payload)
  }

  lemma AppBytesSnoc(log: seq<Entry>, e: Entry)
    ensures AppBytes(log + [e]) == AppBytes(log) + Carried(e.content.typ, e.content.payload)
  {
    assert (log + [e])[..|log|] == log;
  }

  /** Cut off the buffer but not yet sealed. */
  function InflightOf(pc: PC): bytes {
    if pc.Emitting? && pc.caller.Flush? && !pc.stage.Sealed? then pc.content.payload else []
  }

  predicate Conserves(d: Data, inflight: bytes) {
    d.queued == AppBytes(d.log) + inflight + d.wbuf
  }

  lemma CutChunk(a: bytes, b: bytes, n: nat)
    requires n <= |b|
    ensures a + [] + b == a + b[..n] + b[n..]
  {
    assert b == b[..n] + b[n..];
  }

  lemma AppendBytes(a: bytes, b: bytes, c: bytes, d: bytes)
    ensures a + b + (c + d) == a + b + c + d
  {
  }

  lemma CutConserves(d: Data, n: nat)
    requires Conserves(d, []) && n <= |d.wbuf|
    ensures Conserves(d.(wbuf := d.wbuf[n..]), d.wbuf[..n])
  {
    CutChunk(AppBytes(d.log), d.wbuf, n);
  }

  lemma SealConserves(d: Data, content: Content, n: U64, inflight: bytes)
    requires Conserves(d, Carried(content.typ, content.payload) + inflight)
    ensures Conserves(Logged(d, n, content), inflight)
  {
    AppBytesSnoc(d.log, Entry(n, content));
    AppendBytes(AppBytes(d.log), [], Carried(content.typ, content.payload), inflight);
    assert AppBytes(d.log) + [] == AppBytes(d.log);
  }

  lemma AppendConserves(t: nat, x: Turn, b: bytes, inflight: bytes)
    requires Conserves(x.data, inflight)
    ensures Conserves(Append(t, x, b).data, inflight)
  {
    AppendBytes(AppBytes(x.data.log), inflight, x.data.wbuf, b);
  }

  /** The three steps that move bytes. */
  predicate MovesBytes(pc: PC) {
    (pc.Entering? && pc.op.Write?) || pc.Looping? || (pc.Emitting? && pc.stage.Numbered?)
  }

  lemma OthersMoveNone(k: Keys, t: nat, x: Turn, c: Choice)
    requires !MovesBytes(x.pc)
    ensures var y := Advance(k, t, x, c);
            && y.data.queued == x.data.queued && y.data.log == x.data.log && y.data.wbuf == x.data.wbuf
            && InflightOf(y.pc) == InflightOf(x.pc)
  {
  }

  lemma FlusherCuts(k: Keys, t: nat, x: Turn, c: Choice)
    requires x.pc.Looping? && Conserves(x.data, [])
    ensures var y := Advance(k, t, x, c); Conserves(y.data, InflightOf(y.pc))
  {
    if x.data.wbuf != [] {
      CutConserves(x.data, Taken(|x.data.wbuf|, c.take));
    }
  }

  lemma FlusherSeals(k: Keys, t: nat, x: Turn, c: Choice)
    requires x.pc.Emitting? && x.pc.stage.Numbered? && Proper(x.pc) && Conserves(x.data, InflightOf(x.pc))
    ensures var y := Advance(k, t, x, c); Conserves(y.data, InflightOf(y.pc))
  {
    var content := x.pc.content;
    assert Carried(content.typ, content.payload) + [] == InflightOf(x.pc);
    SealConserves(x.data, content, x.pc.stage.n, []);
  }

  lemma FlusherAppends(k: Keys, t: nat, x: Turn, c: Choice)
    requires x.pc.Entering? && x.pc.op.Write? && Conserves(x.data, [])
    ensures var y := Advance(k, t, x, c); Conserves(y.data, InflightOf(y.pc))
  {
    AppendConserves(t, x, x.pc.op.b, []);
  }

  /** The flusher, or a thread about to become it. */
  lemma FlusherConserves(k: Keys, t: nat, x: Turn, c: Choice)
    requires Proper(x.pc) && Conserves(x.data, InflightOf(x.pc))
    ensures var y := Advance(k, t, x, c); Conserves(y.data, InflightOf(y.pc))
  {
    if !MovesBytes(x.pc) {
      OthersMoveNone(k, t, x, c);
    } else if x.pc.Entering? {
      FlusherAppends(k, t, x, c);
    } else if x.pc.Looping? {
      FlusherCuts(k, t, x, c);
    } else {
      FlusherSeals(k, t, x, c);
    }
  }

  /** Any other thread, whatever the flusher has in flight. */
  lemma OtherConserves(k: Keys, t: nat, x: Turn, c: Choice, inflight: bytes)
    requires LockedAt(x.pc, x.locks, t) && Proper(x.pc) && !Flushes(x.pc) && x.locks.flushing.Some?
    requires Conserves(x.data, inflight)
    ensures Conserves(Advance(k, t, x, c).data, inflight)
  {
    if !MovesBytes(x.pc) {
      OthersMoveNone(k, t, x, c);
    } else if x.pc.Entering? {
      AppendConserves(t, x, x.pc.op.b, inflight);
    } else {
      assert [] + inflight == inflight;
      SealConserves(x.data, x.pc.content, x.pc.stage.n, inflight);
    }
  }

  /** What the flusher has in flight. */
  function Inflight(s: State): bytes {
    if s.locks.flushing.Some? && s.locks.flushing.value < |s.threads| then InflightOf(s.threads[s.locks.flushing.value]) else []
  }

  ghost predicate Conserved(s: State) {
    Conserves(s.data, Inflight(s))
  }

  lemma ConservedStep(k: Keys, s: State, e: Event)
    requires Locked(s) && Wired(k, s) && Conserved(s)
    ensures Conserved(Step(k, s, e))
  {
    if (e.Go? || e.Call?) && e.t < |s.threads| {
      assert LockedAt(s.threads[e.t], s.locks, e.t) && WireAt(k, s.threads[e.t], s.data);
      if e.Go? {
        ConservedGo(k, s, e.t, e.choice);
      }
    }
  }

  lemma ConservedGo(k: Keys, s: State, t: nat, c: Choice)
    requires t < |s.threads| && LockedAt(s.threads[t], s.locks, t) && Proper(s.threads[t]) && Conserved(s)
    requires s.locks.flushing.Some? ==> s.locks.flushing.value < |s.threads|
    ensures Conserved(Step(k, s, Go(t, c)))
  {
    var x := Turn(s.threads[t], s.locks, s.data);
    var y := Advance(k, t, x, c);
    AdvanceLocks(k, t, x, c);
    if Flushes(x.pc) || x.locks.flushing == None {
      FlusherConserves(k, t, x, c);
      assert Inflight(Step(k, s, Go(t, c))) == InflightOf(y.pc);
    } else {
      OtherConserves(k, t, x, c, Inflight(s));
    }
  }
}
