/** The two models of a Conn's sending half are one (conn.go): a call that runs by itself takes steps of
    Interleaving, and what it leaves is what the methods of ConnObject leave. And what a step queues and
    seals, read off the call. */
module Alone {
  import opened Bytes
  import opened RecordLayer
  import opened Interleaving
  import opened Delivery
  import opened ConnObject

  /** Thread t takes these steps, one after the other. */
  function Turns(k: Keys, t: nat, x: Turn, cs: seq<Choice>): Turn
    decreases |cs|
  {
    if cs == [] then x else Turns(k, t, Advance(k, t, x, cs[0]), cs[1..])
  }

  lemma {:induction false} TurnsJoin(k: Keys, t: nat, x: Turn, a: seq<Choice>, b: seq<Choice>)
    ensures Turns(k, t, x, a + b) == Turns(k, t, Turns(k, t, x, a), b)
    decreases |a|
  {
    if a == [] {
      assert a + b == b;
    } else {
      assert (a + b)[1..] == a[1..] + b;
      TurnsJoin(k, t, Advance(k, t, x, a[0]), a[1..], b);
    }
  }

  lemma TurnsCons(k: Keys, t: nat, x: Turn, c: Choice, rest: seq<Choice>)
    ensures Turns(k, t, x, [c] + rest) == Turns(k, t, Advance(k, t, x, c), rest)
  {
    assert ([c] + rest)[1..] == rest;
  }

  /** The fields of the Conn and what is on its socket. */
  predicate Matches(d: Data, o: Out) {
    o.wbuf == d.wbuf && o.sendSeq == d.sendSeq && o.werr == d.werr && o.writes == |d.pieces| && o.sent == Joined(d.pieces, 0)
  }

  lemma {:induction false} JoinedSnoc(pieces: seq<Wrote>, w: Wrote, j: nat)
    requires j <= |pieces|
    ensures Joined(pieces + [w], j) == Joined(pieces, j) + w.sent
    decreases |pieces| - j
  {
    if j < |pieces| {
      JoinedSnoc(pieces, w, j + 1);
      Assoc(pieces[j].sent, Joined(pieces, j + 1), w.sent);
    } else {
      assert Joined(pieces + [w], j) == w.sent + Joined(pieces + [w], j + 1);
      assert w.sent + [] == w.sent && [] + w.sent == w.sent;
    }
  }

  /** The socket's answer to its next write. */
  function Answer(answers: nat -> (nat, bool), o: Out, take: int, padTo: int): Choice {
    Choice(take, padTo, answers(o.writes).0, answers(o.writes).1)
  }

  // ------------------------------------------------------------------ writeRecord

  /** The four steps of one writeRecord. */
  function FourTurns(c: Choice): seq<Choice> {
    [c] + ([c] + ([c] + ([c] + [])))
  }

  /** Sealed under the next number and handed to the socket. */
  function Emitted(k: Keys, x: Turn, c: Choice): Turn
    requires x.pc.Emitting?
  {
    var d := Logged(x.data, x.data.sendSeq, x.pc.content);
    Send(x.(data := d), x.pc.caller, Record(k.aead, k.iv, x.data.sendSeq, x.pc.content), c)
  }

  lemma EmitTurns(k: Keys, t: nat, x: Turn, c: Choice)
    requires x.pc.Emitting? && x.pc.stage.Wanting? && x.locks.wireMu.None?
    ensures Turns(k, t, x, FourTurns(c)) == Emitted(k, x, c)
  {
    var x1 := Advance(k, t, x, c);
    var x2 := Advance(k, t, x1, c);
    var x3 := Advance(k, t, x2, c);
    TurnsCons(k, t, x, c, [c] + ([c] + ([c] + [])));
    TurnsCons(k, t, x1, c, [c] + ([c] + []));
    TurnsCons(k, t, x2, c, [c] + []);
    TurnsCons(k, t, x3, c, []);
  }

  /** It leaves what WriteRecord leaves, and is told what WriteRecord tells. */
  lemma EmitMatches(k: Keys, x: Turn, answers: nat -> (nat, bool), o: Out, c: Choice)
    requires x.pc.Emitting? && Matches(x.data, o) && c.sent == answers(o.writes).0 && c.ok == answers(o.writes).1
    ensures var (o', ok) := WriteOne(k, answers, x.data.closed, o, x.pc.content);
            var y := Emitted(k, x, c);
            && Matches(y.data, o') && y.data.closed == x.data.closed && y.locks == x.locks.(wireMu := None)
            && y.pc == if x.pc.caller.Flush? then Flushed(ok) else Unlocking(x.pc.caller)
  {
    var rec := Record(k.aead, k.iv, o.sendSeq, x.pc.content);
    JoinedSnoc(x.data.pieces, Wrote(Piece(rec, answers(o.writes), x.data.closed), c.ok && !x.data.closed), 0);
  }

  // ------------------------------------------------------------------------ Write

  /** At the head of the flush loop, with the write mutex and nobody at the wire. */
  predicate AtLoop(t: nat, x: Turn) {
    x.pc == Looping && x.locks.wmu == Some(t) && x.locks.flushing == Some(t) && x.locks.wireMu == None
  }

  /** One turn of the flush loop: cut, write, take the mutex back. */
  function RoundOf(c: Choice): seq<Choice> {
    [c] + (FourTurns(c) + [c])
  }

  lemma RoundSplits(k: Keys, t: nat, x: Turn, c: Choice)
    ensures var x1 := Advance(k, t, x, c);
            Turns(k, t, x, RoundOf(c)) == Advance(k, t, Turns(k, t, x1, FourTurns(c)), c)
  {
    var x1 := Advance(k, t, x, c);
    TurnsCons(k, t, x, c, FourTurns(c) + [c]);
    TurnsJoin(k, t, x1, FourTurns(c), [c]);
    var x5 := Turns(k, t, x1, FourTurns(c));
    assert [c] == [c] + [];
    TurnsCons(k, t, x5, c, []);
  }

  /** The cut of the loop's turn. */
  lemma CutMatches(k: Keys, t: nat, x: Turn, shaper: nat -> (int, int), o: Out, c: Choice)
    requires AtLoop(t, x) && Matches(x.data, o) && o.wbuf != [] && (c.take, c.padTo) == shaper(|o.wbuf|)
    ensures var (content, left) := NextContent(shaper, o.wbuf);
            var y := Advance(k, t, x, c);
            && y.pc == Emitting(Flush, content, Wanting) && y.locks == x.locks.(wmu := None)
            && Matches(y.data, o.(wbuf := left)) && y.data.closed == x.data.closed
  {
  }

  /** A turn of the loop leaves what FlushOne leaves: the loop again after a write that went through, and the
      end of the call with the failure noted after one that did not. */
  lemma RoundMatches(k: Keys, t: nat, x: Turn, shaper: nat -> (int, int), answers: nat -> (nat, bool), o: Out)
    requires AtLoop(t, x) && Matches(x.data, o) && o.wbuf != []
    ensures var c := Answer(answers, o, shaper(|o.wbuf|).0, shaper(|o.wbuf|).1);
            var (o', ok) := NextChunk(k, shaper, answers, x.data.closed, o);
            var y := Turns(k, t, x, RoundOf(c));
            && y.data.closed == x.data.closed
            && (ok ==> AtLoop(t, y) && y.locks == x.locks && Matches(y.data, o'))
            && (!ok ==> y.pc == Idle && y.locks == x.locks.(wmu := None, flushing := None) && Matches(y.data, o'.(werr := true)))
  {
    var c := Answer(answers, o, shaper(|o.wbuf|).0, shaper(|o.wbuf|).1);
    var (content, left) := NextContent(shaper, o.wbuf);
    var x1 := Advance(k, t, x, c);
    RoundSplits(k, t, x, c);
    CutMatches(k, t, x, shaper, o, c);
    EmitTurns(k, t, x1, c);
    EmitMatches(k, x1, answers, o.(wbuf := left), c);
  }

  /** The loop, run to its end by one thread, is FlushAll: some choices of the shaper's and the socket's
      answers lead there. */
  lemma {:induction false} LoopMatches(k: Keys, t: nat, x: Turn, shaper: nat -> (int, int), answers: nat -> (nat, bool), o: Out) returns (cs: seq<Choice>)
    requires AtLoop(t, x) && Matches(x.data, o)
    ensures var o' := FlushAll(k, shaper, answers, x.data.closed, o).0;
            var y := Turns(k, t, x, cs);
            y.pc == Idle && y.locks == x.locks.(wmu := None, flushing := None) && Matches(y.data, o')
    decreases |o.wbuf|
  {
    if o.wbuf == [] {
      var c := Choice(0, 0, 0, true);
      assert [c] == [c] + [];
      TurnsCons(k, t, x, c, []);
      cs := [c];
    } else {
      var c := Answer(answers, o, shaper(|o.wbuf|).0, shaper(|o.wbuf|).1);
      var (o1, ok) := NextChunk(k, shaper, answers, x.data.closed, o);
      RoundMatches(k, t, x, shaper, answers, o);
      cs := RoundOf(c);
      if ok {
        var more := LoopMatches(k, t, Turns(k, t, x, cs), shaper, answers, o1);
        TurnsJoin(k, t, x, cs, more);
        cs := cs + more;
      }
    }
  }

  predicate NobodyElse(l: Locks) {
    l.wmu == None && l.wireMu == None && l.flushing == None
  }

  /** Write by itself: it ends where the method ends, and queues what it was given. */
  lemma WriteMatches(k: Keys, t: nat, x: Turn, shaper: nat -> (int, int), answers: nat -> (nat, bool), o: Out, b: bytes) returns (cs: seq<Choice>)
    requires x.pc == Entering(Write(b)) && NobodyElse(x.locks) && Matches(x.data, o)
    ensures var y := Turns(k, t, x, cs);
            var o' := if o.werr then o else FlushAll(k, shaper, answers, x.data.closed, o.(wbuf := o.wbuf + b)).0;
            y.pc == Idle && y.locks == x.locks && Matches(y.data, o')
  {
    var c := Choice(0, 0, 0, true);
    var x1 := Advance(k, t, x, c);
    assert [c] == [c] + [];
    TurnsCons(k, t, x, c, []);
    cs := [c];
    if !o.werr {
      var more := LoopMatches(k, t, x1, shaper, answers, o.(wbuf := o.wbuf + b));
      TurnsJoin(k, t, x, [c], more);
      cs := [c] + more;
    }
  }

  // -------------------------------------------------------------- writeSized, Close

  /** Past its mutex a record goes out and the mutex is given up. */
  lemma DirectMatches(k: Keys, t: nat, x: Turn, answers: nat -> (nat, bool), o: Out, c: Choice)
    requires x.pc.Emitting? && x.pc.stage.Wanting? && !x.pc.caller.Flush? && x.locks.wireMu.None?
    requires Matches(x.data, o) && c.sent == answers(o.writes).0 && c.ok == answers(o.writes).1
    ensures var y := Turns(k, t, x, FourTurns(c) + [c]);
            && Matches(y.data, WriteOne(k, answers, x.data.closed, o, x.pc.content).0) && y.data.closed == x.data.closed
            && y.pc == (if x.pc.caller.CloseNotify? then Closing else Idle)
            && y.locks == if x.pc.caller.CloseNotify? then x.locks.(wmu := None, once := Done) else x.locks.(wmu := None)
  {
    EmitTurns(k, t, x, c);
    EmitMatches(k, x, answers, o, c);
    TurnsJoin(k, t, x, FourTurns(c), [c]);
    assert [c] == [c] + [];
    TurnsCons(k, t, Turns(k, t, x, FourTurns(c)), c, []);
  }

  /** writeSized by itself: one handshake record of the asked length, or nothing where the content does not
      fit it or it does not fit a record. */
  lemma SizedMatches(k: Keys, t: nat, x: Turn, answers: nat -> (nat, bool), o: Out, payload: bytes, wireLen: int) returns (cs: seq<Choice>)
    requires x.pc == Entering(Sized(payload, wireLen)) && NobodyElse(x.locks) && Matches(x.data, o)
    ensures var y := Turns(k, t, x, cs);
            && y.pc == Idle && y.locks == x.locks
            && Matches(y.data, if |payload| + 22 <= wireLen <= 16406
                               then WriteOne(k, answers, x.data.closed, o, Content(0x16, payload, wireLen - 21)).0 else o)
  {
    var c := Answer(answers, o, 0, 0);
    var x1 := Advance(k, t, x, c);
    TurnsCons(k, t, x, c, FourTurns(c) + [c]);
    assert [c] == [c] + [];
    TurnsCons(k, t, x, c, []);
    if |payload| + 22 <= wireLen <= 16406 {
      DirectMatches(k, t, x1, answers, o, c);
      cs := [c] + (FourTurns(c) + [c]);
    } else {
      cs := [c];
    }
  }

  /** The first Close by itself: one alert, close_notify, in a record of 24 bytes, and a closed socket. */
  lemma CloseMatches(k: Keys, t: nat, x: Turn, answers: nat -> (nat, bool), o: Out) returns (cs: seq<Choice>)
    requires x.pc == Entering(Close) && NobodyElse(x.locks) && x.locks.once == Fresh && Matches(x.data, o)
    ensures var y := Turns(k, t, x, cs);
            && y.pc == Idle && y.data.closed && y.locks == x.locks.(once := Done)
            && Matches(y.data, WriteOne(k, answers, x.data.closed, o, Content(0x15, [0x01, 0x00], 3)).0)
  {
    var c := Answer(answers, o, 0, 0);
    var x1 := Advance(k, t, x, c);
    var x2 := Advance(k, t, x1, c);
    var tail := FourTurns(c) + [c];
    TurnsCons(k, t, x, c, [c] + (tail + [c]));
    TurnsCons(k, t, x1, c, tail + [c]);
    TurnsJoin(k, t, x2, tail, [c]);
    DirectMatches(k, t, x2, answers, o, c);
    assert [c] == [c] + [];
    TurnsCons(k, t, Turns(k, t, x2, tail), c, []);
    cs := [c] + ([c] + (tail + [c]));
  }

  // --------------------------------------------------------------- what is queued

  /** What an event queues: the bytes of a Write that gets the mutex before a failure is on record. */
  function Queues(s: State, e: Event): bytes {
    if e.Go? && e.t < |s.threads| && s.threads[e.t].Entering? && s.threads[e.t].op.Write? && s.locks.wmu == None && !s.data.werr
    then s.threads[e.t].op.b else []
  }

  /** What a whole schedule queues, in the order the mutex was taken. */
  function Queue(k: Keys, threads: nat, run: seq<Event>, i: nat): bytes
    requires i <= |run|
    decreases i
  {
    if i == 0 then [] else Queue(k, threads, run, i - 1) + Queues(After(k, threads, run, i - 1), run[i - 1])
  }

  lemma QueuedStep(k: Keys, s: State, e: Event)
    ensures Step(k, s, e).data.queued == s.data.queued + Queues(s, e)
  {
    if Queues(s, e) == [] {
      assert s.data.queued + [] == s.data.queued;
    }
  }

  /** The bytes every delivery theorem speaks of are those given to Write, all of them and in lock order. */
  lemma {:induction false} QueuedIsWritten(k: Keys, threads: nat, run: seq<Event>, i: nat)
    requires i <= |run|
    ensures After(k, threads, run, i).data.queued == Queue(k, threads, run, i)
    decreases i
  {
    if i > 0 {
      QueuedIsWritten(k, threads, run, i - 1);
      QueuedStep(k, After(k, threads, run, i - 1), run[i - 1]);
    }
  }

  // ------------------------------------------------------------ what is delivered

  /** The network hands the peer the first i records of the log, one by one, and after each the peer's caller
      takes all there is. */
  function Fed(k: Keys, s: State, i: nat): State
    requires i <= |s.data.log|
    decreases i
  {
    if i == 0 then s
    else
      var s1 := Step(k, Fed(k, s, i - 1), Receive(RecordOf(k, s.data.log[i - 1])));
      Step(k, s1, Deliver(|s1.peer.pending|))
  }

  /** One record that arrives whole, with anything behind it. */
  lemma PeerTakes(k: Keys, p: Peer, e: Entry, rest: bytes)
    requires Correct(k.aead) && Readable(e.content) && e.n == p.recvSeq && !p.failed && p.pending == []
    ensures PeerReads(k, p, RecordOf(k, e) + rest)
            == Peer(NextSeq(p.recvSeq), if e.content.typ == APP_DATA then e.content.payload else [], e.content.typ == ALERT, p.delivered)
  {
    ReadRecord(k.aead, k.iv, e.n, e.content, rest);
  }

  lemma FedOne(k: Keys, s: State, e: Entry)
    requires Correct(k.aead) && Readable(e.content) && e.content.typ != ALERT
    requires e.n == s.peer.recvSeq && !s.peer.failed && s.peer.pending == []
    ensures var s1 := Step(k, s, Receive(RecordOf(k, e)));
            var s2 := Step(k, s1, Deliver(|s1.peer.pending|));
            && s2.data == s.data
            && s2.peer == Peer(NextSeq(s.peer.recvSeq), [], false, s.peer.delivered + Carried(e.content.typ, e.content.payload))
  {
    assert RecordOf(k, e) + [] == RecordOf(k, e);
    PeerTakes(k, s.peer, e, []);
    var pending := Carried(e.content.typ, e.content.payload);
    assert pending[..|pending|] == pending && pending[|pending|..] == [];
  }

  /** The peer stands behind the first i records. */
  predicate Behind(s: State, log: seq<Entry>, i: nat) {
    i <= |log| && s.data.log == log && s.peer == Peer(Count(i), [], false, AppBytes(log[..i]))
  }

  lemma FedNext(k: Keys, s: State, log: seq<Entry>, i: nat)
    requires Correct(k.aead) && i < |log| && Behind(s, log, i)
    requires Readable(log[i].content) && log[i].content.typ != ALERT && log[i].n == Count(i)
    ensures var s1 := Step(k, s, Receive(RecordOf(k, log[i]))); Behind(Step(k, s1, Deliver(|s1.peer.pending|)), log, i + 1)
  {
    FedOne(k, s, log[i]);
    AppBytesTo(log, i);
  }

  /** A network that delivers: fed record by record, the peer delivers exactly what they carry, in order and
      without failing, up to the first close_notify. */
  lemma {:induction false} FedDelivers(k: Keys, s: State, i: nat)
    requires Correct(k.aead) && NumberedInOrder(s.data.log) && AllReadable(s.data.log)
    requires s.peer == Peer(0, [], false, []) && i <= FirstAlert(s.data.log, 0)
    ensures Behind(Fed(k, s, i), s.data.log, i)
    decreases i
  {
    if i == 0 {
      assert s.data.log[..0] == [];
    } else {
      FedDelivers(k, s, i - 1);
      FedNext(k, Fed(k, s, i - 1), s.data.log, i - 1);
    }
  }

  /** The close_notify ends it. */
  lemma FedAlert(k: Keys, s: State, i: nat)
    requires Correct(k.aead) && NumberedInOrder(s.data.log) && AllReadable(s.data.log)
    requires s.peer == Peer(0, [], false, []) && i == FirstAlert(s.data.log, 0) < |s.data.log|
    ensures var p := Fed(k, s, i + 1).peer; p.failed && p.pending == [] && p.delivered == BeforeAlert(s.data.log)
  {
    var log, s0 := s.data.log, Fed(k, s, i);
    FedDelivers(k, s, i);
    assert RecordOf(k, log[i]) + [] == RecordOf(k, log[i]);
    PeerTakes(k, s0.peer, log[i], []);
    assert s0.peer.delivered + [] == s0.peer.delivered;
  }
}
