/** Server as it drives a socket and spends tickets (handshake.go Server, auth.go Issue). */
module ServerObject {
  import opened Bytes
  import opened HelloCodec
  import opened ClientHelloObject
  import opened Auth
  import opened AuthObject
  import opened RecordLayer
  import opened ConnObject
  import opened Twiddle
  import opened Opening
  import opened HandshakeObject
  import Replay
  import SH = ServerHello

  /** validateClientHello on the object. */
  method Validate(p: Cover, h: ClientHello) returns (ticket: Option<bytes>)
    ensures ticket == Validated(p, h.Value())
  {
    var name := h.SNI();
    if !p.hostMatches(name) {
      return None;
    }
    if p.cipherSuite !in h.cipherSuites {
      return None;
    }
    var at := h.Find(EXT_PRE_SHARED_KEY);
    if at.None? {
      if !p.canEmitFull {
        return None;
      }
      ticket := ReadTicket(h);
    } else {
      var psk := ParsePSK(h.extensions[at.value].data);
      if psk.None? || |psk.value.ticket| != p.ticketLen || |psk.value.binder| != p.binderLen {
        return None;
      }
      ticket := Some(psk.value.ticket);
    }
  }

  /** From the record to the authenticated client; None is ErrNotOurs. */
  method Recognise(c: Crypto, p: Cover, maxAge: int, now: int, rec: bytes) returns (r: Option<(Hello, AuthResult)>, ticket: bytes)
    requires Ideal(c)
    ensures r == Recognised(c, p, maxAge, now, rec)
    ensures r.Some? ==> Validated(p, r.value.0) == Some(ticket)
  {
    ticket := [];
    var h := ParseClientHello(rec);
    if h == null {
      return None, ticket;
    }
    var t := Validate(p, h);
    if t.None? {
      return None, ticket;
    }
    ticket := t.value;
    var at := h.Find(EXT_PRE_SHARED_KEY);
    var auth;
    if at.None? {
      auth := VerifyECHAt(h, c, maxAge, now);
    } else {
      auth := VerifyAt(h, c, maxAge, now);
    }
    if auth.None? {
      return None, ticket;
    }
    r := Some((Hello(h.legacyVersion, h.random, h.sessionID, h.cipherSuites, h.compression, h.extensions), auth.value));
  }

  /** The socket takes the next two writes. */
  predicate TakesTwo(answers: nat -> (nat, bool), writes: nat) {
    answers(writes).1 && answers(writes + 1).1
  }

  /** The ServerHello, the ChangeCipherSpec and the keys. */
  method SendReply(raw: Socket, d: DH, p: Profile, w: ServerDraws, rec: bytes, h: Hello, auth: AuthResult) returns (start: Option<ServerStart>)
    requires !raw.closed
    modifies raw`sent, raw`writes
    ensures start == if TakesTwo(raw.answers, old(raw.writes)) then Reply(d, p, w, rec, h, auth) else None
    ensures start.Some? ==> raw.sent == old(raw.sent) + start.value.reply + SH.CHANGE_CIPHER_SPEC
  {
    var full := IsFull(h);
    var reply := SH.SynthesizeServerHello(ReplyParams(p, h, full, d.pub(w.secret), w));
    if reply.None? {
      return None;
    }
    var ok := raw.Write(reply.value);
    if !ok {
      return None;
    }
    ok := raw.Write(SH.CHANGE_CIPHER_SPEC);
    if !ok {
      return None;
    }
    var shared := d.agree(w.secret, auth.ephemeral);
    if shared.None? {
      return None;
    }
    var session := DeriveSession(auth.psk, shared.value, p.cover.cipherSuite, Transcript(rec, reply.value, SH.CHANGE_CIPHER_SPEC));
    if session.None? {
      return None;
    }
    start := Some(ServerStart(h, full, auth, reply.value, session.value));
  }

  /** What a call of Server brings to the cache. */
  function Brings(cache: Replay.ReplayCache, clock: int, victim: U64): Spending {
    Spending(cache.horizon, cache.max, cache.hash, clock, victim)
  }

  /** Spends the ticket, and answers only if the cache accepts it. */
  method SpendAndReply(raw: Socket, cache: Replay.ReplayCache, d: DH, p: Profile, w: ServerDraws, rec: bytes, h: Hello, auth: AuthResult, ticket: bytes, clock: int)
    returns (start: Option<ServerStart>, ghost victim: U64)
    requires !raw.closed && 0 < cache.max
    modifies raw`sent, raw`writes, cache
    ensures var call := SpendCall(Brings(cache, clock, victim), auth, ticket);
            var (unspent, after) := Replay.Step(old(cache.clients), cache.horizon, cache.max, call);
            && cache.clients == after && Replay.TrueVictim(old(cache.clients), cache.horizon, cache.max, call)
            && start == (if unspent && TakesTwo(raw.answers, old(raw.writes)) then Reply(d, p, w, rec, h, auth) else None)
            && (!unspent ==> raw.sent == old(raw.sent))
    ensures start.Some? ==> raw.sent == old(raw.sent) + start.value.reply + SH.CHANGE_CIPHER_SPEC
  {
    start := None;
    var spent;
    spent, victim := cache.Consume(auth.clientID, auth.issuedSeconds * SECOND, ticket, clock);
    if spent {
      start := SendReply(raw, d, p, w, rec, h, auth);
    }
  }

  /** What the socket and the cache show of a beginning: exactly the start of the specification, the cache
      it leaves, nothing sent unless a ticket was spent, and the reply and the ChangeCipherSpec when it
      went through. */
  ghost predicate Shows(b: Begun, unspent: bool, start: Option<ServerStart>, clients: Replay.Clients, before: bytes, sent: bytes) {
    && start == b.start && clients == b.clients
    && (!unspent ==> sent == before)
    && (start.Some? ==> sent == before + start.value.reply + SH.CHANGE_CIPHER_SPEC)
  }

  /** A ticket was presented to the cache and it was unspent. */
  predicate Unspent(before: Replay.Clients, horizon: int, max: nat, call: Option<Replay.Call>) {
    call.Some? && Replay.Step(before, horizon, max, call.value).0
  }

  /** Server on a record, up to its keys. */
  method AnswerRecord(raw: Socket, cache: Replay.ReplayCache, c: Crypto, d: DH, p: Profile, maxAge: int, now: int, clock: int, w: ServerDraws, rec: bytes)
    returns (start: Option<ServerStart>, ghost victim: U64)
    requires Ideal(c) && !raw.closed && 0 < cache.max
    modifies raw`sent, raw`writes, cache
    ensures var b := Begin(c, d, p, maxAge, now, Brings(cache, clock, victim), old(cache.clients), w, TakesTwo(raw.answers, old(raw.writes)), rec);
            && Shows(b, Unspent(old(cache.clients), cache.horizon, cache.max, b.call), start, cache.clients, old(raw.sent), raw.sent)
            && (b.call.Some? ==> Replay.TrueVictim(old(cache.clients), cache.horizon, cache.max, b.call.value))
  {
    start, victim := None, 0;
    var r, ticket := Recognise(c, p.cover, maxAge, now, rec);
    if r.None? {
      return;
    }
    start, victim := SpendAndReply(raw, cache, d, p, w, rec, r.value.0, r.value.1, ticket, clock);
  }

  /** Server, up to its reply: without a record nothing happens, with one what Begin says. */
  method BeginServer(raw: Socket, cache: Replay.ReplayCache, c: Crypto, d: DH, p: Profile, maxAge: int, now: int, clock: int, w: ServerDraws)
    returns (start: Option<ServerStart>, ghost victim: U64)
    requires Ideal(c) && !raw.closed && 0 < cache.max
    modifies raw`sent, raw`writes, raw`inbox, cache
    ensures TakeRecord(old(raw.inbox)).None? ==> start.None? && cache.clients == old(cache.clients) && raw.sent == old(raw.sent)
    ensures TakeRecord(old(raw.inbox)).Some? ==>
      var (rec, rest) := TakeRecord(old(raw.inbox)).value;
      var b := Begin(c, d, p, maxAge, now, Brings(cache, clock, victim), old(cache.clients), w, TakesTwo(raw.answers, old(raw.writes)), rec);
      && Shows(b, Unspent(old(cache.clients), cache.horizon, cache.max, b.call), start, cache.clients, old(raw.sent), raw.sent)
      && (b.call.Some? ==> Replay.TrueVictim(old(cache.clients), cache.horizon, cache.max, b.call.value))
      && raw.inbox == rest
  {
    start, victim := None, 0;
    var rec := ReadRecordFrom(raw);
    if rec.None? {
      return;
    }
    start, victim := AnswerRecord(raw, cache, c, d, p, maxAge, now, clock, w, rec.value);
  }

  /** The client's ChangeCipherSpec, whatever it holds, and its Finished stand-in. */
  function ServerReads(t: Traffic, start: ServerStart, stream: bytes): Option<(byte, bytes)> {
    var (_, rest) :- TakeRecord(stream);
    var (finished, _) :- ReadOne(t.client(start.session).aead, t.client(start.session).iv, 0, rest);
    Some(finished)
  }

  method ReadAnswer(conn: Conn, t: Traffic, start: ServerStart) returns (ok: bool)
    requires conn.receiving == t.client(start.session) && conn.recvSeq == 0
    modifies conn`recvSeq, conn.raw`inbox
    ensures ok <==> ServerReads(t, start, old(conn.raw.inbox)).Some?
    ensures ok ==> conn.recvSeq == Advanced(0, 1)
  {
    var ccs := ReadRecordFrom(conn.raw);
    if ccs.None? {
      return false;
    }
    var finished := conn.DecryptRecord();
    ok := finished.Some?;
    assert Advanced(0, 1) == NextSeq(Advanced(0, 0));
  }

  lemma SizableJoin(a: seq<Content>, b: seq<Content>)
    ensures AllSizable(a + b) <==> AllSizable(a) && AllSizable(b)
  {
    if AllSizable(a + b) {
      forall i | 0 <= i < |a| ensures Sizable(a[i]) { assert (a + b)[i] == a[i]; }
      forall i | 0 <= i < |b| ensures Sizable(b[i]) { assert (a + b)[|a| + i] == b[i]; }
    }
  }

  lemma AdvancedTwice(n: nat)
    ensures Advanced(Advanced(0, n), 2) == Advanced(0, n + 2)
  {
    assert Advanced(0, n + 2) == NextSeq(Advanced(0, n + 1)) == NextSeq(NextSeq(Advanced(0, n)));
    assert Advanced(Advanced(0, n), 2) == NextSeq(Advanced(Advanced(0, n), 1));
  }

  /** FinishServer succeeds when each part of it does. */
  lemma FinishesWhen(t: Traffic, start: ServerStart, remainder: seq<int>, next: Credential, stream: bytes)
    ensures FinishServer(t, start, remainder, next, stream).Some? <==>
            AllSizable(FlightContents(remainder)) && AllSizable(TicketContents(next)) && ServerReads(t, start, stream).Some?
  {
    SizableJoin(FlightContents(remainder), TicketContents(next));
  }

  /** What it leaves, in the order the method works. */
  lemma FinishLeaves(t: Traffic, start: ServerStart, remainder: seq<int>, next: Credential, stream: bytes)
    requires FinishServer(t, start, remainder, next, stream).Some?
    ensures var done, n := FinishServer(t, start, remainder, next, stream).value, |remainder|;
            && done.sent == SealMany(t.server(start.session), 0, FlightContents(remainder))
                            + SealMany(t.server(start.session), Advanced(0, n), TicketContents(next))
            && done.sendSeq == Advanced(Advanced(0, n), 2) && done.recvSeq == Advanced(0, 1)
  {
    SealJoin(t.server(start.session), 0, FlightContents(remainder), TicketContents(next));
    AdvancedTwice(|remainder|);
  }

  /** The connection a server hands out. */
  ghost predicate ServerCompleted(conn: Conn, t: Traffic, start: ServerStart, remainder: seq<int>, next: Credential, stream: bytes)
    reads conn
  {
    && conn.sending == t.server(start.session) && conn.receiving == t.client(start.session)
    && FinishServer(t, start, remainder, next, stream).Some?
    && var done := FinishServer(t, start, remainder, next, stream).value;
       conn.sendSeq == done.sendSeq && conn.recvSeq == done.recvSeq
  }

  /** The flight and the client's answer. */
  method HalfServer(conn: Conn, t: Traffic, start: ServerStart, remainder: seq<int>) returns (ok: bool)
    requires conn.sending == t.server(start.session) && conn.receiving == t.client(start.session)
    requires conn.sendSeq == 0 && conn.recvSeq == 0 && !conn.raw.closed
    modifies conn`sendSeq, conn`recvSeq, conn.raw`inbox, conn.raw`sent, conn.raw`writes
    ensures ok ==> AllSizable(FlightContents(remainder)) && ServerReads(t, start, old(conn.raw.inbox)).Some?
    ensures ok ==> conn.recvSeq == Advanced(0, 1) && conn.sendSeq == Advanced(0, |remainder|)
    ensures ok ==> conn.raw.sent == old(conn.raw.sent) + SealMany(conn.sending, 0, FlightContents(remainder))
    ensures SocketFine(conn.raw.answers) && AllSizable(FlightContents(remainder)) && ServerReads(t, start, old(conn.raw.inbox)).Some? ==> ok
  {
    ghost var o := conn.Sending();
    ok := WriteFlight(conn, remainder);
    if !ok {
      if SocketFine(conn.raw.answers) && AllSizable(FlightContents(remainder)) {
        SentAllGoes(conn.sending, conn.raw.answers, o, FlightContents(remainder));
      }
      return false;
    }
    SentAllIs(conn.sending, conn.raw.answers, conn.raw.closed, o, FlightContents(remainder));
    ok := ReadAnswer(conn, t, start);
  }

  /** The tickets, behind the flight. */
  method SendTickets(conn: Conn, next: Credential) returns (ok: bool)
    requires !conn.raw.closed
    modifies conn`sendSeq, conn.raw`sent, conn.raw`writes
    ensures ok ==> AllSizable(TicketContents(next)) && conn.sendSeq == Advanced(old(conn.sendSeq), 2)
    ensures ok ==> conn.raw.sent == old(conn.raw.sent) + SealMany(conn.sending, old(conn.sendSeq), TicketContents(next))
    ensures SocketFine(conn.raw.answers) && AllSizable(TicketContents(next)) ==> ok
  {
    ghost var o := conn.Sending();
    ok := WriteTickets(conn, next);
    if ok {
      SentAllIs(conn.sending, conn.raw.answers, conn.raw.closed, o, TicketContents(next));
    } else if SocketFine(conn.raw.answers) && AllSizable(TicketContents(next)) {
      SentAllGoes(conn.sending, conn.raw.answers, o, TicketContents(next));
    }
  }

  /** The rest of Server: its flight, the client's answer, and only then the issue and its tickets. It ends
      well only as FinishServer does, with its bytes on the socket and its counters in the connection, and
      on a socket that takes every write whenever FinishServer does. */
  method EndServer(conn: Conn, c: Crypto, t: Traffic, start: ServerStart, remainder: seq<int>, ticketLen: nat, issue: IssueDraws)
    returns (next: Option<Credential>)
    requires conn.sending == t.server(start.session) && conn.receiving == t.client(start.session)
    requires conn.sendSeq == 0 && conn.recvSeq == 0 && !conn.raw.closed
    modifies conn`sendSeq, conn`recvSeq, conn.raw`inbox, conn.raw`sent, conn.raw`writes
    ensures next.Some? ==>
      && next == Issued(c, start.auth.clientID, ticketLen, issue)
      && ServerCompleted(conn, t, start, remainder, next.value, old(conn.raw.inbox))
      && conn.raw.sent == old(conn.raw.sent) + FinishServer(t, start, remainder, next.value, old(conn.raw.inbox)).value.sent
    ensures
      var issued := Issued(c, start.auth.clientID, ticketLen, issue);
      SocketFine(conn.raw.answers) && issued.Some? && FinishServer(t, start, remainder, issued.value, old(conn.raw.inbox)).Some?
      ==> next.Some?
  {
    ghost var sent, issued := conn.raw.sent, Issued(c, start.auth.clientID, ticketLen, issue);
    if issued.Some? {
      FinishesWhen(t, start, remainder, issued.value, conn.raw.inbox);
      if FinishServer(t, start, remainder, issued.value, conn.raw.inbox).Some? {
        FinishLeaves(t, start, remainder, issued.value, conn.raw.inbox);
      }
    }
    var ok := HalfServer(conn, t, start, remainder);
    if !ok {
      return None;
    }
    next := Issued(c, start.auth.clientID, ticketLen, issue);
    if next.None? {
      return None;
    }
    ok := SendTickets(conn, next.value);
    if !ok {
      return None;
    }
    Assoc(sent, SealMany(conn.sending, 0, FlightContents(remainder)), SealMany(conn.sending, Advanced(0, |remainder|), TicketContents(next.value)));
  }

  /** What Server sends after its ServerHello: the profile's resumed remainder, or what it drew. */
  function RemainderOf(p: Profile, full: bool, drawn: seq<int>): seq<int> {
    if full then drawn else p.resumedRemainder
  }

  /** A completed Server call: the record was a recognised hello whose ticket was unspent and is spent now,
      it was answered as Begin says, and the rest was FinishServer. */
  ghost predicate Served(conn: Conn, c: Crypto, t: Traffic, p: Profile, b: Begun, drawn: seq<int>, issue: IssueDraws, rest: bytes, before: bytes, sent: bytes)
    reads conn
  {
    && b.start.Some?
    && var v := b.start.value;
    && var next := Issued(c, v.auth.clientID, p.cover.ticketLen, issue);
    && next.Some? && ServerCompleted(conn, t, v, RemainderOf(p, v.full, drawn), next.value, rest)
    && sent == before + v.reply + SH.CHANGE_CIPHER_SPEC + FinishServer(t, v, RemainderOf(p, v.full, drawn), next.value, rest).value.sent
  }

  /** The same, up to the socket: the opening can be completed. */
  ghost predicate Servable(c: Crypto, t: Traffic, p: Profile, b: Begun, drawn: seq<int>, issue: IssueDraws, rest: bytes) {
    && b.start.Some?
    && var v := b.start.value;
    && var next := Issued(c, v.auth.clientID, p.cover.ticketLen, issue);
    && next.Some? && FinishServer(t, v, RemainderOf(p, v.full, drawn), next.value, rest).Some?
  }

  /** Server, whole. The cache is left as Begin says whatever happens next; a connection comes back only from
      a completed opening, and on a socket that takes every write from every opening that can be
      completed. */
  method Server(raw: Socket, cache: Replay.ReplayCache, c: Crypto, d: DH, t: Traffic, p: Profile, maxAge: int, now: int, clock: int, w: ServerDraws, drawn: seq<int>, issue: IssueDraws)
    returns (conn: Conn?, ghost victim: U64)
    requires Ideal(c) && !raw.closed && 0 < cache.max && |drawn| == |p.fullRemainder|
    modifies raw`sent, raw`writes, raw`inbox, cache
    ensures TakeRecord(old(raw.inbox)).None? ==> conn == null && cache.clients == old(cache.clients) && raw.sent == old(raw.sent)
    ensures TakeRecord(old(raw.inbox)).Some? ==>
      var (rec, rest) := TakeRecord(old(raw.inbox)).value;
      var b := Begin(c, d, p, maxAge, now, Brings(cache, clock, victim), old(cache.clients), w, TakesTwo(raw.answers, old(raw.writes)), rec);
      && cache.clients == b.clients
      && (b.call.Some? ==> Replay.TrueVictim(old(cache.clients), cache.horizon, cache.max, b.call.value))
      && (!Unspent(old(cache.clients), cache.horizon, cache.max, b.call) ==> conn == null && raw.sent == old(raw.sent))
      && (conn != null ==> Served(conn, c, t, p, b, drawn, issue, rest, old(raw.sent), raw.sent))
      && (SocketFine(raw.answers) && Servable(c, t, p, b, drawn, issue, rest) ==> conn != null)
  {
    conn := null;
    var start;
    start, victim := BeginServer(raw, cache, c, d, p, maxAge, now, clock, w);
    if start.None? {
      return;
    }
    var v := start.value;
    var fresh' := NewServerConn(raw, t, v);
    var next := EndServer(fresh', c, t, v, RemainderOf(p, v.full, drawn), p.cover.ticketLen, issue);
    if next.Some? {
      conn := fresh';
    }
  }

  method NewServerConn(raw: Socket, t: Traffic, v: ServerStart) returns (conn: Conn)
    ensures fresh(conn) && conn.raw == raw && conn.sending == t.server(v.session) && conn.receiving == t.client(v.session)
    ensures conn.sendSeq == 0 && conn.recvSeq == 0
  {
    conn := new Conn(raw, t.server(v.session), t.client(v.session), (n: nat) => (n, n + 1));
  }
}
