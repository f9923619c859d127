/** The opening over a network that delivers (handshake.go): both ends complete, with the credential the
    server issued. */
module HonestOpening {
  import opened Bytes
  import opened HelloCodec
  import opened Auth
  import opened EchCarrier
  import opened RecordLayer
  import opened Interleaving
  import opened Delivery
  import opened Admission
  import opened Twiddle
  import opened Opening
  import Replay
  import SH = ServerHello

  /** The hello the client emits shows the shape it chose. */
  lemma EmissionShowsShape(c: Crypto, rec: bytes, o: Options, e: Randomness)
    requires Auth.Ideal(c) && Fair(e) && Twiddled(c, rec, o, e).Some? && Fits(Twiddled(c, rec, o, e).value)
    ensures var s := Twiddled(c, rec, o, e).value; Decode(Encode(s)) == Some(s) && IsFull(s) == o.full
  {
    var s := Twiddled(c, rec, o, e).value;
    DecodeEncode(s);
    var named := Named(Decode(rec).value, o.coverSNI).value;
    AuthenticatedShape(c, Emitted(named, e.w, e.picks, e.pub).value, o, e);
  }

  lemma AuthenticatedShape(c: Crypto, h: Hello, o: Options, e: Randomness)
    requires Auth.Ideal(c) && Authenticated(c, h, o, e).Some?
    ensures IsFull(Authenticated(c, h, o, e).value) == o.full
  {
    var cred := o.credential;
    if o.full {
      SignedIsCarrying(c, Stripped(h), cred.fullTicket, cred.psk, e.pad);
      SignedShows(Stripped(h), cred.fullTicket, e.pad, Authenticated(c, h, o, e).value.random);
    } else {
      SignedIs(c, h, cred.ticket, cred.psk, e.age, o.binderLen);
      PskIsFound(h, cred.ticket, e.age, BinderOf(c, h, cred.ticket, e.age, cred.psk, o.binderLen));
    }
  }

  /** The contents of an opening are handshake records. */
  predicate AllHandshake(cs: seq<Content>) {
    forall i :: 0 <= i < |cs| ==> cs[i].typ == HANDSHAKE
  }

  function Bodies(cs: seq<Content>): (r: seq<(byte, bytes)>)
    ensures |r| == |cs|
  {
    seq(|cs|, i requires 0 <= i < |cs| => (cs[i].typ, cs[i].payload))
  }

  lemma ReadSealedFirst(k: Keys, n: U64, cs: seq<Content>, rest: bytes)
    requires Correct(k.aead) && cs != [] && Sizable(cs[0]) && cs[0].typ == HANDSHAKE
    ensures ReadOne(k.aead, k.iv, n, SealMany(k, n, cs) + rest)
            == Some(((cs[0].typ, cs[0].payload), SealMany(k, NextSeq(n), cs[1..]) + rest))
  {
    var more := SealMany(k, NextSeq(n), cs[1..]);
    Assoc(Record(k.aead, k.iv, n, cs[0]), more, rest);
    ReadRecord(k.aead, k.iv, n, cs[0], more + rest);
  }

  lemma ReadManyCons(k: Keys, n: U64, count: nat, stream: bytes, got: (byte, bytes), rest: bytes, more: seq<(byte, bytes)>, left: bytes)
    requires ReadOne(k.aead, k.iv, n, stream) == Some((got, rest)) && ReadMany(k, NextSeq(n), count, rest) == Some((more, left))
    ensures ReadMany(k, n, count + 1, stream) == Some(([got] + more, left))
  {
  }

  lemma BodiesCons(cs: seq<Content>)
    requires cs != []
    ensures Bodies(cs) == [(cs[0].typ, cs[0].payload)] + Bodies(cs[1..])
  {
  }

  predicate ReadsBack(k: Keys, n: U64, cs: seq<Content>, rest: bytes) {
    ReadMany(k, n, |cs|, SealMany(k, n, cs) + rest) == Some((Bodies(cs), rest))
  }

  lemma ReadsBackNext(k: Keys, n: U64, cs: seq<Content>, rest: bytes)
    requires Correct(k.aead) && cs != [] && Sizable(cs[0]) && cs[0].typ == HANDSHAKE
    requires ReadsBack(k, NextSeq(n), cs[1..], rest)
    ensures ReadsBack(k, n, cs, rest)
  {
    ReadSealedFirst(k, n, cs, rest);
    ReadManyCons(k, n, |cs| - 1, SealMany(k, n, cs) + rest, (cs[0].typ, cs[0].payload),
                 SealMany(k, NextSeq(n), cs[1..]) + rest, Bodies(cs[1..]), rest);
    BodiesCons(cs);
  }

  /** Reading what was sealed gives it back and stops behind it. */
  lemma {:induction false} ReadSealed(k: Keys, n: U64, cs: seq<Content>, rest: bytes)
    requires Correct(k.aead) && AllSizable(cs) && AllHandshake(cs)
    ensures ReadsBack(k, n, cs, rest)
    decreases |cs|
  {
    if cs == [] {
      assert SealMany(k, n, cs) + rest == rest;
    } else {
      ReadSealed(k, NextSeq(n), cs[1..], rest);
      ReadsBackNext(k, n, cs, rest);
    }
  }

  /** All the server puts on the socket, `sent` being what follows its ChangeCipherSpec. */
  function FromServer(v: ServerStart, sent: bytes): bytes {
    v.reply + (SH.CHANGE_CIPHER_SPEC + sent)
  }

  /** The client's answer. */
  function Answer(t: Traffic, p: Profile, v: ServerStart): bytes {
    var k := t.client(v.session);
    SH.CHANGE_CIPHER_SPEC + (Record(k.aead, k.iv, 0, SizedContent([], p.clientWire)) + [])
  }

  lemma ReplyIsRecord(q: SH.Params)
    requires SH.Synthesized(q).Some?
    ensures var r := SH.Synthesized(q).value;
            |r| >= 5 && |r| == 5 + GetU16(r, 3) as int <= 5 + MAX_CIPHERTEXT && SH.EphemeralOf(r) == Some(q.ephemeral)
  {
    SH.EphemeralRoundTrip(q);
    SH.RecordFields(q);
    FramedLength(SH.Body(q));
  }

  lemma FramedLength(body: bytes)
    requires |body| + 4 < 0x1_0000
    ensures var n := |body|;
            GetU16([0x16, 0x03, 0x03] + U16(n + 4) + [0x02, n / 0x1_0000 % 0x100, n / 0x100 % 0x100, n % 0x100] + body, 3) == n + 4
  {
    U16RoundTrip(|body| + 4);
    FieldAt([0x16, 0x03, 0x03], U16(|body| + 4),
            [0x02, |body| / 0x1_0000 % 0x100, |body| / 0x100 % 0x100, |body| % 0x100], body);
  }

  lemma FieldAt(a: bytes, b: bytes, c: bytes, d: bytes)
    requires |b| == 2
    ensures GetU16(a + b + c + d, |a|) == GetU16(b, 0)
  {
    assert (a + b + c + d)[|a|] == b[0] && (a + b + c + d)[|a| + 1] == b[1];
  }

  /** The reply goes out for every recognised hello whose session id can be echoed, on a suite the tunnel
      has, when the point the client offered is not refused. */
  lemma ReplySucceeds(d: DH, p: Profile, w: ServerDraws, rec: bytes, h: Hello, auth: AuthResult)
    requires Decode(rec) == Some(h)
    ensures Reply(d, p, w, rec, h, auth).Some? <==>
            1 <= |h.sessionID| <= 32 && d.agree(w.secret, auth.ephemeral).Some?
            && (p.cover.cipherSuite == SH.AES_128 || p.cover.cipherSuite == AES_256)
  {
    if 1 <= |h.sessionID| <= 32 {
      ReplyHasPayload(ReplyParams(p, h, IsFull(h), d.pub(w.secret), w));
    }
  }

  /** A client that is given a record with a key share and a ChangeCipherSpec starts. */
  lemma StartsOn(d: DH, p: Profile, psk: Bytes32, secret: Bytes32, wire: bytes, reply: bytes, rest: bytes, pub: Bytes32, shared: bytes, session: Session)
    requires |reply| >= 5 && |reply| == 5 + GetU16(reply, 3) as int <= 5 + MAX_CIPHERTEXT && SH.EphemeralOf(reply) == Some(pub)
    requires d.agree(secret, pub) == Some(shared)
    requires DeriveSession(psk, shared, p.cover.cipherSuite, Transcript(wire, reply, SH.CHANGE_CIPHER_SPEC)) == Some(session)
    ensures StartClient(d, p, psk, secret, wire, reply + (SH.CHANGE_CIPHER_SPEC + rest)) == Some(ClientStart(reply, session, rest))
  {
    var ccs := SH.CHANGE_CIPHER_SPEC;
    TakeRecordUndo(reply, ccs + rest);
    assert GetU16(ccs, 3) == 1;
    TakeRecordUndo(ccs, rest);
  }

  /** What a reply was made of. */
  lemma ReplyParts(d: DH, p: Profile, w: ServerDraws, wire: bytes, v: ServerStart) returns (shared: bytes)
    requires Reply(d, p, w, wire, v.hello, v.auth) == Some(v)
    ensures SH.Synthesized(ReplyParams(p, v.hello, IsFull(v.hello), d.pub(w.secret), w)) == Some(v.reply)
    ensures d.agree(w.secret, v.auth.ephemeral) == Some(shared)
    ensures DeriveSession(v.auth.psk, shared, p.cover.cipherSuite, Transcript(wire, v.reply, SH.CHANGE_CIPHER_SPEC)) == Some(v.session)
  {
    shared := d.agree(w.secret, v.auth.ephemeral).value;
  }

  /** The client derives the server's session. */
  lemma ClientStarts(d: DH, p: Profile, w: ServerDraws, wire: bytes, v: ServerStart, secret: Bytes32, rest: bytes)
    requires Commutes(d) && Reply(d, p, w, wire, v.hello, v.auth) == Some(v) && v.auth.ephemeral == d.pub(secret)
    ensures StartClient(d, p, v.auth.psk, secret, wire, v.reply + (SH.CHANGE_CIPHER_SPEC + rest))
            == Some(ClientStart(v.reply, v.session, rest))
  {
    var shared := ReplyParts(d, p, w, wire, v);
    ReplyIsRecord(ReplyParams(p, v.hello, IsFull(v.hello), d.pub(w.secret), w));
    assert d.agree(secret, d.pub(w.secret)) == d.agree(w.secret, d.pub(secret));
    StartsOn(d, p, v.auth.psk, secret, wire, v.reply, rest, d.pub(w.secret), shared, v.session);
  }

  /** The server's bytes fall into the flight and the tickets. */
  lemma ContentsSplit(k: Keys, remainder: seq<int>, next: Credential)
    requires AllSizable(ServerContents(remainder, next))
    ensures var a, b := FlightContents(remainder), TicketContents(next);
            && AllSizable(a) && AllSizable(b) && AllHandshake(a) && AllHandshake(b)
            && SealMany(k, 0, ServerContents(remainder, next)) == SealMany(k, 0, a) + SealMany(k, Advanced(0, |remainder|), b)
  {
    var a, b := FlightContents(remainder), TicketContents(next);
    SealJoin(k, 0, a, b);
    forall i | 0 <= i < |a| ensures Sizable(a[i]) { assert (a + b)[i] == a[i]; }
    forall i | 0 <= i < |b| ensures Sizable(b[i]) { assert (a + b)[|a| + i] == b[i]; }
  }

  lemma ClientFinishes(t: Traffic, p: Profile, v: ServerStart, remainder: seq<int>, next: Credential)
    requires Faithful(t) && |remainder| == RemainderCount(p, v.full) && |remainder| + 2 < COUNTER
    requires AllSizable(ServerContents(remainder, next)) && Sizable(SizedContent([], p.clientWire))
    requires |next.ticket| < 0x1_0000 && |next.fullTicket| == FULL_TICKET_LEN
    ensures var sent := SealMany(t.server(v.session), 0, ServerContents(remainder, next));
            FinishClient(t, p, v.full, ClientStart(v.reply, v.session, sent))
            == Some(ClientDone(v.session, Bodies(FlightContents(remainder)) + Bodies(TicketContents(next)), 1, |remainder| + 2, next))
  {
    var k, n := t.server(v.session), |remainder|;
    var tickets := SealMany(k, n, TicketContents(next));
    ContentsSplit(k, remainder, next);
    AdvancedSum(0, n);
    ReadSealed(k, 0, FlightContents(remainder), tickets);
    ReadSealed(k, n, TicketContents(next), []);
    assert tickets + [] == tickets;
    TicketsRoundTrip(next);
  }

  lemma ServerFinishes(t: Traffic, p: Profile, v: ServerStart, remainder: seq<int>, next: Credential)
    requires Faithful(t) && AllSizable(ServerContents(remainder, next)) && Sizable(SizedContent([], p.clientWire)) && |remainder| + 2 < COUNTER
    ensures FinishServer(t, v, remainder, next, Answer(t, p, v))
            == Some(ServerDone(v.session, (HANDSHAKE, []), SealMany(t.server(v.session), 0, ServerContents(remainder, next)), |remainder| + 2, 1))
  {
    var k, ccs := t.client(v.session), SH.CHANGE_CIPHER_SPEC;
    var fin := SizedContent([], p.clientWire);
    assert GetU16(ccs, 3) == 1;
    TakeRecordUndo(ccs, Record(k.aead, k.iv, 0, fin) + []);
    ReadRecord(k.aead, k.iv, 0, fin, []);
    AdvancedSum(0, |remainder| + 2);
    AdvancedSum(0, 1);
  }

  /** Both ends complete over a network that delivers: in one session, with counters that meet and the
      credential issued. */
  ghost predicate Completes(d: DH, p: Profile, t: Traffic, wire: bytes, v: ServerStart, psk: Bytes32, secret: Bytes32, remainder: seq<int>, next: Credential) {
    var server := FinishServer(t, v, remainder, next, Answer(t, p, v));
    && server.Some? && server.value.finished == (HANDSHAKE, [])
    && var start := StartClient(d, p, psk, secret, wire, FromServer(v, server.value.sent));
    && start.Some? && start.value.session == server.value.session == v.session && RemainderCount(p, v.full) + 2 < COUNTER
    && var client := FinishClient(t, p, v.full, start.value);
    && client.Some? && client.value.next == next
    && client.value.recvSeq == server.value.sendSeq == |remainder| + 2 && client.value.sendSeq == server.value.recvSeq == 1
  }

  /** A server that answered the client's own hello completes, and so does the client, whenever the records
      of the flight are writable. */
  lemma HonestRun(d: DH, p: Profile, w: ServerDraws, t: Traffic, wire: bytes, v: ServerStart, secret: Bytes32, remainder: seq<int>, next: Credential)
    requires Commutes(d) && Faithful(t) && Reply(d, p, w, wire, v.hello, v.auth) == Some(v) && v.auth.ephemeral == d.pub(secret)
    requires |remainder| == RemainderCount(p, v.full) && |remainder| + 2 < COUNTER
    requires AllSizable(ServerContents(remainder, next)) && Sizable(SizedContent([], p.clientWire))
    requires |next.ticket| < 0x1_0000 && |next.fullTicket| == FULL_TICKET_LEN
    ensures Completes(d, p, t, wire, v, v.auth.psk, secret, remainder, next)
  {
    ClientStarts(d, p, w, wire, v, secret, SealMany(t.server(v.session), 0, ServerContents(remainder, next)));
    ClientFinishes(t, p, v, remainder, next);
    ServerFinishes(t, p, v, remainder, next);
  }

  // ------------------------------------------------------------------- end to end

  /** The ticket an emission presents. */
  function TicketFor(o: Options): bytes {
    if o.full then o.credential.fullTicket else o.credential.ticket
  }

  /** A client with a credential that holds and a template its cover accepts, for the shape it chose. */
  ghost predicate Ready(c: Crypto, p: Cover, rec: bytes, o: Options, maxAge: int, now: int)
    requires Ideal(c)
  {
    && Decode(rec).Some? && GoodTemplate(Decode(rec).value, p, o.coverSNI)
    && Holds(c, TicketFor(o), o.credential.psk, maxAge, now)
    && (if o.full then
          OuterECH(Decode(rec).value.extensions) && p.canEmitFull && |o.credential.fullTicket| == FULL_TICKET_LEN
        else
          o.binderLen == p.binderLen && (p.binderLen == 32 || p.binderLen == 48)
          && |o.credential.ticket| == p.ticketLen && p.ticketLen + 6 < 0x1_0000)
  }

  lemma ReadyAccepted(c: Crypto, p: Cover, rec: bytes, o: Options, e: Randomness, maxAge: int, now: int)
    requires Ideal(c) && Fair(e) && Ready(c, p, rec, o, maxAge, now)
    ensures Twiddled(c, rec, o, e).Some?
    ensures Fits(Twiddled(c, rec, o, e).value) ==> Accepted(c, p, Twiddled(c, rec, o, e).value, TicketFor(o), e.pub, maxAge, now)
  {
    if o.full {
      FullAccepted(c, p, rec, o, e, maxAge, now);
    } else {
      ResumedAccepted(c, p, rec, o, e, maxAge, now);
    }
  }

  /** What the server takes out of an accepted hello. */
  ghost function AuthOf(c: Crypto, ticket: bytes, pub: Bytes32): AuthResult
    requires OpenTicket(c, ticket).Some?
  {
    var info := OpenTicket(c, ticket).value;
    AuthResult(info.clientID, info.psk, info.issuedSeconds, pub)
  }

  lemma AcceptedIsRecognised(c: Crypto, p: Cover, h: Hello, ticket: bytes, pub: Bytes32, maxAge: int, now: int)
    requires Ideal(c) && Accepted(c, p, h, ticket, pub, maxAge, now)
    ensures Recognised(c, p, maxAge, now, Encode(h)) == Some((h, AuthOf(c, ticket, pub))) && Validated(p, h) == Some(ticket)
  {
  }

  /** An accepted hello with an unspent ticket is answered. */
  lemma AcceptedBegins(c: Crypto, d: DH, p: Profile, h: Hello, ticket: bytes, pub: Bytes32, maxAge: int, now: int, s: Spending, before: Replay.Clients, w: ServerDraws)
    requires Ideal(c) && Accepted(c, p.cover, h, ticket, pub, maxAge, now)
    requires Replay.Step(before, s.horizon, s.max, SpendCall(s, AuthOf(c, ticket, pub), ticket)).0
    requires 1 <= |h.sessionID| <= 32 && d.agree(w.secret, pub).Some? && (p.cover.cipherSuite == SH.AES_128 || p.cover.cipherSuite == AES_256)
    ensures var b := Begin(c, d, p, maxAge, now, s, before, w, true, Encode(h));
            && b.start.Some? && b.clients == Replay.Step(before, s.horizon, s.max, SpendCall(s, AuthOf(c, ticket, pub), ticket)).1
            && Reply(d, p, w, Encode(h), h, AuthOf(c, ticket, pub)) == b.start
            && b.start.value.hello == h && b.start.value.auth == AuthOf(c, ticket, pub) && b.start.value.full == IsFull(h)
  {
    AcceptedIsRecognised(c, p.cover, h, ticket, pub, maxAge, now);
    ReplySucceeds(d, p, w, Encode(h), h, AuthOf(c, ticket, pub));
  }

  lemma EmittedSessionID(h: Hello, name: bytes, e: Randomness)
    requires Fair(e) && ShapedBy(h, name, e).Some?
    ensures |ShapedBy(h, name, e).value.sessionID| == |h.sessionID|
  {
    EmittedRest(Named(h, name).value, e.w, e.picks, e.pub);
  }

  lemma SignedSessionID(c: Crypto, h: Hello, o: Options, e: Randomness)
    requires Ideal(c) && Authenticated(c, h, o, e).Some?
    ensures Authenticated(c, h, o, e).value.sessionID == h.sessionID
  {
    if o.full {
      SignedIsCarrying(c, Stripped(h), o.credential.fullTicket, o.credential.psk, e.pad);
    } else {
      SignedIs(c, h, o.credential.ticket, o.credential.psk, e.age, o.binderLen);
    }
  }

  /** The emitter keeps the length of the session id. */
  lemma SessionIDKept(c: Crypto, rec: bytes, o: Options, e: Randomness)
    requires Ideal(c) && Fair(e) && Twiddled(c, rec, o, e).Some?
    ensures |Twiddled(c, rec, o, e).value.sessionID| == |Decode(rec).value.sessionID|
  {
    EmittedSessionID(Decode(rec).value, o.coverSNI, e);
    TwiddledIs(c, rec, o, e);
    SignedSessionID(c, ShapedBy(Decode(rec).value, o.coverSNI, e).value, o, e);
  }

  /** A profile the tunnel can run on, and a server whose records of this opening are writable. */
  predicate Runs(p: Profile, remainder: seq<int>, full: bool) {
    && (p.cover.cipherSuite == SH.AES_128 || p.cover.cipherSuite == AES_256)
    && |remainder| == RemainderCount(p, full) && |remainder| + 2 < COUNTER
    && (forall i :: 0 <= i < |remainder| ==> 22 <= remainder[i] <= 16406)
    && MIN_TICKET_LEN <= p.cover.ticketLen <= 314 && Sizable(SizedContent([], p.clientWire))
  }

  /** The credential the server issues is good for the next opening, of either shape. */
  ghost predicate GoodNext(c: Crypto, p: Cover, next: Credential, clientID: U64, issue: IssueDraws) {
    var info := TicketInfo(clientID, issue.psk, issue.seconds);
    && |next.ticket| == p.ticketLen && |next.fullTicket| == FULL_TICKET_LEN && next.psk == issue.psk
    && OpenTicket(c, next.ticket) == Some(info) && OpenTicket(c, next.fullTicket) == Some(info)
  }

  /** The tunnel's opening, whole and for both shapes. From a template in the pool to the next credential:
      what the client emits the server recognises; with its ticket unspent the cache takes it and the
      server answers in the client's shape, for the client the ticket names; both ends complete in one
      session with counters that meet; and the credential the client leaves with holds both tickets the
      server issued, each good for the next opening. */
  lemma EndToEnd(c: Crypto, d: DH, p: Profile, t: Traffic, rec: bytes, o: Options, e: Randomness, secret: Bytes32,
                 maxAge: int, now: int, s: Spending, before: Replay.Clients, w: ServerDraws, remainder: seq<int>, issue: IssueDraws)
    requires Ideal(c) && Commutes(d) && Faithful(t) && Fair(e) && e.pub == d.pub(secret)
    requires Ready(c, p.cover, rec, o, maxAge, now) && 1 <= |Decode(rec).value.sessionID| <= 32
    requires Twiddled(c, rec, o, e).Some? ==> Fits(Twiddled(c, rec, o, e).value)
    requires Replay.Step(before, s.horizon, s.max, SpendCall(s, AuthOf(c, TicketFor(o), e.pub), TicketFor(o))).0
    requires d.agree(w.secret, e.pub).Some? && Runs(p, remainder, o.full)
    requires |issue.nonce| == TICKET_NONCE_LEN == |issue.fullNonce|
    ensures Twiddled(c, rec, o, e).Some?
    ensures var wire := Encode(Twiddled(c, rec, o, e).value);
            var v := Begin(c, d, p, maxAge, now, s, before, w, true, wire).start;
            && v.Some? && v.value.full == o.full && v.value.auth == AuthOf(c, TicketFor(o), e.pub)
            && var next := Issued(c, v.value.auth.clientID, p.cover.ticketLen, issue);
            && next.Some? && GoodNext(c, p.cover, next.value, v.value.auth.clientID, issue)
            && Completes(d, p, t, wire, v.value, o.credential.psk, secret, remainder, next.value)
  {
    ReadyAccepted(c, p.cover, rec, o, e, maxAge, now);
    var h, auth := Twiddled(c, rec, o, e).value, AuthOf(c, TicketFor(o), e.pub);
    SessionIDKept(c, rec, o, e);
    AcceptedBegins(c, d, p, h, TicketFor(o), e.pub, maxAge, now, s, before, w);
    EmissionShowsShape(c, rec, o, e);
    IssuedHolds(c, auth.clientID, p.cover.ticketLen, issue, maxAge, now);
    var next := Issued(c, auth.clientID, p.cover.ticketLen, issue).value;
    ServerWritesFit(remainder, next);
    HonestRun(d, p, w, t, Encode(h), Reply(d, p, w, Encode(h), h, auth).value, secret, remainder, next);
  }

  // ------------------------------------------------- the honest network is genuine

  /** What was sealed in order opens as what was sealed. */
  lemma SealedIsGenuine(k: Keys, mine: Session, n: U64, c: Content, rest: bytes, log: seq<Entry>, count: nat)
    requires Correct(k.aead) && Sizable(c) && n < |log| < COUNTER && log[n] == Entry(n, c) && count > 0
    requires Genuine(k, mine, NextSeq(n), count - 1, rest, Some(mine), log)
    ensures Genuine(k, mine, n, count, Record(k.aead, k.iv, n, c) + rest, Some(mine), log)
  {
    var inner := Inner(c);
    var hdr := Header(|inner| + OVERHEAD);
    var ct := k.aead.seal(NonceFor(k.iv, n), inner, hdr);
    InnerLength(c);
    assert Record(k.aead, k.iv, n, c) + rest == hdr + (ct + rest);
    TakeNUndo(hdr, ct + rest);
    assert GetU16(hdr, 3) == |ct|;
    TakeNUndo(ct, rest);
    assert SplitRecord(Record(k.aead, k.iv, n, c) + rest) == Some((hdr, ct, rest));
    assert SealedAs(k, log[n], NonceFor(k.iv, n), hdr, ct);
  }

  lemma {:induction false} AllSealedGenuine(k: Keys, mine: Session, n: U64, cs: seq<Content>, rest: bytes, log: seq<Entry>)
    requires Correct(k.aead) && AllSizable(cs) && n + |cs| <= |log| < COUNTER
    requires forall i :: 0 <= i < |cs| ==> log[n + i] == Entry(n + i, cs[i])
    ensures Genuine(k, mine, n, |cs|, SealMany(k, n, cs) + rest, Some(mine), log)
    decreases |cs|
  {
    if cs != [] {
      var more := SealMany(k, NextSeq(n), cs[1..]);
      AllSealedGenuine(k, mine, NextSeq(n), cs[1..], rest, log);
      SealedIsGenuine(k, mine, n, cs[0], more + rest, log, |cs|);
      Assoc(Record(k.aead, k.iv, n, cs[0]), more, rest);
    }
  }

  lemma LogEntries(cs: seq<Content>, i: nat)
    requires i < |cs| < COUNTER
    ensures LogOf(cs)[i] == Entry(i, cs[i])
  {
    CountBelow(i);
  }

  lemma FlightGenuine(k: Keys, mine: Session, remainder: seq<int>, next: Credential, rest: bytes)
    requires Correct(k.aead) && AllSizable(ServerContents(remainder, next)) && |remainder| + 2 < COUNTER
    ensures Genuine(k, mine, 0, |remainder|, SealMany(k, 0, FlightContents(remainder)) + rest, Some(mine), LogOf(ServerContents(remainder, next)))
  {
    ContentsSplit(k, remainder, next);
    StretchEntries(ServerContents(remainder, next), 0, FlightContents(remainder));
    AllSealedGenuine(k, mine, 0, FlightContents(remainder), rest, LogOf(ServerContents(remainder, next)));
  }

  lemma TicketsGenuine(k: Keys, mine: Session, remainder: seq<int>, next: Credential)
    requires Correct(k.aead) && AllSizable(ServerContents(remainder, next)) && |remainder| + 2 < COUNTER
    ensures var n := |remainder|;
            Genuine(k, mine, n, 2, SealMany(k, n, TicketContents(next)), Some(mine), LogOf(ServerContents(remainder, next)))
  {
    var n := |remainder|;
    ContentsSplit(k, remainder, next);
    StretchEntries(ServerContents(remainder, next), n, TicketContents(next));
    AllSealedGenuine(k, mine, n, TicketContents(next), [], LogOf(ServerContents(remainder, next)));
    assert SealMany(k, n, TicketContents(next)) + [] == SealMany(k, n, TicketContents(next));
  }

  /** The client's reads of an honest flight meet the hypothesis under which its end is agreed. */
  lemma HonestFlightGenuine(k: Keys, mine: Session, remainder: seq<int>, next: Credential)
    requires Correct(k.aead) && AllSizable(ServerContents(remainder, next)) && |remainder| + 2 < COUNTER
    ensures var cs, n := ServerContents(remainder, next), |remainder|;
            var sent := SealMany(k, 0, cs);
            && Genuine(k, mine, 0, n, sent, Some(mine), LogOf(cs))
            && ReadMany(k, 0, n, sent).Some? && Genuine(k, mine, n, 2, ReadMany(k, 0, n, sent).value.1, Some(mine), LogOf(cs))
  {
    var n := |remainder|;
    var tickets := SealMany(k, n, TicketContents(next));
    ContentsSplit(k, remainder, next);
    AdvancedSum(0, n);
    FlightGenuine(k, mine, remainder, next, tickets);
    TicketsGenuine(k, mine, remainder, next);
    ReadSealed(k, 0, FlightContents(remainder), tickets);
  }

  lemma StretchEntries(all: seq<Content>, from: nat, cs: seq<Content>)
    requires from + |cs| <= |all| < COUNTER && forall i :: 0 <= i < |cs| ==> all[from + i] == cs[i]
    ensures forall i :: 0 <= i < |cs| ==> LogOf(all)[from + i] == Entry(from + i, cs[i])
  {
    forall i | 0 <= i < |cs| ensures LogOf(all)[from + i] == Entry(from + i, cs[i]) {
      LogEntries(all, from + i);
    }
  }

  /** The server's one read of an honest answer meets the hypothesis under which its end is agreed. */
  lemma HonestAnswerGenuine(t: Traffic, p: Profile, v: ServerStart)
    requires Faithful(t) && Sizable(SizedContent([], p.clientWire))
    ensures ServerGenuine(t, p, v, Answer(t, p, v), Some(v.session))
  {
    var k, ccs, fin := t.client(v.session), SH.CHANGE_CIPHER_SPEC, SizedContent([], p.clientWire);
    assert GetU16(ccs, 3) == 1;
    TakeRecordUndo(ccs, Record(k.aead, k.iv, 0, fin) + []);
    LogEntries([fin], 0);
    AllSealedGenuine(k, v.session, 0, [fin], [], ClientLog(p));
    assert SealMany(k, 0, [fin]) + [] == Record(k.aead, k.iv, 0, fin) + [] by {
      assert [fin][1..] == [];
    }
  }
}
