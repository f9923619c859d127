/** The two-party opening (handshake.go) over a network that may do anything: each side's run is a
    function of the bytes it is given. Traffic keys are known by what they are derived from; a key opens
    only what was sealed under it. */
module Opening {
  import opened Bytes
  import opened HelloCodec
  import opened ClientHelloObject
  import opened Auth
  import opened RecordLayer
  import opened Interleaving
  import opened Delivery
  import opened Twiddle
  import Replay
  import SH = ServerHello

  // ----------------------------------------------------------------- transcript

  /** The payloads of the three opening records; empty when one has none. */
  function Transcript(hello: bytes, reply: bytes, ccs: bytes): bytes {
    if |hello| <= RECORD_HEADER_LEN || |reply| <= RECORD_HEADER_LEN || |ccs| <= RECORD_HEADER_LEN then []
    else hello[RECORD_HEADER_LEN..] + reply[RECORD_HEADER_LEN..] + ccs[RECORD_HEADER_LEN..]
  }

  /** The three payloads stand in wire order, and nothing else does. */
  lemma TranscriptLayout(hello: bytes, reply: bytes, ccs: bytes)
    requires |hello| > 5 && |reply| > 5 && |ccs| > 5
    ensures var t := Transcript(hello, reply, ccs);
            && |t| == |hello| + |reply| + |ccs| - 15
            && Stands(t, 0, hello[5..]) && Stands(t, |hello| - 5, reply[5..]) && Stands(t, |hello| + |reply| - 10, ccs[5..])
  {
    var h, r, c := hello[5..], reply[5..], ccs[5..];
    Assoc(h, r, c);
    assert c + [] == c;
    Layers(h, r, c, []);
  }

  /** The 24-bit length in the handshake header is that of the rest of the payload. */
  predicate SelfDelimiting(hello: bytes) {
    |hello| >= 9 && hello[6] as int * 0x1_0000 + GetU16(hello, 7) == |hello| - 9
  }

  lemma PrefixLengths(a: bytes, b: bytes, x: bytes, y: bytes)
    requires |a| >= 4 && |b| >= 4 && a + x == b + y
    requires a[1] as int * 0x1_0000 + GetU16(a, 2) == |a| - 4 && b[1] as int * 0x1_0000 + GetU16(b, 2) == |b| - 4
    ensures a == b && x == y
  {
    assert (a + x)[..4] == a[..4] && (b + y)[..4] == b[..4];
    assert a[1] == a[..4][1] == b[1] && a[2] == a[..4][2] == b[2] && a[3] == a[..4][3] == b[3];
    assert (a + x)[..|a|] == a && (b + y)[..|b|] == b;
    assert (a + x)[|a|..] == x && (b + y)[|b|..] == y;
  }

  /** The transcript binds every payload byte and no header byte: with a consistent handshake length in
      the hellos and a one-byte ChangeCipherSpec, two openings have the same transcript exactly when
      their three payloads are the same. */
  lemma TranscriptBinds(h: bytes, r: bytes, c: bytes, h': bytes, r': bytes, c': bytes)
    requires SelfDelimiting(h) && SelfDelimiting(h') && |r| > RECORD_HEADER_LEN && |r'| > RECORD_HEADER_LEN
    requires |c| == |c'| == RECORD_HEADER_LEN + 1
    ensures Transcript(h, r, c) == Transcript(h', r', c') <==> h[5..] == h'[5..] && r[5..] == r'[5..] && c[5..] == c'[5..]
  {
    if Transcript(h, r, c) == Transcript(h', r', c') {
      Assoc(h[5..], r[5..], c[5..]);
      Assoc(h'[5..], r'[5..], c'[5..]);
      PrefixLengths(h[5..], h'[5..], r[5..] + c[5..], r'[5..] + c'[5..]);
      var x, y := r[5..] + c[5..], r'[5..] + c'[5..];
      assert x[..|x| - 1] == r[5..] && y[..|y| - 1] == r'[5..];
      assert x[|x| - 1..] == c[5..] && y[|y| - 1..] == c'[5..];
    }
  }

  // ----------------------------------------------------------------------- keys

  const AES_256: u16 := 0x1302

  /** What a session's traffic keys are derived from. Hash and HKDF are ideal: different inputs, different
      keys. */
  datatype Session = Session(psk: Bytes32, shared: bytes, suite: u16, transcript: bytes)

  function DeriveSession(psk: Bytes32, shared: bytes, suite: u16, transcript: bytes): Option<Session> {
    if transcript == [] || (suite != SH.AES_128 && suite != AES_256) then None
    else Some(Session(psk, shared, suite, transcript))
  }

  /** Keys are refused for an empty transcript and for a suite of neither key length; otherwise every input
      counts. */
  lemma SessionBinds(psk: Bytes32, shared: bytes, suite: u16, t: bytes, psk': Bytes32, shared': bytes, suite': u16, t': bytes)
    ensures DeriveSession(psk, shared, suite, t).None? <==> t == [] || (suite != 0x1301 && suite != 0x1302)
    ensures DeriveSession(psk, shared, suite, t).Some? ==>
      (DeriveSession(psk, shared, suite, t) == DeriveSession(psk', shared', suite', t')
       <==> psk == psk' && shared == shared' && suite == suite' && t == t')
  {
  }

  /** Each direction's AEAD and IV under a session. */
  datatype Traffic = Traffic(client: Session -> Keys, server: Session -> Keys)

  ghost predicate Faithful(t: Traffic) {
    forall s :: Correct(t.client(s).aead) && Correct(t.server(s).aead)
  }

  /** With the same psk, secret and suite, the two ends derive the same keys exactly when every payload
      byte of the opening agrees. */
  lemma KeysAgree(psk: Bytes32, shared: bytes, suite: u16, h: bytes, r: bytes, c: bytes, h': bytes, r': bytes, c': bytes)
    requires SelfDelimiting(h) && SelfDelimiting(h') && |r| > RECORD_HEADER_LEN && |r'| > RECORD_HEADER_LEN
    requires |c| == |c'| == RECORD_HEADER_LEN + 1 && (suite == SH.AES_128 || suite == AES_256)
    ensures DeriveSession(psk, shared, suite, Transcript(h, r, c)).Some?
    ensures DeriveSession(psk, shared, suite, Transcript(h, r, c)) == DeriveSession(psk, shared, suite, Transcript(h', r', c'))
            <==> h[5..] == h'[5..] && r[5..] == r'[5..] && c[5..] == c'[5..]
  {
    TranscriptBinds(h, r, c, h', r', c');
  }

  // ------------------------------------------------------------------ both profiles

  /** What both ends are provisioned with. */
  datatype Profile = Profile(cover: Cover, pskFirst: bool, resumedRemainder: seq<int>, fullRemainder: seq<int>, clientWire: int)

  function RemainderCount(p: Profile, full: bool): nat {
    if full then |p.fullRemainder| else |p.resumedRemainder|
  }

  /** X25519, as a commuting function on 32-byte keys that may refuse a point. */
  datatype DH = DH(pub: Bytes32 -> Bytes32, agree: (Bytes32, Bytes32) -> Option<bytes>)

  ghost predicate Commutes(d: DH) {
    forall a, b :: d.agree(a, d.pub(b)) == d.agree(b, d.pub(a))
  }

  /** readRecord: one TLS record, header included, and what is left. */
  function TakeRecord(stream: bytes): (r: Option<(bytes, bytes)>)
    ensures r.Some? ==> stream == r.value.0 + r.value.1 && |r.value.0| >= RECORD_HEADER_LEN
  {
    var (hdr, rest) :- TakeN(stream, RECORD_HEADER_LEN);
    var n := GetU16(hdr, 3) as int;
    if n > MAX_CIPHERTEXT then None
    else
      var (body, left) :- TakeN(rest, n);
      Some((hdr + body, left))
  }

  lemma TakeRecordUndo(rec: bytes, rest: bytes)
    requires |rec| >= RECORD_HEADER_LEN && |rec| == RECORD_HEADER_LEN + GetU16(rec, 3) as int <= RECORD_HEADER_LEN + MAX_CIPHERTEXT
    ensures TakeRecord(rec + rest) == Some((rec, rest))
  {
    var hdr, body := rec[..5], rec[5..];
    assert rec + rest == hdr + (body + rest) && rec == hdr + body;
    TakeNUndo(hdr, body + rest);
    TakeNUndo(body, rest);
  }

  // --------------------------------------------------------------------- tickets

  const SESSION_TICKET_WIRE: nat := 370

  function TicketRecord(next: Credential): bytes {
    U16(|next.ticket|) + next.ticket + next.psk
  }

  function FullTicketRecord(next: Credential): bytes {
    U16(|next.fullTicket|) + next.fullTicket
  }

  /** readTickets on the two records' content types and bodies. */
  function ParseTickets(a: (byte, bytes), b: (byte, bytes)): Option<Credential> {
    var _ :- Need(a.0 == HANDSHAKE && |a.1| >= 2);
    var tl := GetU16(a.1, 0) as int;
    if |a.1| != 2 + tl + 32 then None
    else
      var _ :- Need(b.0 == HANDSHAKE && |b.1| >= 2);
      if GetU16(b.1, 0) as int != FULL_TICKET_LEN || |b.1| != 2 + FULL_TICKET_LEN then None
      else Some(Credential(a.1[2..2 + tl], b.1[2..], a.1[2 + tl..]))
  }

  /** The two bodies, byte by byte: a ticket behind its length, and the psk behind the first. */
  lemma TicketRecordsStand(next: Credential)
    requires |next.ticket| < 0x1_0000 && |next.fullTicket| == 144
    ensures var a, b, n := TicketRecord(next), FullTicketRecord(next), |next.ticket|;
            && |a| == 34 + n && GetU16(a, 0) as int == n && Stands(a, 2, next.ticket) && Stands(a, 2 + n, next.psk)
            && |b| == 146 && GetU16(b, 0) == 144 && Stands(b, 2, next.fullTicket)
  {
    var n := |next.ticket|;
    U16RoundTrip(n);
    assert TicketRecord(next) == U16(n) + (next.ticket + (next.psk + []));
    Layers(U16(n), next.ticket, next.psk, []);
    assert FullTicketRecord(next) == U16(144) + (next.fullTicket + []);
    Between(U16(144), next.fullTicket, []);
  }

  /** The client ends with exactly the credential the server issued. */
  lemma TicketsRoundTrip(next: Credential)
    requires |next.ticket| < 0x1_0000 && |next.fullTicket| == FULL_TICKET_LEN
    ensures ParseTickets((HANDSHAKE, TicketRecord(next)), (HANDSHAKE, FullTicketRecord(next))) == Some(next)
  {
    var a, b, tl := TicketRecord(next), FullTicketRecord(next), |next.ticket|;
    U16RoundTrip(tl);
    assert GetU16(a, 0) == tl && a[2..2 + tl] == next.ticket && a[2 + tl..] == next.psk;
    assert GetU16(b, 0) == FULL_TICKET_LEN && b[2..] == next.fullTicket;
  }

  /** The draws of one issue: the psk, the whole seconds of the clock, a nonce and padding per ticket. */
  datatype IssueDraws = IssueDraws(psk: Bytes32, seconds: U64, nonce: bytes, pad: nat -> byte, fullNonce: bytes, fullPad: nat -> byte)

  /** Issue: two tickets for one client, sealed at the same instant. */
  function Issued(c: Crypto, clientID: U64, ticketLen: nat, w: IssueDraws): Option<Credential> {
    var info := TicketInfo(clientID, w.psk, w.seconds);
    var ticket :- SealTicket(c, info, ticketLen, w.nonce, w.pad);
    var full :- SealTicket(c, info, FULL_TICKET_LEN, w.fullNonce, w.fullPad);
    Some(Credential(ticket, full, w.psk))
  }

  /** Both tickets of an issued credential open to the same client, psk and issue time, so either is
      accepted exactly as long as the other. */
  lemma IssuedHolds(c: Crypto, clientID: U64, ticketLen: nat, w: IssueDraws, maxAge: int, later: int)
    requires Ideal(c) && MIN_TICKET_LEN <= ticketLen && |w.nonce| == TICKET_NONCE_LEN == |w.fullNonce|
    ensures Issued(c, clientID, ticketLen, w).Some?
    ensures var next, info := Issued(c, clientID, ticketLen, w).value, TicketInfo(clientID, w.psk, w.seconds);
            && |next.ticket| == ticketLen && |next.fullTicket| == FULL_TICKET_LEN && next.psk == w.psk
            && OpenTicket(c, next.ticket) == Some(info) && OpenTicket(c, next.fullTicket) == Some(info)
            && (Holds(c, next.ticket, next.psk, maxAge, later) <==> !Expired(w.seconds, maxAge, later))
            && (Holds(c, next.fullTicket, next.psk, maxAge, later) <==> !Expired(w.seconds, maxAge, later))
  {
    var info := TicketInfo(clientID, w.psk, w.seconds);
    TicketRoundTrip(c, info, ticketLen, w.nonce, w.pad);
    TicketRoundTrip(c, info, FULL_TICKET_LEN, w.fullNonce, w.fullPad);
  }

  // ------------------------------------------------------------------ sealed records

  function SizedContent(payload: bytes, wireLen: int): Content {
    Content(HANDSHAKE, payload, wireLen - RECORD_HEADER_LEN - OVERHEAD)
  }

  /** writeSized takes it. */
  predicate Sizable(c: Content) {
    |c.payload| + 1 <= c.padTo <= MAX_INNER
  }

  /** The stand-ins for the server's encrypted flight. */
  function FlightContents(remainder: seq<int>): (r: seq<Content>)
    ensures |r| == |remainder| && forall i :: 0 <= i < |r| ==> r[i] == SizedContent([], remainder[i])
  {
    seq(|remainder|, i requires 0 <= i < |remainder| => SizedContent([], remainder[i]))
  }

  function TicketContents(next: Credential): seq<Content> {
    [SizedContent(TicketRecord(next), SESSION_TICKET_WIRE), SizedContent(FullTicketRecord(next), SESSION_TICKET_WIRE)]
  }

  /** Everything the server seals in an opening. */
  function ServerContents(remainder: seq<int>, next: Credential): (r: seq<Content>)
    ensures |r| == |remainder| + 2
  {
    FlightContents(remainder) + TicketContents(next)
  }

  predicate AllSizable(cs: seq<Content>) {
    forall i :: 0 <= i < |cs| ==> Sizable(cs[i])
  }

  /** The counter after i more records. */
  function Advanced(n: U64, i: nat): U64 {
    if i == 0 then n else NextSeq(Advanced(n, i - 1))
  }

  lemma {:induction false} AdvancedSum(n: U64, i: nat)
    requires n + i < COUNTER
    ensures Advanced(n, i) == n + i
    decreases i
  {
    if i > 0 {
      AdvancedSum(n, i - 1);
    }
  }

  lemma {:induction false} AdvancedStep(n: U64, i: nat)
    ensures Advanced(NextSeq(n), i) == Advanced(n, i + 1)
    decreases i
  {
    if i > 0 {
      AdvancedStep(n, i - 1);
    }
  }

  /** Records sealed one after the other from counter n. */
  function SealMany(k: Keys, n: U64, cs: seq<Content>): bytes
    decreases |cs|
  {
    if cs == [] then [] else Record(k.aead, k.iv, n, cs[0]) + SealMany(k, NextSeq(n), cs[1..])
  }

  lemma {:induction false} SealJoin(k: Keys, n: U64, a: seq<Content>, b: seq<Content>)
    ensures SealMany(k, n, a + b) == SealMany(k, n, a) + SealMany(k, Advanced(n, |a|), b)
    decreases |a|
  {
    if a == [] {
      assert a + b == b;
    } else {
      assert (a + b)[1..] == a[1..] + b;
      SealJoin(k, NextSeq(n), a[1..], b);
      AdvancedStep(n, |a| - 1);
    }
  }

  /** A list of contents as the log of a fresh sender. */
  function LogOf(cs: seq<Content>): (r: seq<Entry>)
    ensures |r| == |cs| && NumberedInOrder(r)
  {
    seq(|cs|, i requires 0 <= i < |cs| => Entry(Count(i), cs[i]))
  }

  // ---------------------------------------------------------------------- the server

  /** What the server knows once it has read the hello: None is ErrNotOurs. `unspent` is the replay gate's
      answer. */
  datatype ServerStart = ServerStart(hello: Hello, full: bool, auth: AuthResult, reply: bytes, session: Session)

  /** The server's own draws. */
  datatype ServerDraws = ServerDraws(secret: Bytes32, random: Bytes32, ciphertext: SH.Ciphertext)

  function ReplyParams(p: Profile, h: Hello, full: bool, pub: Bytes32, w: ServerDraws): SH.Params {
    SH.Params(h.sessionID, p.cover.cipherSuite, pub, 0, p.pskFirst, full, w.random, w.ciphertext)
  }

  /** Up to the replay gate. */
  ghost function Recognised(c: Crypto, p: Cover, maxAge: int, now: int, rec: bytes): Option<(Hello, AuthResult)>
    requires Ideal(c)
  {
    var h :- Decode(rec);
    var _ :- Validated(p, h);
    var auth :- Verified(c, h, maxAge, now);
    Some((h, auth))
  }

  predicate IsFull(h: Hello) {
    FirstOf(h.extensions, EXT_PRE_SHARED_KEY).None?
  }

  function Reply(d: DH, p: Profile, w: ServerDraws, rec: bytes, h: Hello, auth: AuthResult): Option<ServerStart> {
    var reply :- SH.Synthesized(ReplyParams(p, h, IsFull(h), d.pub(w.secret), w));
    var shared :- d.agree(w.secret, auth.ephemeral);
    var session :- DeriveSession(auth.psk, shared, p.cover.cipherSuite, Transcript(rec, reply, SH.CHANGE_CIPHER_SPEC));
    Some(ServerStart(h, IsFull(h), auth, reply, session))
  }

  /** A shared replay cache and what one call brings to it: its clock reading, and the client the
      backstop drops if it fires. */
  datatype Spending = Spending(horizon: int, max: nat, hash: bytes -> bytes, clock: int, victim: U64)

  /** The call Server makes on the cache for an authenticated hello. */
  function SpendCall(s: Spending, auth: AuthResult, ticket: bytes): Replay.Call {
    Replay.Call(auth.clientID, auth.issuedSeconds * SECOND, s.hash(ticket), s.clock, s.victim)
  }

  /** What Server has done by the time it has its keys: the call on the cache, if it made one, the reply
      it derived its keys from, if it got that far, and the cache it leaves. */
  datatype Begun = Begun(call: Option<Replay.Call>, start: Option<ServerStart>, clients: Replay.Clients)

  /** Server on the record it read, up to its keys; `goes` says that the socket takes its two records.
      Only a recognised hello reaches the cache, and only an unspent ticket is answered. */
  ghost function Begin(c: Crypto, d: DH, p: Profile, maxAge: int, now: int, s: Spending, before: Replay.Clients, w: ServerDraws, goes: bool, rec: bytes): Begun
    requires Ideal(c)
  {
    match Recognised(c, p.cover, maxAge, now, rec)
    case None => Begun(None, None, before)
    case Some((h, auth)) =>
      var call := SpendCall(s, auth, Validated(p.cover, h).value);
      var (unspent, after) := Replay.Step(before, s.horizon, s.max, call);
      Begun(Some(call), if unspent && goes then Reply(d, p, w, rec, h, auth) else None, after)
  }

  // ---------------------------------------------------------------------- the client

  datatype ClientStart = ClientStart(reply: bytes, session: Session, rest: bytes)

  /** Up to the keys: the ServerHello, its key share, the ChangeCipherSpec. */
  function StartClient(d: DH, p: Profile, psk: Bytes32, secret: Bytes32, wire: bytes, stream: bytes): Option<ClientStart> {
    var (reply, r1) :- TakeRecord(stream);
    var serverPub :- SH.EphemeralOf(reply);
    var (ccs, r2) :- TakeRecord(r1);
    var _ :- Need(|ccs| == RECORD_HEADER_LEN + 1 && ccs[0] == 0x14 && ccs[RECORD_HEADER_LEN] == 0x01);
    var shared :- d.agree(secret, serverPub);
    var session :- DeriveSession(psk, shared, p.cover.cipherSuite, Transcript(wire, reply, ccs));
    Some(ClientStart(reply, session, r2))
  }

  /** Reads under one direction's keys, in order from counter n. */
  function ReadMany(k: Keys, n: U64, count: nat, stream: bytes): Option<(seq<(byte, bytes)>, bytes)>
    decreases count
  {
    if count == 0 then Some(([], stream))
    else
      var (got, rest) :- ReadOne(k.aead, k.iv, n, stream);
      var (more, left) :- ReadMany(k, NextSeq(n), count - 1, rest);
      Some(([got] + more, left))
  }

  /** A completed client: its session, what it read after the opening, its counters and its next
      credential. */
  datatype ClientDone = ClientDone(session: Session, received: seq<(byte, bytes)>, sendSeq: U64, recvSeq: U64, next: Credential)

  /** The rest of Client: one read per remainder record, its own ChangeCipherSpec and Finished stand-in,
      two ticket reads. */
  function FinishClient(t: Traffic, p: Profile, full: bool, start: ClientStart): Option<ClientDone>
    requires RemainderCount(p, full) + 2 < COUNTER
  {
    var count := RemainderCount(p, full);
    var (flight, left) :- ReadMany(t.server(start.session), 0, count, start.rest);
    var _ :- Need(Sizable(SizedContent([], p.clientWire)));
    var (tickets, _) :- ReadMany(t.server(start.session), count, 2, left);
    var next :- ParseTickets(tickets[0], tickets[1]);
    Some(ClientDone(start.session, flight + tickets, 1, count + 2, next))
  }

  // -------------------------------------------------------------------- authenticity

  /** Nothing opens under a session's keys that the other side did not seal under them. */
  ghost predicate Genuine(k: Keys, mine: Session, n: U64, count: nat, stream: bytes, theirs: Option<Session>, log: seq<Entry>)
    decreases count
  {
    count > 0 && SplitRecord(stream).Some? ==>
      var (hdr, ct, rest) := SplitRecord(stream).value;
      && (OpenRecord(k.aead, k.iv, n, hdr, ct).Some? ==> theirs == Some(mine) && WasSealed(k, log, n, hdr, ct))
      && Genuine(k, mine, NextSeq(n), count - 1, rest, theirs, log)
  }

  /** The reads that succeed are, one for one, the writes at the same numbers. */
  ghost predicate Pairs(received: seq<(byte, bytes)>, log: seq<Entry>, n: nat) {
    n + |received| <= |log| && forall j :: 0 <= j < |received| ==> received[j] == (log[n + j].content.typ, log[n + j].content.payload)
  }

  /** One read. */
  lemma ReadIsWrite(k: Keys, mine: Session, n: U64, count: nat, stream: bytes, theirs: Option<Session>, log: seq<Entry>)
    requires Correct(k.aead) && NumberedInOrder(log) && Typed(log) && |log| < COUNTER && count > 0
    requires Genuine(k, mine, n, count, stream, theirs, log) && ReadOne(k.aead, k.iv, n, stream).Some?
    ensures theirs == Some(mine) && n < |log|
    ensures var (got, rest) := ReadOne(k.aead, k.iv, n, stream).value;
            got == (log[n].content.typ, log[n].content.payload) && Genuine(k, mine, NextSeq(n), count - 1, rest, theirs, log)
  {
    var (hdr, ct, rest) := SplitRecord(stream).value;
    OpensNext(k, log, n, hdr, ct);
  }

  lemma PairsCons(got: (byte, bytes), more: seq<(byte, bytes)>, log: seq<Entry>, n: nat)
    requires n < |log| && got == (log[n].content.typ, log[n].content.payload) && Pairs(more, log, n + 1)
    ensures Pairs([got] + more, log, n)
  {
  }

  lemma PairsJoin(a: seq<(byte, bytes)>, b: seq<(byte, bytes)>, log: seq<Entry>, n: nat)
    requires Pairs(a, log, n) && Pairs(b, log, n + |a|)
    ensures Pairs(a + b, log, n)
  {
    forall j | 0 <= j < |a + b| ensures (a + b)[j] == (log[n + j].content.typ, log[n + j].content.payload) {
      assert j >= |a| ==> (a + b)[j] == b[j - |a|];
    }
  }

  lemma ReadManyStep(k: Keys, n: U64, count: nat, stream: bytes) returns (got: (byte, bytes), rest: bytes)
    requires count > 0 && ReadMany(k, n, count, stream).Some?
    ensures ReadOne(k.aead, k.iv, n, stream) == Some((got, rest)) && ReadMany(k, NextSeq(n), count - 1, rest).Some?
    ensures ReadMany(k, n, count, stream).value.0 == [got] + ReadMany(k, NextSeq(n), count - 1, rest).value.0
  {
    var r := ReadOne(k.aead, k.iv, n, stream).value;
    got, rest := r.0, r.1;
  }

  lemma {:induction false} ReadsAreWrites(k: Keys, mine: Session, n: U64, count: nat, stream: bytes, theirs: Option<Session>, log: seq<Entry>)
    requires Correct(k.aead) && NumberedInOrder(log) && Typed(log) && n <= |log| < COUNTER
    requires Genuine(k, mine, n, count, stream, theirs, log) && ReadMany(k, n, count, stream).Some?
    ensures count > 0 ==> theirs == Some(mine)
    ensures |ReadMany(k, n, count, stream).value.0| == count && Pairs(ReadMany(k, n, count, stream).value.0, log, n)
    decreases count
  {
    if count > 0 {
      var got, rest := ReadManyStep(k, n, count, stream);
      ReadIsWrite(k, mine, n, count, stream, theirs, log);
      ReadsAreWrites(k, mine, NextSeq(n), count - 1, rest, theirs, log);
      PairsCons(got, ReadMany(k, NextSeq(n), count - 1, rest).value.0, log, n);
    }
  }

  // ---------------------------------------------------------------------- agreement

  /** The hello a side has is determined by the payload it has, whatever the header said. */
  lemma SamePayloadSameHello(a: bytes, b: bytes)
    requires Decode(a).Some? && Decode(b).Some? && a[5..] == b[5..]
    ensures Decode(a) == Decode(b)
  {
    assert a[9..] == a[5..][4..] == b[5..][4..] == b[9..];
  }

  lemma AcceptedDelimits(rec: bytes)
    requires Decode(rec).Some?
    ensures SelfDelimiting(rec)
  {
  }

  /** The server's reply is a record with a payload. */
  lemma ReplyHasPayload(p: SH.Params)
    requires SH.Synthesized(p).Some?
    ensures |SH.Synthesized(p).value| > RECORD_HEADER_LEN
  {
  }

  /** The transcript a client derived its keys from. */
  ghost predicate ClientKeyed(wire: bytes, psk: Bytes32, start: ClientStart, ccs: bytes) {
    && |ccs| == RECORD_HEADER_LEN + 1 && |start.reply| > RECORD_HEADER_LEN
    && start.session.psk == psk && start.session.transcript == Transcript(wire, start.reply, ccs)
  }

  lemma StartReads(d: DH, p: Profile, psk: Bytes32, secret: Bytes32, wire: bytes, stream: bytes) returns (ccs: bytes)
    requires StartClient(d, p, psk, secret, wire, stream).Some?
    ensures ClientKeyed(wire, psk, StartClient(d, p, psk, secret, wire, stream).value, ccs)
  {
    var (reply, r1) := TakeRecord(stream).value;
    var (c, r2) := TakeRecord(r1).value;
    ccs := c;
    assert SH.ParseExtensions(reply).Some?;
  }

  /** A record taken off a stream is as long as it says. */
  lemma TakenRecord(stream: bytes)
    requires TakeRecord(stream).Some?
    ensures var (rec, rest) := TakeRecord(stream).value;
            stream == rec + rest && |rec| >= 5 && GetU16(rec, 3) as int == |rec| - 5
  {
    var (hdr, rest) := TakeN(stream, RECORD_HEADER_LEN).value;
    var rec := TakeRecord(stream).value.0;
    assert rec[..5] == hdr && GetU16(rec, 3) == GetU16(hdr, 3);
  }

  /** What a client starts on: its stream is the reply, a ChangeCipherSpec of one byte 0x01 and the rest; its
      keys rest on its psk, the secret agreed with the key in that reply, its suite, and the hello, the reply
      and that byte in this order. */
  lemma ClientStartsOn(d: DH, p: Profile, psk: Bytes32, secret: Bytes32, wire: bytes, stream: bytes) returns (ccs: bytes)
    requires StartClient(d, p, psk, secret, wire, stream).Some?
    ensures var s := StartClient(d, p, psk, secret, wire, stream).value;
            && stream == s.reply + (ccs + s.rest) && ccs == [0x14, ccs[1], ccs[2], 0x00, 0x01, 0x01]
            && SH.EphemeralOf(s.reply).Some? && Some(s.session.shared) == d.agree(secret, SH.EphemeralOf(s.reply).value)
            && s.session.psk == psk && s.session.suite == p.cover.cipherSuite && Binds(s.session.transcript, wire, s.reply)
  {
    var (reply, r1) := TakeRecord(stream).value;
    var (c, r2) := TakeRecord(r1).value;
    ccs := c;
    TakenRecord(stream);
    TakenRecord(r1);
    OneByte(wire, reply, ccs);
  }

  lemma OneByte(wire: bytes, reply: bytes, ccs: bytes)
    requires |ccs| == 6 && ccs[0] == 0x14 && ccs[5] == 0x01 && GetU16(ccs, 3) == 1 && Transcript(wire, reply, ccs) != []
    ensures ccs == [0x14, ccs[1], ccs[2], 0x00, 0x01, 0x01] && Binds(Transcript(wire, reply, ccs), wire, reply)
  {
    TranscriptLayout(wire, reply, ccs);
    assert ccs[5..] == [0x01];
    At(Transcript(wire, reply, ccs), |wire| + |reply| - 10, [0x01], 0);
  }

  /** What a server that started has. */
  ghost predicate Started(rec: bytes, v: ServerStart) {
    && Decode(rec) == Some(v.hello) && v.full == IsFull(v.hello)
    && v.session.psk == v.auth.psk && |v.reply| > RECORD_HEADER_LEN
    && v.session.transcript == Transcript(rec, v.reply, SH.CHANGE_CIPHER_SPEC)
  }

  lemma ReplyStarts(d: DH, p: Profile, w: ServerDraws, rec: bytes, h: Hello, auth: AuthResult)
    requires Decode(rec) == Some(h) && Reply(d, p, w, rec, h, auth).Some?
    ensures Started(rec, Reply(d, p, w, rec, h, auth).value)
  {
    ReplyHasPayload(ReplyParams(p, h, IsFull(h), d.pub(w.secret), w));
  }

  /** A server that has begun holds the hello it parsed, the shape that hello shows, and keys bound to
      what it read, its reply and its ChangeCipherSpec. */
  lemma BegunStarted(c: Crypto, d: DH, p: Profile, maxAge: int, now: int, s: Spending, before: Replay.Clients, w: ServerDraws, goes: bool, rec: bytes)
    requires Ideal(c) && Begin(c, d, p, maxAge, now, s, before, w, goes, rec).start.Some?
    ensures Started(rec, Begin(c, d, p, maxAge, now, s, before, w, goes, rec).start.value)
  {
    var (h, auth) := Recognised(c, p.cover, maxAge, now, rec).value;
    ReplyStarts(d, p, w, rec, h, auth);
  }

  /** The reply answers hello h: byte for byte its front and its block, with h's session id echoed, the
      profile's suite and order, and the server's key. */
  ghost predicate Answers(d: DH, p: Profile, w: ServerDraws, h: Hello, reply: bytes) {
    var full := forall e :: e in h.extensions ==> e.typ != 0x0029;
    var shown := SH.Params(h.sessionID, p.cover.cipherSuite, d.pub(w.secret), 0, p.pskFirst, full, w.random, w.ciphertext);
    p.cover.cipherSuite != 0 && SH.FrontAt(shown, reply) && SH.BlockAt(shown, reply)
  }

  /** Keys derived from the ticket's psk, the secret agreed with the ephemeral the hello authenticated, the
      profile's suite, and the hello's payload, the reply's and the one byte of a ChangeCipherSpec, in this
      order. */
  predicate RestsOn(d: DH, p: Profile, w: ServerDraws, rec: bytes, auth: AuthResult, v: ServerStart) {
    && v.session.psk == auth.psk && Some(v.session.shared) == d.agree(w.secret, auth.ephemeral)
    && v.session.suite == p.cover.cipherSuite && Binds(v.session.transcript, rec, v.reply)
  }

  predicate Binds(t: bytes, rec: bytes, reply: bytes) {
    && |rec| > 5 && |reply| > 5 && |t| == |rec| + |reply| - 9
    && Stands(t, 0, rec[5..]) && Stands(t, |rec| - 5, reply[5..]) && t[|t| - 1] == 0x01
  }

  lemma TranscriptBound(rec: bytes, reply: bytes)
    requires |rec| > 5 && |reply| > 5
    ensures Binds(Transcript(rec, reply, SH.CHANGE_CIPHER_SPEC), rec, reply)
  {
    var t, ccs := Transcript(rec, reply, SH.CHANGE_CIPHER_SPEC), SH.CHANGE_CIPHER_SPEC;
    TranscriptLayout(rec, reply, ccs);
    assert ccs[5..] == [0x01];
    At(t, |rec| + |reply| - 10, [0x01], 0);
  }

  lemma ReplyAnswers(d: DH, p: Profile, w: ServerDraws, rec: bytes, h: Hello, auth: AuthResult)
    requires Reply(d, p, w, rec, h, auth).Some?
    ensures Answers(d, p, w, h, Reply(d, p, w, rec, h, auth).value.reply)
  {
    var params := ReplyParams(p, h, IsFull(h), d.pub(w.secret), w);
    SH.FrontLayout(params);
    SH.BlockLayout(params);
    FullMeans(h);
  }

  lemma ReplyRests(d: DH, p: Profile, w: ServerDraws, rec: bytes, h: Hello, auth: AuthResult)
    requires Decode(rec) == Some(h) && Reply(d, p, w, rec, h, auth).Some?
    ensures RestsOn(d, p, w, rec, auth, Reply(d, p, w, rec, h, auth).value)
  {
    var v := Reply(d, p, w, rec, h, auth).value;
    ReplyHasPayload(ReplyParams(p, h, IsFull(h), d.pub(w.secret), w));
    TranscriptBound(rec, v.reply);
  }

  /** v answers the very hello that rec decodes to and that was verified, and its keys rest on both. */
  ghost predicate ReplyTo(c: Crypto, d: DH, p: Profile, maxAge: int, now: int, w: ServerDraws, rec: bytes, v: ServerStart)
    requires Ideal(c)
  {
    && Decode(rec).Some? && Verified(c, Decode(rec).value, maxAge, now) == Some(v.auth)
    && Answers(d, p, w, Decode(rec).value, v.reply) && RestsOn(d, p, w, rec, v.auth, v)
  }

  lemma RecognisedAs(c: Crypto, p: Cover, maxAge: int, now: int, rec: bytes)
    requires Ideal(c) && Recognised(c, p, maxAge, now, rec).Some?
    ensures var (h, auth) := Recognised(c, p, maxAge, now, rec).value;
            Decode(rec) == Some(h) && Verified(c, h, maxAge, now) == Some(auth)
  {
  }

  lemma MadeReply(c: Crypto, d: DH, p: Profile, maxAge: int, now: int, w: ServerDraws, rec: bytes, h: Hello, auth: AuthResult)
    requires Ideal(c) && Decode(rec) == Some(h) && Verified(c, h, maxAge, now) == Some(auth) && Reply(d, p, w, rec, h, auth).Some?
    ensures ReplyTo(c, d, p, maxAge, now, w, rec, Reply(d, p, w, rec, h, auth).value)
  {
    ReplyAnswers(d, p, w, rec, h, auth);
    ReplyRests(d, p, w, rec, h, auth);
  }

  /** Every reply a server makes is one. */
  lemma ReplyShows(c: Crypto, d: DH, p: Profile, maxAge: int, now: int, s: Spending, before: Replay.Clients, w: ServerDraws, goes: bool, rec: bytes)
    requires Ideal(c) && Begin(c, d, p, maxAge, now, s, before, w, goes, rec).start.Some?
    ensures ReplyTo(c, d, p, maxAge, now, w, rec, Begin(c, d, p, maxAge, now, s, before, w, goes, rec).start.value)
  {
    var (h, auth) := Recognised(c, p.cover, maxAge, now, rec).value;
    RecognisedAs(c, p.cover, maxAge, now, rec);
    MadeReply(c, d, p, maxAge, now, w, rec, h, auth);
  }

  lemma FullMeans(h: Hello)
    ensures IsFull(h) <==> forall e :: e in h.extensions ==> e.typ != 0x0029
  {
    var at := FirstOf(h.extensions, EXT_PRE_SHARED_KEY);
    if at.Some? {
      assert h.extensions[at.value] in h.extensions;
    }
  }

  /** The server's log so far: what it has sealed of its contents. */
  ghost predicate ServerLog(log: seq<Entry>, remainder: seq<int>, next: Credential) {
    log <= LogOf(ServerContents(remainder, next))
  }

  lemma ServerLogFacts(log: seq<Entry>, remainder: seq<int>, next: Credential)
    requires ServerLog(log, remainder, next) && |remainder| + 2 < COUNTER
    ensures NumberedInOrder(log) && Typed(log) && |log| < COUNTER && |log| <= |remainder| + 2
    ensures |log| == |remainder| + 2 ==>
      && log[|remainder|].content == SizedContent(TicketRecord(next), SESSION_TICKET_WIRE)
      && log[|remainder| + 1].content == SizedContent(FullTicketRecord(next), SESSION_TICKET_WIRE)
  {
    var all := LogOf(ServerContents(remainder, next));
    assert forall i :: 0 <= i < |log| ==> log[i] == all[i];
    assert forall i :: 0 <= i < |all| ==> all[i].content.typ == HANDSHAKE;
  }

  /** The two runs of one opening. The client sent `wire` for a hello of the given shape; the server read
      `rec`, and has sealed `log`. The network chose `rec` and `stream`. */
  datatype Opening = Opening(
    wire: bytes, full: bool, psk: Bytes32, secret: Bytes32, stream: bytes,
    rec: bytes, server: Option<ServerStart>, remainder: seq<int>, next: Credential, log: seq<Entry>)

  /** The server's side of an opening is what Server does with what it read: it has sealed nothing
      before it started, and then some of its contents, in order. */
  ghost predicate ServerRan(p: Profile, o: Opening) {
    && (if o.server.Some? then
          Started(o.rec, o.server.value) && |o.remainder| == RemainderCount(p, o.server.value.full) && ServerLog(o.log, o.remainder, o.next)
        else o.log == [])
    && |o.next.ticket| < 0x1_0000 && |o.next.fullTicket| == FULL_TICKET_LEN && |o.remainder| + 2 < COUNTER
  }

  /** The shape the client says it chose is the one its hello shows. */
  ghost predicate ShapeShown(o: Opening) {
    Decode(o.wire).Some? && o.full == IsFull(Decode(o.wire).value)
  }

  /** The AEAD under the server's write keys holds for everything the client tries to open. */
  ghost predicate ClientGenuine(t: Traffic, p: Profile, o: Opening, start: ClientStart)
    requires RemainderCount(p, o.full) + 2 < COUNTER
  {
    var k, count := t.server(start.session), RemainderCount(p, o.full);
    var theirs := if o.server.Some? then Some(o.server.value.session) else None;
    && Genuine(k, start.session, 0, count, start.rest, theirs, o.log)
    && (ReadMany(k, 0, count, start.rest).Some? ==>
        Genuine(k, start.session, count, 2, ReadMany(k, 0, count, start.rest).value.1, theirs, o.log))
  }

  /** The session a server that started is in. */
  function ServerSession(o: Opening): Option<Session> {
    if o.server.Some? then Some(o.server.value.session) else None
  }

  /** The two ends saw the same opening: hello, shape, psk, and every byte behind a record header. */
  ghost predicate SameOpening(o: Opening, v: ServerStart, reply: bytes) {
    && Decode(o.wire) == Some(v.hello) && v.full == o.full && v.auth.psk == o.psk
    && 5 <= |o.rec| && 5 <= |o.wire| && o.rec[5..] == o.wire[5..]
    && 5 <= |v.reply| && 5 <= |reply| && v.reply[5..] == reply[5..]
  }

  /** Equal sessions mean equal openings. */
  lemma SessionsAgree(o: Opening, v: ServerStart, start: ClientStart, ccs: bytes)
    requires Started(o.rec, v) && ShapeShown(o) && ClientKeyed(o.wire, o.psk, start, ccs) && v.session == start.session
    ensures SameOpening(o, v, start.reply)
  {
    AcceptedDelimits(o.rec);
    AcceptedDelimits(o.wire);
    TranscriptBinds(o.rec, v.reply, SH.CHANGE_CIPHER_SPEC, o.wire, start.reply, ccs);
    SamePayloadSameHello(o.rec, o.wire);
  }

  lemma FinishReads(t: Traffic, p: Profile, o: Opening, start: ClientStart, done: ClientDone)
    requires Faithful(t) && RemainderCount(p, o.full) + 2 < COUNTER && FinishClient(t, p, o.full, start) == Some(done)
    requires ClientGenuine(t, p, o, start) && NumberedInOrder(o.log) && Typed(o.log) && |o.log| < COUNTER
    ensures ServerSession(o) == Some(start.session)
    ensures |done.received| == RemainderCount(p, o.full) + 2 && Pairs(done.received, o.log, 0)
  {
    var k, count := t.server(start.session), RemainderCount(p, o.full);
    var left := FinishParts(t, p, o.full, start, done);
    ReadsBoth(k, start.session, count, start.rest, left, ServerSession(o), o.log);
  }

  lemma FinishParts(t: Traffic, p: Profile, full: bool, start: ClientStart, done: ClientDone) returns (left: bytes)
    requires RemainderCount(p, full) + 2 < COUNTER && FinishClient(t, p, full, start) == Some(done)
    ensures var k, count := t.server(start.session), RemainderCount(p, full);
            && ReadMany(k, 0, count, start.rest).Some? && left == ReadMany(k, 0, count, start.rest).value.1
            && ReadMany(k, count, 2, left).Some?
            && done.received == ReadMany(k, 0, count, start.rest).value.0 + ReadMany(k, count, 2, left).value.0
  {
    left := ReadMany(t.server(start.session), 0, RemainderCount(p, full), start.rest).value.1;
  }

  lemma ReadsBoth(k: Keys, mine: Session, count: nat, stream: bytes, left: bytes, theirs: Option<Session>, log: seq<Entry>)
    requires Correct(k.aead) && NumberedInOrder(log) && Typed(log) && |log| < COUNTER && count + 2 < COUNTER
    requires Genuine(k, mine, 0, count, stream, theirs, log) && Genuine(k, mine, count, 2, left, theirs, log)
    requires ReadMany(k, 0, count, stream).Some? && ReadMany(k, count, 2, left).Some?
    ensures theirs == Some(mine)
    ensures var all := ReadMany(k, 0, count, stream).value.0 + ReadMany(k, count, 2, left).value.0;
            |all| == count + 2 && Pairs(all, log, 0)
  {
    ReadsAreWrites(k, mine, 0, count, stream, theirs, log);
    ReadsAreWrites(k, mine, count, 2, left, theirs, log);
    PairsJoin(ReadMany(k, 0, count, stream).value.0, ReadMany(k, count, 2, left).value.0, log, 0);
  }

  /** What a completed client knows, whatever the network did: the server is in the same session, for the
      same hello and shape; each record read is the one written at that place; the counters meet; and the
      credential it leaves with is the one the server issued. */
  lemma ClientAgrees(d: DH, p: Profile, t: Traffic, o: Opening, start: ClientStart, done: ClientDone)
    requires Faithful(t) && ServerRan(p, o) && ShapeShown(o) && RemainderCount(p, o.full) + 2 < COUNTER
    requires StartClient(d, p, o.psk, o.secret, o.wire, o.stream) == Some(start)
    requires FinishClient(t, p, o.full, start) == Some(done) && ClientGenuine(t, p, o, start)
    ensures o.server.Some? && o.server.value.session == done.session && SameOpening(o, o.server.value, start.reply)
    ensures |o.remainder| == RemainderCount(p, o.full)
    ensures |done.received| == |o.log| == |o.remainder| + 2 && Pairs(done.received, o.log, 0)
    ensures done.recvSeq == |o.log| && done.sendSeq == 1
    ensures done.next == o.next
  {
    LogIsGood(p, o);
    FinishReads(t, p, o, start, done);
    var ccs := StartReads(d, p, o.psk, o.secret, o.wire, o.stream);
    SessionsAgree(o, o.server.value, start, ccs);
    TicketsRead(t, p, o, start, done);
    LastTwo(t, p, o.full, start, done);
  }

  lemma LogIsGood(p: Profile, o: Opening)
    requires ServerRan(p, o)
    ensures NumberedInOrder(o.log) && Typed(o.log) && |o.log| < COUNTER
  {
    if o.server.Some? {
      ServerLogFacts(o.log, o.remainder, o.next);
    }
  }

  lemma TicketsRead(t: Traffic, p: Profile, o: Opening, start: ClientStart, done: ClientDone)
    requires RemainderCount(p, o.full) + 2 < COUNTER && FinishClient(t, p, o.full, start) == Some(done)
    requires |o.remainder| == RemainderCount(p, o.full) && |o.remainder| + 2 < COUNTER
    requires |done.received| == |o.remainder| + 2 && Pairs(done.received, o.log, 0) && ServerLog(o.log, o.remainder, o.next)
    requires |o.next.ticket| < 0x1_0000 && |o.next.fullTicket| == FULL_TICKET_LEN
    ensures |o.log| == |o.remainder| + 2 && done.next == o.next
  {
    var n := |o.remainder|;
    ServerLogFacts(o.log, o.remainder, o.next);
    LastTwo(t, p, o.full, start, done);
    assert done.received[n] == (HANDSHAKE, TicketRecord(o.next));
    assert done.received[n + 1] == (HANDSHAKE, FullTicketRecord(o.next));
    TicketsRoundTrip(o.next);
  }

  lemma LastTwo(t: Traffic, p: Profile, full: bool, start: ClientStart, done: ClientDone)
    requires RemainderCount(p, full) + 2 < COUNTER && FinishClient(t, p, full, start) == Some(done)
    requires |done.received| == RemainderCount(p, full) + 2
    ensures var n := RemainderCount(p, full); ParseTickets(done.received[n], done.received[n + 1]) == Some(done.next)
    ensures done.session == start.session && done.recvSeq == RemainderCount(p, full) + 2 && done.sendSeq == 1
  {
    var n := RemainderCount(p, full);
    var (flight, left) := ReadMany(t.server(start.session), 0, n, start.rest).value;
    ReadManyLength(t.server(start.session), 0, n, start.rest);
    var tickets := ReadMany(t.server(start.session), n, 2, left).value.0;
    ReadManyLength(t.server(start.session), n, 2, left);
    assert done.received[n] == tickets[0] && done.received[n + 1] == tickets[1];
  }

  lemma {:induction false} ReadManyLength(k: Keys, n: U64, count: nat, stream: bytes)
    requires ReadMany(k, n, count, stream).Some?
    ensures |ReadMany(k, n, count, stream).value.0| == count
    decreases count
  {
    if count > 0 {
      var got, rest := ReadManyStep(k, n, count, stream);
      ReadManyLength(k, NextSeq(n), count - 1, rest);
    }
  }

  // ------------------------------------------------------- the server's completion

  /** A completed server: its session, what it read, what it put on the socket after its
      ChangeCipherSpec, and its counters. */
  datatype ServerDone = ServerDone(session: Session, finished: (byte, bytes), sent: bytes, sendSeq: U64, recvSeq: U64)

  /** The rest of Server: its flight, the client's ChangeCipherSpec and Finished stand-in, the tickets. */
  function FinishServer(t: Traffic, start: ServerStart, remainder: seq<int>, next: Credential, stream: bytes): Option<ServerDone> {
    var cs, k := ServerContents(remainder, next), t.client(start.session);
    var _ :- Need(AllSizable(cs));
    var (_, rest) :- TakeRecord(stream);
    var (finished, _) :- ReadOne(k.aead, k.iv, 0, rest);
    Some(ServerDone(start.session, finished, SealMany(t.server(start.session), 0, cs), Advanced(0, |cs|), Advanced(0, 1)))
  }

  /** What the client seals in the opening. */
  function ClientLog(p: Profile): seq<Entry> {
    LogOf([SizedContent([], p.clientWire)])
  }

  /** The AEAD under the client's write keys holds for the one record the server tries to open. */
  ghost predicate ServerGenuine(t: Traffic, p: Profile, start: ServerStart, stream: bytes, client: Option<Session>) {
    TakeRecord(stream).Some? ==> Genuine(t.client(start.session), start.session, 0, 1, TakeRecord(stream).value.1, client, ClientLog(p))
  }

  lemma ServerReadsFinished(t: Traffic, p: Profile, start: ServerStart, remainder: seq<int>, next: Credential, stream: bytes, client: Option<Session>, done: ServerDone)
    requires Faithful(t) && FinishServer(t, start, remainder, next, stream) == Some(done) && |remainder| + 2 < COUNTER
    requires ServerGenuine(t, p, start, stream, client)
    ensures client == Some(start.session) && done.session == start.session && done.finished == (HANDSHAKE, [])
    ensures done.sendSeq == |remainder| + 2 && done.recvSeq == 1
  {
    var rest := TakeRecord(stream).value.1;
    assert Typed(ClientLog(p));
    ReadIsWrite(t.client(start.session), start.session, 0, 1, rest, client, ClientLog(p));
    AdvancedSum(0, |remainder| + 2);
    AdvancedSum(0, 1);
  }

  /** The session a client that got as far as its keys is in. */
  function ClientSession(start: Option<ClientStart>): Option<Session> {
    if start.Some? then Some(start.value.session) else None
  }

  /** What a completed server knows, whatever the network did: the client got as far as its keys, it did so
      for the same hello and shape, with the ticket's psk and every payload byte of the opening in common,
      and what the server read is the client's Finished stand-in. */
  lemma ServerAgrees(d: DH, p: Profile, t: Traffic, o: Opening, toServer: bytes, done: ServerDone)
    requires Faithful(t) && ServerRan(p, o) && ShapeShown(o) && o.server.Some?
    requires FinishServer(t, o.server.value, o.remainder, o.next, toServer) == Some(done)
    requires ServerGenuine(t, p, o.server.value, toServer, ClientSession(StartClient(d, p, o.psk, o.secret, o.wire, o.stream)))
    ensures StartClient(d, p, o.psk, o.secret, o.wire, o.stream).Some?
    ensures var start := StartClient(d, p, o.psk, o.secret, o.wire, o.stream).value;
            start.session == done.session && SameOpening(o, o.server.value, start.reply)
    ensures done.finished == (HANDSHAKE, []) && done.sendSeq == |o.remainder| + 2 && done.recvSeq == 1
  {
    var start := StartClient(d, p, o.psk, o.secret, o.wire, o.stream);
    ServerReadsFinished(t, p, o.server.value, o.remainder, o.next, toServer, ClientSession(start), done);
    var ccs := StartReads(d, p, o.psk, o.secret, o.wire, o.stream);
    SessionsAgree(o, o.server.value, start.value, ccs);
  }

  /** Both ends complete with the same profile: one session, one shape, and counters that meet in both
      directions: what the server sent is what the client received, and the other way round. */
  lemma BothComplete(d: DH, p: Profile, t: Traffic, o: Opening, start: ClientStart, client: ClientDone, toServer: bytes, server: ServerDone)
    requires Faithful(t) && ServerRan(p, o) && ShapeShown(o) && RemainderCount(p, o.full) + 2 < COUNTER
    requires StartClient(d, p, o.psk, o.secret, o.wire, o.stream) == Some(start)
    requires FinishClient(t, p, o.full, start) == Some(client) && ClientGenuine(t, p, o, start)
    requires o.server.Some? && FinishServer(t, o.server.value, o.remainder, o.next, toServer) == Some(server)
    requires ServerGenuine(t, p, o.server.value, toServer, Some(start.session))
    ensures client.session == server.session && SameOpening(o, o.server.value, start.reply)
    ensures server.sendSeq == client.recvSeq == RemainderCount(p, o.full) + 2
    ensures client.sendSeq == server.recvSeq == 1
    ensures client.next == o.next && server.finished == (HANDSHAKE, [])
  {
    ClientAgrees(d, p, t, o, start, client);
    ServerReadsFinished(t, p, o.server.value, o.remainder, o.next, toServer, Some(start.session), server);
  }

  /** When Server's own writes fit: remainder lengths of 22 to 16406 and tickets of at most 314 bytes,
      exactly. */
  lemma ServerWritesFit(remainder: seq<int>, next: Credential)
    requires |next.fullTicket| == FULL_TICKET_LEN
    ensures AllSizable(ServerContents(remainder, next)) <==>
            (forall i :: 0 <= i < |remainder| ==> 22 <= remainder[i] <= 16406) && |next.ticket| <= 314
  {
    var cs, n := ServerContents(remainder, next), |remainder|;
    forall i | 0 <= i < n ensures Sizable(cs[i]) <==> 22 <= remainder[i] <= 16406 {
    }
    assert cs[n] == SizedContent(TicketRecord(next), SESSION_TICKET_WIRE) && cs[n + 1] == SizedContent(FullTicketRecord(next), SESSION_TICKET_WIRE);
    assert Sizable(cs[n]) <==> |next.ticket| <= 314;
    if AllSizable(cs) {
      forall i | 0 <= i < n ensures 22 <= remainder[i] <= 16406 {
        assert Sizable(cs[i]);
      }
    }
  }
}
