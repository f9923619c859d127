/** Client and Server as they drive a socket (handshake.go): sequenced reads and writes, the tunnel's
    counters advanced through the Conn. */
module HandshakeObject {
  import opened Bytes
  import opened Auth
  import opened RecordLayer
  import opened Interleaving
  import opened ConnObject
  import opened Twiddle
  import opened Opening
  import SH = ServerHello

  /** readRecord. */
  method ReadRecordFrom(raw: Socket) returns (rec: Option<bytes>)
    modifies raw`inbox
    ensures match TakeRecord(old(raw.inbox))
            case None => rec == None
            case Some((r, left)) => rec == Some(r) && raw.inbox == left
  {
    var hdr := raw.ReadFull(RECORD_HEADER_LEN);
    if hdr.None? {
      return None;
    }
    var n := GetU16(hdr.value, 3) as int;
    if n > MAX_CIPHERTEXT {
      return None;
    }
    var body := raw.ReadFull(n);
    if body.None? {
      return None;
    }
    rec := Some(hdr.value + body.value);
  }

  /** What is left of a stream after count records, whatever they held. */
  function Skipped(k: Keys, n: U64, count: nat, stream: bytes): Option<bytes>
    decreases count
  {
    if count == 0 then Some(stream)
    else
      match ReadOne(k.aead, k.iv, n, stream)
      case None => None
      case Some((_, rest)) => Skipped(k, NextSeq(n), count - 1, rest)
  }

  lemma {:induction false} SkippedIs(k: Keys, n: U64, count: nat, stream: bytes)
    ensures Skipped(k, n, count, stream).Some? <==> ReadMany(k, n, count, stream).Some?
    ensures ReadMany(k, n, count, stream).Some? ==> Skipped(k, n, count, stream) == Some(ReadMany(k, n, count, stream).value.1)
    decreases count
  {
    if count > 0 {
      match ReadOne(k.aead, k.iv, n, stream)
      case None =>
      case Some((_, rest)) => SkippedIs(k, NextSeq(n), count - 1, rest);
    }
  }

  /** The loop of consumeRecord calls. */
  method ConsumeLoop(conn: Conn, count: nat) returns (ok: bool)
    modifies conn`recvSeq, conn.raw`inbox
    ensures Skipped(conn.receiving, old(conn.recvSeq), count, old(conn.raw.inbox)) == if ok then Some(conn.raw.inbox) else None
    ensures ok ==> conn.recvSeq == Advanced(old(conn.recvSeq), count)
  {
    ghost var goal := Skipped(conn.receiving, conn.recvSeq, count, conn.raw.inbox);
    for i := 0 to count
      invariant conn.recvSeq == Advanced(old(conn.recvSeq), i)
      invariant goal == Skipped(conn.receiving, conn.recvSeq, count - i, conn.raw.inbox)
    {
      ok := ConsumeRecord(conn, count - i);
      if !ok {
        return false;
      }
    }
    ok := true;
  }

  /** consumeRecord, with count reads still to make. */
  method ConsumeRecord(conn: Conn, ghost count: nat) returns (ok: bool)
    requires count > 0
    modifies conn`recvSeq, conn.raw`inbox
    ensures ok ==> conn.recvSeq == NextSeq(old(conn.recvSeq))
    ensures Skipped(conn.receiving, old(conn.recvSeq), count, old(conn.raw.inbox))
            == if ok then Skipped(conn.receiving, conn.recvSeq, count - 1, conn.raw.inbox) else None
  {
    var r := conn.DecryptRecord();
    ok := r.Some?;
  }

  /** One consumeRecord per remainder record; what they hold is not looked at. */
  method ConsumeRecords(conn: Conn, count: nat) returns (ok: bool)
    modifies conn`recvSeq, conn.raw`inbox
    ensures ok <==> ReadMany(conn.receiving, old(conn.recvSeq), count, old(conn.raw.inbox)).Some?
    ensures ok ==> ReadMany(conn.receiving, old(conn.recvSeq), count, old(conn.raw.inbox)).value.1 == conn.raw.inbox
    ensures ok ==> conn.recvSeq == Advanced(old(conn.recvSeq), count)
  {
    SkippedIs(conn.receiving, conn.recvSeq, count, conn.raw.inbox);
    ok := ConsumeLoop(conn, count);
  }

  function TicketsIn(r: Option<(seq<(byte, bytes)>, bytes)>): Option<Credential> {
    match r
    case None => None
    case Some((ts, _)) => if |ts| == 2 then ParseTickets(ts[0], ts[1]) else None
  }

  /** readTickets: a malformed first record ends it before the second is read. */
  method ReadTickets(conn: Conn) returns (next: Option<Credential>)
    modifies conn`recvSeq, conn.raw`inbox
    ensures next == TicketsIn(ReadMany(conn.receiving, old(conn.recvSeq), 2, old(conn.raw.inbox)))
    ensures next.Some? ==> conn.recvSeq == NextSeq(NextSeq(old(conn.recvSeq)))
  {
    ghost var k, n, stream := conn.receiving, conn.recvSeq, conn.raw.inbox;
    TwoReads(k, n, stream);
    var first := conn.DecryptRecord();
    if first.None? || first.value.0 != HANDSHAKE || |first.value.1| < 2 {
      return None;
    }
    var body := first.value.1;
    var tl := GetU16(body, 0) as int;
    if |body| != 2 + tl + 32 {
      return None;
    }
    var second := conn.DecryptRecord();
    if second.None? || second.value.0 != HANDSHAKE || |second.value.1| < 2 {
      return None;
    }
    var full := second.value.1;
    if GetU16(full, 0) as int != FULL_TICKET_LEN || |full| != 2 + FULL_TICKET_LEN {
      return None;
    }
    next := Some(Credential(body[2..2 + tl], full[2..], body[2 + tl..]));
  }

  lemma TwoReads(k: Keys, n: U64, stream: bytes)
    ensures TicketsIn(ReadMany(k, n, 2, stream)) ==
            match ReadOne(k.aead, k.iv, n, stream)
            case None => None
            case Some((a, rest)) =>
              match ReadOne(k.aead, k.iv, NextSeq(n), rest)
              case None => None
              case Some((b, _)) => ParseTickets(a, b)
  {
    match ReadOne(k.aead, k.iv, n, stream)
    case None =>
    case Some((a, rest)) =>
      OneRead(k, NextSeq(n), rest);
      match ReadOne(k.aead, k.iv, NextSeq(n), rest)
      case None =>
      case Some((b, left)) =>
        assert ReadMany(k, n, 2, stream) == Some(([a] + [b], left));
  }

  lemma OneRead(k: Keys, n: U64, stream: bytes)
    ensures ReadMany(k, n, 1, stream) ==
            match ReadOne(k.aead, k.iv, n, stream) case None => None case Some((b, left)) => Some(([b], left))
  {
    match ReadOne(k.aead, k.iv, n, stream)
    case None =>
    case Some((b, left)) =>
      assert ReadMany(k, NextSeq(n), 0, left) == Some(([], left));
      assert [b] + [] == [b];
  }

  /** What a list of records leaves of the sending half when no write fails. */
  function SentAll(k: Keys, answers: nat -> (nat, bool), closed: bool, o: Out, cs: seq<Content>): (r: (Out, bool))
    decreases |cs|
  {
    if cs == [] then (o, true)
    else if !Sizable(cs[0]) then (o, false)
    else
      var (o1, ok) := WriteOne(k, answers, closed, o, cs[0]);
      if ok then SentAll(k, answers, closed, o1, cs[1..]) else (o1, false)
  }

  /** The server's stand-ins, one write per remainder record. */
  method WriteFlight(conn: Conn, remainder: seq<int>) returns (ok: bool)
    modifies conn`sendSeq, conn.raw`sent, conn.raw`writes
    ensures (conn.Sending(), ok) == SentAll(conn.sending, conn.raw.answers, conn.raw.closed, old(conn.Sending()), FlightContents(remainder))
  {
    ghost var goal := SentAll(conn.sending, conn.raw.answers, conn.raw.closed, conn.Sending(), FlightContents(remainder));
    var i := 0;
    assert FlightContents(remainder)[0..] == FlightContents(remainder);
    while i < |remainder|
      invariant 0 <= i <= |remainder|
      invariant goal == SentAll(conn.sending, conn.raw.answers, conn.raw.closed, conn.Sending(), FlightContents(remainder)[i..])
    {
      assert FlightContents(remainder)[i..][1..] == FlightContents(remainder)[i + 1..];
      ok := conn.WriteSized(HANDSHAKE, [], remainder[i]);
      if !ok {
        return false;
      }
      i := i + 1;
    }
    ok := true;
  }

  /** writeTickets: one record for the ticket and the psk, one for the full ticket. */
  method WriteTickets(conn: Conn, next: Credential) returns (ok: bool)
    modifies conn`sendSeq, conn.raw`sent, conn.raw`writes
    ensures (conn.Sending(), ok) == SentAll(conn.sending, conn.raw.answers, conn.raw.closed, old(conn.Sending()), TicketContents(next))
  {
    var body: bytes := U16(|next.ticket|);
    body := body + next.ticket;
    body := body + next.psk;
    var full: bytes := U16(|next.fullTicket|);
    full := full + next.fullTicket;
    ghost var was := conn.Sending();
    TwoWrites(conn.sending, conn.raw.answers, conn.raw.closed, was, TicketContents(next)[0], TicketContents(next)[1]);
    ok := conn.WriteSized(HANDSHAKE, body, SESSION_TICKET_WIRE);
    if !ok {
      return false;
    }
    ok := conn.WriteSized(HANDSHAKE, full, SESSION_TICKET_WIRE);
  }

  lemma OneWrite(k: Keys, answers: nat -> (nat, bool), closed: bool, o: Out, b: Content)
    ensures SentAll(k, answers, closed, o, [b]) == if Sizable(b) then WriteOne(k, answers, closed, o, b) else (o, false)
  {
    assert [b][1..] == [];
  }

  lemma TwoWrites(k: Keys, answers: nat -> (nat, bool), closed: bool, o: Out, a: Content, b: Content)
    ensures SentAll(k, answers, closed, o, [a, b]) ==
            if !Sizable(a) then (o, false)
            else
              var (o1, ok) := WriteOne(k, answers, closed, o, a);
              if !ok then (o1, false) else if !Sizable(b) then (o1, false) else WriteOne(k, answers, closed, o1, b)
  {
    OneWrite(k, answers, closed, WriteOne(k, answers, closed, o, a).0, b);
    assert [a, b][1..] == [b];
  }

  /** What went through went out whole and in order: writable records, one counter step each, on an open
      socket. */
  lemma {:induction false} SentAllIs(k: Keys, answers: nat -> (nat, bool), closed: bool, o: Out, cs: seq<Content>)
    requires SentAll(k, answers, closed, o, cs).1
    ensures AllSizable(cs)
    ensures SentAll(k, answers, closed, o, cs).0 ==
            o.(sendSeq := Advanced(o.sendSeq, |cs|), sent := o.sent + SealMany(k, o.sendSeq, cs), writes := o.writes + |cs|)
    decreases |cs|
  {
    if cs == [] {
      assert o.sent + [] == o.sent;
    } else {
      var o1 := WriteOne(k, answers, closed, o, cs[0]).0;
      SentAllIs(k, answers, closed, o1, cs[1..]);
      AdvancedStep(o.sendSeq, |cs| - 1);
      Assoc(o.sent, Record(k.aead, k.iv, o.sendSeq, cs[0]), SealMany(k, NextSeq(o.sendSeq), cs[1..]));
      forall i | 0 <= i < |cs| ensures Sizable(cs[i]) {
        assert i > 0 ==> cs[i] == cs[1..][i - 1];
      }
    }
  }

  /** A fine socket takes every list of writable records. */
  lemma {:induction false} SentAllGoes(k: Keys, answers: nat -> (nat, bool), o: Out, cs: seq<Content>)
    requires SocketFine(answers) && AllSizable(cs)
    ensures SentAll(k, answers, false, o, cs).1
    decreases |cs|
  {
    if cs != [] {
      SentAllGoes(k, answers, WriteOne(k, answers, false, o, cs[0]).0, cs[1..]);
    }
  }

  /** Client, from the hello on the wire to the next credential. It succeeds exactly when the opening up to
      the keys, the flight and the tickets read well and its own two writes go through; then its
      counters are those of a completed client. */
  method Client(raw: Socket, t: Traffic, d: DH, p: Profile, full: bool, psk: Bytes32, secret: Bytes32, wire: bytes)
    returns (next: Option<Credential>, conn: Conn?, ghost start: Option<ClientStart>)
    requires RemainderCount(p, full) + 2 < COUNTER && !raw.closed
    modifies raw
    ensures start == StartClient(d, p, psk, secret, wire, old(raw.inbox))
    ensures next.Some? ==> start.Some? && conn != null && Completed(conn, t, p, full, start.value, next.value)
    ensures next.Some? ==> raw.sent == old(raw.sent) + wire + SH.CHANGE_CIPHER_SPEC + Finished(t, p, start.value.session)
    ensures SocketFine(raw.answers) && start.Some? && FinishClient(t, p, full, start.value).Some? ==> next.Some?
  {
    next, conn := None, null;
    start := StartClient(d, p, psk, secret, wire, raw.inbox);
    var ok := raw.Write(wire);
    if !ok {
      return;
    }
    var begun := BeginClient(raw, d, p, psk, secret, wire);
    if begun.None? {
      return;
    }
    conn := OpenConn(raw, t, begun.value);
    next := EndClient(conn, t, p, full, begun.value);
  }

  /** NewConn for the client's side. */
  method OpenConn(raw: Socket, t: Traffic, start: ClientStart) returns (conn: Conn)
    ensures fresh(conn) && conn.raw == raw && conn.sending == t.client(start.session) && conn.receiving == t.server(start.session)
    ensures conn.sendSeq == 0 && conn.recvSeq == 0
  {
    conn := new Conn(raw, t.client(start.session), t.server(start.session), (n: nat) => (n, n + 1));
  }

  /** The client's Finished stand-in, the first record of its direction. */
  function Finished(t: Traffic, p: Profile, session: Session): bytes {
    Record(t.client(session).aead, t.client(session).iv, 0, SizedContent([], p.clientWire))
  }

  /** The connection a client hands out with its next credential. */
  ghost predicate Completed(conn: Conn, t: Traffic, p: Profile, full: bool, start: ClientStart, next: Credential)
    requires RemainderCount(p, full) + 2 < COUNTER
    reads conn
  {
    && conn.sending == t.client(start.session) && conn.receiving == t.server(start.session)
    && FinishClient(t, p, full, start).Some?
    && var done := FinishClient(t, p, full, start).value;
       next == done.next && conn.recvSeq == done.recvSeq && conn.sendSeq == done.sendSeq
  }

  /** The client's ChangeCipherSpec and Finished stand-in. */
  method AnswerServer(conn: Conn, p: Profile) returns (ok: bool)
    requires !conn.raw.closed
    modifies conn`sendSeq, conn.raw`sent, conn.raw`writes
    ensures ok ==> Sizable(SizedContent([], p.clientWire)) && conn.sendSeq == NextSeq(old(conn.sendSeq))
    ensures SocketFine(conn.raw.answers) && Sizable(SizedContent([], p.clientWire)) ==> ok
    ensures ok ==> conn.raw.sent == old(conn.raw.sent) + SH.CHANGE_CIPHER_SPEC
                     + Record(conn.sending.aead, conn.sending.iv, old(conn.sendSeq), SizedContent([], p.clientWire))
  {
    ok := conn.raw.Write(SH.CHANGE_CIPHER_SPEC);
    if !ok {
      return false;
    }
    ok := conn.WriteSized(HANDSHAKE, [], p.clientWire);
  }

  /** From the keys on. */
  method EndClient(conn: Conn, t: Traffic, p: Profile, full: bool, start: ClientStart) returns (next: Option<Credential>)
    requires RemainderCount(p, full) + 2 < COUNTER && !conn.raw.closed
    requires conn.sending == t.client(start.session) && conn.receiving == t.server(start.session)
    requires conn.sendSeq == 0 && conn.recvSeq == 0 && conn.raw.inbox == start.rest
    modifies conn`sendSeq, conn`recvSeq, conn.raw`inbox, conn.raw`sent, conn.raw`writes
    ensures next.Some? ==> Completed(conn, t, p, full, start, next.value)
    ensures next.Some? ==> conn.raw.sent == old(conn.raw.sent) + SH.CHANGE_CIPHER_SPEC + Finished(t, p, start.session)
    ensures SocketFine(conn.raw.answers) && FinishClient(t, p, full, start).Some? ==> next.Some?
  {
    var count := RemainderCount(p, full);
    var ok := ReadFlight(conn, count);
    if !ok {
      return None;
    }
    ok := AnswerServer(conn, p);
    if !ok {
      return None;
    }
    FinishIs(t, p, full, start, conn.raw.inbox);
    next := ReadTickets(conn);
  }

  /** The server's stand-ins, from the start of its direction. */
  method ReadFlight(conn: Conn, count: nat) returns (ok: bool)
    requires conn.recvSeq == 0 && count < COUNTER
    modifies conn`recvSeq, conn.raw`inbox
    ensures ok <==> ReadMany(conn.receiving, 0, count, old(conn.raw.inbox)).Some?
    ensures ok ==> ReadMany(conn.receiving, 0, count, old(conn.raw.inbox)).value.1 == conn.raw.inbox && conn.recvSeq == count
  {
    AdvancedSum(0, count);
    ok := ConsumeRecords(conn, count);
  }

  lemma FinishIs(t: Traffic, p: Profile, full: bool, start: ClientStart, left: bytes)
    requires RemainderCount(p, full) + 2 < COUNTER
    requires var flight := ReadMany(t.server(start.session), 0, RemainderCount(p, full), start.rest); flight.Some? && flight.value.1 == left
    requires Sizable(SizedContent([], p.clientWire))
    ensures FinishClient(t, p, full, start).Some? <==>
            TicketsIn(ReadMany(t.server(start.session), RemainderCount(p, full), 2, left)).Some?
    ensures FinishClient(t, p, full, start).Some? ==>
      var done := FinishClient(t, p, full, start).value;
      && TicketsIn(ReadMany(t.server(start.session), RemainderCount(p, full), 2, left)) == Some(done.next)
      && done.recvSeq == RemainderCount(p, full) + 2 && done.sendSeq == 1
  {
    var k, n := t.server(start.session), RemainderCount(p, full);
    if ReadMany(k, n, 2, left).Some? {
      ReadManyLength(k, n, 2, left);
    }
  }

  /** Up to the keys. */
  method BeginClient(raw: Socket, d: DH, p: Profile, psk: Bytes32, secret: Bytes32, wire: bytes) returns (start: Option<ClientStart>)
    modifies raw`inbox
    ensures start == StartClient(d, p, psk, secret, wire, old(raw.inbox))
    ensures start.Some? ==> raw.inbox == start.value.rest
  {
    var reply := ReadRecordFrom(raw);
    if reply.None? {
      return None;
    }
    var serverPub := SH.EphemeralOf(reply.value);
    if serverPub.None? {
      return None;
    }
    var ccs := ReadRecordFrom(raw);
    if ccs.None? {
      return None;
    }
    if |ccs.value| != RECORD_HEADER_LEN + 1 || ccs.value[0] != 0x14 || ccs.value[RECORD_HEADER_LEN] != 0x01 {
      return None;
    }
    var shared := d.agree(secret, serverPub.value);
    if shared.None? {
      return None;
    }
    var session := DeriveSession(psk, shared.value, p.cover.cipherSuite, Transcript(wire, reply.value, ccs.value));
    if session.None? {
      return None;
    }
    start := Some(ClientStart(reply.value, session.value, raw.inbox));
  }
}
