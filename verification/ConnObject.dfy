/** The Conn object (conn.go) as one caller sees it: its loops over the write buffer, over the padding of
    a record and over records that carry nothing, each tied to a function of values. */
module ConnObject {
  import opened Bytes
  import opened RecordLayer
  import opened Interleaving
  import opened Delivery
  import opened Shaping

  /** The socket. Its i-th write takes answers(i).0 bytes when answers(i).1 says it fails. */
  class Socket {
    const answers: nat -> (nat, bool)
    var sent: bytes
    var writes: nat
    var closed: bool
    var inbox: bytes

    constructor (answers: nat -> (nat, bool), inbox: bytes)
      ensures this.answers == answers && this.inbox == inbox && sent == [] && writes == 0 && !closed
    {
      this.answers, this.inbox := answers, inbox;
      sent, writes, closed := [], 0, false;
    }

    method Write(b: bytes) returns (ok: bool)
      modifies this`sent, this`writes
      ensures ok == (answers(old(writes)).1 && !closed)
      ensures sent == old(sent) + Piece(b, answers(old(writes)), closed) && writes == old(writes) + 1
    {
      ok := answers(writes).1 && !closed;
      sent := sent + Piece(b, answers(writes), closed);
      writes := writes + 1;
    }

    /** io.ReadFull. */
    method ReadFull(n: nat) returns (b: Option<bytes>)
      modifies this`inbox
      ensures match TakeN(old(inbox), n)
              case None => b == None
              case Some((front, rest)) => b == Some(front) && inbox == rest
    {
      if n > |inbox| {
        return None;
      }
      b := Some(inbox[..n]);
      inbox := inbox[n..];
    }
  }

  /** What a write leaves on the socket. */
  function Piece(b: bytes, answer: (nat, bool), closed: bool): bytes {
    if (answer.1 && !closed) || answer.0 > |b| then b else b[..answer.0]
  }

  /** The sending half, as a value. */
  datatype Out = Out(wbuf: bytes, sendSeq: U64, sent: bytes, writes: nat, werr: bool)

  /** writeRecord: one record out, and whether the socket took it. */
  function WriteOne(k: Keys, answers: nat -> (nat, bool), closed: bool, o: Out, c: Content): (Out, bool) {
    (o.(sendSeq := NextSeq(o.sendSeq), writes := o.writes + 1,
        sent := o.sent + Piece(Record(k.aead, k.iv, o.sendSeq, c), answers(o.writes), closed)),
     answers(o.writes).1 && !closed)
  }

  /** The next chunk the shaper cuts off, and what is left to flush. */
  function NextContent(shaper: nat -> (int, int), wbuf: bytes): (r: (Content, bytes))
    requires wbuf != []
    ensures r.0.payload + r.1 == wbuf && |r.1| < |wbuf| && r.0.typ == APP_DATA
  {
    var (take, padTo) := shaper(|wbuf|);
    var n := Taken(|wbuf|, take);
    (Content(APP_DATA, wbuf[..n], padTo), wbuf[n..])
  }

  function NextChunk(k: Keys, shaper: nat -> (int, int), answers: nat -> (nat, bool), closed: bool, o: Out): (r: (Out, bool))
    requires o.wbuf != []
    ensures |r.0.wbuf| < |o.wbuf|
  {
    var (c, left) := NextContent(shaper, o.wbuf);
    WriteOne(k, answers, closed, o.(wbuf := left), c)
  }

  /** The flush loop: chunks cut by the shaper until the buffer is empty or a write fails. */
  function FlushAll(k: Keys, shaper: nat -> (int, int), answers: nat -> (nat, bool), closed: bool, o: Out): (Out, bool)
    decreases |o.wbuf|
  {
    if o.wbuf == [] then (o, true)
    else
      var (o1, ok) := NextChunk(k, shaper, answers, closed, o);
      if ok then FlushAll(k, shaper, answers, closed, o1) else (o1.(werr := true), false)
  }

  /** Behind what was there the socket holds one record under number n. */
  ghost predicate Appended(before: bytes, after: bytes, k: Keys, n: U64, c: Content) {
    before <= after && OnTheWire(k.aead, k.iv, n, c, after[|before|..])
  }

  class Conn {
    const raw: Socket
    const sending: Keys
    const receiving: Keys
    const shaper: nat -> (int, int)
    var sendSeq: U64
    var wbuf: bytes
    var flushing: bool
    var werr: bool
    var closeOnce: bool
    var recvSeq: U64
    var pending: bytes
    var rerr: bool

    constructor (raw: Socket, sending: Keys, receiving: Keys, shaper: nat -> (int, int))
      ensures this.raw == raw && this.sending == sending && this.receiving == receiving && this.shaper == shaper
      ensures Sending() == Out([], 0, raw.sent, raw.writes, false) && !flushing && !closeOnce && recvSeq == 0
      ensures Unread() == Drain(receiving, 0, raw.inbox)
    {
      this.raw, this.sending, this.receiving, this.shaper := raw, sending, receiving, shaper;
      sendSeq, wbuf, flushing, werr, closeOnce := 0, [], false, false, false;
      recvSeq, pending, rerr := 0, [], false;
      new;
      assert [] + Drain(receiving, 0, raw.inbox) == Drain(receiving, 0, raw.inbox);
    }

    ghost function Sending(): Out
      reads this, raw
    {
      Out(wbuf, sendSeq, raw.sent, raw.writes, werr)
    }

    method WriteRecord(c: Content) returns (ok: bool)
      modifies this`sendSeq, raw`sent, raw`writes
      ensures (Sending(), ok) == WriteOne(sending, raw.answers, raw.closed, old(Sending()), c)
      ensures ok && Correct(sending.aead) && |c.payload| <= MAX_PLAINTEXT ==>
        Appended(old(raw.sent), raw.sent, sending, old(sendSeq), c)
    {
      var n := |c.payload| + 1;
      var inner := c.payload + [c.typ];
      if c.padTo > n && c.padTo <= MAX_INNER {
        inner := inner + Zeros(c.padTo - n);
      } else {
        assert inner + [] == inner;
      }
      var hdr := Header(|inner| + OVERHEAD);
      var out := hdr + sending.aead.seal(NonceFor(sending.iv, sendSeq), inner, hdr);
      ghost var n0 := sendSeq;
      sendSeq := NextSeq(sendSeq);
      ok := raw.Write(out);
      if ok && Correct(sending.aead) && |c.payload| <= MAX_PLAINTEXT {
        RecordOnTheWire(sending.aead, sending.iv, n0, c);
        assert raw.sent[|old(raw.sent)|..] == Record(sending.aead, sending.iv, n0, c);
      }
    }

    /** One turn of the flush loop. */
    method FlushOne() returns (fine: bool)
      requires wbuf != []
      modifies this`wbuf, this`sendSeq, raw`sent, raw`writes
      ensures (Sending(), fine) == NextChunk(sending, shaper, raw.answers, raw.closed, old(Sending()))
    {
      var (take, padTo) := shaper(|wbuf|);
      if take <= 0 || take > |wbuf| {
        take := |wbuf|;
      }
      var chunk := wbuf[..take];
      wbuf := wbuf[take..];
      fine := WriteRecord(Content(APP_DATA, chunk, padTo));
    }

    /** Write: it reports an earlier failure; while another flush is running it leaves its bytes to that
        one; otherwise it flushes. */
    method Write(b: bytes) returns (ok: bool)
      modifies this`wbuf, this`flushing, this`werr, this`sendSeq, raw`sent, raw`writes
      ensures old(werr) ==> !ok && Sending() == old(Sending()) && flushing == old(flushing)
      ensures !old(werr) && old(flushing) ==> ok && Sending() == old(Sending().(wbuf := wbuf + b)) && flushing
      ensures !old(werr) && !old(flushing) ==>
        !flushing && (Sending(), ok) == FlushAll(sending, shaper, raw.answers, raw.closed, old(Sending().(wbuf := wbuf + b)))
    {
      if werr {
        return false;
      }
      wbuf := wbuf + b;
      if flushing {
        return true;
      }
      flushing := true;
      ghost var goal := FlushAll(sending, shaper, raw.answers, raw.closed, Sending());
      while |wbuf| > 0
        invariant flushing && !werr
        invariant goal == FlushAll(sending, shaper, raw.answers, raw.closed, Sending())
        decreases |wbuf|
      {
        var fine := FlushOne();
        if !fine {
          flushing := false;
          werr := true;
          return false;
        }
      }
      flushing := false;
      ok := true;
    }

    /** One record of exactly wireLen bytes, past the shaper. */
    method WriteSized(typ: byte, payload: bytes, wireLen: int) returns (ok: bool)
      modifies this`sendSeq, raw`sent, raw`writes
      ensures var padTo := wireLen - RECORD_HEADER_LEN - OVERHEAD;
              if |payload| + 1 <= padTo <= MAX_INNER
              then (Sending(), ok) == WriteOne(sending, raw.answers, raw.closed, old(Sending()), Content(typ, payload, padTo))
              else !ok && Sending() == old(Sending())
      ensures ok && Correct(sending.aead) ==>
        && |raw.sent| == |old(raw.sent)| + wireLen
        && Appended(old(raw.sent), raw.sent, sending, old(sendSeq), Content(typ, payload, wireLen - RECORD_HEADER_LEN - OVERHEAD))
    {
      var padTo := wireLen - RECORD_HEADER_LEN - OVERHEAD;
      if padTo < |payload| + 1 {
        return false;
      }
      if padTo > MAX_INNER {
        return false;
      }
      ok := WriteRecord(Content(typ, payload, padTo));
    }

    method Close()
      modifies this`sendSeq, this`closeOnce, raw`sent, raw`writes, raw`closed
      ensures closeOnce && raw.closed
      ensures Sending() == if old(closeOnce) then old(Sending())
                           else WriteOne(sending, raw.answers, old(raw.closed), old(Sending()), CLOSE_NOTIFY).0
      ensures !old(closeOnce) && !old(raw.closed) && raw.answers(old(raw.writes)).1 && Correct(sending.aead) ==>
        && |raw.sent| == |old(raw.sent)| + 24
        && Appended(old(raw.sent), raw.sent, sending, old(sendSeq), Content(0x15, [0x01, 0x00], 3))
    {
      if !closeOnce {
        closeOnce := true;
        var _ := WriteSized(ALERT, [0x01, 0x00], CLOSE_NOTIFY_WIRE);
      }
      raw.closed := true;
    }

    /** Everything Read is still going to deliver. */
    ghost function Unread(): bytes
      reads this, raw
    {
      pending + if rerr then [] else Drain(receiving, recvSeq, raw.inbox)
    }

    method DecryptRecord() returns (r: Option<(byte, bytes)>)
      modifies this`recvSeq, raw`inbox
      ensures match ReadOne(receiving.aead, receiving.iv, old(recvSeq), old(raw.inbox))
              case None => r == None
              case Some((got, rest)) => r == Some(got) && raw.inbox == rest && recvSeq == NextSeq(old(recvSeq))
      ensures r.Some? ==> |raw.inbox| < |old(raw.inbox)|
    {
      var hdr := raw.ReadFull(RECORD_HEADER_LEN);
      if hdr.None? {
        return None;
      }
      var n := GetU16(hdr.value, 3) as int;
      if n > MAX_CIPHERTEXT || n < OVERHEAD {
        return None;
      }
      var buf := raw.ReadFull(n);
      if buf.None? {
        return None;
      }
      var inner := receiving.aead.open(NonceFor(receiving.iv, recvSeq), buf.value, hdr.value);
      if inner.None? {
        return None;
      }
      recvSeq := NextSeq(recvSeq);
      r := StripZeros(inner.value);
    }

    /** readRecord: the next record, whose bytes are queued if it carries any; an alert is the end. */
    method ReadRecord() returns (ok: bool)
      requires pending == []
      modifies this`recvSeq, this`pending, raw`inbox
      ensures ok ==> pending + Drain(receiving, recvSeq, raw.inbox) == old(Drain(receiving, recvSeq, raw.inbox))
      ensures ok ==> |raw.inbox| < |old(raw.inbox)|
      ensures !ok ==> pending == [] && old(Drain(receiving, recvSeq, raw.inbox)) == []
    {
      var r := DecryptRecord();
      if r.None? || r.value.0 == ALERT {
        return false;
      }
      if r.value.0 == APP_DATA {
        pending := pending + r.value.1;
      }
      ok := true;
    }

    /** Reads records until one carries something; an error sticks. */
    method FillPending() returns (ok: bool)
      modifies this`recvSeq, this`pending, this`rerr, raw`inbox
      ensures Unread() == old(Unread())
      ensures if ok then pending != [] else rerr && Unread() == []
    {
      while |pending| == 0
        invariant Unread() == old(Unread())
        decreases |pending| == 0, |raw.inbox|
      {
        if rerr {
          return false;
        }
        ok := ReadRecord();
        if !ok {
          rerr := true;
          return false;
        }
      }
      ok := true;
    }

    /** Read: skips what carries nothing, and hands over up to max bytes; None is the error, sticky. */
    method Read(max: nat) returns (b: Option<bytes>)
      modifies this`recvSeq, this`pending, this`rerr, raw`inbox
      ensures b.None? ==> old(Unread()) == [] && rerr
      ensures b.Some? ==> b.value + Unread() == old(Unread()) && |b.value| <= max
      ensures b.Some? && max > 0 ==> b.value != []
    {
      var ok := FillPending();
      if !ok {
        return None;
      }
      var n := if max < |pending| then max else |pending|;
      b := Some(pending[..n]);
      ghost var rest := if rerr then [] else Drain(receiving, recvSeq, raw.inbox);
      assert pending[..n] + (pending[n..] + rest) == pending + rest;
      pending := pending[n..];
    }
  }

  /** The loop that walks back over the padding. */
  method StripZeros(inner: bytes) returns (r: Option<(byte, bytes)>)
    ensures r == Strip(inner)
  {
    var i := |inner| - 1;
    assert inner[..|inner|] == inner;
    while i >= 0 && inner[i] == 0
      invariant -1 <= i < |inner|
      invariant Strip(inner) == Strip(inner[..i + 1])
    {
      assert inner[..i + 1][..i] == inner[..i];
      i := i - 1;
    }
    if i < 0 {
      return None;
    }
    assert inner[..i + 1][..i] == inner[..i];
    r := Some((inner[i], inner[..i]));
  }

  // ------------------------------------------------------------------- round trip

  ghost predicate SocketFine(answers: nat -> (nat, bool)) {
    forall i :: answers(i).1
  }

  ghost predicate FitShaper(shaper: nat -> (int, int)) {
    forall n: nat :: n > 0 ==> 1 <= shaper(n).0 <= MAX_PLAINTEXT
  }

  /** Every shaper of shaping.go is fit. */
  lemma ShapersFit(isServer: bool, s: Shaper)
    requires Built(isServer, s)
    ensures FitShaper((n: nat) => (Next(s, n).0, Next(s, n).1)) && FitShaper((n: nat) => (PlainNext(n).0, PlainNext(n).1))
  {
    BrowsingFits(isServer, s);
    forall n: nat | n > 0 ensures 1 <= Next(s, n).0 <= MAX_PLAINTEXT {
      assert FitsAt(Modes(isServer), s, n);
    }
  }

  /** Whatever the shaper does with it, a write that goes through puts on the socket exactly what a
      reader in step with it turns back into the buffer, and leaves the two in step. */
  lemma {:induction false} FlushThenDrain(k: Keys, shaper: nat -> (int, int), answers: nat -> (nat, bool), o: Out, later: bytes)
    requires Correct(k.aead) && SocketFine(answers) && FitShaper(shaper)
    ensures var (o', ok) := FlushAll(k, shaper, answers, false, o);
            && ok && o'.wbuf == [] && o'.werr == o.werr && o.sent <= o'.sent
            && Drain(k, o.sendSeq, o'.sent[|o.sent|..] + later) == o.wbuf + Drain(k, o'.sendSeq, later)
    decreases |o.wbuf|
  {
    if o.wbuf == [] {
      assert o.sent[|o.sent|..] + later == later;
      assert [] + Drain(k, o.sendSeq, later) == Drain(k, o.sendSeq, later);
    } else {
      var (c, left) := NextContent(shaper, o.wbuf);
      var o1 := NextChunk(k, shaper, answers, false, o).0;
      FlushThenDrain(k, shaper, answers, o1, later);
      var o' := FlushAll(k, shaper, answers, false, o1).0;
      Behind(o.sent, Record(k.aead, k.iv, o.sendSeq, c), o'.sent, later);
      DrainContent(k, o.sendSeq, c, o'.sent[|o1.sent|..] + later);
      Assoc(c.payload, left, Drain(k, o'.sendSeq, later));
    }
  }

  lemma DrainContent(k: Keys, n: U64, c: Content, rest: bytes)
    requires Correct(k.aead) && Readable(c) && c.typ == APP_DATA
    ensures Drain(k, n, Record(k.aead, k.iv, n, c) + rest) == c.payload + Drain(k, NextSeq(n), rest)
  {
    ReadRecord(k.aead, k.iv, n, c, rest);
  }

  lemma Behind(before: bytes, rec: bytes, all: bytes, later: bytes)
    requires before + rec <= all
    ensures all[|before|..] + later == rec + (all[|before + rec|..] + later)
  {
    assert all == before + rec + all[|before + rec|..];
    assert all[|before|..] == rec + all[|before + rec|..];
  }
}
