/** The resumption authenticator (auth.go): tickets, the pre_shared_key body, the truncation, the
    binder and its verification. HMAC and the ticket AEAD are arguments. */
module Auth {
  import opened Bytes
  import opened HelloCodec
  import opened ExtensionBodies
  import opened ClientHelloObject
  import opened Emission

  const TICKET_NONCE_LEN: nat := 12
  const TICKET_TAG_LEN: nat := 16
  const TICKET_FIXED: nat := 8 + 32 + 8
  const MIN_TICKET_LEN: nat := 76
  const FULL_TICKET_LEN: nat := 144
  const SECOND: nat := 1_000_000_000

  /** The primitives: hmac(n, key, message) with an n-byte hash, and the AEAD under the server's
      ticket key. */
  datatype Crypto = Crypto(
    hmac: (nat, bytes, bytes) -> bytes,
    seal: (bytes, bytes) -> bytes,
    open: (bytes, bytes) -> Option<bytes>)

  ghost predicate Ideal(c: Crypto) {
    && (forall n, k, m :: |c.hmac(n, k, m)| == n)
    && (forall nonce, p :: |c.seal(nonce, p)| == |p| + TICKET_TAG_LEN)
    && (forall nonce, p :: c.open(nonce, c.seal(nonce, p)) == Some(p))
  }

  /** Primitives with these two properties exist. */
  lemma IdealExists() returns (c: Crypto)
    ensures Ideal(c)
  {
    c := Crypto((n, k, m) => Zeros(n), (nonce, p) => p + Zeros(TICKET_TAG_LEN),
                (nonce, t) => if |t| < TICKET_TAG_LEN then None else Some(t[..|t| - TICKET_TAG_LEN]));
    forall nonce: bytes, p: bytes ensures c.open(nonce, c.seal(nonce, p)) == Some(p) {
      assert (p + Zeros(TICKET_TAG_LEN))[..|p|] == p;
    }
  }

  // ------------------------------------------------------------------ tickets

  /** What a ticket seals. The issue time keeps whole seconds. */
  datatype TicketInfo = TicketInfo(clientID: U64, psk: Bytes32, issuedSeconds: U64)

  function TicketPlain(info: TicketInfo, pad: bytes): (r: bytes)
    ensures |r| == TICKET_FIXED + |pad|
  {
    PutU64(info.clientID) + info.psk + PutU64(info.issuedSeconds) + pad
  }

  /** seal: a ticket of exactly ticketLen bytes, or an error below the minimum. */
  function SealTicket(c: Crypto, info: TicketInfo, ticketLen: nat, nonce: bytes, pad: nat -> byte): Option<bytes> {
    if ticketLen < MIN_TICKET_LEN then None
    else Some(nonce + c.seal(nonce, TicketPlain(info, DrawBytes(ticketLen - MIN_TICKET_LEN, pad))))
  }

  function OpenTicket(c: Crypto, ticket: bytes): Option<TicketInfo> {
    if |ticket| < MIN_TICKET_LEN then None
    else
      var plain :- c.open(ticket[..12], ticket[12..]);
      if |plain| < TICKET_FIXED then None
      else Some(TicketInfo(GetU64(plain[..8]), plain[8..40], GetU64(plain[40..48])))
  }

  /** Opening recovers exactly what was sealed, at every length, and the length is as asked. */
  lemma TicketRoundTrip(c: Crypto, info: TicketInfo, ticketLen: nat, nonce: bytes, pad: nat -> byte)
    requires Ideal(c) && |nonce| == TICKET_NONCE_LEN && MIN_TICKET_LEN <= ticketLen
    ensures var t := SealTicket(c, info, ticketLen, nonce, pad);
            t.Some? && |t.value| == ticketLen && OpenTicket(c, t.value) == Some(info)
  {
    var p := DrawBytes(ticketLen - MIN_TICKET_LEN, pad);
    var plain := TicketPlain(info, p);
    var t := SealTicket(c, info, ticketLen, nonce, pad).value;
    assert t[..12] == nonce && t[12..] == c.seal(nonce, plain);
    PlainFields(info, p);
    U64RoundTrip(info.clientID);
    U64RoundTrip(info.issuedSeconds);
  }

  lemma PlainFields(info: TicketInfo, pad: bytes)
    ensures var p := TicketPlain(info, pad);
            p[..8] == PutU64(info.clientID) && p[8..40] == info.psk && p[40..48] == PutU64(info.issuedSeconds)
  {
  }

  /** IssueFullFor: the full-handshake companion of a ticket. */
  function CompanionOf(c: Crypto, ticket: bytes, nonce: bytes, pad: nat -> byte): Option<bytes> {
    var info :- OpenTicket(c, ticket);
    SealTicket(c, info, FULL_TICKET_LEN, nonce, pad)
  }

  /** The companion opens to the same client, psk and issue time as the ticket it companions. */
  lemma CompanionSharesInfo(c: Crypto, ticket: bytes, nonce: bytes, pad: nat -> byte)
    requires Ideal(c) && |nonce| == TICKET_NONCE_LEN && OpenTicket(c, ticket).Some?
    ensures var t := CompanionOf(c, ticket, nonce, pad);
            t.Some? && |t.value| == FULL_TICKET_LEN && OpenTicket(c, t.value) == OpenTicket(c, ticket)
  {
    TicketRoundTrip(c, OpenTicket(c, ticket).value, FULL_TICKET_LEN, nonce, pad);
  }

  // ----------------------------------------------------------- pre_shared_key

  type Age = a: bytes | |a| == 4 witness [0, 0, 0, 0]

  function PskBody(ticket: bytes, age: Age, binder: bytes): bytes {
    PskFront(ticket, age, |binder|) + binder
  }

  /** The extension body up to the binder's contents. */
  function PskFront(ticket: bytes, age: Age, binderLen: nat): (r: bytes)
    ensures |r| == 11 + |ticket|
  {
    U16(|ticket| + 6) + U16(|ticket|) + ticket + age + U16(binderLen + 1) + [binderLen % 0x100]
  }

  /** setPSK: one pre_shared_key, last. */
  function WithPSK(h: Hello, ticket: bytes, age: Age, binder: bytes): Hello {
    h.(extensions := Without(h.extensions, EXT_PRE_SHARED_KEY) + [Extension(EXT_PRE_SHARED_KEY, PskBody(ticket, age, binder))])
  }

  datatype Psk = Psk(ticket: bytes, age: Age, binder: bytes)

  /** parsePSK: the first identity and the first binder. The identities' announced end need not
      agree with the ticket's. */
  function ParsePSK(d: bytes): Option<Psk> {
    if |d| < 2 then None
    else
      var idsEnd := 2 + GetU16(d, 0) as int;
      if idsEnd + 2 > |d| || idsEnd < 4 then None
      else
        var tl := GetU16(d, 2) as int;
        if 4 + tl + 4 > |d| then None
        else
          var p := idsEnd + 2;
          if p >= |d| || p + 1 + d[p] as int > |d| then None
          else Some(Psk(d[4..4 + tl], d[4 + tl..8 + tl], d[p + 1..p + 1 + d[p] as int]))
  }

  lemma PskRoundTrip(ticket: bytes, age: Age, binder: bytes)
    requires |ticket| + 6 < 0x1_0000 && |binder| < 0x100
    ensures ParsePSK(PskBody(ticket, age, binder)) == Some(Psk(ticket, age, binder))
  {
    var d, tl := PskBody(ticket, age, binder), |ticket|;
    PskFields(ticket, age, binder);
    assert 2 + GetU16(d, 0) as int + 2 == 10 + tl;
    assert d[11 + tl..11 + tl + |binder|] == d[11 + tl..];
  }

  lemma PskFields(ticket: bytes, age: Age, binder: bytes)
    requires |ticket| + 6 < 0x1_0000 && |binder| < 0x100
    ensures var d, tl := PskBody(ticket, age, binder), |ticket|;
            && GetU16(d, 0) == tl + 6 && GetU16(d, 2) == tl
            && d[4..4 + tl] == ticket && d[4 + tl..8 + tl] == age
            && d[10 + tl] == |binder| && d[11 + tl..] == binder
  {
    var d, tl := PskBody(ticket, age, binder), |ticket|;
    var ids := U16(tl + 6) + U16(tl);
    var list := U16(|binder| + 1) + [|binder|];
    assert PskFront(ticket, age, |binder|) == ids + ticket + age + list;
    assert d == ids + (ticket + (age + (list + binder)));
    U16RoundTrip(tl + 6);
    U16RoundTrip(tl);
    assert ids[..2] == U16(tl + 6) && ids[2..] == U16(tl);
    assert GetU16(d, 0) == GetU16(ids, 0) && GetU16(d, 2) == GetU16(ids, 2);
    assert d[10 + tl] == list[2];
  }

  /** Dropping the binders list: its length, the binder's length, and the binder. */
  function Truncate(rec: bytes, binderLen: nat): bytes {
    if |rec| < 3 + binderLen then rec else rec[..|rec| - (3 + binderLen)]
  }

  function Ascii(s: string): bytes {
    seq(|s|, i requires 0 <= i < |s| => s[i] as int % 0x100)
  }

  function BinderKey(c: Crypto, psk: Bytes32): bytes {
    c.hmac(32, psk, Ascii("twiddle/binder/v1"))
  }

  /** The binder over a hello whose pre_shared_key has been put in its canonical place. */
  function BinderOf(c: Crypto, h: Hello, ticket: bytes, age: Age, psk: Bytes32, binderLen: nat): bytes {
    c.hmac(binderLen, BinderKey(c, psk), Truncate(Encode(WithPSK(h, ticket, age, Zeros(binderLen))), binderLen))
  }

  /** SetTicketAuth; fails unless the binder is a SHA-256 or SHA-384 output. */
  function Signed(c: Crypto, h: Hello, ticket: bytes, psk: Bytes32, age: Age, binderLen: nat): Option<Hello> {
    if binderLen != 32 && binderLen != 48 then None
    else
      var h1 := WithPSK(h, ticket, age, Zeros(binderLen));
      Some(WithPSK(h1, ticket, age, c.hmac(binderLen, BinderKey(c, psk), Truncate(Encode(h1), binderLen))))
  }

  datatype AuthResult = AuthResult(clientID: U64, psk: Bytes32, issuedSeconds: U64, ephemeral: Bytes32)

  /** A ticket older than maxAge is refused; zero or less skips the check. Times in nanoseconds. */
  predicate Expired(issuedSeconds: U64, maxAge: int, now: int) {
    maxAge > 0 && now - issuedSeconds * SECOND > maxAge
  }

  /** verifyAt. */
  function Verify(c: Crypto, h: Hello, maxAge: int, now: int): Option<AuthResult> {
    match FirstOf(h.extensions, EXT_PRE_SHARED_KEY)
    case None => None
    case Some(i) =>
      var p :- ParsePSK(h.extensions[i].data);
      var info :- OpenTicket(c, p.ticket);
      var _ :- Need(!Expired(info.issuedSeconds, maxAge, now));
      var _ :- Need(|p.binder| == 32 || |p.binder| == 48);
      var _ :- Need(BinderOf(c, h, p.ticket, p.age, info.psk, |p.binder|) == p.binder);
      var eph :- KeyShareOf(h);
      Some(AuthResult(info.clientID, info.psk, info.issuedSeconds, eph))
  }

  // ------------------------------------------------------------------ lemmas

  lemma {:induction false} WithoutAppend(exts: seq<Extension>, e: Extension, t: u16)
    requires e.typ == t
    ensures Without(Without(exts, t) + [e], t) == Without(exts, t)
  {
    WithoutNone(exts, t);
    WithoutSnoc(Without(exts, t), e, t);
    WithoutNone(Without(exts, t), t);
  }

  /** Setting the extension again replaces it. */
  lemma WithPSKTwice(h: Hello, ticket: bytes, age: Age, b1: bytes, b2: bytes)
    ensures WithPSK(WithPSK(h, ticket, age, b1), ticket, age, b2) == WithPSK(h, ticket, age, b2)
  {
    WithoutAppend(h.extensions, Extension(EXT_PRE_SHARED_KEY, PskBody(ticket, age, b1)), EXT_PRE_SHARED_KEY);
  }

  /** Everything of the hello body in front of the pre_shared_key's own body. */
  function BodyBefore(h: Hello, dataLen: nat): bytes {
    var exts := EncExts(Without(h.extensions, EXT_PRE_SHARED_KEY));
    BodyFront(h) + U16(|exts| + 4 + dataLen) + exts + U16(EXT_PRE_SHARED_KEY) + U16(dataLen)
  }

  /** Everything of the record in front of the binder's contents. */
  function RecordFront(h: Hello, ticket: bytes, age: Age, binderLen: nat): bytes {
    var before := BodyBefore(h, 11 + |ticket| + binderLen);
    var n := |before| + 11 + |ticket| + binderLen;
    [0x16, 0x03, 0x01] + U16(n + 4) + [0x01, n / 0x1_0000 % 0x100, n / 0x100 % 0x100, n % 0x100] + before
    + PskFront(ticket, age, binderLen)
  }

  lemma BodyEndsInBinder(h: Hello, ticket: bytes, age: Age, binder: bytes)
    ensures EncBody(WithPSK(h, ticket, age, binder))
            == BodyBefore(h, 11 + |ticket| + |binder|) + PskFront(ticket, age, |binder|) + binder
  {
    var s := WithPSK(h, ticket, age, binder);
    var kept := Without(h.extensions, EXT_PRE_SHARED_KEY);
    var body := PskBody(ticket, age, binder);
    EncExtsSnoc(kept, Extension(EXT_PRE_SHARED_KEY, body));
    BodyShape(s, |EncExts(s.extensions)|);
    assert BodyFront(s) == BodyFront(h);
    BinderLast(BodyFront(h), U16(|EncExts(s.extensions)|), EncExts(kept), U16(EXT_PRE_SHARED_KEY), U16(|body|),
               PskFront(ticket, age, |binder|), binder);
  }

  /** The record ends with the binder, and what precedes it depends on the binder's length only. */
  lemma RecordEndsInBinder(h: Hello, ticket: bytes, age: Age, binder: bytes)
    ensures Encode(WithPSK(h, ticket, age, binder)) == RecordFront(h, ticket, age, |binder|) + binder
  {
    BodyEndsInBinder(h, ticket, age, binder);
    FrameBehind(EncBody(WithPSK(h, ticket, age, binder)), BodyBefore(h, 11 + |ticket| + |binder|), PskFront(ticket, age, |binder|), binder);
  }

  lemma BinderLast(front: bytes, total: bytes, exts: bytes, t: bytes, n: bytes, psk: bytes, binder: bytes)
    ensures front + (total + (exts + t + n + (psk + binder))) == front + total + exts + t + n + psk + binder
  {
  }

  lemma FrameBehind(body: bytes, a: bytes, psk: bytes, binder: bytes)
    requires body == a + psk + binder
    ensures var n := |body|;
            Frame(body) == [0x16, 0x03, 0x01] + U16(n + 4)
              + [0x01, n / 0x1_0000 % 0x100, n / 0x100 % 0x100, n % 0x100] + a + psk + binder
  {
  }

  /** The truncated record does not depend on the binder's contents. */
  lemma TruncatedIndependent(h: Hello, ticket: bytes, age: Age, b1: bytes, b2: bytes)
    requires |b1| == |b2|
    ensures Truncate(Encode(WithPSK(h, ticket, age, b1)), |b1|) == Truncate(Encode(WithPSK(h, ticket, age, b2)), |b2|)
  {
    RecordEndsInBinder(h, ticket, age, b1);
    RecordEndsInBinder(h, ticket, age, b2);
    var front := RecordFront(h, ticket, age, |b1|);
    assert (front + b1)[..|front| - 3] == front[..|front| - 3] == (front + b2)[..|front| - 3];
  }

  // ---------------------------------------------------------- the two theorems

  /** The first extension of a type. */
  function Found(exts: seq<Extension>, t: u16): Option<Extension> {
    var at := FirstOf(exts, t);
    if at.None? then None else Some(exts[at.value])
  }

  lemma FoundStep(exts: seq<Extension>, t: u16)
    ensures Found(exts, t) == if exts == [] then None else if exts[0].typ == t then Some(exts[0]) else Found(exts[1..], t)
  {
  }

  lemma FoundCons(e: Extension, rest: seq<Extension>, t: u16)
    ensures Found([e] + rest, t) == if e.typ == t then Some(e) else Found(rest, t)
  {
    FoundStep([e] + rest, t);
    assert ([e] + rest)[1..] == rest;
  }

  lemma {:induction false} WithoutKeepsOthers(exts: seq<Extension>, p: u16, t: u16)
    requires p != t
    ensures Found(Without(exts, p), t) == Found(exts, t)
  {
    if exts != [] {
      WithoutKeepsOthers(exts[1..], p, t);
      FoundStep(exts, t);
      FoundCons(exts[0], Without(exts[1..], p), t);
    }
  }

  lemma {:induction false} FirstOfSnoc(exts: seq<Extension>, e: Extension, t: u16)
    ensures FirstOf(exts + [e], t) ==
            if FirstOf(exts, t).Some? then FirstOf(exts, t) else if e.typ == t then Some(|exts|) else None
  {
    if exts == [] {
      assert [e][1..] == [];
    } else {
      FirstOfSnoc(exts[1..], e, t);
      assert (exts + [e])[1..] == exts[1..] + [e];
    }
  }

  /** No pre_shared_key is left, so the appended one is the first. */
  lemma PskIsFound(h: Hello, ticket: bytes, age: Age, binder: bytes)
    ensures var exts := WithPSK(h, ticket, age, binder).extensions;
            FirstOf(exts, EXT_PRE_SHARED_KEY) == Some(|exts| - 1) && exts[|exts| - 1].data == PskBody(ticket, age, binder)
  {
    var kept := Without(h.extensions, EXT_PRE_SHARED_KEY);
    WithoutNone(h.extensions, EXT_PRE_SHARED_KEY);
    FirstOfSnoc(kept, Extension(EXT_PRE_SHARED_KEY, PskBody(ticket, age, binder)), EXT_PRE_SHARED_KEY);
  }

  lemma KeyShareSurvivesPSK(h: Hello, ticket: bytes, age: Age, binder: bytes)
    ensures KeyShareOf(WithPSK(h, ticket, age, binder)) == KeyShareOf(h)
  {
    var kept, e := Without(h.extensions, EXT_PRE_SHARED_KEY), Extension(EXT_PRE_SHARED_KEY, PskBody(ticket, age, binder));
    WithoutKeepsOthers(h.extensions, EXT_PRE_SHARED_KEY, EXT_KEY_SHARE);
    FirstOfSnoc(kept, e, EXT_KEY_SHARE);
    KeyShareFrom(h, WithPSK(h, ticket, age, binder));
  }

  lemma KeyShareFrom(h: Hello, h': Hello)
    requires Found(h.extensions, EXT_KEY_SHARE) == Found(h'.extensions, EXT_KEY_SHARE)
    ensures KeyShareOf(h) == KeyShareOf(h')
  {
  }

  /** Where and what SetTicketAuth writes: one pre_shared_key whose binder is the MAC of its own
      truncated record. */
  lemma SignedIs(c: Crypto, h: Hello, ticket: bytes, psk: Bytes32, age: Age, binderLen: nat)
    requires Ideal(c) && Signed(c, h, ticket, psk, age, binderLen).Some?
    ensures Signed(c, h, ticket, psk, age, binderLen)
            == Some(WithPSK(h, ticket, age, BinderOf(c, h, ticket, age, psk, binderLen)))
  {
    WithPSKTwice(h, ticket, age, Zeros(binderLen), BinderOf(c, h, ticket, age, psk, binderLen));
  }

  /** The binder of a hello does not depend on the binder it already carries. */
  lemma BinderIgnoresItself(c: Crypto, h: Hello, ticket: bytes, age: Age, psk: Bytes32, binder: bytes)
    ensures BinderOf(c, WithPSK(h, ticket, age, binder), ticket, age, psk, |binder|)
            == BinderOf(c, h, ticket, age, psk, |binder|)
  {
    WithPSKTwice(h, ticket, age, binder, Zeros(|binder|));
  }

  /** What the client signs is what the server recomputes: a signed hello, marshalled and parsed,
      is the signed hello, and the server gets the ticket's client, its psk and the client's
      X25519 key. It is refused only for a key_share it cannot read. */
  lemma SignedVerifies(c: Crypto, h: Hello, ticket: bytes, psk: Bytes32, age: Age, binderLen: nat, maxAge: int, now: int)
    requires Ideal(c) && Signed(c, h, ticket, psk, age, binderLen).Some?
    requires Fits(Signed(c, h, ticket, psk, age, binderLen).value) && |ticket| + 6 < 0x1_0000
    requires OpenTicket(c, ticket).Some? && OpenTicket(c, ticket).value.psk == psk
    requires !Expired(OpenTicket(c, ticket).value.issuedSeconds, maxAge, now)
    ensures var s, info := Signed(c, h, ticket, psk, age, binderLen).value, OpenTicket(c, ticket).value;
            && Decode(Encode(s)) == Some(s)
            && (Verify(c, s, maxAge, now).Some? <==> KeyShareOf(h).Some?)
            && (KeyShareOf(h).Some? ==>
                Verify(c, s, maxAge, now) == Some(AuthResult(info.clientID, psk, info.issuedSeconds, KeyShareOf(h).value)))
  {
    var binder := BinderOf(c, h, ticket, age, psk, binderLen);
    var s := WithPSK(h, ticket, age, binder);
    SignedIs(c, h, ticket, psk, age, binderLen);
    DecodeEncode(s);
    PskIsFound(h, ticket, age, binder);
    PskRoundTrip(ticket, age, binder);
    BinderIgnoresItself(c, h, ticket, age, psk, binder);
    KeyShareSurvivesPSK(h, ticket, age, binder);
  }

  /** What Verify read out of a hello. */
  function Presented(h: Hello): Option<Psk> {
    match FirstOf(h.extensions, EXT_PRE_SHARED_KEY)
    case None => None
    case Some(i) => ParsePSK(h.extensions[i].data)
  }

  /** The bytes whose MAC Verify compares with the binder. */
  function BoundBytes(h: Hello): bytes
    requires Presented(h).Some?
  {
    var p := Presented(h).value;
    Truncate(Encode(WithPSK(h, p.ticket, p.age, Zeros(|p.binder|))), |p.binder|)
  }

  function Normal(h: Hello): Hello
    requires Presented(h).Some?
  {
    var p := Presented(h).value;
    WithPSK(h, p.ticket, p.age, Zeros(|p.binder|))
  }

  lemma VerifyReads(c: Crypto, h: Hello, maxAge: int, now: int)
    requires Verify(c, h, maxAge, now).Some?
    ensures Presented(h).Some?
    ensures var p, r := Presented(h).value, Verify(c, h, maxAge, now).value;
            && (|p.binder| == 32 || |p.binder| == 48)
            && p.binder == c.hmac(|p.binder|, BinderKey(c, r.psk), BoundBytes(h))
            && OpenTicket(c, p.ticket) == Some(TicketInfo(r.clientID, r.psk, r.issuedSeconds))
            && !Expired(r.issuedSeconds, maxAge, now)
            && KeyShareOf(h) == Some(r.ephemeral)
  {
  }

  /** A truncated record and the binder's length determine the whole zeroed record. */
  lemma TruncationLosesNothing(h: Hello, ticket: bytes, age: Age, binderLen: nat)
    ensures var z := Encode(WithPSK(h, ticket, age, Zeros(binderLen)));
            z == Truncate(z, binderLen) + U16(binderLen + 1) + [binderLen % 0x100] + Zeros(binderLen)
  {
    RecordEndsInBinder(h, ticket, age, Zeros(binderLen));
    var front := RecordFront(h, ticket, age, binderLen);
    var tail := U16(binderLen + 1) + [binderLen % 0x100];
    FrontTail(h, ticket, age, binderLen);
    CutAndPaste(front, tail, Zeros(binderLen));
    Assoc(Truncate(front + Zeros(binderLen), binderLen), U16(binderLen + 1), [binderLen % 0x100]);
  }

  lemma FrontTail(h: Hello, ticket: bytes, age: Age, binderLen: nat)
    ensures var front := RecordFront(h, ticket, age, binderLen);
            |front| >= 11 && front[|front| - 3..] == U16(binderLen + 1) + [binderLen % 0x100]
  {
    var front, psk := RecordFront(h, ticket, age, binderLen), PskFront(ticket, age, binderLen);
    assert psk[|psk| - 3..] == U16(binderLen + 1) + [binderLen % 0x100];
    assert front[|front| - |psk|..] == psk;
    assert front[|front| - 3..] == psk[|psk| - 3..];
  }

  lemma CutAndPaste(front: bytes, tail: bytes, zeros: bytes)
    requires |front| >= 3 && |tail| == 3 && front[|front| - 3..] == tail
    ensures Truncate(front + zeros, |zeros|) + tail + zeros == front + zeros
  {
    var z := front + zeros;
    assert z[..|z| - (3 + |zeros|)] == front[..|front| - 3];
    assert front == front[..|front| - 3] + front[|front| - 3..];
  }

  lemma {:induction false} WithoutLength(exts: seq<Extension>, t: u16)
    ensures |EncExts(Without(exts, t))| <= |EncExts(exts)|
    ensures FirstOf(exts, t).Some? ==>
      |EncExts(Without(exts, t))| + 4 + |exts[FirstOf(exts, t).value].data| <= |EncExts(exts)|
    ensures ExtsFit(exts) ==> ExtsFit(Without(exts, t))
  {
    if exts != [] {
      WithoutLength(exts[1..], t);
      EncExtsCons(exts[0], Without(exts[1..], t));
    }
  }

  lemma {:induction false} FoundLength(exts: seq<Extension>, t: u16)
    requires Found(exts, t).Some?
    ensures 4 + |Found(exts, t).value.data| <= |EncExts(exts)|
  {
    FoundStep(exts, t);
    if exts[0].typ != t {
      FoundLength(exts[1..], t);
    }
  }

  /** What a hello must have for its pre_shared_key to be rebuilt within its length field: that it fits, and
      offers the key Verify asks for. */
  lemma NormalExtsFit(h: Hello)
    requires Fits(h) && Presented(h).Some? && |Presented(h).value.binder| <= 48 && KeyShareOf(h).Some?
    ensures ExtsFit(Normal(h).extensions)
  {
    var p, i := Presented(h).value, FirstOf(h.extensions, EXT_PRE_SHARED_KEY).value;
    var kept, body := Without(h.extensions, EXT_PRE_SHARED_KEY), PskBody(p.ticket, p.age, Zeros(|p.binder|));
    assert |body| <= |h.extensions[i].data| + 51;
    WithoutLength(h.extensions, EXT_PRE_SHARED_KEY);
    WithoutKeepsOthers(h.extensions, EXT_PRE_SHARED_KEY, EXT_KEY_SHARE);
    FoundLength(kept, EXT_KEY_SHARE);
    ShareLength(h);
    BodyShape(h, |EncExts(h.extensions)|);
    FrontLength(h);
  }

  lemma ShareLength(h: Hello)
    requires KeyShareOf(h).Some?
    ensures Found(h.extensions, EXT_KEY_SHARE).Some? && |Found(h.extensions, EXT_KEY_SHARE).value.data| >= 34
  {
    FirstShareLength(Found(h.extensions, EXT_KEY_SHARE).value.data[2..]);
  }

  lemma {:induction false} FirstShareLength(s: bytes)
    requires FirstShare(s).Some?
    ensures |FirstShare(s).value| <= |s|
    decreases |s|
  {
    if GetU16(s, 0) != GROUP_X25519 {
      FirstShareLength(s[EntryLen(s)..]);
    }
  }

  lemma {:induction false} SameExts(a: seq<Extension>, b: seq<Extension>)
    requires ExtsFit(a) && ExtsFit(b) && EncExts(a) == EncExts(b)
    ensures a == b
    decreases |a|
  {
    if a != [] && b != [] {
      SameFirstExt(a[0], EncExts(a[1..]), b[0], EncExts(b[1..]));
      SameExts(a[1..], b[1..]);
      assert a == [a[0]] + a[1..] && b == [b[0]] + b[1..];
    }
  }

  lemma SameFirstExt(e: Extension, rest: bytes, e': Extension, rest': bytes)
    requires |e.data| < 0x1_0000 && |e'.data| < 0x1_0000 && EncExt(e) + rest == EncExt(e') + rest'
    ensures e == e' && rest == rest'
  {
    var x, y := EncExt(e) + rest, EncExt(e') + rest';
    assert x[..2] == U16(e.typ) && y[..2] == U16(e'.typ) && x[2..4] == U16(|e.data|) && y[2..4] == U16(|e'.data|);
    U16RoundTrip(e.typ);
    U16RoundTrip(e'.typ);
    U16RoundTrip(|e.data|);
    U16RoundTrip(|e'.data|);
    assert x[4..4 + |e.data|] == e.data && y[4..4 + |e.data|] == e'.data;
    assert x[4 + |e.data|..] == rest && y[4 + |e.data|..] == rest';
  }

  /** A body determines the hello even when the announced length of its extensions has wrapped. */
  lemma SameBody(h: Hello, h': Hello)
    requires EncBody(h) == EncBody(h') && ExtsFit(h.extensions) && ExtsFit(h'.extensions)
    requires |h.sessionID| < 0x100 && |h.compression| < 0x100 && 2 * |h.ciphers| < 0x1_0000
    requires |h'.sessionID| < 0x100 && |h'.compression| < 0x100 && 2 * |h'.ciphers| < 0x1_0000
    ensures h == h'
  {
    ParseEncHead(h, |EncExts(h.extensions)|);
    ParseEncHead(h', |EncExts(h'.extensions)|);
    TailOf(h, |EncExts(h.extensions)|);
    TailOf(h', |EncExts(h'.extensions)|);
    SameExts(h.extensions, h'.extensions);
  }

  /** The suites, the compression and the bytes of the extensions. */
  function SplitTail(b0: bytes): Option<(bytes, bytes, bytes)> {
    var (cs, b1) :- TakeVec16(b0);
    var (comp, b2) :- TakeVec8(b1);
    var (_, b3) :- TakeU16(b2);
    Some((cs, comp, b3))
  }

  lemma TailOf(h: Hello, total: nat)
    requires |h.compression| < 0x100 && 2 * |h.ciphers| < 0x1_0000
    ensures SplitTail(TailWith(h, total)) == Some((EncU16s(h.ciphers), h.compression, EncExts(h.extensions)))
    ensures DecU16s(EncU16s(h.ciphers)) == h.ciphers
  {
    TakeVec16Undo(EncU16s(h.ciphers), Vec8(h.compression) + (U16(total) + EncExts(h.extensions)));
    TakeVec8Undo(h.compression, U16(total) + EncExts(h.extensions));
    assert (U16(total) + EncExts(h.extensions))[2..] == EncExts(h.extensions);
    DecEncU16s(h.ciphers);
  }

  /** A binder binds the hello: two accepted hellos that carry the same binder under one psk are
      the same up to the binder, once each one's pre_shared_key stands last, as long as the MAC
      does not collide on the two byte strings it covered. */
  lemma BinderBinds(c: Crypto, h: Hello, h': Hello, maxAge: int, now: int)
    requires Fits(h) && Fits(h') && Verify(c, h, maxAge, now).Some? && Verify(c, h', maxAge, now).Some?
    requires Verify(c, h, maxAge, now).value.psk == Verify(c, h', maxAge, now).value.psk
    requires Presented(h).Some? && Presented(h').Some? && Presented(h).value.binder == Presented(h').value.binder
    requires var p, k := Presented(h).value, BinderKey(c, Verify(c, h, maxAge, now).value.psk);
             c.hmac(|p.binder|, k, BoundBytes(h)) == c.hmac(|p.binder|, k, BoundBytes(h')) ==> BoundBytes(h) == BoundBytes(h')
    ensures Normal(h) == Normal(h') && Presented(h).value.ticket == Presented(h').value.ticket
    ensures Verify(c, h, maxAge, now).value.clientID == Verify(c, h', maxAge, now).value.clientID
  {
    VerifyReads(c, h, maxAge, now);
    VerifyReads(c, h', maxAge, now);
    NormalExtsFit(h);
    NormalExtsFit(h');
    SameBoundBytes(h, h');
  }

  /** What the MAC covers determines the hello up to the binder. */
  lemma SameBoundBytes(h: Hello, h': Hello)
    requires Fits(h) && Fits(h') && Presented(h).Some? && Presented(h').Some?
    requires ExtsFit(Normal(h).extensions) && ExtsFit(Normal(h').extensions)
    requires 32 <= |Presented(h).value.binder| == |Presented(h').value.binder| < 0x100 && BoundBytes(h) == BoundBytes(h')
    ensures Normal(h) == Normal(h') && Presented(h).value.ticket == Presented(h').value.ticket
  {
    var p, p' := Presented(h).value, Presented(h').value;
    SameRecords(h, h');
    SameFrames(EncBody(Normal(h)), EncBody(Normal(h')));
    SameBody(Normal(h), Normal(h'));
    PskIsFound(h, p.ticket, p.age, Zeros(|p.binder|));
    PskIsFound(h', p'.ticket, p'.age, Zeros(|p'.binder|));
    TicketFrom(Normal(h).extensions, p.ticket, p.age, p'.ticket, p'.age, Zeros(|p.binder|));
  }

  lemma SameRecords(h: Hello, h': Hello)
    requires Presented(h).Some? && Presented(h').Some?
    requires |Presented(h).value.binder| == |Presented(h').value.binder| && BoundBytes(h) == BoundBytes(h')
    ensures Encode(Normal(h)) == Encode(Normal(h'))
  {
    var p, p' := Presented(h).value, Presented(h').value;
    TruncationLosesNothing(h, p.ticket, p.age, |p.binder|);
    TruncationLosesNothing(h', p'.ticket, p'.age, |p'.binder|);
  }

  lemma SameFrames(a: bytes, b: bytes)
    requires Frame(a) == Frame(b)
    ensures a == b
  {
    assert Frame(a)[9..] == a && Frame(b)[9..] == b;
  }

  lemma TicketFrom(exts: seq<Extension>, t: bytes, a: Age, t': bytes, a': Age, binder: bytes)
    requires ExtsFit(exts) && |exts| > 0 && |binder| < 0x100 && |binder| >= 32
    requires exts[|exts| - 1].data == PskBody(t, a, binder) == PskBody(t', a', binder)
    ensures t == t'
  {
    PskRoundTrip(t, a, binder);
    PskRoundTrip(t', a', binder);
  }
}
