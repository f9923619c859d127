/** The full-handshake authenticator (echcarrier.go): the ticket in the outer ECH payload, a MAC over
    the whole hello in its random. */
module EchCarrier {
  import opened Bytes
  import opened HelloCodec
  import opened ClientHelloObject
  import opened Emission
  import opened Canonical
  import opened Auth

  function FullMACKey(c: Crypto, psk: Bytes32): bytes {
    c.hmac(32, psk, Ascii("twiddle/full-mac/v1"))
  }

  /** echPayload: where the payload of an outer ECH body starts and how long it is. The enc length
      is read, not assumed. */
  function PayloadAt(d: bytes): (r: Option<(nat, nat)>)
    ensures r.Some? ==> 10 <= r.value.0 && r.value.0 + r.value.1 <= |d|
  {
    if |d| < 1 || d[0] != 0x00 || |d| < 8 then None
    else
      var p := 8 + GetU16(d, 6) as int;
      if |d| < p + 2 then None
      else
        var n := GetU16(d, p) as int;
        if |d| < p + 2 + n then None else Some((p + 2, n))
  }

  /** The first ECH extension's position and its payload's extent. */
  function Carrier(h: Hello): (r: Option<(nat, nat, nat)>)
    ensures r.Some? ==> r.value.0 < |h.extensions| && h.extensions[r.value.0].typ == EXT_ECH
                        && r.value.1 + r.value.2 <= |h.extensions[r.value.0].data| && 10 <= r.value.1
  {
    var i :- FirstOf(h.extensions, EXT_ECH);
    var (p, n) :- PayloadAt(h.extensions[i].data);
    Some((i, p, n))
  }

  function ECHPayloadLen(h: Hello): Option<nat> {
    var (_, _, n) :- Carrier(h);
    Some(n)
  }

  /** The ticket's place: the first 144 bytes of a payload that has them. */
  function CarriedTicket(h: Hello): (r: Option<bytes>)
    ensures r.Some? ==> |r.value| == FULL_TICKET_LEN
  {
    var (i, p, n) :- Carrier(h);
    if n < FULL_TICKET_LEN then None else Some(h.extensions[i].data[p..p + FULL_TICKET_LEN])
  }

  /** An ECH body with its payload replaced by the ticket and random padding. */
  function WithPayload(d: bytes, p: nat, n: nat, ticket: bytes, pad: nat -> byte): (r: bytes)
    requires p + n <= |d| && |ticket| == FULL_TICKET_LEN <= n
    ensures |r| == |d|
  {
    d[..p] + ticket + DrawBytes(n - FULL_TICKET_LEN, pad) + d[p + n..]
  }

  /** The hello the MAC covers: the ticket in place and the random cleared. */
  function Carrying(h: Hello, ticket: bytes, pad: nat -> byte): Option<Hello> {
    var _ :- Need(|ticket| == FULL_TICKET_LEN && FirstOf(h.extensions, EXT_PRE_SHARED_KEY).None?);
    var (i, p, n) :- Carrier(h);
    if n < FULL_TICKET_LEN then None
    else
      var d := WithPayload(h.extensions[i].data, p, n, ticket, pad);
      Some(h.(random := Zeros(32), extensions := h.extensions[i := Extension(EXT_ECH, d)]))
  }

  ghost function MacOf(c: Crypto, h: Hello, psk: Bytes32): Bytes32
    requires Ideal(c)
  {
    c.hmac(32, FullMACKey(c, psk), Encode(h.(random := Zeros(32))))
  }

  /** SetECHTicketAuth. */
  ghost function SignedFull(c: Crypto, h: Hello, ticket: bytes, psk: Bytes32, pad: nat -> byte): Option<Hello>
    requires Ideal(c)
  {
    var z :- Carrying(h, ticket, pad);
    Some(z.(random := MacOf(c, z, psk)))
  }

  /** verifyECHAt. */
  ghost function VerifyFull(c: Crypto, h: Hello, maxAge: int, now: int): Option<AuthResult>
    requires Ideal(c)
  {
    var _ :- Need(FirstOf(h.extensions, EXT_PRE_SHARED_KEY).None?);
    var ticket :- CarriedTicket(h);
    var info :- OpenTicket(c, ticket);
    var _ :- Need(!Expired(info.issuedSeconds, maxAge, now));
    var _ :- Need(MacOf(c, h, info.psk) == h.random);
    var eph :- KeyShareOf(h);
    Some(AuthResult(info.clientID, info.psk, info.issuedSeconds, eph))
  }

  // ------------------------------------------------------------------- lemmas

  /** Rewriting the payload moves nothing: it is found where it was, as long as it was. */
  lemma PayloadStays(d: bytes, ticket: bytes, pad: nat -> byte)
    requires PayloadAt(d).Some? && |ticket| == FULL_TICKET_LEN <= PayloadAt(d).value.1
    ensures var (p, n) := PayloadAt(d).value;
            var d' := WithPayload(d, p, n, ticket, pad);
            PayloadAt(d') == PayloadAt(d) && d'[p..p + FULL_TICKET_LEN] == ticket
  {
    var (p, n) := PayloadAt(d).value;
    var d' := WithPayload(d, p, n, ticket, pad);
    assert forall k :: 0 <= k < p ==> d'[k] == d[k];
    assert GetU16(d', 6) == GetU16(d, 6) && GetU16(d', p - 2) == GetU16(d, p - 2);
  }

  /** Only ECH changes, in place: every other extension is found as before. */
  lemma CarryingFinds(h: Hello, ticket: bytes, pad: nat -> byte, t: u16)
    requires Carrying(h, ticket, pad).Some?
    ensures var z := Carrying(h, ticket, pad).value;
            && |z.extensions| == |h.extensions| && FirstOf(z.extensions, t) == FirstOf(h.extensions, t)
            && (t != EXT_ECH && FirstOf(h.extensions, t).Some? ==>
                z.extensions[FirstOf(h.extensions, t).value] == h.extensions[FirstOf(h.extensions, t).value])
  {
    var z := Carrying(h, ticket, pad).value;
    if FirstOf(h.extensions, t).Some? {
      FirstOfUnique(z.extensions, t, FirstOf(h.extensions, t).value);
    }
  }

  /** The lengths are those of the hello it was written into, so a hello that fits still fits. */
  lemma CarryingFits(h: Hello, ticket: bytes, pad: nat -> byte, random: Bytes32)
    requires Carrying(h, ticket, pad).Some?
    ensures var s := Carrying(h, ticket, pad).value.(random := random);
            (Fits(s) <==> Fits(h)) && |Encode(s)| == |Encode(h)|
  {
    var s := Carrying(h, ticket, pad).value.(random := random);
    var i := Carrier(h).value.0;
    UpdateLength(h.extensions, i, s.extensions[i]);
    if Fits(s) {
      forall k | 0 <= k < |h.extensions| ensures |h.extensions[k].data| < 0x1_0000 {
        assert |s.extensions[k].data| == |h.extensions[k].data|;
      }
    }
  }

  lemma CarriedIs(h: Hello, ticket: bytes, pad: nat -> byte)
    requires Carrying(h, ticket, pad).Some?
    ensures CarriedTicket(Carrying(h, ticket, pad).value) == Some(ticket)
  {
    var (i, p, n) := Carrier(h).value;
    CarryingFinds(h, ticket, pad, EXT_ECH);
    PayloadStays(h.extensions[i].data, ticket, pad);
    assert Carrier(Carrying(h, ticket, pad).value) == Some((i, p, n));
  }

  lemma CarryingKeepsShare(h: Hello, ticket: bytes, pad: nat -> byte)
    requires Carrying(h, ticket, pad).Some?
    ensures KeyShareOf(Carrying(h, ticket, pad).value) == KeyShareOf(h)
  {
    CarryingFinds(h, ticket, pad, EXT_KEY_SHARE);
  }

  /** What a signed hello shows: the ticket, and everything the hello offered besides. */
  lemma SignedShows(h: Hello, ticket: bytes, pad: nat -> byte, random: Bytes32)
    requires Carrying(h, ticket, pad).Some?
    ensures var s := Carrying(h, ticket, pad).value.(random := random);
            && CarriedTicket(s) == Some(ticket) && KeyShareOf(s) == KeyShareOf(h)
            && FirstOf(s.extensions, EXT_PRE_SHARED_KEY).None?
  {
    CarriedIs(h, ticket, pad);
    CarryingKeepsShare(h, ticket, pad);
    CarryingFinds(h, ticket, pad, EXT_PRE_SHARED_KEY);
    SameExtensions(Carrying(h, ticket, pad).value, random);
  }

  lemma SameExtensions(h: Hello, random: Bytes32)
    ensures CarriedTicket(h.(random := random)) == CarriedTicket(h) && KeyShareOf(h.(random := random)) == KeyShareOf(h)
  {
  }

  /** What SetECHTicketAuth signs is what the server recomputes after marshal and parse. */
  lemma FullSignedVerifies(c: Crypto, h: Hello, ticket: bytes, psk: Bytes32, pad: nat -> byte, maxAge: int, now: int)
    requires Ideal(c) && Fits(h) && SignedFull(c, h, ticket, psk, pad).Some?
    requires OpenTicket(c, ticket).Some? && OpenTicket(c, ticket).value.psk == psk
    requires !Expired(OpenTicket(c, ticket).value.issuedSeconds, maxAge, now)
    ensures var s, info := SignedFull(c, h, ticket, psk, pad).value, OpenTicket(c, ticket).value;
            && Decode(Encode(s)) == Some(s) && |Encode(s)| == |Encode(h)|
            && (VerifyFull(c, s, maxAge, now).Some? <==> KeyShareOf(h).Some?)
            && (KeyShareOf(h).Some? ==>
                VerifyFull(c, s, maxAge, now) == Some(AuthResult(info.clientID, psk, info.issuedSeconds, KeyShareOf(h).value)))
  {
    var s := SignedFull(c, h, ticket, psk, pad).value;
    SignedIsCarrying(c, h, ticket, psk, pad);
    CarryingFits(h, ticket, pad, s.random);
    DecodeEncode(s);
    SignedShows(h, ticket, pad, s.random);
    FullAccepts(c, s, ticket, maxAge, now);
  }

  lemma SignedIsCarrying(c: Crypto, h: Hello, ticket: bytes, psk: Bytes32, pad: nat -> byte)
    requires Ideal(c) && SignedFull(c, h, ticket, psk, pad).Some?
    ensures Carrying(h, ticket, pad).Some?
    ensures var s := SignedFull(c, h, ticket, psk, pad).value;
            s == Carrying(h, ticket, pad).value.(random := s.random) && MacOf(c, s, psk) == s.random
  {
    var z, s := Carrying(h, ticket, pad).value, SignedFull(c, h, ticket, psk, pad).value;
    assert z == z.(random := Zeros(32)) == s.(random := Zeros(32));
  }

  /** Acceptance, read off the parts of the hello. */
  lemma FullAccepts(c: Crypto, s: Hello, ticket: bytes, maxAge: int, now: int)
    requires Ideal(c) && CarriedTicket(s) == Some(ticket) && FirstOf(s.extensions, EXT_PRE_SHARED_KEY).None?
    requires OpenTicket(c, ticket).Some? && !Expired(OpenTicket(c, ticket).value.issuedSeconds, maxAge, now)
    requires MacOf(c, s, OpenTicket(c, ticket).value.psk) == s.random
    ensures var info := OpenTicket(c, ticket).value;
            VerifyFull(c, s, maxAge, now) == if KeyShareOf(s).None? then None
                                             else Some(AuthResult(info.clientID, info.psk, info.issuedSeconds, KeyShareOf(s).value))
  {
  }

  /** SetECHTicketAuth refuses exactly these hellos and tickets. */
  lemma SigningSucceeds(c: Crypto, h: Hello, ticket: bytes, psk: Bytes32, pad: nat -> byte)
    requires Ideal(c)
    ensures SignedFull(c, h, ticket, psk, pad).Some? <==>
            |ticket| == FULL_TICKET_LEN && FirstOf(h.extensions, EXT_PRE_SHARED_KEY).None?
            && ECHPayloadLen(h).Some? && ECHPayloadLen(h).value >= FULL_TICKET_LEN
  {
  }

  lemma FullVerifyReads(c: Crypto, h: Hello, maxAge: int, now: int)
    requires Ideal(c) && VerifyFull(c, h, maxAge, now).Some?
    ensures var r := VerifyFull(c, h, maxAge, now).value;
            && MacOf(c, h, r.psk) == h.random && KeyShareOf(h) == Some(r.ephemeral)
            && CarriedTicket(h).Some?
            && OpenTicket(c, CarriedTicket(h).value) == Some(TicketInfo(r.clientID, r.psk, r.issuedSeconds))
            && !Expired(r.issuedSeconds, maxAge, now)
            && FirstOf(h.extensions, EXT_PRE_SHARED_KEY).None?
  {
  }

  /** The whole hello is bound: two accepted hellos with one psk and one random are equal, field
      for field, as long as the MAC does not collide on the two records it covered. */
  lemma FullMacBinds(c: Crypto, h: Hello, h': Hello, maxAge: int, now: int)
    requires Ideal(c) && Fits(h) && Fits(h')
    requires VerifyFull(c, h, maxAge, now).Some? && VerifyFull(c, h', maxAge, now).Some?
    requires VerifyFull(c, h, maxAge, now).value.psk == VerifyFull(c, h', maxAge, now).value.psk
    requires var m, m', psk := Encode(h.(random := Zeros(32))), Encode(h'.(random := Zeros(32))), VerifyFull(c, h, maxAge, now).value.psk;
             c.hmac(32, FullMACKey(c, psk), m) == c.hmac(32, FullMACKey(c, psk), m') ==> m == m'
    ensures h.random == h'.random ==> h == h'
  {
    if h.random == h'.random {
      FullVerifyReads(c, h, maxAge, now);
      FullVerifyReads(c, h', maxAge, now);
      ClearedFits(h);
      ClearedFits(h');
      DecodeEncode(h.(random := Zeros(32)));
      DecodeEncode(h'.(random := Zeros(32)));
      assert h == h.(random := Zeros(32)).(random := h.random);
      assert h' == h'.(random := Zeros(32)).(random := h'.random);
    }
  }

  lemma ClearedFits(h: Hello)
    requires Fits(h)
    ensures Fits(h.(random := Zeros(32)))
  {
  }

  /** Rerandomize leaves an outer ECH extension with a payload of exactly the drawn bucket, which
      holds a ticket whatever was drawn; so every emission of an outer-ECH hello can carry one. */
  lemma FreshECHCarries(d: bytes, w: Draws)
    requires w.bucket < 4 && 1 <= |d| && d[0] == 0x00
    ensures PayloadAt(FreshECH(d, w)) == Some((42, BucketLen(w.bucket)))
    ensures BucketLen(w.bucket) >= FULL_TICKET_LEN
  {
    var r, len := FreshECH(d, w), BucketLen(w.bucket);
    var ids := if |d| >= 5 then d[1..5] else [0x00, 0x01, 0x00, 0x01];
    FreshLayout(ids, w.configID, w.enc, len, DrawBytes(len, w.payload));
  }

  lemma FreshLayout(ids: bytes, id: byte, enc: Bytes32, len: nat, payload: bytes)
    requires |ids| == 4 && len < 0x1_0000 && |payload| == len
    ensures var r := [0x00] + ids + [id] + U16(32) + enc + U16(len) + payload;
            |r| == 42 + len && r[0] == 0x00 && GetU16(r, 6) == 32 && GetU16(r, 40) == len
  {
  }

  // ------------------------------------------------------------------ carriers

  predicate CanCarry(rec: bytes) {
    Decode(rec).Some? && ECHPayloadLen(Decode(rec).value).Some?
    && ECHPayloadLen(Decode(rec).value).value >= FULL_TICKET_LEN
  }

  function Carriers(pool: seq<bytes>): (r: seq<bytes>)
    ensures forall i :: 0 <= i < |r| ==> CanCarry(r[i]) && r[i] in pool
    ensures forall i :: 0 <= i < |pool| && CanCarry(pool[i]) ==> pool[i] in r
  {
    if pool == [] then []
    else (if CanCarry(pool[0]) then [pool[0]] else []) + Carriers(pool[1..])
  }

  lemma {:induction false} CarriersSnoc(pool: seq<bytes>, rec: bytes)
    ensures Carriers(pool + [rec]) == Carriers(pool) + if CanCarry(rec) then [rec] else []
  {
    if pool == [] {
      assert [rec][1..] == [];
    } else {
      CarriersSnoc(pool[1..], rec);
      assert (pool + [rec])[1..] == pool[1..] + [rec];
    }
  }

  /** FullHandshakeCarriers. */
  method FullHandshakeCarriers(pool: seq<bytes>) returns (out: seq<bytes>)
    ensures out == Carriers(pool)
  {
    out := [];
    for i := 0 to |pool|
      invariant out == Carriers(pool[..i])
    {
      CarriersSnoc(pool[..i], pool[i]);
      assert pool[..i + 1] == pool[..i] + [pool[i]];
      var h := ParseClientHello(pool[i]);
      if h == null {
        continue;
      }
      var n := PayloadLength(h);
      if n.Some? && n.value >= FULL_TICKET_LEN {
        out := out + [pool[i]];
      }
    }
    assert pool[..|pool|] == pool;
  }

  method PayloadLength(h: ClientHello) returns (n: Option<nat>)
    ensures n == ECHPayloadLen(h.Value())
  {
    var at := h.Find(EXT_ECH);
    if at.None? {
      return None;
    }
    var pay := PayloadAt(h.extensions[at.value].data);
    n := if pay.None? then None else Some(pay.value.1);
  }
}
