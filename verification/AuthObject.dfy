/** The two authenticators as methods on the ClientHello object (auth.go, echcarrier.go). */
module AuthObject {
  import opened Bytes
  import opened HelloCodec
  import opened ExtensionBodies
  import opened ClientHelloObject
  import opened Emission
  import opened BodiesInPlace
  import opened EmissionObject
  import opened Auth
  import opened EchCarrier

  /** seal: the plaintext buffer is filled in place and padded to the ticket's length. */
  method Seal(c: Crypto, info: TicketInfo, ticketLen: nat, nonce: bytes, pad: nat -> byte) returns (ticket: Option<bytes>)
    ensures ticket == SealTicket(c, info, ticketLen, nonce, pad)
  {
    if ticketLen < MIN_TICKET_LEN {
      return None;
    }
    var plain := new byte[ticketLen - TICKET_NONCE_LEN - TICKET_TAG_LEN];
    CopyInto(plain, 0, PutU64(info.clientID));
    CopyInto(plain, 8, info.psk);
    CopyInto(plain, 40, PutU64(info.issuedSeconds));
    assert plain[..TICKET_FIXED] == PutU64(info.clientID) + info.psk + PutU64(info.issuedSeconds);
    CopyInto(plain, TICKET_FIXED, DrawBytes(ticketLen - MIN_TICKET_LEN, pad));
    assert plain[..] == TicketPlain(info, DrawBytes(ticketLen - MIN_TICKET_LEN, pad));
    ticket := Some(nonce + c.seal(nonce, plain[..]));
  }

  /** setPSK: the other extensions in order, then the pre_shared_key. */
  method SetPSK(h: ClientHello, ticket: bytes, age: Age, binder: bytes)
    modifies h`extensions
    ensures h.Value() == WithPSK(old(h.Value()), ticket, age, binder)
  {
    var d: bytes := U16(|ticket| + 6);
    d := d + U16(|ticket|);
    d := d + ticket;
    d := d + age;
    d := d + U16(|binder| + 1);
    d := d + [|binder| % 0x100];
    d := d + binder;
    var exts, out: seq<Extension> := h.extensions, [];
    for i := 0 to |exts|
      invariant out == Without(exts[..i], EXT_PRE_SHARED_KEY)
    {
      WithoutSnoc(exts[..i], exts[i], EXT_PRE_SHARED_KEY);
      assert exts[..i + 1] == exts[..i] + [exts[i]];
      if exts[i].typ != EXT_PRE_SHARED_KEY {
        out := out + [exts[i]];
      }
    }
    assert exts[..|exts|] == exts;
    h.extensions := out + [Extension(EXT_PRE_SHARED_KEY, d)];
  }

  /** Installs the credential; nothing changes for a binder length that is no hash's. */
  method SetTicketAuth(h: ClientHello, c: Crypto, ticket: bytes, psk: Bytes32, age: Age, binderLen: nat) returns (ok: bool)
    requires Ideal(c)
    modifies h`extensions
    ensures ok <==> Signed(c, old(h.Value()), ticket, psk, age, binderLen).Some?
    ensures h.Value() == if ok then Signed(c, old(h.Value()), ticket, psk, age, binderLen).value else old(h.Value())
  {
    if binderLen != 32 && binderLen != 48 {
      return false;
    }
    SetPSK(h, ticket, age, Zeros(binderLen));
    var rec := h.Marshal();
    SetPSK(h, ticket, age, c.hmac(binderLen, BinderKey(c, psk), Truncate(rec, binderLen)));
    ok := true;
  }

  /** The key_share walk that reads the client's X25519 key. */
  method KeyShare(h: ClientHello) returns (key: Option<Bytes32>)
    ensures key == KeyShareOf(h.Value())
  {
    var at := h.Find(EXT_KEY_SHARE);
    if at.None? {
      return None;
    }
    var d := h.extensions[at.value].data;
    if |d| < 2 {
      return None;
    }
    var p := 2;
    while p + 4 <= |d|
      invariant 2 <= p <= |d|
      invariant FirstShare(d[2..]) == FirstShare(d[p..])
      decreases |d| - p
    {
      ghost var s := d[p..];
      var g, n: nat := GetU16(d, p), GetU16(d, p + 2);
      assert g == GetU16(s, 0) && n == GetU16(s, 2);
      if p + 4 + n > |d| {
        return None;
      }
      assert s[4..EntryLen(s)] == d[p + 4..p + 4 + n] && s[EntryLen(s)..] == d[p + 4 + n..];
      if g == GROUP_X25519 {
        var k := d[p + 4..p + 4 + n];
        return if |k| == 32 then Some(k) else None;
      }
      p := p + 4 + n;
    }
    key := None;
  }

  /** The record of a copy whose binder is zeroed; the hello it was given is untouched. */
  method ZeroedRecord(h: ClientHello, psk: Psk) returns (rec: bytes)
    ensures rec == Encode(WithPSK(h.Value(), psk.ticket, psk.age, Zeros(|psk.binder|)))
  {
    var probe := new ClientHello(Hello(h.legacyVersion, h.random, h.sessionID, h.cipherSuites, h.compression, h.extensions));
    SetPSK(probe, psk.ticket, psk.age, Zeros(|psk.binder|));
    rec := probe.Marshal();
  }

  /** verifyAt: works on a copy whose extensions it rewrites; the hello it was given is untouched. */
  method VerifyAt(h: ClientHello, c: Crypto, maxAge: int, now: int) returns (r: Option<AuthResult>)
    ensures r == Verify(c, h.Value(), maxAge, now)
  {
    var at := h.Find(EXT_PRE_SHARED_KEY);
    if at.None? {
      return None;
    }
    var p := ParsePSK(h.extensions[at.value].data);
    if p.None? {
      return None;
    }
    var psk := p.value;
    var info := OpenTicket(c, psk.ticket);
    if info.None? || Expired(info.value.issuedSeconds, maxAge, now) {
      return None;
    }
    if |psk.binder| != 32 && |psk.binder| != 48 {
      return None;
    }
    var rec := ZeroedRecord(h, psk);
    if c.hmac(|psk.binder|, BinderKey(c, info.value.psk), Truncate(rec, |psk.binder|)) != psk.binder {
      return None;
    }
    var eph := KeyShare(h);
    if eph.None? {
      return None;
    }
    r := Some(AuthResult(info.value.clientID, info.value.psk, info.value.issuedSeconds, eph.value));
  }

  /** SetECHTicketAuth: writes through the payload inside the extension's own bytes, then clears
      and sets the random. Nothing changes on failure. */
  method SetECHTicketAuth(h: ClientHello, c: Crypto, ticket: bytes, psk: Bytes32, pad: nat -> byte) returns (ok: bool)
    requires Ideal(c)
    modifies h`extensions, h`random
    ensures ok <==> SignedFull(c, old(h.Value()), ticket, psk, pad).Some?
    ensures h.Value() == if ok then SignedFull(c, old(h.Value()), ticket, psk, pad).value else old(h.Value())
  {
    if |ticket| != FULL_TICKET_LEN {
      return false;
    }
    var at := h.Find(EXT_PRE_SHARED_KEY);
    if at.Some? {
      return false;
    }
    at := h.Find(EXT_ECH);
    if at.None? {
      return false;
    }
    var d := ToArray(h.extensions[at.value].data);
    var pay := PayloadAt(d[..]);
    if pay.None? || pay.value.1 < FULL_TICKET_LEN {
      return false;
    }
    FillPayload(d, pay.value.0, pay.value.1, ticket, pad);
    h.extensions := h.extensions[at.value := Extension(EXT_ECH, d[..])];
    h.random := Zeros(32);
    assert h.Value() == Carrying(old(h.Value()), ticket, pad).value;
    var rec := h.Marshal();
    h.random := c.hmac(32, FullMACKey(c, psk), rec);
    ok := true;
  }

  /** The ticket at the head of the payload, random bytes behind it. */
  method FillPayload(d: array<byte>, p: nat, n: nat, ticket: bytes, pad: nat -> byte)
    requires p + n <= d.Length && |ticket| == FULL_TICKET_LEN <= n
    modifies d
    ensures d[..] == WithPayload(old(d[..]), p, n, ticket, pad)
  {
    ghost var was := d[..];
    CopyInto(d, p, ticket);
    assert d[..p + FULL_TICKET_LEN] == was[..p] + ticket;
    assert d[p + n..] == was[p + n..];
    CopyInto(d, p + FULL_TICKET_LEN, DrawBytes(n - FULL_TICKET_LEN, pad));
  }

  /** The payload's ticket, read through the first ECH extension. */
  method ReadTicket(h: ClientHello) returns (ticket: Option<bytes>)
    ensures ticket == CarriedTicket(h.Value())
  {
    var at := h.Find(EXT_ECH);
    if at.None? {
      return None;
    }
    var d := h.extensions[at.value].data;
    var pay := PayloadAt(d);
    if pay.None? || pay.value.1 < FULL_TICKET_LEN {
      return None;
    }
    ticket := Some(d[pay.value.0..pay.value.0 + FULL_TICKET_LEN]);
  }

  /** The MAC of a copy whose random is cleared; the hello it was given is untouched. */
  method RecomputeMac(h: ClientHello, c: Crypto, psk: Bytes32) returns (mac: Bytes32)
    requires Ideal(c)
    ensures mac == MacOf(c, h.Value(), psk)
  {
    var probe := new ClientHello(Hello(h.legacyVersion, Zeros(32), h.sessionID, h.cipherSuites, h.compression, h.extensions));
    var rec := probe.Marshal();
    mac := c.hmac(32, FullMACKey(c, psk), rec);
  }

  /** verifyECHAt. */
  method VerifyECHAt(h: ClientHello, c: Crypto, maxAge: int, now: int) returns (r: Option<AuthResult>)
    requires Ideal(c)
    ensures r == VerifyFull(c, h.Value(), maxAge, now)
  {
    var at := h.Find(EXT_PRE_SHARED_KEY);
    if at.Some? {
      return None;
    }
    var ticket := ReadTicket(h);
    if ticket.None? {
      return None;
    }
    var info := OpenTicket(c, ticket.value);
    if info.None? || Expired(info.value.issuedSeconds, maxAge, now) {
      return None;
    }
    var mac := RecomputeMac(h, c, info.value.psk);
    if mac != h.random {
      return None;
    }
    var eph := KeyShare(h);
    if eph.None? {
      return None;
    }
    r := Some(AuthResult(info.value.clientID, info.value.psk, info.value.issuedSeconds, eph.value));
  }
}
