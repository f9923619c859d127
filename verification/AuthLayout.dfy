/** What the two authenticators put on the wire, byte for byte, and when what they put there stops being
    accepted (auth.go, echcarrier.go, cover.go). */
module AuthLayout {
  import opened Bytes
  import opened HelloCodec
  import opened HelloLayout
  import opened ClientHelloObject
  import opened Emission
  import opened Auth
  import opened EchCarrier
  import opened Twiddle
  import opened Sorting

  // --------------------------------------------------------------------- tickets

  /** A ticket: the nonce, and sealed under it the client, the psk, the whole seconds of the issue time and
      as many drawn bytes as bring it to its length. */
  lemma TicketStands(c: Crypto, info: TicketInfo, ticketLen: nat, nonce: bytes, pad: nat -> byte) returns (plain: bytes)
    requires Ideal(c) && |nonce| == 12 && 76 <= ticketLen
    ensures SealTicket(c, info, ticketLen, nonce, pad) == Some(nonce + c.seal(nonce, plain)) && |plain| == ticketLen - 28
    ensures BigEndian(plain[..8]) == info.clientID && plain[8..40] == info.psk && BigEndian(plain[40..48]) == info.issuedSeconds
    ensures forall j :: 0 <= j < ticketLen - 76 ==> plain[48 + j] == pad(j)
  {
    var p := DrawBytes(ticketLen - MIN_TICKET_LEN, pad);
    plain := TicketPlain(info, p);
    PlainFields(info, p);
    U64Value(info.clientID);
    U64Value(info.issuedSeconds);
    forall j | 0 <= j < ticketLen - 76 ensures plain[48 + j] == pad(j) {
      assert plain[48 + j] == p[j];
    }
  }

  // -------------------------------------------------------------- pre_shared_key

  /** A pre_shared_key body, section 4.2.11 of RFC 8446: one identity with its age, one binder. */
  predicate PskAt(d: bytes, ticket: bytes, age: Age, binder: bytes) {
    var n := |ticket|;
    && |d| == 11 + n + |binder| && ValueAt(d, 0, n + 6) && ValueAt(d, 2, n) && Stands(d, 4, ticket) && Stands(d, 4 + n, age)
    && ValueAt(d, 8 + n, |binder| + 1) && d[10 + n] as int == |binder| && Stands(d, 11 + n, binder)
  }

  lemma PskStands(ticket: bytes, age: Age, binder: bytes)
    requires |ticket| + 6 < 0x1_0000 && |binder| < 0x100
    ensures PskAt(PskBody(ticket, age, binder), ticket, age, binder)
  {
    var d, n, l := PskBody(ticket, age, binder), |ticket|, U16(|binder| + 1);
    PskFields(ticket, age, binder);
    U16RoundTrip(|binder| + 1);
    var front := U16(n + 6) + U16(n) + ticket + age;
    assert d == front + (l + ([|binder| as byte] + binder));
    Between(front, l, [|binder| as byte] + binder);
    At(d, 8 + n, l, 0);
    At(d, 8 + n, l, 1);
  }

  /** The places of the extensions that are not of type t. */
  ghost predicate OthersAt(exts: seq<Extension>, t: u16, ps: seq<nat>, kept: seq<Extension>) {
    && |ps| == |kept| && Increasing(ps)
    && (forall k :: 0 <= k < |ps| ==> ps[k] < |exts| && exts[ps[k]] == kept[k] && kept[k].typ != t)
    && forall i: nat :: i < |exts| && exts[i].typ != t ==> i in ps
  }

  lemma OthersSnoc(front: seq<Extension>, e: Extension, t: u16, qs: seq<nat>, kept: seq<Extension>)
    requires OthersAt(front, t, qs, kept) && e.typ != t
    ensures OthersAt(front + [e], t, qs + [|front|], kept + [e])
  {
    var all, ps := front + [e], qs + [|front|];
    forall i: nat | i < |all| && all[i].typ != t ensures i in ps {
      if i == |front| {
        assert ps[|qs|] == i;
      } else {
        assert all[i] == front[i];
        var k :| 0 <= k < |qs| && qs[k] == i;
        assert ps[k] == i;
      }
    }
  }

  lemma OthersDrop(front: seq<Extension>, e: Extension, t: u16, qs: seq<nat>, kept: seq<Extension>)
    requires OthersAt(front, t, qs, kept) && e.typ == t
    ensures OthersAt(front + [e], t, qs, kept)
  {
  }

  /** Dropping a type keeps every other extension, in order. */
  lemma {:induction false} OthersKept(exts: seq<Extension>, t: u16) returns (ps: seq<nat>)
    ensures OthersAt(exts, t, ps, Without(exts, t))
    decreases |exts|
  {
    if exts == [] {
      ps := [];
    } else {
      var n := |exts| - 1;
      var front, e := exts[..n], exts[n];
      assert exts == front + [e];
      WithoutSnoc(front, e, t);
      ps := OthersKept(front, t);
      if e.typ == t {
        OthersDrop(front, e, t, ps, Without(front, t));
      } else {
        OthersSnoc(front, e, t, ps, Without(front, t));
        ps := ps + [n];
      }
    }
  }

  /** SetTicketAuth's hello: the other extensions as they were and in order, then one pre_shared_key with the
      ticket; nothing in front of the extensions changes. */
  lemma SignedStands(c: Crypto, h: Hello, ticket: bytes, psk: Bytes32, age: Age, binderLen: nat) returns (ps: seq<nat>, binder: bytes)
    requires Ideal(c) && Signed(c, h, ticket, psk, age, binderLen).Some? && |ticket| + 6 < 0x1_0000
    ensures var s := Signed(c, h, ticket, psk, age, binderLen).value;
            var n := |s.extensions| - 1;
            && s == h.(extensions := s.extensions) && 0 <= n
            && OthersAt(h.extensions, 0x0029, ps, s.extensions[..n])
            && s.extensions[n].typ == 0x0029 && PskAt(s.extensions[n].data, ticket, age, binder)
            && |binder| == binderLen && (binderLen == 32 || binderLen == 48)
  {
    binder := BinderOf(c, h, ticket, age, psk, binderLen);
    SignedIs(c, h, ticket, psk, age, binderLen);
    ps := OthersKept(h.extensions, EXT_PRE_SHARED_KEY);
    PskStands(ticket, age, binder);
    var kept := Without(h.extensions, EXT_PRE_SHARED_KEY);
    assert (kept + [Extension(EXT_PRE_SHARED_KEY, PskBody(ticket, age, binder))])[..|kept|] == kept;
  }

  /** The binder, on the record that leaves: its last bytes are the MAC, under a key derived from the psk, of
      everything in front of the binders list. */
  lemma BinderStands(c: Crypto, h: Hello, ticket: bytes, psk: Bytes32, age: Age, binderLen: nat)
    requires Ideal(c) && Signed(c, h, ticket, psk, age, binderLen).Some?
    ensures var rec := Encode(Signed(c, h, ticket, psk, age, binderLen).value);
            && |rec| > binderLen + 3
            && rec[|rec| - binderLen..] == c.hmac(binderLen, c.hmac(32, psk, Ascii("twiddle/binder/v1")), rec[..|rec| - binderLen - 3])
  {
    var binder := BinderOf(c, h, ticket, age, psk, binderLen);
    SignedIs(c, h, ticket, psk, age, binderLen);
    BinderPlaced(h, ticket, age, binder);
    TruncatedIndependent(h, ticket, age, binder, Zeros(binderLen));
  }

  lemma BinderPlaced(h: Hello, ticket: bytes, age: Age, binder: bytes)
    ensures var rec, n := Encode(WithPSK(h, ticket, age, binder)), |binder|;
            && |rec| > n + 3 && rec[|rec| - n..] == binder && Truncate(rec, n) == rec[..|rec| - n - 3]
  {
    RecordEndsInBinder(h, ticket, age, binder);
    FrontTail(h, ticket, age, |binder|);
    BinderBehind(RecordFront(h, ticket, age, |binder|), binder);
  }

  lemma BinderBehind(front: bytes, binder: bytes)
    requires |front| >= 11
    ensures var rec := front + binder;
            && rec[|rec| - |binder|..] == binder && Truncate(rec, |binder|) == rec[..|rec| - |binder| - 3]
  {
  }

  // ------------------------------------------------------------- full handshakes

  /** What SetECHTicketAuth writes: the random, and of the first ECH body the payload - the ticket and then
      the draws. */
  lemma CarrierStands(c: Crypto, h: Hello, ticket: bytes, psk: Bytes32, pad: nat -> byte)
    requires Ideal(c) && SignedFull(c, h, ticket, psk, pad).Some?
    ensures Carrier(h).Some?
    ensures var s, (i, p, n) := SignedFull(c, h, ticket, psk, pad).value, Carrier(h).value;
            && s == h.(random := s.random, extensions := h.extensions[i := Extension(0xfe0d, s.extensions[i].data)])
            && 144 <= n && PayloadWritten(h.extensions[i].data, p, n, ticket, pad, s.extensions[i].data)
  {
    var (i, p, n) := Carrier(h).value;
    PayloadPlaced(h.extensions[i].data, p, n, ticket, pad);
  }

  predicate PayloadWritten(d: bytes, p: nat, n: nat, ticket: bytes, pad: nat -> byte, r: bytes) {
    && |r| == |d| && p + n <= |d| && |ticket| == 144 <= n && Stands(r, p, ticket)
    && (forall j :: 0 <= j < n - 144 ==> r[p + 144 + j] == pad(j))
    && (forall j :: 0 <= j < |d| && (j < p || p + n <= j) ==> r[j] == d[j])
  }

  lemma PayloadPlaced(d: bytes, p: nat, n: nat, ticket: bytes, pad: nat -> byte)
    requires p + n <= |d| && |ticket| == FULL_TICKET_LEN <= n
    ensures PayloadWritten(d, p, n, ticket, pad, WithPayload(d, p, n, ticket, pad))
  {
    var r, draws := WithPayload(d, p, n, ticket, pad), DrawBytes(n - FULL_TICKET_LEN, pad);
    assert r == d[..p] + (ticket + (draws + d[p + n..]));
    Between(d[..p], ticket, draws + d[p + n..]);
    forall j | 0 <= j < n - 144 ensures r[p + 144 + j] == pad(j) {
      assert r[p + 144 + j] == draws[j];
    }
    forall j | 0 <= j < |d| && (j < p || p + n <= j) ensures r[j] == d[j] {
      assert j >= p + n ==> d[p + n..][j - p - n] == d[j];
    }
  }

  lemma RandomAt(h: Hello)
    requires |h.sessionID| < 0x100
    ensures var r := Encode(h);
            && |r| >= 43 && r[11..43] == h.random
            && Encode(h.(random := Zeros(32))) == r[..11] + Zeros(32) + r[43..]
  {
    var n := |EncExts(h.extensions)|;
    var rest := Vec8(h.sessionID) + TailWith(h, n);
    var front := FrontOf(|EncBody(h)|, h.version);
    Swap(front, h.random, Zeros(32), rest);
    FrameSplit(h.version, h.random, rest);
    FrameSplit(h.version, Zeros(32), rest);
    Cleared(h);
  }

  /** Everything of a record in front of the random. */
  function FrontOf(n: nat, version: u16): (r: bytes)
    ensures |r| == 11
  {
    [0x16, 0x03, 0x01] + U16(n + 4) + [0x01, n / 0x1_0000 % 0x100, n / 0x100 % 0x100, n % 0x100] + U16(version)
  }

  lemma FrameSplit(version: u16, random: Bytes32, rest: bytes)
    ensures var b := U16(version) + (random + rest); Frame(b) == FrontOf(|b|, version) + (random + rest)
  {
  }

  /** Clearing the random changes nothing else of the body. */
  lemma Cleared(h: Hello)
    ensures var rest := Vec8(h.sessionID) + TailWith(h, |EncExts(h.extensions)|);
            && EncBody(h) == U16(h.version) + (h.random + rest)
            && EncBody(h.(random := Zeros(32))) == U16(h.version) + (Zeros(32) + rest)
            && |EncBody(h.(random := Zeros(32)))| == |EncBody(h)|
  {
    assert TailWith(h.(random := Zeros(32)), |EncExts(h.extensions)|) == TailWith(h, |EncExts(h.extensions)|);
  }

  lemma Swap(a: bytes, x: bytes, y: bytes, b: bytes)
    requires |x| == |y|
    ensures var r := a + (x + b);
            r[|a|..|a| + |x|] == x && a + (y + b) == r[..|a|] + y + r[|a| + |x|..]
  {
    var r := a + (x + b);
    Between(a, x, b);
    assert r[..|a|] == a && r[|a| + |x|..] == b;
    Assoc(a, y, b);
  }

  /** The MAC, on the record that leaves: the random is the MAC, under a key derived from the psk, of the
      whole record with the random cleared. */
  lemma FullMacStands(c: Crypto, h: Hello, ticket: bytes, psk: Bytes32, pad: nat -> byte)
    requires Ideal(c) && SignedFull(c, h, ticket, psk, pad).Some? && |h.sessionID| < 0x100
    ensures var rec := Encode(SignedFull(c, h, ticket, psk, pad).value);
            && |rec| >= 43
            && rec[11..43] == c.hmac(32, c.hmac(32, psk, Ascii("twiddle/full-mac/v1")), rec[..11] + Zeros(32) + rec[43..])
  {
    var s := SignedFull(c, h, ticket, psk, pad).value;
    SignedIsCarrying(c, h, ticket, psk, pad);
    RandomAt(s);
  }

  /** The carriers of a pool, record by record and in the pool's order: each that can carry a ticket, behind
      those of the records in front of it, and no other. */
  lemma {:induction false} CarriersJoin(a: seq<bytes>, rec: bytes, b: seq<bytes>)
    ensures Carriers(a + [rec] + b) == Carriers(a) + (if CanCarry(rec) then [rec] else []) + Carriers(b)
    ensures Carriers([]) == []
    decreases |b|
  {
    if b == [] {
      CarriersSnoc(a, rec);
      assert a + [rec] + b == a + [rec];
    } else {
      var n := |b| - 1;
      assert b == b[..n] + [b[n]];
      assert a + [rec] + b == a + [rec] + b[..n] + [b[n]];
      CarriersJoin(a, rec, b[..n]);
      CarriersSnoc(a + [rec] + b[..n], b[n]);
      CarriersSnoc(b[..n], b[n]);
    }
  }

  // ------------------------------------------------------------------------- age

  lemma AgeOfResumed(c: Crypto, h: Hello, maxAge: int, now: int)
    ensures var free := Verify(c, h, 0, 0);
            Verify(c, h, maxAge, now)
            == if free.Some? && (maxAge <= 0 || now - free.value.issuedSeconds * 1_000_000_000 <= maxAge) then free else None
  {
  }

  lemma AgeOfFull(c: Crypto, h: Hello, maxAge: int, now: int)
    requires Ideal(c)
    ensures var free := VerifyFull(c, h, 0, 0);
            VerifyFull(c, h, maxAge, now)
            == if free.Some? && (maxAge <= 0 || now - free.value.issuedSeconds * 1_000_000_000 <= maxAge) then free else None
  {
  }

  /** The clock decides nothing but the age: a hello is accepted at some moment under some limit exactly when
      it is accepted without one and its ticket is at most that old, to the nanosecond; and then as the
      same client. */
  lemma AgeDecides(c: Crypto, h: Hello, maxAge: int, now: int)
    requires Ideal(c)
    ensures var free := Verified(c, h, 0, 0);
            Verified(c, h, maxAge, now)
            == if free.Some? && (maxAge <= 0 || now - free.value.issuedSeconds * 1_000_000_000 <= maxAge) then free else None
  {
    AgeOfResumed(c, h, maxAge, now);
    AgeOfFull(c, h, maxAge, now);
  }

  /** What verifyAt accepts, and as whom: exactly the hellos whose first pre_shared_key holds a ticket that
      opens, not too old, and a binder of 32 or 48 bytes that is the MAC, under the ticket's psk, of the
      hello rebuilt and truncated, and which offer a key that can be read. */
  lemma ResumedVerifies(c: Crypto, h: Hello, maxAge: int, now: int, r: AuthResult)
    requires Presented(h).Some?
    ensures Verify(c, h, maxAge, now) == Some(r) <==>
            var p := Presented(h).value;
            && OpenTicket(c, p.ticket) == Some(TicketInfo(r.clientID, r.psk, r.issuedSeconds))
            && (maxAge <= 0 || now - r.issuedSeconds * 1_000_000_000 <= maxAge) && (|p.binder| == 32 || |p.binder| == 48)
            && p.binder == c.hmac(|p.binder|, c.hmac(32, r.psk, Ascii("twiddle/binder/v1")), BoundBytes(h))
            && KeyShareOf(h) == Some(r.ephemeral)
  {
    if Verify(c, h, maxAge, now) == Some(r) {
      VerifyReads(c, h, maxAge, now);
    }
  }

  /** And verifyECHAt: exactly the hellos without pre_shared_key whose first ECH payload begins with a ticket that
      opens, not too old, whose random is the MAC of the record with the random cleared, and which offer a
      key that can be read. */
  lemma FullVerifies(c: Crypto, h: Hello, maxAge: int, now: int, r: AuthResult)
    requires Ideal(c)
    ensures VerifyFull(c, h, maxAge, now) == Some(r) <==>
            && (forall e :: e in h.extensions ==> e.typ != 0x0029) && CarriedTicket(h).Some?
            && OpenTicket(c, CarriedTicket(h).value) == Some(TicketInfo(r.clientID, r.psk, r.issuedSeconds))
            && (maxAge <= 0 || now - r.issuedSeconds * 1_000_000_000 <= maxAge)
            && h.random == c.hmac(32, c.hmac(32, r.psk, Ascii("twiddle/full-mac/v1")), Encode(h.(random := Zeros(32))))
            && KeyShareOf(h) == Some(r.ephemeral)
  {
    var at := FirstOf(h.extensions, EXT_PRE_SHARED_KEY);
    if at.Some? {
      assert h.extensions[at.value] in h.extensions;
    }
    if VerifyFull(c, h, maxAge, now) == Some(r) {
      FullVerifyReads(c, h, maxAge, now);
    }
  }

  // ------------------------------------------------------------------ validation

  /** What the validator asks for, and which ticket it names: the cover's name, the cover's suite among the
      offers; for a resumption an identity and a binder of the cover's lengths; for a full handshake a cover
      that can answer one and a payload that holds a ticket. */
  lemma ValidatedMeans(p: Cover, h: Hello, ticket: bytes)
    ensures Validated(p, h) == Some(ticket) <==>
            && p.hostMatches(NameIn(h.extensions)) && (exists i :: 0 <= i < |h.ciphers| && h.ciphers[i] == p.cipherSuite)
            && if exists e :: e in h.extensions && e.typ == 0x0029
               then Presented(h).Some? && Presented(h).value.ticket == ticket && |ticket| == p.ticketLen && |Presented(h).value.binder| == p.binderLen
               else p.canEmitFull && Carrier(h).Some? && Carrier(h).value.2 >= 144
                    && var (i, at, _) := Carrier(h).value; ticket == h.extensions[i].data[at..at + 144]
  {
    var at := FirstOf(h.extensions, EXT_PRE_SHARED_KEY);
    if at.Some? {
      assert h.extensions[at.value] in h.extensions;
    }
  }
}
