/** The whole client pipeline (twiddle.go Twiddle) against the server's validation (cover.go) and
    verification: what is emitted is what the server accepts. */
module Twiddle {
  import opened Bytes
  import opened HelloCodec
  import opened ClientHelloObject
  import opened Emission
  import opened Admission
  import opened EmissionObject
  import opened Auth
  import opened EchCarrier
  import opened AuthObject

  /** What a client presents; a credential without a full ticket has an empty one. */
  datatype Credential = Credential(ticket: bytes, fullTicket: bytes, psk: Bytes32)

  datatype Options = Options(coverSNI: bytes, credential: Credential, binderLen: nat, full: bool)

  /** Every draw of one emission. */
  datatype Randomness = Randomness(w: Draws, picks: nat -> nat, pub: Bytes32, age: Age, pad: nat -> byte)

  ghost predicate Fair(e: Randomness) {
    GoodDraws(e.w) && GoodPicks(e.picks)
  }

  /** The cover name set, if there is one. */
  function Named(h: Hello, name: bytes): Option<Hello> {
    if name == [] then Some(h) else WithName(h, name)
  }

  /** The emitted hello; its record is its encoding. */
  ghost function Twiddled(c: Crypto, rec: bytes, o: Options, e: Randomness): Option<Hello>
    requires Ideal(c) && Fair(e)
  {
    var h :- Decode(rec);
    var named :- Named(h, o.coverSNI);
    var shaped :- Emitted(named, e.w, e.picks, e.pub);
    Authenticated(c, shaped, o, e)
  }

  function Stripped(h: Hello): Hello {
    h.(extensions := Without(h.extensions, EXT_PRE_SHARED_KEY))
  }

  /** The last step: the carrier for a full handshake, the binder for a resumption. */
  ghost function Authenticated(c: Crypto, h: Hello, o: Options, e: Randomness): Option<Hello>
    requires Ideal(c)
  {
    if o.full then SignedFull(c, Stripped(h), o.credential.fullTicket, o.credential.psk, e.pad)
    else Signed(c, h, o.credential.ticket, o.credential.psk, e.age, o.binderLen)
  }

  method Emit(c: Crypto, rec: bytes, o: Options, e: Randomness) returns (wire: Option<bytes>)
    requires Ideal(c) && Fair(e)
    ensures wire == (match Twiddled(c, rec, o, e) case None => None case Some(s) => Some(Encode(s)))
  {
    var h := ParseClientHello(rec);
    if h == null {
      return None;
    }
    if o.coverSNI != [] {
      var named := h.SetSNI(o.coverSNI);
      if !named {
        return None;
      }
    }
    var shaped := Shape(h, e);
    if !shaped {
      return None;
    }
    var signed := Authenticate(h, c, o, e);
    if !signed {
      return None;
    }
    var out := h.Marshal();
    wire := Some(out);
  }

  /** Rerandomize, Shuffle and SetKeyShare. */
  method Shape(h: ClientHello, e: Randomness) returns (ok: bool)
    requires Fair(e)
    modifies h
    ensures ok <==> Emitted(old(h.Value()), e.w, e.picks, e.pub).Some?
    ensures ok ==> h.Value() == Emitted(old(h.Value()), e.w, e.picks, e.pub).value
  {
    ok := Rerandomize(h, e.w);
    if !ok {
      return false;
    }
    ok := Shuffle(h, e.picks);
    if !ok {
      return false;
    }
    ok := SetKeyShare(h, e.pub);
  }

  method Authenticate(h: ClientHello, c: Crypto, o: Options, e: Randomness) returns (ok: bool)
    requires Ideal(c)
    modifies h
    ensures ok <==> Authenticated(c, old(h.Value()), o, e).Some?
    ensures ok ==> h.Value() == Authenticated(c, old(h.Value()), o, e).value
  {
    if o.full {
      var _ := h.DropExtension(EXT_PRE_SHARED_KEY);
      if |o.credential.fullTicket| != FULL_TICKET_LEN {
        return false;
      }
      ok := SetECHTicketAuth(h, c, o.credential.fullTicket, o.credential.psk, e.pad);
    } else {
      ok := SetTicketAuth(h, c, o.credential.ticket, o.credential.psk, e.age, o.binderLen);
    }
  }

  // ------------------------------------------------------------- the server's side

  /** The parts of a cover profile the validators read; hostMatches is the case-insensitive comparison
      with the cover's host. */
  datatype Cover = Cover(hostMatches: bytes -> bool, cipherSuite: u16, binderLen: nat, ticketLen: nat, canEmitFull: bool)

  /** validateClientHello: the ticket the replay gate must spend. */
  function Validated(p: Cover, h: Hello): Option<bytes> {
    var _ :- Need(p.hostMatches(NameIn(h.extensions)) && p.cipherSuite in h.ciphers);
    if FirstOf(h.extensions, EXT_PRE_SHARED_KEY).None? then
      var _ :- Need(p.canEmitFull);
      CarriedTicket(h)
    else
      var psk :- Presented(h);
      var _ :- Need(|psk.ticket| == p.ticketLen && |psk.binder| == p.binderLen);
      Some(psk.ticket)
  }

  /** The authenticator the same signal selects. */
  ghost function Verified(c: Crypto, h: Hello, maxAge: int, now: int): Option<AuthResult>
    requires Ideal(c)
  {
    if FirstOf(h.extensions, EXT_PRE_SHARED_KEY).None? then VerifyFull(c, h, maxAge, now) else Verify(c, h, maxAge, now)
  }

  /** For both shapes, the ticket the validator names is byte for byte the one the verifier opened. */
  lemma SpendsWhatItOpened(c: Crypto, p: Cover, h: Hello, maxAge: int, now: int)
    requires Ideal(c) && Validated(p, h).Some? && Verified(c, h, maxAge, now).Some?
    ensures var r := Verified(c, h, maxAge, now).value;
            && OpenTicket(c, Validated(p, h).value) == Some(TicketInfo(r.clientID, r.psk, r.issuedSeconds))
            && !Expired(r.issuedSeconds, maxAge, now) && KeyShareOf(h) == Some(r.ephemeral)
  {
    if FirstOf(h.extensions, EXT_PRE_SHARED_KEY).None? {
      FullVerifyReads(c, h, maxAge, now);
    } else {
      VerifyReads(c, h, maxAge, now);
    }
  }

  // ------------------------------------------------- what survives the pipeline

  lemma NameFrom(a: seq<Extension>, b: seq<Extension>)
    requires Found(a, EXT_SERVER_NAME) == Found(b, EXT_SERVER_NAME)
    ensures NameIn(a) == NameIn(b)
  {
  }

  /** Every server_name shows a name the cover accepts. */
  ghost predicate CoverNames(p: Cover, exts: seq<Extension>) {
    FirstOf(exts, EXT_SERVER_NAME).Some? && Every(exts, EXT_SERVER_NAME, d => p.hostMatches(NameOf(d)))
  }

  /** SetKeyShare changes one key_share and nothing else. */
  lemma InstallKeeps(h: Hello, pub: Bytes32, t: u16, ok: bytes -> bool)
    requires WithKeyShare(h, pub).Some? && t != EXT_KEY_SHARE && Every(h.extensions, t, ok)
    ensures var r := WithKeyShare(h, pub).value.extensions;
            Every(r, t, ok) && FirstOf(r, t) == FirstOf(h.extensions, t)
  {
    SamePlaces(h.extensions, WithKeyShare(h, pub).value.extensions, t);
  }

  /** What Rerandomize leaves of a type is what the emission does. */
  lemma EmittedKeeps(h: Hello, w: Draws, picks: nat -> nat, pub: Bytes32, t: u16, ok: bytes -> bool)
    requires GoodDraws(w) && GoodPicks(picks) && Emitted(h, w, picks, pub).Some? && t != EXT_KEY_SHARE && !IsGREASE(t)
    requires FirstOf(h.extensions, t).Some? && Every(Rerandomized(h, w).value.extensions, t, ok)
    ensures var r := Emitted(h, w, picks, pub).value.extensions; Every(r, t, ok) && FirstOf(r, t).Some?
  {
    var h1 := Rerandomized(h, w).value;
    var exts := Shuffled(h1.extensions, picks).value;
    RerandomizePlaces(h, w, t);
    ShuffleKeepsEnds(h1.extensions, picks);
    EveryOfPermutation(h1.extensions, exts, t, ok);
    InstallKeeps(h1.(extensions := exts), pub, t, ok);
  }

  // ------------------------------------------------------------- acceptance

  /** The names a template shows once the cover's is set: the first server_name gets it, and any other, or
      every one when no name is given, must already show one the cover accepts. */
  predicate NamesFit(exts: seq<Extension>, p: Cover, name: bytes) {
    && FirstOf(exts, EXT_SERVER_NAME).Some? && |name| <= 0xffff - 5 && (name != [] ==> p.hostMatches(name))
    && forall i :: 0 <= i < |exts| && exts[i].typ == EXT_SERVER_NAME && (name == [] || FirstOf(exts, EXT_SERVER_NAME) != Some(i))
                   ==> p.hostMatches(NameOf(exts[i].data))
  }

  /** A record the pipeline can work with, whether or not it carries a pre_shared_key: ends that Shuffle
      accepts, key shares that work in every order, names that fit, and the cover's suite among its
      offers. */
  predicate GoodTemplate(h: Hello, p: Cover, name: bytes) {
    && TailLen(h.extensions).Some? && FirstOf(h.extensions, EXT_KEY_SHARE).Some? && WorkableShares(h)
    && NamesFit(h.extensions, p, name) && p.cipherSuite in h.ciphers && !IsGREASE(p.cipherSuite)
  }

  /** The hello just before authentication. */
  ghost function ShapedBy(h: Hello, name: bytes, e: Randomness): Option<Hello>
    requires Fair(e)
  {
    var named :- Named(h, name);
    Emitted(named, e.w, e.picks, e.pub)
  }

  /** Setting the name rewrites the first server_name and nothing else. */
  lemma NamedAt(h: Hello, name: bytes)
    requires FirstOf(h.extensions, EXT_SERVER_NAME).Some? && |name| <= 0xffff - 5
    ensures Named(h, name).Some?
    ensures var r, at := Named(h, name).value, FirstOf(h.extensions, EXT_SERVER_NAME).value;
            && |r.extensions| == |h.extensions| && r == h.(extensions := r.extensions)
            && (forall i :: 0 <= i < |h.extensions| ==> r.extensions[i].typ == h.extensions[i].typ)
            && (forall i :: 0 <= i < |h.extensions| && (i != at || name == []) ==> r.extensions[i] == h.extensions[i])
  {
  }

  lemma NamedShares(h: Hello, r: Hello)
    requires |r.extensions| == |h.extensions| && (forall i :: 0 <= i < |h.extensions| ==> r.extensions[i].typ == h.extensions[i].typ)
    requires forall i :: 0 <= i < |h.extensions| && h.extensions[i].typ != EXT_SERVER_NAME ==> r.extensions[i] == h.extensions[i]
    requires TailLen(h.extensions).Some? && FirstOf(h.extensions, EXT_KEY_SHARE).Some? && WorkableShares(h)
    ensures TailLen(r.extensions).Some? && FirstOf(r.extensions, EXT_KEY_SHARE).Some? && WorkableShares(r)
  {
    TailFromTypes(h.extensions, r.extensions);
    SamePlaces(h.extensions, r.extensions, EXT_KEY_SHARE);
  }

  lemma NamedNames(h: Hello, p: Cover, name: bytes)
    requires NamesFit(h.extensions, p, name)
    ensures Named(h, name).Some? && CoverNames(p, Named(h, name).value.extensions)
  {
    NamedAt(h, name);
    var r := Named(h, name).value;
    SamePlaces(h.extensions, r.extensions, EXT_SERVER_NAME);
    if name != [] {
      NameRoundTrip(h, name);
    }
  }

  lemma NamedTemplate(h: Hello, p: Cover, name: bytes)
    requires GoodTemplate(h, p, name)
    ensures Named(h, name).Some?
    ensures var r := Named(h, name).value;
            && TailLen(r.extensions).Some? && FirstOf(r.extensions, EXT_KEY_SHARE).Some? && WorkableShares(r)
            && CoverNames(p, r.extensions) && r.ciphers == h.ciphers
  {
    NamedAt(h, name);
    NamedShares(h, Named(h, name).value);
    NamedNames(h, p, name);
  }

  lemma SuiteKept(ciphers: seq<u16>, v: u16, suite: u16)
    requires suite in ciphers && !IsGREASE(suite)
    ensures suite in RedrawCiphers(ciphers, v)
  {
    var i: int :| 0 <= i < |ciphers| && ciphers[i] == suite;
    assert RedrawCiphers(ciphers, v)[i] == suite;
  }

  lemma SuiteSurvives(h: Hello, w: Draws, picks: nat -> nat, pub: Bytes32, suite: u16)
    requires GoodDraws(w) && GoodPicks(picks) && suite in h.ciphers && !IsGREASE(suite) && Emitted(h, w, picks, pub).Some?
    ensures suite in Emitted(h, w, picks, pub).value.ciphers
  {
    SuiteKept(h.ciphers, w.cipher, suite);
    EmittedRest(h, w, picks, pub);
  }

  /** What the shaped hello shows: the installed key, a name the cover accepts, the cover's suite. */
  lemma ShapedShows(h: Hello, p: Cover, name: bytes, e: Randomness)
    requires Fair(e) && GoodTemplate(h, p, name)
    ensures ShapedBy(h, name, e).Some?
    ensures var s := ShapedBy(h, name, e).value;
            KeyShareOf(s) == Some(e.pub) && p.hostMatches(NameIn(s.extensions)) && p.cipherSuite in s.ciphers
  {
    var r := Named(h, name).value;
    NamedTemplate(h, p, name);
    WorkableWorks(r, e.w, e.picks, e.pub);
    RerandomizeKeepsEvery(r, e.w, EXT_SERVER_NAME, d => p.hostMatches(NameOf(d)));
    EmittedKeeps(r, e.w, e.picks, e.pub, EXT_SERVER_NAME, d => p.hostMatches(NameOf(d)));
    SuiteSurvives(r, e.w, e.picks, e.pub, p.cipherSuite);
  }

  lemma FoundInSigned(h: Hello, ticket: bytes, age: Age, binder: bytes, u: u16)
    requires u != EXT_PRE_SHARED_KEY
    ensures Found(WithPSK(h, ticket, age, binder).extensions, u) == Found(h.extensions, u)
  {
    WithoutKeepsOthers(h.extensions, EXT_PRE_SHARED_KEY, u);
    FirstOfSnoc(Without(h.extensions, EXT_PRE_SHARED_KEY), Extension(EXT_PRE_SHARED_KEY, PskBody(ticket, age, binder)), u);
  }

  lemma ValidatedResumed(p: Cover, h: Hello, ticket: bytes, age: Age, binder: bytes)
    requires p.hostMatches(NameIn(h.extensions)) && p.cipherSuite in h.ciphers
    requires |ticket| == p.ticketLen && |binder| == p.binderLen && |ticket| + 6 < 0x1_0000 && |binder| < 0x100
    ensures Validated(p, WithPSK(h, ticket, age, binder)) == Some(ticket)
  {
    FoundInSigned(h, ticket, age, binder, EXT_SERVER_NAME);
    NameFrom(WithPSK(h, ticket, age, binder).extensions, h.extensions);
    PskIsFound(h, ticket, age, binder);
    PskRoundTrip(ticket, age, binder);
  }

  lemma TwiddledIs(c: Crypto, rec: bytes, o: Options, e: Randomness)
    requires Ideal(c) && Fair(e) && Decode(rec).Some? && ShapedBy(Decode(rec).value, o.coverSNI, e).Some?
    ensures Twiddled(c, rec, o, e) == Authenticated(c, ShapedBy(Decode(rec).value, o.coverSNI, e).value, o, e)
  {
  }

  /** The server accepts this hello, names this ticket and takes out what its holder put in. */
  ghost predicate Accepted(c: Crypto, p: Cover, s: Hello, ticket: bytes, pub: Bytes32, maxAge: int, now: int)
    requires Ideal(c)
  {
    && Decode(Encode(s)) == Some(s) && Validated(p, s) == Some(ticket) && OpenTicket(c, ticket).Some?
    && var info := OpenTicket(c, ticket).value;
       Verified(c, s, maxAge, now) == Some(AuthResult(info.clientID, info.psk, info.issuedSeconds, pub))
  }

  /** The ticket opens to the psk beside it and has not expired. */
  ghost predicate Holds(c: Crypto, ticket: bytes, psk: Bytes32, maxAge: int, now: int) {
    OpenTicket(c, ticket).Some? && OpenTicket(c, ticket).value.psk == psk
    && !Expired(OpenTicket(c, ticket).value.issuedSeconds, maxAge, now)
  }

  lemma BoundAccepted(c: Crypto, p: Cover, h: Hello, cred: Credential, e: Randomness, maxAge: int, now: int)
    requires Ideal(c) && p.hostMatches(NameIn(h.extensions)) && p.cipherSuite in h.ciphers && KeyShareOf(h) == Some(e.pub)
    requires (p.binderLen == 32 || p.binderLen == 48) && |cred.ticket| == p.ticketLen && p.ticketLen + 6 < 0x1_0000
    requires Holds(c, cred.ticket, cred.psk, maxAge, now)
    ensures Signed(c, h, cred.ticket, cred.psk, e.age, p.binderLen).Some?
    ensures var s := Signed(c, h, cred.ticket, cred.psk, e.age, p.binderLen).value;
            Fits(s) ==> Accepted(c, p, s, cred.ticket, e.pub, maxAge, now)
  {
    SignedIs(c, h, cred.ticket, cred.psk, e.age, p.binderLen);
    var binder := BinderOf(c, h, cred.ticket, e.age, cred.psk, p.binderLen);
    var s := WithPSK(h, cred.ticket, e.age, binder);
    ValidatedResumed(p, h, cred.ticket, e.age, binder);
    PskIsFound(h, cred.ticket, e.age, binder);
    if Fits(s) {
      SignedVerifies(c, h, cred.ticket, cred.psk, e.age, p.binderLen, maxAge, now);
    }
  }

  /** What the cover's checks and the key exchange need a hello to show. */
  ghost predicate CoverShown(p: Cover, h: Hello, pub: Bytes32) {
    KeyShareOf(h) == Some(pub) && p.hostMatches(NameIn(h.extensions)) && p.cipherSuite in h.ciphers
  }

  lemma AcceptedShows(c: Crypto, p: Cover, s: Hello, ticket: bytes, pub: Bytes32, maxAge: int, now: int)
    requires Ideal(c) && Accepted(c, p, s, ticket, pub, maxAge, now)
    ensures CoverShown(p, s, pub)
  {
    SpendsWhatItOpened(c, p, s, maxAge, now);
  }

  lemma SignedShowsCover(c: Crypto, p: Cover, h: Hello, cred: Credential, age: Age, binderLen: nat, pub: Bytes32)
    requires Ideal(c) && Signed(c, h, cred.ticket, cred.psk, age, binderLen).Some?
    ensures CoverShown(p, Signed(c, h, cred.ticket, cred.psk, age, binderLen).value, pub) <==> CoverShown(p, h, pub)
  {
    SignedIs(c, h, cred.ticket, cred.psk, age, binderLen);
    var binder := BinderOf(c, h, cred.ticket, age, cred.psk, binderLen);
    FoundInSigned(h, cred.ticket, age, binder, EXT_SERVER_NAME);
    NameFrom(WithPSK(h, cred.ticket, age, binder).extensions, h.extensions);
    KeyShareSurvivesPSK(h, cred.ticket, age, binder);
  }

  /** One resumption, exactly: with a credential that holds, the emission is accepted precisely when the
      shaped hello shows the installed key, a name the cover accepts and the cover's suite. */
  lemma ResumedExactly(c: Crypto, p: Cover, rec: bytes, o: Options, e: Randomness, maxAge: int, now: int)
    requires Ideal(c) && Fair(e) && Decode(rec).Some? && ShapedBy(Decode(rec).value, o.coverSNI, e).Some? && !o.full
    requires o.binderLen == p.binderLen && (p.binderLen == 32 || p.binderLen == 48)
    requires |o.credential.ticket| == p.ticketLen && p.ticketLen + 6 < 0x1_0000
    requires Holds(c, o.credential.ticket, o.credential.psk, maxAge, now)
    ensures Twiddled(c, rec, o, e).Some?
    ensures Fits(Twiddled(c, rec, o, e).value) ==>
      (Accepted(c, p, Twiddled(c, rec, o, e).value, o.credential.ticket, e.pub, maxAge, now)
       <==> CoverShown(p, ShapedBy(Decode(rec).value, o.coverSNI, e).value, e.pub))
  {
    var h := ShapedBy(Decode(rec).value, o.coverSNI, e).value;
    TwiddledIs(c, rec, o, e);
    SignedIs(c, h, o.credential.ticket, o.credential.psk, e.age, p.binderLen);
    if CoverShown(p, h, e.pub) {
      BoundAccepted(c, p, h, o.credential, e, maxAge, now);
    } else {
      SignedShowsCover(c, p, h, o.credential, e.age, p.binderLen, e.pub);
      if Accepted(c, p, Twiddled(c, rec, o, e).value, o.credential.ticket, e.pub, maxAge, now) {
        AcceptedShows(c, p, Twiddled(c, rec, o, e).value, o.credential.ticket, e.pub, maxAge, now);
      }
    }
  }

  /** Resumption, end to end: from a workable template, pre_shared_key or not, every emission whose lengths
      fit is parsed back, passes the cover's checks, names the credential's ticket as the one to spend, and
      yields the client, the psk and the very key the client holds the secret of. */
  lemma ResumedAccepted(c: Crypto, p: Cover, rec: bytes, o: Options, e: Randomness, maxAge: int, now: int)
    requires Ideal(c) && Fair(e) && Decode(rec).Some? && GoodTemplate(Decode(rec).value, p, o.coverSNI) && !o.full
    requires o.binderLen == p.binderLen && (p.binderLen == 32 || p.binderLen == 48)
    requires |o.credential.ticket| == p.ticketLen && p.ticketLen + 6 < 0x1_0000
    requires Holds(c, o.credential.ticket, o.credential.psk, maxAge, now)
    ensures Twiddled(c, rec, o, e).Some?
    ensures Fits(Twiddled(c, rec, o, e).value) ==>
      Accepted(c, p, Twiddled(c, rec, o, e).value, o.credential.ticket, e.pub, maxAge, now)
  {
    ShapedShows(Decode(rec).value, p, o.coverSNI, e);
    ResumedExactly(c, p, rec, o, e, maxAge, now);
  }

  // -------------------------------------------------------------- full handshake

  /** An ECH body whose payload has room for a full ticket. */
  predicate HasRoom(d: bytes) {
    PayloadAt(d).Some? && PayloadAt(d).value.1 >= FULL_TICKET_LEN
  }

  /** The template's first ECH extension is an outer one, which Rerandomize rebuilds with room; any other
      has room already. */
  predicate OuterECH(exts: seq<Extension>) {
    && FirstOf(exts, EXT_ECH).Some?
    && |exts[FirstOf(exts, EXT_ECH).value].data| >= 1 && exts[FirstOf(exts, EXT_ECH).value].data[0] == 0x00
    && forall i :: 0 <= i < |exts| && exts[i].typ == EXT_ECH && FirstOf(exts, EXT_ECH) != Some(i) ==> HasRoom(exts[i].data)
  }

  lemma ECHAt(h: Hello, w: Draws, i: nat)
    requires GoodDraws(w) && Rerandomized(h, w).Some? && i < |h.extensions| && h.extensions[i].typ == EXT_ECH
    ensures var d := h.extensions[i].data;
            Rerandomized(h, w).value.extensions[i].data == if FirstOf(h.extensions, EXT_ECH) == Some(i) then FreshECH(d, w) else d
  {
    RerandomizedAt(h, w, i);
    ECHBody(FirstOf(h.extensions, EXT_ECH) == Some(i), h.extensions[i].data, w);
  }

  lemma ECHBody(first: bool, d: bytes, w: Draws)
    requires GoodDraws(w)
    ensures FreshBody(EXT_ECH, first, RedrawBody(EXT_ECH, first, d, w), w) == if first then FreshECH(d, w) else d
  {
  }

  lemma FreshRoom(d: bytes, w: Draws)
    requires w.bucket < 4 && 1 <= |d| && d[0] == 0x00
    ensures HasRoom(FreshECH(d, w))
  {
    FreshECHCarries(d, w);
  }

  lemma RerandomizedRoom(h: Hello, w: Draws)
    requires GoodDraws(w) && Rerandomized(h, w).Some? && OuterECH(h.extensions)
    ensures Every(Rerandomized(h, w).value.extensions, EXT_ECH, HasRoom)
  {
    var r := Rerandomized(h, w).value.extensions;
    RerandomizeTypes(h, w);
    forall i | 0 <= i < |r| && r[i].typ == EXT_ECH ensures HasRoom(r[i].data) {
      ECHAt(h, w, i);
      if FirstOf(h.extensions, EXT_ECH) == Some(i) {
        FreshRoom(h.extensions[i].data, w);
      }
    }
  }

  lemma NamedECH(h: Hello, name: bytes)
    requires FirstOf(h.extensions, EXT_SERVER_NAME).Some? && |name| <= 0xffff - 5 && OuterECH(h.extensions)
    ensures Named(h, name).Some? && OuterECH(Named(h, name).value.extensions)
  {
    NamedAt(h, name);
    SamePlaces(h.extensions, Named(h, name).value.extensions, EXT_ECH);
  }

  /** The shaped hello, its pre_shared_key gone, has room for a ticket and still shows what it showed. */
  lemma StrippedShows(h: Hello)
    requires FirstOf(h.extensions, EXT_ECH).Some? && Every(h.extensions, EXT_ECH, HasRoom)
    ensures var s := Stripped(h);
            && ECHPayloadLen(s).Some? && ECHPayloadLen(s).value >= FULL_TICKET_LEN
            && FirstOf(s.extensions, EXT_PRE_SHARED_KEY).None?
            && KeyShareOf(s) == KeyShareOf(h) && NameIn(s.extensions) == NameIn(h.extensions)
  {
    var s := Stripped(h);
    WithoutKeepsOthers(h.extensions, EXT_PRE_SHARED_KEY, EXT_ECH);
    WithoutKeepsOthers(h.extensions, EXT_PRE_SHARED_KEY, EXT_KEY_SHARE);
    WithoutKeepsOthers(h.extensions, EXT_PRE_SHARED_KEY, EXT_SERVER_NAME);
    KeyShareFrom(h, s);
    NameFrom(h.extensions, s.extensions);
    WithoutNone(h.extensions, EXT_PRE_SHARED_KEY);
    assert HasRoom(Found(h.extensions, EXT_ECH).value.data);
  }

  lemma ValidatedFull(p: Cover, h: Hello, ticket: bytes, pad: nat -> byte, random: Bytes32)
    requires p.hostMatches(NameIn(h.extensions)) && p.cipherSuite in h.ciphers && p.canEmitFull
    requires Carrying(h, ticket, pad).Some?
    ensures Validated(p, Carrying(h, ticket, pad).value.(random := random)) == Some(ticket)
  {
    var s := Carrying(h, ticket, pad).value.(random := random);
    SignedShows(h, ticket, pad, random);
    CarryingFinds(h, ticket, pad, EXT_SERVER_NAME);
    NameFrom(h.extensions, s.extensions);
  }

  lemma CarriedAccepted(c: Crypto, p: Cover, h: Hello, cred: Credential, e: Randomness, maxAge: int, now: int)
    requires Ideal(c) && p.hostMatches(NameIn(h.extensions)) && p.cipherSuite in h.ciphers && p.canEmitFull
    requires FirstOf(h.extensions, EXT_PRE_SHARED_KEY).None? && KeyShareOf(h) == Some(e.pub)
    requires ECHPayloadLen(h).Some? && ECHPayloadLen(h).value >= FULL_TICKET_LEN == |cred.fullTicket|
    requires Holds(c, cred.fullTicket, cred.psk, maxAge, now)
    ensures SignedFull(c, h, cred.fullTicket, cred.psk, e.pad).Some?
    ensures var s := SignedFull(c, h, cred.fullTicket, cred.psk, e.pad).value;
            Fits(s) ==> Accepted(c, p, s, cred.fullTicket, e.pub, maxAge, now)
  {
    SigningSucceeds(c, h, cred.fullTicket, cred.psk, e.pad);
    var s := SignedFull(c, h, cred.fullTicket, cred.psk, e.pad).value;
    SignedIsCarrying(c, h, cred.fullTicket, cred.psk, e.pad);
    CarryingFits(h, cred.fullTicket, e.pad, s.random);
    ValidatedFull(p, h, cred.fullTicket, e.pad, s.random);
    SignedShows(h, cred.fullTicket, e.pad, s.random);
    if Fits(s) {
      FullSignedVerifies(c, h, cred.fullTicket, cred.psk, e.pad, maxAge, now);
    }
  }

  lemma CarriedShowsCover(c: Crypto, p: Cover, h: Hello, cred: Credential, pad: nat -> byte, pub: Bytes32)
    requires Ideal(c) && SignedFull(c, h, cred.fullTicket, cred.psk, pad).Some?
    ensures CoverShown(p, SignedFull(c, h, cred.fullTicket, cred.psk, pad).value, pub) <==> CoverShown(p, h, pub)
  {
    var s := SignedFull(c, h, cred.fullTicket, cred.psk, pad).value;
    SignedIsCarrying(c, h, cred.fullTicket, cred.psk, pad);
    SignedShows(h, cred.fullTicket, pad, s.random);
    CarryingFinds(h, cred.fullTicket, pad, EXT_SERVER_NAME);
    NameFrom(h.extensions, s.extensions);
  }

  lemma StrippedCover(p: Cover, h: Hello, pub: Bytes32)
    ensures CoverShown(p, Stripped(h), pub) <==> CoverShown(p, h, pub)
    ensures FirstOf(Stripped(h).extensions, EXT_PRE_SHARED_KEY).None?
  {
    WithoutKeepsOthers(h.extensions, EXT_PRE_SHARED_KEY, EXT_KEY_SHARE);
    WithoutKeepsOthers(h.extensions, EXT_PRE_SHARED_KEY, EXT_SERVER_NAME);
    WithoutNone(h.extensions, EXT_PRE_SHARED_KEY);
    KeyShareFrom(h, Stripped(h));
    NameFrom(h.extensions, Stripped(h).extensions);
  }

  /** The first ECH extension has room for a full ticket. */
  predicate CanCarryTicket(h: Hello) {
    ECHPayloadLen(h).Some? && ECHPayloadLen(h).value >= FULL_TICKET_LEN
  }

  /** One full handshake, exactly: with a credential that holds and a cover that emits full hellos, there is an
      emission and it is accepted precisely when the shaped hello shows what the cover asks for and has
      room for the ticket. */
  lemma FullExactly(c: Crypto, p: Cover, rec: bytes, o: Options, e: Randomness, maxAge: int, now: int)
    requires Ideal(c) && Fair(e) && Decode(rec).Some? && ShapedBy(Decode(rec).value, o.coverSNI, e).Some? && o.full && p.canEmitFull
    requires |o.credential.fullTicket| == FULL_TICKET_LEN && Holds(c, o.credential.fullTicket, o.credential.psk, maxAge, now)
    ensures var shaped := ShapedBy(Decode(rec).value, o.coverSNI, e).value;
            && (Twiddled(c, rec, o, e).Some? <==> CanCarryTicket(Stripped(shaped)))
            && (Twiddled(c, rec, o, e).Some? && Fits(Twiddled(c, rec, o, e).value) ==>
                (Accepted(c, p, Twiddled(c, rec, o, e).value, o.credential.fullTicket, e.pub, maxAge, now)
                 <==> CoverShown(p, shaped, e.pub)))
  {
    var shaped := ShapedBy(Decode(rec).value, o.coverSNI, e).value;
    var h := Stripped(shaped);
    TwiddledIs(c, rec, o, e);
    StrippedCover(p, shaped, e.pub);
    SigningSucceeds(c, h, o.credential.fullTicket, o.credential.psk, e.pad);
    if CanCarryTicket(h) {
      if CoverShown(p, h, e.pub) {
        CarriedAccepted(c, p, h, o.credential, e, maxAge, now);
      } else {
        CarriedShowsCover(c, p, h, o.credential, e.pad, e.pub);
        if Accepted(c, p, Twiddled(c, rec, o, e).value, o.credential.fullTicket, e.pub, maxAge, now) {
          AcceptedShows(c, p, Twiddled(c, rec, o, e).value, o.credential.fullTicket, e.pub, maxAge, now);
        }
      }
    }
  }

  lemma ShapedCarries(h: Hello, p: Cover, name: bytes, e: Randomness)
    requires Fair(e) && GoodTemplate(h, p, name) && OuterECH(h.extensions)
    ensures ShapedBy(h, name, e).Some?
    ensures var s := Stripped(ShapedBy(h, name, e).value);
            && ECHPayloadLen(s).Some? && ECHPayloadLen(s).value >= FULL_TICKET_LEN
            && FirstOf(s.extensions, EXT_PRE_SHARED_KEY).None?
            && KeyShareOf(s) == Some(e.pub) && p.hostMatches(NameIn(s.extensions)) && p.cipherSuite in s.ciphers
  {
    var named := Named(h, name).value;
    ShapedShows(h, p, name, e);
    NamedECH(h, name);
    RerandomizedRoom(named, e.w);
    EmittedKeeps(named, e.w, e.picks, e.pub, EXT_ECH, HasRoom);
    StrippedShows(ShapedBy(h, name, e).value);
  }

  /** A full handshake, end to end: the same, through the ECH payload and the random. A pre_shared_key the
      template carries is gone from what is emitted. */
  lemma FullAccepted(c: Crypto, p: Cover, rec: bytes, o: Options, e: Randomness, maxAge: int, now: int)
    requires Ideal(c) && Fair(e) && Decode(rec).Some? && GoodTemplate(Decode(rec).value, p, o.coverSNI)
    requires OuterECH(Decode(rec).value.extensions) && o.full && p.canEmitFull
    requires |o.credential.fullTicket| == FULL_TICKET_LEN && Holds(c, o.credential.fullTicket, o.credential.psk, maxAge, now)
    ensures Twiddled(c, rec, o, e).Some?
    ensures Fits(Twiddled(c, rec, o, e).value) ==>
      Accepted(c, p, Twiddled(c, rec, o, e).value, o.credential.fullTicket, e.pub, maxAge, now)
  {
    ShapedCarries(Decode(rec).value, p, o.coverSNI, e);
    StrippedCover(p, ShapedBy(Decode(rec).value, o.coverSNI, e).value, e.pub);
    FullExactly(c, p, rec, o, e, maxAge, now);
  }
}
