/** The admission test of a pool entry (source.go Usable, Sanitize) against the pipeline it is
    meant to predict. */
module Admission {
  import opened Bytes
  import opened HelloCodec
  import opened ExtensionBodies
  import opened ClientHelloObject
  import opened Emission
  import opened Canonical
  import opened PoolIdentity
  import opened Sorting

  /** Usable's checks on the parsed record. */
  predicate UsableHello(h: Hello) {
    var n := |h.extensions|;
    && FirstOf(h.extensions, EXT_SERVER_NAME).Some?
    && FirstOf(h.extensions, EXT_KEY_SHARE).Some?
    && FirstOf(h.extensions, EXT_PRE_SHARED_KEY).None?
    && 3 <= n && IsGREASE(h.extensions[0].typ) && IsGREASE(h.extensions[n - 1].typ)
  }

  predicate Usable(rec: bytes) {
    Decode(rec).Some? && UsableHello(Decode(rec).value)
  }

  /** What Usable asks of the two ends is what Shuffle asks of them, and beyond that it asks for a name, a
      key_share and no pre_shared_key. */
  lemma UsableEnds(h: Hello)
    ensures UsableHello(h) <==>
            FirstOf(h.extensions, EXT_SERVER_NAME).Some? && FirstOf(h.extensions, EXT_KEY_SHARE).Some?
            && FirstOf(h.extensions, EXT_PRE_SHARED_KEY).None? && TailLen(h.extensions).Some?
    ensures UsableHello(h) ==> TailLen(h.extensions) == Some(1)
  {
  }

  predicate AtMostOne(exts: seq<Extension>, t: u16) {
    forall i, j :: 0 <= i < |exts| && 0 <= j < |exts| && exts[i].typ == t && exts[j].typ == t ==> i == j
  }

  /** Every extension of a type has a body of this kind. */
  predicate Every(exts: seq<Extension>, t: u16, ok: bytes -> bool) {
    forall i :: 0 <= i < |exts| && exts[i].typ == t ==> ok(exts[i].data)
  }

  /** A key_share body of complete entries. */
  predicate CompleteShares(d: bytes) {
    2 <= |d| && WellFormedShares(d[2..])
  }

  /** A key_share body whose first X25519 entry has 32 bytes. */
  predicate Offering(d: bytes) {
    2 <= |d| && OffersX25519(d[2..])
  }

  function KeyShareBody(h: Hello): bytes
    requires FirstOf(h.extensions, EXT_KEY_SHARE).Some?
  {
    h.extensions[FirstOf(h.extensions, EXT_KEY_SHARE).value].data
  }

  /** Rerandomize, Shuffle and SetKeyShare in a row. */
  ghost function Emitted(h: Hello, w: Draws, picks: nat -> nat, pub: Bytes32): Option<Hello>
    requires GoodDraws(w) && GoodPicks(picks)
  {
    var h1 :- Rerandomized(h, w);
    var exts :- Shuffled(h1.extensions, picks);
    WithKeyShare(h1.(extensions := exts), pub)
  }

  lemma RerandomizedRest(h: Hello, w: Draws)
    requires GoodDraws(w) && Rerandomized(h, w).Some?
    ensures var r := Rerandomized(h, w).value;
            |r.sessionID| == |h.sessionID| && r.ciphers == RedrawCiphers(h.ciphers, w.cipher)
  {
  }

  lemma InstalledRest(h: Hello, pub: Bytes32)
    requires WithKeyShare(h, pub).Some?
    ensures WithKeyShare(h, pub).value.sessionID == h.sessionID && WithKeyShare(h, pub).value.ciphers == h.ciphers
  {
  }

  /** Besides the extensions, the emission redraws the random, the session id and the GREASE suites. */
  lemma EmittedRest(h: Hello, w: Draws, picks: nat -> nat, pub: Bytes32)
    requires GoodDraws(w) && GoodPicks(picks) && Emitted(h, w, picks, pub).Some?
    ensures var r := Emitted(h, w, picks, pub).value;
            |r.sessionID| == |h.sessionID| && r.ciphers == RedrawCiphers(h.ciphers, w.cipher)
  {
    RerandomizedRest(h, w);
    var h1 := Rerandomized(h, w).value;
    InstalledRest(h1.(extensions := Shuffled(h1.extensions, picks).value), pub);
  }

  // ------------------------------------------------- redrawing, extension by extension

  lemma SamePlaces(a: seq<Extension>, b: seq<Extension>, u: u16)
    requires |a| == |b| && forall i :: 0 <= i < |a| ==> (a[i].typ == u <==> b[i].typ == u)
    ensures FirstOf(a, u) == FirstOf(b, u)
  {
    if FirstOf(a, u).Some? {
      FirstOfUnique(b, u, FirstOf(a, u).value);
    }
  }

  /** An edit of the first extension of one type, read at one place. */
  lemma EditAt(exts: seq<Extension>, t: u16, f: bytes -> bytes, i: nat)
    requires i < |exts|
    ensures EditFirst(exts, t, f)[i] == if FirstOf(exts, t) == Some(i) then Extension(t, f(exts[i].data)) else exts[i]
    ensures FirstOf(EditFirst(exts, t, f), exts[i].typ) == FirstOf(exts, exts[i].typ)
  {
    SamePlaces(exts, EditFirst(exts, t, f), exts[i].typ);
  }

  /** What rerandGREASE makes of a body. */
  function RedrawBody(t: u16, first: bool, d: bytes, w: Draws): bytes {
    if !first then d
    else if t == EXT_SUPPORTED_GROUPS then ReplaceInList(d, 2, w.group)
    else if t == EXT_KEY_SHARE then RenameShares(d, w.group)
    else if t == EXT_SUPPORTED_VERSIONS then ReplaceInList(d, 1, w.version)
    else if t == EXT_SIGNATURE_ALGORITHMS then ReplaceInList(d, 2, w.sigAlg)
    else d
  }

  lemma TypesAt(exts: seq<Extension>, w: Draws, i: nat)
    requires GoodDraws(w) && i < |exts| && !IsGREASE(exts[i].typ)
    ensures RedrawTypes(exts, w)[i] == exts[i] && FirstOf(RedrawTypes(exts, w), exts[i].typ) == FirstOf(exts, exts[i].typ)
  {
    forall j | 0 <= j < |exts| ensures exts[j].typ == exts[i].typ <==> RedrawTypes(exts, w)[j].typ == exts[i].typ {
      RedrawnTypes(exts, w, j);
    }
    SamePlaces(exts, RedrawTypes(exts, w), exts[i].typ);
  }

  lemma TwoEdits(exts: seq<Extension>, t: u16, f: bytes -> bytes, u: u16, g: bytes -> bytes, i: nat)
    requires t != u && i < |exts|
    ensures var e, first := exts[i], FirstOf(exts, exts[i].typ) == Some(i);
            var r := EditFirst(EditFirst(exts, t, f), u, g);
            && r[i] == Extension(e.typ, if first && e.typ == t then f(e.data) else if first && e.typ == u then g(e.data) else e.data)
            && FirstOf(r, e.typ) == FirstOf(exts, e.typ)
  {
    EditAt(exts, t, f, i);
    EditAt(EditFirst(exts, t, f), u, g, i);
  }

  /** Every extension but the GREASE ones keeps its type, and only the first of four types a new body. */
  lemma RedrawnAt(exts: seq<Extension>, w: Draws, i: nat)
    requires GoodDraws(w) && i < |exts| && !IsGREASE(exts[i].typ)
    ensures var t := exts[i].typ;
            && RedrawExtensions(exts, w)[i] == Extension(t, RedrawBody(t, FirstOf(exts, t) == Some(i), exts[i].data, w))
            && FirstOf(RedrawExtensions(exts, w), t) == FirstOf(exts, t)
  {
    var e0 := RedrawTypes(exts, w);
    var e1 := EditFirst(e0, EXT_SUPPORTED_GROUPS, d => ReplaceInList(d, 2, w.group));
    var e2 := EditFirst(e1, EXT_KEY_SHARE, d => RenameShares(d, w.group));
    TypesAt(exts, w, i);
    TwoEdits(e0, EXT_SUPPORTED_GROUPS, d => ReplaceInList(d, 2, w.group), EXT_KEY_SHARE, d => RenameShares(d, w.group), i);
    TwoEdits(e2, EXT_SUPPORTED_VERSIONS, d => ReplaceInList(d, 1, w.version),
             EXT_SIGNATURE_ALGORITHMS, d => ReplaceInList(d, 2, w.sigAlg), i);
  }

  /** What the rest of Rerandomize makes of a body. */
  function FreshBody(t: u16, first: bool, d: bytes, w: Draws): bytes
    requires forall i :: |w.hybrid(i)| == HYBRID_SHARE_LEN
  {
    if first && t == EXT_KEY_SHARE && FreshShareBody(d, w).Some? then FreshShareBody(d, w).value
    else if first && t == EXT_ECH then FreshECH(d, w)
    else d
  }

  /** Rerandomize, read at one place. */
  lemma RerandomizedAt(h: Hello, w: Draws, i: nat)
    requires GoodDraws(w) && Rerandomized(h, w).Some? && i < |h.extensions| && !IsGREASE(h.extensions[i].typ)
    ensures var r, t := Rerandomized(h, w).value.extensions, h.extensions[i].typ;
            var first := FirstOf(h.extensions, t) == Some(i);
            && |r| == |h.extensions| && r[i] == Extension(t, FreshBody(t, first, RedrawBody(t, first, h.extensions[i].data, w), w))
            && FirstOf(r, t) == FirstOf(h.extensions, t)
  {
    var e1 := RedrawExtensions(h.extensions, w);
    RedrawnAt(h.extensions, w, i);
    var e2 := FreshFirstShares(e1, w).value;
    SamePlaces(e1, e2, h.extensions[i].typ);
    EditAt(e2, EXT_ECH, d => FreshECH(d, w), i);
  }

  /** Extensions the emitter never rewrites. */
  predicate Untouched(t: u16) {
    && !IsGREASE(t) && t != EXT_SUPPORTED_GROUPS && t != EXT_KEY_SHARE && t != EXT_SUPPORTED_VERSIONS
    && t != EXT_SIGNATURE_ALGORITHMS && t != EXT_ECH
  }

  /** Rerandomize keeps the bodies of a type it does not touch. */
  lemma RerandomizeKeepsEvery(h: Hello, w: Draws, t: u16, ok: bytes -> bool)
    requires GoodDraws(w) && Rerandomized(h, w).Some? && Untouched(t) && Every(h.extensions, t, ok)
    ensures Every(Rerandomized(h, w).value.extensions, t, ok)
  {
    var r := Rerandomized(h, w).value.extensions;
    RerandomizeTypes(h, w);
    forall i | 0 <= i < |r| && r[i].typ == t ensures ok(r[i].data) {
      RerandomizedAt(h, w, i);
    }
  }

  /** A type that is not GREASE stands where it stood. */
  lemma RerandomizePlaces(h: Hello, w: Draws, t: u16)
    requires GoodDraws(w) && Rerandomized(h, w).Some? && !IsGREASE(t)
    ensures FirstOf(Rerandomized(h, w).value.extensions, t) == FirstOf(h.extensions, t)
  {
    RerandomizeTypes(h, w);
    SamePlaces(h.extensions, Rerandomized(h, w).value.extensions, t);
  }

  /** Rerandomize changes the type of no extension but the GREASE ones, which stay GREASE. */
  lemma RerandomizeTypes(h: Hello, w: Draws)
    requires GoodDraws(w) && Rerandomized(h, w).Some?
    ensures var r := Rerandomized(h, w).value.extensions;
            |r| == |h.extensions| && forall i :: 0 <= i < |r| ==>
              && r[i].typ == RedrawType(h.extensions, i, w)
              && (IsGREASE(r[i].typ) <==> IsGREASE(h.extensions[i].typ))
              && (!IsGREASE(r[i].typ) ==> r[i].typ == h.extensions[i].typ)
  {
    var r := Rerandomized(h, w).value.extensions;
    RedrawKeepsTypes(h.extensions, w);
    LaterKeepTypes(RedrawExtensions(h.extensions, w), w);
    forall i | 0 <= i < |r| ensures IsGREASE(r[i].typ) <==> IsGREASE(h.extensions[i].typ) {
      RedrawnTypes(h.extensions, w, i);
    }
  }

  lemma LaterKeepTypes(e1: seq<Extension>, w: Draws)
    requires GoodDraws(w) && FreshFirstShares(e1, w).Some?
    ensures var r := EditFirst(FreshFirstShares(e1, w).value, EXT_ECH, d => FreshECH(d, w));
            forall i :: 0 <= i < |e1| ==> r[i].typ == e1[i].typ
  {
  }

  lemma RedrawKeepsTypes(exts: seq<Extension>, w: Draws)
    requires GoodDraws(w)
    ensures forall i :: 0 <= i < |exts| ==> RedrawExtensions(exts, w)[i].typ == RedrawTypes(exts, w)[i].typ
  {
  }

  lemma EndsRedrawn(exts: seq<Extension>, w: Draws)
    requires TailLen(exts).Some?
    ensures RedrawType(exts, 0, w) == w.ext1 && RedrawType(exts, |exts| - TailLen(exts).value, w) == w.ext2
  {
    assert GreaseBefore(exts, |exts| - TailLen(exts).value) by {
      assert IsGREASE(exts[0].typ);
    }
  }

  lemma TailFromTypes(a: seq<Extension>, b: seq<Extension>)
    requires |a| == |b|
    requires forall i :: 0 <= i < |a| ==>
      (IsGREASE(b[i].typ) <==> IsGREASE(a[i].typ)) && (!IsGREASE(b[i].typ) ==> b[i].typ == a[i].typ)
    ensures TailLen(b) == TailLen(a)
  {
    assert !IsGREASE(EXT_PRE_SHARED_KEY);
  }

  /** The ends stay as Shuffle wants them, with the two draws that differ. */
  lemma RerandomizeEnds(h: Hello, w: Draws)
    requires GoodDraws(w) && TailLen(h.extensions).Some? && Rerandomized(h, w).Some?
    ensures var r := Rerandomized(h, w).value.extensions;
            TailLen(r) == TailLen(h.extensions) && r[0].typ == w.ext1 && r[|r| - TailLen(r).value].typ == w.ext2
  {
    RerandomizeTypes(h, w);
    TailFromTypes(h.extensions, Rerandomized(h, w).value.extensions);
    EndsRedrawn(h.extensions, w);
  }

  // ------------------------------------------------------------- the key shares

  /** Rerandomize succeeds exactly when the key_share body is made of complete entries, and the
      body it leaves is as workable as the one it found. */
  lemma RerandomizeShares(h: Hello, w: Draws)
    requires GoodDraws(w) && FirstOf(h.extensions, EXT_KEY_SHARE).Some?
    ensures Rerandomized(h, w).Some? <==> CompleteShares(KeyShareBody(h))
    ensures Rerandomized(h, w).Some? ==>
      var h' := Rerandomized(h, w).value;
      && FirstOf(h'.extensions, EXT_KEY_SHARE) == FirstOf(h.extensions, EXT_KEY_SHARE)
      && 2 <= |KeyShareBody(h')|
      && (Offering(KeyShareBody(h')) <==> Offering(KeyShareBody(h)))
      && GreaseGroupsAre(KeyShareBody(h')[2..], w.group)
  {
    var i, d := FirstOf(h.extensions, EXT_KEY_SHARE).value, KeyShareBody(h);
    RedrawnAt(h.extensions, w, i);
    SharesSucceed(d, w);
    if Rerandomized(h, w).Some? {
      RerandomizedAt(h, w, i);
      FreshenedShares(d, w);
    }
  }

  lemma SharesSucceed(d: bytes, w: Draws)
    requires GoodDraws(w)
    ensures FreshShareBody(RenameShares(d, w.group), w).Some? <==> CompleteShares(d)
  {
    if |d| >= 2 {
      var r := RenameShares(d, w.group);
      assert r[2..] == RenameGroups(d[2..], w.group);
      FreshSucceeds(r[2..], 0, w.x25519, w.hybrid);
      RenameKeepsForm(d[2..], w.group);
    }
  }

  lemma FreshenedShares(d: bytes, w: Draws)
    requires GoodDraws(w) && FreshShareBody(RenameShares(d, w.group), w).Some?
    ensures var r := FreshShareBody(RenameShares(d, w.group), w).value;
            && 2 <= |r|
            && (OffersX25519(r[2..]) <==> OffersX25519(d[2..]))
            && GreaseGroupsAre(r[2..], w.group)
  {
    var s := RenameGroups(d[2..], w.group);
    assert RenameShares(d, w.group)[2..] == s;
    var r := FreshShareBody(RenameShares(d, w.group), w).value;
    assert r[2..] == FreshShares(s, 0, w.x25519, w.hybrid).value;
    RenameKeepsShares(d[2..], w.group);
    RenamedGroups(d[2..], w.group);
    FreshKeepsShares(s, 0, w.x25519, w.hybrid);
    FreshKeepsGroups(s, w.group, 0, w.x25519, w.hybrid);
  }

  lemma OffersAt(h: Hello, w: Draws, i: nat)
    requires GoodDraws(w) && Rerandomized(h, w).Some? && i < |h.extensions| && h.extensions[i].typ == EXT_KEY_SHARE
    ensures var r := Rerandomized(h, w).value.extensions;
            i < |r| && r[i].typ == EXT_KEY_SHARE && (Offering(r[i].data) <==> Offering(h.extensions[i].data))
  {
    RerandomizedAt(h, w, i);
    if FirstOf(h.extensions, EXT_KEY_SHARE) == Some(i) {
      RerandomizeShares(h, w);
    }
  }

  // ------------------------------------------------------------ after Shuffle

  /** A permutation has no bodies but those it permutes, and a type that was there still is. */
  lemma EveryOfPermutation(a: seq<Extension>, b: seq<Extension>, t: u16, ok: bytes -> bool)
    requires multiset(a) == multiset(b) && Every(a, t, ok)
    ensures Every(b, t, ok) && (FirstOf(a, t).Some? ==> FirstOf(b, t).Some?)
  {
    forall i | 0 <= i < |b| && b[i].typ == t ensures ok(b[i].data) {
      assert b[i] in multiset(a);
      assert b[i] in a;
    }
    if FirstOf(a, t).Some? {
      var e := a[FirstOf(a, t).value];
      assert e in multiset(b);
      assert e in b;
    }
  }

  /** The key_share the server finds is the one that stands first after Shuffle. */
  lemma InstallWorks(h: Hello, pub: Bytes32)
    requires FirstOf(h.extensions, EXT_KEY_SHARE).Some?
    ensures WithKeyShare(h, pub).Some? && KeyShareOf(WithKeyShare(h, pub).value) == Some(pub) <==> Offering(KeyShareBody(h))
  {
    var i, d := FirstOf(h.extensions, EXT_KEY_SHARE).value, KeyShareBody(h);
    if Offering(d) {
      InstallSucceeds(d[2..], pub);
    }
    if |d| >= 2 && InstallShare(d[2..], pub).Some? {
      var h' := WithKeyShare(h, pub).value;
      FirstOfUnique(h'.extensions, EXT_KEY_SHARE, i);
      assert KeyShareBody(h')[2..] == InstallShare(d[2..], pub).value;
      InstallThenRead(d[2..], pub);
    }
  }

  /** The pipeline succeeds and the server reads the installed key. */
  ghost predicate Works(h: Hello, w: Draws, picks: nat -> nat, pub: Bytes32)
    requires GoodDraws(w) && GoodPicks(picks)
  {
    Emitted(h, w, picks, pub).Some? && KeyShareOf(Emitted(h, w, picks, pub).value) == Some(pub)
  }

  /** Complete entries in the first key_share, and an X25519 key of 32 bytes first of its group in each. */
  predicate WorkableShares(h: Hello)
    requires FirstOf(h.extensions, EXT_KEY_SHARE).Some?
  {
    CompleteShares(KeyShareBody(h)) && Every(h.extensions, EXT_KEY_SHARE, Offering)
  }

  lemma WorksInOrder(h: Hello, w: Draws, picks: nat -> nat, pub: Bytes32)
    requires GoodDraws(w) && GoodPicks(picks) && TailLen(h.extensions).Some? && FirstOf(h.extensions, EXT_KEY_SHARE).Some?
    requires CompleteShares(KeyShareBody(h))
    ensures Rerandomized(h, w).Some? && Shuffled(Rerandomized(h, w).value.extensions, picks).Some?
    ensures var h2 := Rerandomized(h, w).value.(extensions := Shuffled(Rerandomized(h, w).value.extensions, picks).value);
            FirstOf(h2.extensions, EXT_KEY_SHARE).Some? && (Works(h, w, picks, pub) <==> Offering(KeyShareBody(h2)))
  {
    RerandomizeShares(h, w);
    var h1 := Rerandomized(h, w).value;
    RerandomizeEnds(h, w);
    ShuffleKeepsEnds(h1.extensions, picks);
    EveryOfPermutation(h1.extensions, Shuffled(h1.extensions, picks).value, EXT_KEY_SHARE, d => true);
    InstallWorks(h1.(extensions := Shuffled(h1.extensions, picks).value), pub);
  }

  lemma OffersEverywhere(h: Hello, w: Draws)
    requires GoodDraws(w) && Rerandomized(h, w).Some? && Every(h.extensions, EXT_KEY_SHARE, Offering)
    ensures Every(Rerandomized(h, w).value.extensions, EXT_KEY_SHARE, Offering)
  {
    var r := Rerandomized(h, w).value.extensions;
    RerandomizeTypes(h, w);
    forall i | 0 <= i < |r| && r[i].typ == EXT_KEY_SHARE ensures Offering(r[i].data) {
      OffersAt(h, w, i);
    }
  }

  lemma WorkableWorks(h: Hello, w: Draws, picks: nat -> nat, pub: Bytes32)
    requires GoodDraws(w) && GoodPicks(picks) && TailLen(h.extensions).Some? && FirstOf(h.extensions, EXT_KEY_SHARE).Some?
    requires WorkableShares(h)
    ensures Works(h, w, picks, pub)
  {
    WorksInOrder(h, w, picks, pub);
    OffersEverywhere(h, w);
    var exts := Rerandomized(h, w).value.extensions;
    ShuffleKeepsEnds(exts, picks);
    EveryOfPermutation(exts, Shuffled(exts, picks).value, EXT_KEY_SHARE, Offering);
  }

  /** Any extension between the ends can come first among them. */
  lemma ComesFirst(exts: seq<Extension>, i: nat) returns (picks: nat -> nat)
    requires TailLen(exts).Some? && i < |exts| && exts[i].typ == EXT_KEY_SHARE
    ensures GoodPicks(picks) && Shuffled(exts, picks).Some?
    ensures FirstOf(Shuffled(exts, picks).value, EXT_KEY_SHARE) == Some(1) && Shuffled(exts, picks).value[1] == exts[i]
  {
    var body, j := Interior(exts), i - 1;
    assert !IsGREASE(EXT_KEY_SHARE) && 1 <= i < |exts| - TailLen(exts).value;
    MovedToFront(body, j);
    picks := ShuffleReaches(exts, [body[j]] + body[..j] + body[j + 1..]);
    FirstOfUnique(Shuffled(exts, picks).value, EXT_KEY_SHARE, 1);
  }

  lemma MovedToFront(s: seq<Extension>, j: nat)
    requires j < |s|
    ensures multiset([s[j]] + s[..j] + s[j + 1..]) == multiset(s)
  {
    assert s == s[..j] + [s[j]] + s[j + 1..];
  }

  /** A key_share that does not offer a key is one that some order puts first. */
  lemma SpoiltByOne(h: Hello, w: Draws, pub: Bytes32, i: nat) returns (picks: nat -> nat)
    requires GoodDraws(w) && TailLen(h.extensions).Some? && FirstOf(h.extensions, EXT_KEY_SHARE).Some?
    requires CompleteShares(KeyShareBody(h)) && i < |h.extensions| && h.extensions[i].typ == EXT_KEY_SHARE && !Offering(h.extensions[i].data)
    ensures GoodPicks(picks) && !Works(h, w, picks, pub)
  {
    RerandomizeShares(h, w);
    RerandomizeEnds(h, w);
    OffersAt(h, w, i);
    picks := ComesFirst(Rerandomized(h, w).value.extensions, i);
    WorksInOrder(h, w, picks, pub);
  }

  lemma SpoiltSomehow(h: Hello, w: Draws, pub: Bytes32) returns (picks: nat -> nat)
    requires GoodDraws(w) && TailLen(h.extensions).Some? && FirstOf(h.extensions, EXT_KEY_SHARE).Some? && !WorkableShares(h)
    ensures GoodPicks(picks) && !Works(h, w, picks, pub)
  {
    if CompleteShares(KeyShareBody(h)) {
      var i: nat :| i < |h.extensions| && h.extensions[i].typ == EXT_KEY_SHARE && !Offering(h.extensions[i].data);
      picks := SpoiltByOne(h, w, pub, i);
    } else {
      RerandomizeShares(h, w);
      picks := (i: nat) => 0;
    }
  }

  /** For every record whose ends Shuffle accepts: the pipeline succeeds and the server reads the installed
      key in every order the extensions may take exactly when the first key_share is made of complete
      entries and every key_share offers an X25519 key of 32 bytes first of its group. */
  lemma EmissionWorks(h: Hello, w: Draws, pub: Bytes32)
    requires GoodDraws(w) && TailLen(h.extensions).Some? && FirstOf(h.extensions, EXT_KEY_SHARE).Some?
    ensures (forall picks: nat -> nat :: GoodPicks(picks) ==> Works(h, w, picks, pub)) <==> WorkableShares(h)
  {
    if WorkableShares(h) {
      forall picks: nat -> nat | GoodPicks(picks) ensures Works(h, w, picks, pub) {
        WorkableWorks(h, w, picks, pub);
      }
    } else {
      var picks := SpoiltSomehow(h, w, pub);
    }
  }

  /** With one key_share the draws make no difference: the pipeline succeeds when the entries are complete and
      one X25519 entry has 32 bytes, and works when that entry is the first of its group. */
  lemma OneShareDecides(h: Hello, w: Draws, picks: nat -> nat, pub: Bytes32)
    requires GoodDraws(w) && GoodPicks(picks) && TailLen(h.extensions).Some? && AtMostOne(h.extensions, EXT_KEY_SHARE)
    requires FirstOf(h.extensions, EXT_KEY_SHARE).Some?
    ensures Emitted(h, w, picks, pub).Some? <==>
            CompleteShares(KeyShareBody(h)) && InstallShare(KeyShareBody(h)[2..], pub).Some?
    ensures Works(h, w, picks, pub) <==> CompleteShares(KeyShareBody(h)) && Offering(KeyShareBody(h))
  {
    RerandomizeShares(h, w);
    if CompleteShares(KeyShareBody(h)) {
      var exts := Rerandomized(h, w).value.extensions;
      var body := KeyShareBody(Rerandomized(h, w).value);
      RerandomizeEnds(h, w);
      OnlyBody(h, w);
      ShuffleKeepsEnds(exts, picks);
      EveryOfPermutation(exts, Shuffled(exts, picks).value, EXT_KEY_SHARE, d => d == body);
      WorksInOrder(h, w, picks, pub);
      InstallableAfter(h, w, pub);
    }
  }

  lemma OnlyBody(h: Hello, w: Draws)
    requires GoodDraws(w) && Rerandomized(h, w).Some? && AtMostOne(h.extensions, EXT_KEY_SHARE) && FirstOf(h.extensions, EXT_KEY_SHARE).Some?
    ensures FirstOf(Rerandomized(h, w).value.extensions, EXT_KEY_SHARE).Some?
    ensures var r := Rerandomized(h, w).value; Every(r.extensions, EXT_KEY_SHARE, d => d == KeyShareBody(r))
  {
    RerandomizeTypes(h, w);
    RerandomizePlaces(h, w, EXT_KEY_SHARE);
  }

  lemma InstallableAfter(h: Hello, w: Draws, pub: Bytes32)
    requires GoodDraws(w) && FirstOf(h.extensions, EXT_KEY_SHARE).Some? && CompleteShares(KeyShareBody(h))
    ensures Rerandomized(h, w).Some? && FirstOf(Rerandomized(h, w).value.extensions, EXT_KEY_SHARE).Some?
    ensures |KeyShareBody(Rerandomized(h, w).value)| >= 2
    ensures InstallShare(KeyShareBody(Rerandomized(h, w).value)[2..], pub).Some? <==> InstallShare(KeyShareBody(h)[2..], pub).Some?
  {
    RerandomizeShares(h, w);
    RerandomizedAt(h, w, FirstOf(h.extensions, EXT_KEY_SHARE).value);
    InstallableBody(KeyShareBody(h), w, pub);
  }

  lemma InstallableBody(d: bytes, w: Draws, pub: Bytes32)
    requires GoodDraws(w) && CompleteShares(d)
    ensures FreshShareBody(RenameShares(d, w.group), w).Some?
    ensures InstallShare(FreshShareBody(RenameShares(d, w.group), w).value[2..], pub).Some? <==> InstallShare(d[2..], pub).Some?
  {
    SharesSucceed(d, w);
    var s := RenameGroups(d[2..], w.group);
    assert RenameShares(d, w.group)[2..] == s;
    assert FreshShareBody(RenameShares(d, w.group), w).value[2..] == FreshShares(s, 0, w.x25519, w.hybrid).value;
    RenameKeepsInstall(d[2..], w.group, pub);
    FreshKeepsInstall(s, 0, w.x25519, w.hybrid, pub);
  }

  // --------------------------------------------------------------- what is left

  /** The same types and lengths, GREASE folded and ECH length aside, in some order; everything
      outside the extensions that the emitter does not draw is kept. */
  ghost predicate SameBuild(a: Hello, b: Hello) {
    && |a.extensions| == |b.extensions|
    && multiset(FingerKeys(a.extensions)) == multiset(FingerKeys(b.extensions))
    && a.version == b.version && a.compression == b.compression && |a.sessionID| == |b.sessionID|
    && NormCiphers(a.ciphers) == NormCiphers(b.ciphers)
  }

  /** GREASE at the head and before whatever Shuffle pins behind it, with the two draws. */
  predicate GreaseEnds(h: Hello, w: Draws) {
    && TailLen(h.extensions).Some? && h.extensions[0].typ == w.ext1
    && h.extensions[|h.extensions| - TailLen(h.extensions).value].typ == w.ext2
  }

  /** A key_share body whose GREASE groups are all this one. */
  predicate OneGroup(d: bytes, g: u16) {
    2 <= |d| && GreaseGroupsAre(d[2..], g)
  }

  /** What a successful emission leaves, of any record: the same build, and GREASE at both ends with the two
      draws. The draws ext1 and ext2 differ. */
  lemma EmissionShape(h: Hello, w: Draws, picks: nat -> nat, pub: Bytes32)
    requires GoodDraws(w) && GoodPicks(picks) && ExtsFit(h.extensions) && Emitted(h, w, picks, pub).Some?
    ensures SameBuild(h, Emitted(h, w, picks, pub).value) && GreaseEnds(Emitted(h, w, picks, pub).value, w)
  {
    var h1 := Rerandomized(h, w).value;
    EndsFromAfter(h, w);
    RerandomizeBuild(h, w);
    RerandomizeEnds(h, w);
    ShuffleShape(h1, w, picks);
    InstallShape(h1.(extensions := Shuffled(h1.extensions, picks).value), w, pub);
  }

  lemma EndsFromAfter(h: Hello, w: Draws)
    requires GoodDraws(w) && Rerandomized(h, w).Some? && TailLen(Rerandomized(h, w).value.extensions).Some?
    ensures TailLen(h.extensions).Some?
  {
    RerandomizeTypes(h, w);
    TailFromTypes(h.extensions, Rerandomized(h, w).value.extensions);
  }

  /** With one key_share in the record, the emitted one names one GREASE group, the draw supported_groups
      got too. */
  lemma EmissionGroups(h: Hello, w: Draws, picks: nat -> nat, pub: Bytes32)
    requires GoodDraws(w) && GoodPicks(picks) && AtMostOne(h.extensions, EXT_KEY_SHARE) && Emitted(h, w, picks, pub).Some?
    ensures FirstOf(Emitted(h, w, picks, pub).value.extensions, EXT_KEY_SHARE).Some?
    ensures OneGroup(KeyShareBody(Emitted(h, w, picks, pub).value), w.group)
  {
    var h1 := Rerandomized(h, w).value;
    var h2 := h1.(extensions := Shuffled(h1.extensions, picks).value);
    OneShare(h, w);
    ShuffleKeepsEnds(h1.extensions, picks);
    EveryOfPermutation(h1.extensions, h2.extensions, EXT_KEY_SHARE, d => OneGroup(d, w.group));
    InstallGroups(h2, w, pub);
  }

  lemma RerandomizeBuild(h: Hello, w: Draws)
    requires GoodDraws(w) && ExtsFit(h.extensions) && Rerandomized(h, w).Some?
    ensures SameBuild(h, Rerandomized(h, w).value)
  {
    var h1 := Rerandomized(h, w).value;
    RerandomizeKeepsLengths(h, w);
    KeysFromLengths(h.extensions, h1.extensions);
    assert NormCiphers(h1.ciphers) == NormCiphers(h.ciphers);
  }

  lemma OneShare(h: Hello, w: Draws)
    requires GoodDraws(w) && Rerandomized(h, w).Some? && AtMostOne(h.extensions, EXT_KEY_SHARE)
    ensures Every(Rerandomized(h, w).value.extensions, EXT_KEY_SHARE, d => OneGroup(d, w.group))
  {
    var r := Rerandomized(h, w).value.extensions;
    RerandomizeTypes(h, w);
    forall i | 0 <= i < |r| && r[i].typ == EXT_KEY_SHARE ensures OneGroup(r[i].data, w.group) {
      FirstOfUnique(h.extensions, EXT_KEY_SHARE, i);
      RerandomizeShares(h, w);
    }
  }

  lemma ShuffleShape(h: Hello, w: Draws, picks: nat -> nat)
    requires GoodPicks(picks) && GreaseEnds(h, w)
    ensures var r := h.(extensions := Shuffled(h.extensions, picks).value);
            SameBuild(h, r) && GreaseEnds(r, w)
  {
    var exts, k := Shuffled(h.extensions, picks).value, TailLen(h.extensions).value;
    ShuffleKeepsEnds(h.extensions, picks);
    SameTail(exts, h.extensions, k);
    FingerKeysOfPermutation(h.extensions, exts);
  }

  lemma SameTail(a: seq<Extension>, b: seq<Extension>, k: nat)
    requires TailLen(b) == Some(k) && |a| == |b| && a[0] == b[0] && a[|a| - k..] == b[|b| - k..]
    ensures TailLen(a) == Some(k) && a[|a| - k] == b[|b| - k]
  {
    forall i | |a| - k <= i < |a| ensures a[i] == b[i] {
      assert a[i] == a[|a| - k..][i - (|a| - k)] && b[i] == b[|b| - k..][i - (|b| - k)];
    }
  }

  lemma FingerKeysOfPermutation(a: seq<Extension>, b: seq<Extension>)
    requires multiset(a) == multiset(b)
    ensures multiset(FingerKeys(a)) == multiset(FingerKeys(b))
  {
    MapOfPermutation(a, b, FingerKey);
  }

  lemma InstallShape(h: Hello, w: Draws, pub: Bytes32)
    requires WithKeyShare(h, pub).Some? && GreaseEnds(h, w)
    ensures SameBuild(h, WithKeyShare(h, pub).value) && GreaseEnds(WithKeyShare(h, pub).value, w)
  {
    SameFingerKeys(h.extensions, WithKeyShare(h, pub).value.extensions);
  }

  lemma InstallGroups(h: Hello, w: Draws, pub: Bytes32)
    requires WithKeyShare(h, pub).Some? && OneGroup(KeyShareBody(h), w.group)
    ensures FirstOf(WithKeyShare(h, pub).value.extensions, EXT_KEY_SHARE).Some?
    ensures OneGroup(KeyShareBody(WithKeyShare(h, pub).value), w.group)
  {
    var i, d := FirstOf(h.extensions, EXT_KEY_SHARE).value, KeyShareBody(h);
    var r := WithKeyShare(h, pub).value;
    FirstOfUnique(r.extensions, EXT_KEY_SHARE, i);
    assert KeyShareBody(r)[2..] == InstallShare(d[2..], pub).value;
    InstallKeepsGroups(d[2..], w.group, pub);
  }

  lemma SameFingerKeys(a: seq<Extension>, b: seq<Extension>)
    requires |a| == |b| && forall i :: 0 <= i < |a| ==> a[i].typ == b[i].typ && |a[i].data| == |b[i].data|
    ensures FingerKeys(a) == FingerKeys(b)
  {
  }

  /** supported_groups offers the key_share's GREASE group: in the first such list, every GREASE
      value becomes the draw the key_share got, and no other value changes. */
  lemma GroupsAgree(h: Hello, w: Draws)
    requires GoodDraws(w) && Rerandomized(h, w).Some? && FirstOf(h.extensions, EXT_SUPPORTED_GROUPS).Some?
    ensures var i := FirstOf(h.extensions, EXT_SUPPORTED_GROUPS).value;
            Rerandomized(h, w).value.extensions[i].data == ReplaceInList(h.extensions[i].data, 2, w.group)
  {
    RerandomizedAt(h, w, FirstOf(h.extensions, EXT_SUPPORTED_GROUPS).value);
  }
}
