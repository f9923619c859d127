/** What of a harvested hello's own connection survives Rerandomize (twiddle.go): nothing it redraws. Two
    captures of one browser that differ only in per-connection values are emitted alike. */
module Forgetting {
  import opened Bytes
  import opened HelloCodec
  import opened ExtensionBodies
  import opened BodyViews
  import opened ClientHelloObject
  import opened Emission
  import opened Canonical

  // ------------------------------------------------------------------ key shares

  /** The group and the length are kept, and the value is the one drawn for it: a curve key for X25519 of
      32 bytes, an encapsulation key for the hybrid group at its length, zeros for anything else. */
  predicate Renewed(before: (u16, bytes), after: (u16, bytes), x25519: Bytes32, hybrid: bytes) {
    && after.0 == before.0 && |after.1| == |before.1|
    && (if before.0 == GROUP_X25519 && |before.1| == 32 then after.1 == x25519
        else if before.0 == GROUP_HYBRID && |before.1| == HYBRID_SHARE_LEN then after.1 == hybrid
        else forall j :: 0 <= j < |after.1| ==> after.1[j] == 0)
  }

  ghost predicate AllRenewed(before: seq<(u16, bytes)>, after: seq<(u16, bytes)>, k: nat, x25519: nat -> Bytes32, hybrid: nat -> bytes) {
    |after| == |before| && forall i: nat :: i < |before| ==> Renewed(before[i], after[i], x25519(k + i), hybrid(k + i))
  }

  lemma RenewedCons(b: (u16, bytes), before: seq<(u16, bytes)>, a: (u16, bytes), after: seq<(u16, bytes)>, k: nat, x25519: nat -> Bytes32, hybrid: nat -> bytes)
    requires Renewed(b, a, x25519(k), hybrid(k)) && AllRenewed(before, after, k + 1, x25519, hybrid)
    ensures AllRenewed([b] + before, [a] + after, k, x25519, hybrid)
  {
    forall i: nat | i < |[b] + before| ensures Renewed(([b] + before)[i], ([a] + after)[i], x25519(k + i), hybrid(k + i)) {
      if i > 0 {
        assert Renewed(before[i - 1], after[i - 1], x25519(k + 1 + (i - 1)), hybrid(k + 1 + (i - 1)));
      }
    }
  }

  /** Every entry of the key_share is renewed with its own draw. */
  lemma {:induction false} FreshEntries(s: bytes, k: nat, x25519: nat -> Bytes32, hybrid: nat -> bytes)
    requires forall i :: |hybrid(i)| == HYBRID_SHARE_LEN
    requires FreshShares(s, k, x25519, hybrid).Some?
    ensures AllRenewed(Entries(s), Entries(FreshShares(s, k, x25519, hybrid).value), k, x25519, hybrid)
    decreases |s|
  {
    if HasEntry(s) {
      var n := EntryLen(s);
      var rest := FreshShares(s[n..], k + 1, x25519, hybrid).value;
      var value := FreshValue(GetU16(s, 0), n - 4, k, x25519, hybrid);
      FreshEntries(s[n..], k + 1, x25519, hybrid);
      EntryParts(s[..4], value, rest);
      RenewedCons((GetU16(s, 0), s[4..n]), Entries(s[n..]), (GetU16(s, 0), value), Entries(rest), k, x25519, hybrid);
    }
  }

  /** Fresh values depend on the groups and the lengths only. */
  lemma {:induction false} FreshForgets(a: bytes, b: bytes, k: nat, x25519: nat -> Bytes32, hybrid: nat -> bytes)
    requires forall i :: |hybrid(i)| == HYBRID_SHARE_LEN
    requires BlankValues(a) == BlankValues(b)
    ensures FreshShares(a, k, x25519, hybrid) == FreshShares(b, k, x25519, hybrid)
    decreases |a|
  {
    SameHeads(a, b);
    if HasEntry(a) {
      FreshForgets(a[EntryLen(a)..], b[EntryLen(b)..], k + 1, x25519, hybrid);
    }
  }

  lemma SameHeads(a: bytes, b: bytes)
    requires BlankValues(a) == BlankValues(b)
    ensures |a| == |b| && (HasEntry(a) <==> HasEntry(b))
    ensures |a| < 4 ==> a == b
    ensures HasEntry(a) ==> EntryLen(a) == EntryLen(b) && a[..4] == b[..4] && GetU16(a, 0) == GetU16(b, 0)
    ensures HasEntry(a) ==> BlankValues(a[EntryLen(a)..]) == BlankValues(b[EntryLen(b)..])
  {
    BlankHead(a);
    BlankHead(b);
  }

  lemma BlankHead(s: bytes)
    ensures |s| >= 4 ==> BlankValues(s)[..4] == s[..4] && GetU16(BlankValues(s), 0) == GetU16(s, 0) && GetU16(BlankValues(s), 2) == GetU16(s, 2)
    ensures HasEntry(s) ==> BlankValues(s)[EntryLen(s)..] == BlankValues(s[EntryLen(s)..])
  {
    if HasEntry(s) {
      EntrySplit(s);
      EntryParts(s[..4], Zeros(EntryLen(s) - 4), BlankValues(s[EntryLen(s)..]));
    }
  }

  /** Renaming groups and blanking values do not interfere. */
  lemma {:induction false} RenameBlank(s: bytes, g: u16)
    ensures BlankValues(RenameGroups(s, g)) == RenameGroups(BlankValues(s), g)
    decreases |s|
  {
    if HasEntry(s) {
      var head, value, rest := s[..4], s[4..EntryLen(s)], s[EntryLen(s)..];
      EntrySplit(s);
      RenameBlank(rest, g);
      BlankEntry(RenameHead(head, g), value, RenameGroups(rest, g));
      BlankEntry(head, value, rest);
      RenameEntry(head, value, rest, g);
      RenameEntry(head, Zeros(|value|), BlankValues(rest), g);
    } else if |s| >= 4 {
      assert GetU16(RenameGroups(s, g), 2) == GetU16(s, 2);
    }
  }

  /** The same groups and lengths behind the same list length. */
  predicate SharesAlike(a: bytes, b: bytes) {
    |a| == |b| && if |a| < 2 then a == b else a[..2] == b[..2] && BlankValues(a[2..]) == BlankValues(b[2..])
  }

  lemma RenameAlike(a: bytes, b: bytes, g: u16)
    requires SharesAlike(a, b)
    ensures SharesAlike(RenameShares(a, g), RenameShares(b, g))
  {
    if |a| >= 2 {
      RenameBlank(a[2..], g);
      RenameBlank(b[2..], g);
      assert RenameShares(a, g)[2..] == RenameGroups(a[2..], g) && RenameShares(b, g)[2..] == RenameGroups(b[2..], g);
      assert RenameShares(a, g)[..2] == a[..2] && RenameShares(b, g)[..2] == b[..2];
    }
  }

  lemma FreshAlike(a: bytes, b: bytes, w: Draws)
    requires GoodDraws(w) && SharesAlike(a, b)
    ensures FreshShareBody(a, w) == FreshShareBody(b, w)
  {
    if |a| >= 2 {
      FreshForgets(a[2..], b[2..], 0, w.x25519, w.hybrid);
    }
  }

  /** The same advertised KDF and AEAD, or none, in two outer bodies; or the same body. */
  predicate ECHAlike(a: bytes, b: bytes) {
    a == b || (|a| >= 1 && |b| >= 1 && a[0] == b[0] == 0x00 && (if |a| >= 5 then |b| >= 5 && a[1..5] == b[1..5] else |b| < 5))
  }

  // ---------------------------------------------------------------- whole hellos

  /** Types agree, GREASE folded; bodies agree, up to key values in the first key_share and what an
      outer first ECH body draws. */
  ghost predicate ExtsAlike(a: seq<Extension>, b: seq<Extension>) {
    |a| == |b| && forall i: nat :: i < |a| ==> AlikeAt(a, b, i)
  }

  predicate AlikeAt(a: seq<Extension>, b: seq<Extension>, i: nat)
    requires i < |a| && i < |b|
  {
    && NormGrease(a[i].typ) == NormGrease(b[i].typ)
    && (|| a[i].data == b[i].data
        || (FirstOf(a, EXT_KEY_SHARE) == Some(i) && SharesAlike(a[i].data, b[i].data))
        || (FirstOf(a, EXT_ECH) == Some(i) && ECHAlike(a[i].data, b[i].data)))
  }

  /** Two captures of one browser: everything the emitter redraws may differ. */
  ghost predicate SameBrowser(a: Hello, b: Hello) {
    && a.version == b.version && a.compression == b.compression && |a.sessionID| == |b.sessionID|
    && NormCiphers(a.ciphers) == NormCiphers(b.ciphers) && ExtsAlike(a.extensions, b.extensions)
  }

  /** The same with identical types. */
  ghost predicate SameTyped(a: seq<Extension>, b: seq<Extension>) {
    |a| == |b| && (forall i :: 0 <= i < |a| ==> a[i].typ == b[i].typ)
  }

  lemma SameFirst(a: seq<Extension>, b: seq<Extension>, t: u16)
    requires SameTyped(a, b)
    ensures FirstOf(a, t) == FirstOf(b, t)
  {
    if FirstOf(a, t).Some? {
      FirstOfUnique(b, t, FirstOf(a, t).value);
    }
  }

  lemma FirstNormed(a: seq<Extension>, b: seq<Extension>, t: u16)
    requires |a| == |b| && !IsGREASE(t) && t != GREASE_SENTINEL
    requires forall i :: 0 <= i < |a| ==> NormGrease(a[i].typ) == NormGrease(b[i].typ)
    ensures FirstOf(a, t) == FirstOf(b, t)
  {
    if FirstOf(a, t).Some? {
      FirstOfUnique(b, t, FirstOf(a, t).value);
    }
  }

  /** After the GREASE types are redrawn the types agree exactly. */
  lemma TypesAlike(a: seq<Extension>, b: seq<Extension>, w: Draws)
    requires GoodDraws(w) && ExtsAlike(a, b)
    ensures SameTyped(RedrawTypes(a, w), RedrawTypes(b, w)) && ExtsAlike(RedrawTypes(a, w), RedrawTypes(b, w))
  {
    var x, y := RedrawTypes(a, w), RedrawTypes(b, w);
    NormedAlike(a, b);
    forall i | 0 <= i < |a| ensures x[i].typ == y[i].typ && NormGrease(x[i].typ) == NormGrease(a[i].typ) {
      RedrawnAlike(a, b, w, i);
      RedrawnTypes(a, w, i);
    }
    FirstNormed(a, x, EXT_KEY_SHARE);
    FirstNormed(a, x, EXT_ECH);
    forall i: nat | i < |a| ensures AlikeAt(x, y, i) {
      assert AlikeAt(a, b, i);
    }
  }

  lemma NormedAlike(a: seq<Extension>, b: seq<Extension>)
    requires ExtsAlike(a, b)
    ensures forall i :: 0 <= i < |a| ==> NormGrease(a[i].typ) == NormGrease(b[i].typ)
  {
    forall i | 0 <= i < |a| ensures NormGrease(a[i].typ) == NormGrease(b[i].typ) {
      assert AlikeAt(a, b, i);
    }
  }

  lemma RedrawnAlike(a: seq<Extension>, b: seq<Extension>, w: Draws, i: nat)
    requires |a| == |b| && i < |a| && forall j :: 0 <= j < |a| ==> NormGrease(a[j].typ) == NormGrease(b[j].typ)
    ensures RedrawType(a, i, w) == RedrawType(b, i, w)
  {
    assert forall j :: 0 <= j < |a| ==> (IsGREASE(a[j].typ) <==> IsGREASE(b[j].typ));
    assert GreaseBefore(a, i) <==> GreaseBefore(b, i);
    assert GreaseAfter(a, i) <==> GreaseAfter(b, i);
  }

  /** An edit of another extension keeps the likeness; so does one that likens what it edits. */
  lemma EditAlike(a: seq<Extension>, b: seq<Extension>, t: u16, f: bytes -> bytes)
    requires SameTyped(a, b) && ExtsAlike(a, b) && t != EXT_ECH
    requires t == EXT_KEY_SHARE ==> forall x, y :: SharesAlike(x, y) ==> SharesAlike(f(x), f(y))
    ensures SameTyped(EditFirst(a, t, f), EditFirst(b, t, f)) && ExtsAlike(EditFirst(a, t, f), EditFirst(b, t, f))
  {
    var x, y := EditFirst(a, t, f), EditFirst(b, t, f);
    SameFirst(a, b, t);
    SameFirst(a, x, EXT_KEY_SHARE);
    SameFirst(a, x, EXT_ECH);
    forall i: nat | i < |a| ensures AlikeAt(x, y, i) {
      assert AlikeAt(a, b, i);
    }
  }

  lemma RedrawAlike(a: seq<Extension>, b: seq<Extension>, w: Draws)
    requires GoodDraws(w) && ExtsAlike(a, b)
    ensures SameTyped(RedrawExtensions(a, w), RedrawExtensions(b, w)) && ExtsAlike(RedrawExtensions(a, w), RedrawExtensions(b, w))
  {
    TypesAlike(a, b, w);
    var groups, shares, versions, sigs := (d: bytes) => ReplaceInList(d, 2, w.group), (d: bytes) => RenameShares(d, w.group),
        (d: bytes) => ReplaceInList(d, 1, w.version), (d: bytes) => ReplaceInList(d, 2, w.sigAlg);
    var a0, b0 := RedrawTypes(a, w), RedrawTypes(b, w);
    EditAlike(a0, b0, EXT_SUPPORTED_GROUPS, groups);
    var a1, b1 := EditFirst(a0, EXT_SUPPORTED_GROUPS, groups), EditFirst(b0, EXT_SUPPORTED_GROUPS, groups);
    forall x, y | SharesAlike(x, y) ensures SharesAlike(shares(x), shares(y)) {
      RenameAlike(x, y, w.group);
    }
    EditAlike(a1, b1, EXT_KEY_SHARE, shares);
    var a2, b2 := EditFirst(a1, EXT_KEY_SHARE, shares), EditFirst(b1, EXT_KEY_SHARE, shares);
    EditAlike(a2, b2, EXT_SUPPORTED_VERSIONS, versions);
    var a3, b3 := EditFirst(a2, EXT_SUPPORTED_VERSIONS, versions), EditFirst(b2, EXT_SUPPORTED_VERSIONS, versions);
    EditAlike(a3, b3, EXT_SIGNATURE_ALGORITHMS, sigs);
    SameEdits(a, w, groups, shares, versions, sigs);
    SameEdits(b, w, groups, shares, versions, sigs);
  }

  lemma SameEdits(a: seq<Extension>, w: Draws, groups: bytes -> bytes, shares: bytes -> bytes, versions: bytes -> bytes, sigs: bytes -> bytes)
    requires forall d :: groups(d) == ReplaceInList(d, 2, w.group) && shares(d) == RenameShares(d, w.group)
    requires forall d :: versions(d) == ReplaceInList(d, 1, w.version) && sigs(d) == ReplaceInList(d, 2, w.sigAlg)
    ensures RedrawExtensions(a, w) ==
            EditFirst(EditFirst(EditFirst(EditFirst(RedrawTypes(a, w), EXT_SUPPORTED_GROUPS, groups), EXT_KEY_SHARE, shares),
                                EXT_SUPPORTED_VERSIONS, versions), EXT_SIGNATURE_ALGORITHMS, sigs)
  {
  }

  /** Equal but for what an outer first ECH body draws. */
  ghost predicate AlikeButECH(a: seq<Extension>, b: seq<Extension>) {
    SameTyped(a, b) && forall i: nat :: i < |a| ==> ButECHAt(a, b, FirstOf(a, EXT_ECH), i)
  }

  predicate ButECHAt(a: seq<Extension>, b: seq<Extension>, ech: Option<nat>, i: nat)
    requires i < |a| && i < |b|
  {
    a[i].data == b[i].data || (ech == Some(i) && ECHAlike(a[i].data, b[i].data))
  }

  lemma SharesForgotten(a: seq<Extension>, b: seq<Extension>, w: Draws)
    requires GoodDraws(w) && SameTyped(a, b) && ExtsAlike(a, b)
    ensures FreshFirstShares(a, w).Some? <==> FreshFirstShares(b, w).Some?
    ensures FreshFirstShares(a, w).Some? ==> AlikeButECH(FreshFirstShares(a, w).value, FreshFirstShares(b, w).value)
  {
    SameFirst(a, b, EXT_KEY_SHARE);
    match FirstOf(a, EXT_KEY_SHARE)
    case None =>
      forall i: nat | i < |a| ensures ButECHAt(a, b, FirstOf(a, EXT_ECH), i) {
        assert AlikeAt(a, b, i);
      }
    case Some(at) =>
      assert AlikeAt(a, b, at);
      assert SharesAlike(a[at].data, b[at].data);
      FreshAlike(a[at].data, b[at].data, w);
      if FreshShareBody(a[at].data, w).Some? {
        SameBodyAt(a, b, at, FreshShareBody(a[at].data, w).value);
      }
  }

  lemma OtherBodyAt(a: seq<Extension>, b: seq<Extension>, at: nat, i: nat)
    requires SameTyped(a, b) && ExtsAlike(a, b) && FirstOf(a, EXT_KEY_SHARE) == Some(at) && i < |a| && i != at
    ensures ButECHAt(a, b, FirstOf(a, EXT_ECH), i)
  {
    assert AlikeAt(a, b, i);
  }

  lemma SameBodyAt(a: seq<Extension>, b: seq<Extension>, at: nat, d: bytes)
    requires SameTyped(a, b) && ExtsAlike(a, b) && FirstOf(a, EXT_KEY_SHARE) == Some(at) && at < |a|
    ensures AlikeButECH(a[at := Extension(a[at].typ, d)], b[at := Extension(b[at].typ, d)])
  {
    var x, y := a[at := Extension(a[at].typ, d)], b[at := Extension(b[at].typ, d)];
    SameFirst(a, x, EXT_ECH);
    forall i: nat | i < |x| ensures ButECHAt(x, y, FirstOf(x, EXT_ECH), i) {
      if i != at {
        OtherBodyAt(a, b, at, i);
      }
    }
  }

  lemma ECHForgotten(a: seq<Extension>, b: seq<Extension>, w: Draws, f: bytes -> bytes)
    requires AlikeButECH(a, b) && forall d :: f(d) == FreshECH(d, w)
    ensures EditFirst(a, EXT_ECH, f) == EditFirst(b, EXT_ECH, f)
  {
    SameFirst(a, b, EXT_ECH);
    forall i: nat | i < |a| ensures EditFirst(a, EXT_ECH, f)[i] == EditFirst(b, EXT_ECH, f)[i] {
      assert ButECHAt(a, b, FirstOf(a, EXT_ECH), i);
    }
  }

  lemma CiphersForgotten(a: seq<u16>, b: seq<u16>, v: u16)
    requires NormCiphers(a) == NormCiphers(b)
    ensures RedrawCiphers(a, v) == RedrawCiphers(b, v)
  {
    assert |NormCiphers(a)| == |a| && |NormCiphers(b)| == |b|;
    forall i | 0 <= i < |a| ensures RedrawCipher(a[i], v) == RedrawCipher(b[i], v) {
      assert NormCiphers(a)[i] == NormGrease(a[i]) && NormCiphers(b)[i] == NormGrease(b[i]);
    }
  }

  /** Nothing of the harvested connection survives: under the same draws, two captures of one browser,
      whatever their randoms, session ids, GREASE values, key values and ECH payloads, are rerandomized
      to the same hello, or both refused. */
  lemma RerandomizeForgets(a: Hello, b: Hello, w: Draws)
    requires GoodDraws(w) && SameBrowser(a, b)
    ensures Rerandomized(a, w) == Rerandomized(b, w)
  {
    var x, y := RedrawExtensions(a.extensions, w), RedrawExtensions(b.extensions, w);
    RedrawAlike(a.extensions, b.extensions, w);
    SharesForgotten(x, y, w);
    CiphersForgotten(a.ciphers, b.ciphers, w.cipher);
    if FreshFirstShares(x, w).Some? {
      var f := (d: bytes) => FreshECH(d, w);
      ECHForgotten(FreshFirstShares(x, w).value, FreshFirstShares(y, w).value, w, f);
      LastEdit(a, w, f);
      LastEdit(b, w, f);
    }
  }

  lemma LastEdit(h: Hello, w: Draws, f: bytes -> bytes)
    requires GoodDraws(w) && (forall d :: f(d) == FreshECH(d, w)) && FreshFirstShares(RedrawExtensions(h.extensions, w), w).Some?
    ensures Rerandomized(h, w) == Some(Hello(
      h.version, w.random, DrawBytes(|h.sessionID|, w.sessionID), RedrawCiphers(h.ciphers, w.cipher), h.compression,
      EditFirst(FreshFirstShares(RedrawExtensions(h.extensions, w), w).value, EXT_ECH, f)))
  {
  }
}
