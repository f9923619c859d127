/** Where every draw of an emission lands (twiddle.go, auth.go SetKeyShare): each field, each extension and each
    byte that Rerandomize and SetKeyShare write, and that they write no other. */
module Redrawn {
  import opened Bytes
  import opened HelloCodec
  import opened ExtensionBodies
  import opened BodyViews
  import opened ClientHelloObject
  import opened Emission
  import opened Canonical
  import opened Admission
  import opened Forgetting

  // ------------------------------------------------------------------------- ECH

  /** An outer body, byte by byte: its HPKE ids, or the default ones where it was too short to hold any, the
      drawn config id, the drawn enc behind its length and the drawn payload behind its own, which is one
      of the four measured. An inner or empty body stays. */
  ghost predicate ECHDrawn(d: bytes, w: Draws, r: bytes) {
    if |d| == 0 || d[0] != 0x00 then r == d else
      var n: nat := [144, 176, 208, 240][w.bucket % 4];
      && |r| == 42 + n && r[0] == 0x00
      && Stands(r, 1, if |d| >= 5 then d[1..5] else [0x00, 0x01, 0x00, 0x01])
      && r[5] == w.configID && Stands(r, 6, [0x00, 0x20]) && Stands(r, 8, w.enc) && Stands(r, 40, [0x00, n])
      && forall j :: 0 <= j < n ==> r[42 + j] == w.payload(j)
  }

  lemma ECHParts(ids: bytes, config: byte, enc: bytes, n: nat, payload: bytes)
    requires |ids| == 4 && |enc| == 32 && |payload| == n < 0x100
    ensures var r := [0x00] + ids + [config] + U16(32) + enc + U16(n) + payload;
            && |r| == 42 + n && r[0] == 0x00 && Stands(r, 1, ids) && r[5] == config
            && Stands(r, 6, [0x00, 0x20]) && Stands(r, 8, enc) && Stands(r, 40, [0x00, n]) && Stands(r, 42, payload)
  {
    var r := [0x00] + ids + [config] + U16(32) + enc + U16(n) + payload;
    var front := [0x00] + ids + [config];
    assert U16(32) == [0x00, 0x20] && U16(n) == [0x00, n];
    assert r == front + (U16(32) + (enc + (U16(n) + payload)));
    Layers(front, U16(32), enc, U16(n) + payload);
    assert r == (front + U16(32)) + (enc + (U16(n) + payload));
    Layers(front + U16(32), enc, U16(n), payload);
    assert r == [0x00] + (ids + ([config] + (U16(32) + enc + U16(n) + payload)));
    Layers([0x00], ids, [config], U16(32) + enc + U16(n) + payload);
    At(r, 5, [config], 0);
  }

  lemma ECHBytes(d: bytes, w: Draws)
    requires w.bucket < 4
    ensures ECHDrawn(d, w, FreshECH(d, w))
  {
    if |d| >= 1 && d[0] == 0x00 {
      var n := BucketLen(w.bucket);
      assert n == [144, 176, 208, 240][w.bucket % 4];
      var payload := DrawBytes(n, w.payload);
      ECHParts(if |d| >= 5 then d[1..5] else [0x00, 0x01, 0x00, 0x01], w.configID, w.enc, n, payload);
      forall j | 0 <= j < n ensures FreshECH(d, w)[42 + j] == w.payload(j) {
        At(FreshECH(d, w), 42, payload, j);
      }
    }
  }

  // ------------------------------------------------------------------- key_share

  /** One entry: a GREASE group becomes the draw; the value keeps its length and is the key drawn for it, for
      X25519 and for the hybrid group at their lengths, and zeros for anything else. */
  ghost predicate EntryDrawn(before: (u16, bytes), after: (u16, bytes), k: nat, w: Draws) {
    && after.0 == (if IsGREASE(before.0) then w.group else before.0) && |after.1| == |before.1|
    && (if before.0 == 0x001d && |before.1| == 32 then after.1 == w.x25519(k)
        else if before.0 == 0x11ec && |before.1| == 1216 then after.1 == w.hybrid(k)
        else forall j :: 0 <= j < |after.1| ==> after.1[j] == 0)
  }

  /** Every entry in its place, and nothing else. */
  ghost predicate SharesDrawn(d: bytes, w: Draws, r: bytes) {
    && 2 <= |d| == |r| && r[..2] == d[..2] && Behind(r[2..]) == Behind(d[2..])
    && |Entries(r[2..])| == |Entries(d[2..])|
    && forall i: nat :: i < |Entries(d[2..])| ==> EntryDrawn(Entries(d[2..])[i], Entries(r[2..])[i], i, w)
  }

  lemma {:induction false} FreshKeepsBehind(s: bytes, k: nat, x25519: nat -> Bytes32, hybrid: nat -> bytes)
    requires forall i :: |hybrid(i)| == HYBRID_SHARE_LEN
    requires FreshShares(s, k, x25519, hybrid).Some?
    ensures Behind(FreshShares(s, k, x25519, hybrid).value) == Behind(s) && |Behind(s)| < 4
    decreases |s|
  {
    if HasEntry(s) {
      var n := EntryLen(s);
      FreshKeepsBehind(s[n..], k + 1, x25519, hybrid);
      EntrySplit(s);
      ReadEntry(s[..4], FreshValue(GetU16(s, 0), n - 4, k, x25519, hybrid), FreshShares(s[n..], k + 1, x25519, hybrid).value);
    }
  }

  lemma RenamedEntry(before: (u16, bytes), mid: (u16, bytes), after: (u16, bytes), k: nat, w: Draws)
    requires GoodDraws(w) && mid.1 == before.1 && mid.0 == (if IsGREASE(before.0) then w.group else before.0)
    requires Renewed(mid, after, w.x25519(k), w.hybrid(k))
    ensures EntryDrawn(before, after, k, w)
  {
  }

  lemma SharesBytes(d: bytes, w: Draws)
    requires GoodDraws(w) && FreshShareBody(RenameShares(d, w.group), w).Some?
    ensures SharesDrawn(d, w, FreshShareBody(RenameShares(d, w.group), w).value)
  {
    var s := d[2..];
    var m := RenameGroups(s, w.group);
    assert RenameShares(d, w.group)[2..] == m && RenameShares(d, w.group)[..2] == d[..2];
    var f := FreshShares(m, 0, w.x25519, w.hybrid).value;
    var r := FreshShareBody(RenameShares(d, w.group), w).value;
    assert r[2..] == f && r[..2] == d[..2];
    RenamedEntries(s, w.group);
    FreshEntries(m, 0, w.x25519, w.hybrid);
    FreshKeepsBehind(m, 0, w.x25519, w.hybrid);
    forall i: nat | i < |Entries(s)| ensures EntryDrawn(Entries(s)[i], Entries(f)[i], i, w) {
      RenamedEntry(Entries(s)[i], Entries(m)[i], Entries(f)[i], i, w);
    }
  }

  // ------------------------------------------------------------------ extensions

  predicate FirstOfItsType(exts: seq<Extension>, i: nat)
    requires i < |exts|
  {
    forall j :: 0 <= j < i ==> exts[j].typ != exts[i].typ
  }

  lemma FirstMeans(exts: seq<Extension>, i: nat)
    requires i < |exts|
    ensures FirstOfItsType(exts, i) <==> FirstOf(exts, exts[i].typ) == Some(i)
  {
  }

  /** The first GREASE type is one draw, the last of several another, and any between them has its own. */
  predicate TypeDrawn(exts: seq<Extension>, i: nat, w: Draws, t: u16)
    requires i < |exts|
  {
    t == if !IsGREASE(exts[i].typ) then exts[i].typ
         else if forall j :: 0 <= j < i ==> !IsGREASE(exts[j].typ) then w.ext1
         else if forall j :: i < j < |exts| ==> !IsGREASE(exts[j].typ) then w.ext2
         else w.interior(i)
  }

  /** Five bodies are rewritten, each in the first extension of its type; every other body stays. */
  ghost predicate BodyDrawn(t: u16, first: bool, d: bytes, w: Draws, r: bytes) {
    if !first then r == d
    else if t == 0x000a then Replaced(d, 2, w.group, r)
    else if t == 0x0033 then SharesDrawn(d, w, r)
    else if t == 0x002b then Replaced(d, 1, w.version, r)
    else if t == 0x000d then Replaced(d, 2, w.sigAlg, r)
    else if t == 0xfe0d then ECHDrawn(d, w, r)
    else r == d
  }

  ghost predicate DrawnAt(exts: seq<Extension>, i: nat, w: Draws, e: Extension)
    requires i < |exts|
  {
    TypeDrawn(exts, i, w, e.typ) && BodyDrawn(exts[i].typ, FirstOfItsType(exts, i), exts[i].data, w, e.data)
  }

  lemma BodiesDrawn(t: u16, first: bool, d: bytes, w: Draws)
    requires GoodDraws(w) && !IsGREASE(t)
    requires first && t == EXT_KEY_SHARE ==> FreshShareBody(RenameShares(d, w.group), w).Some?
    ensures BodyDrawn(t, first, d, w, FreshBody(t, first, RedrawBody(t, first, d, w), w))
  {
    ECHBytes(d, w);
    ReplacedList(d, 2, w.group);
    ReplacedList(d, 1, w.version);
    ReplacedList(d, 2, w.sigAlg);
    if first && t == EXT_KEY_SHARE {
      SharesBytes(d, w);
    }
  }

  /** The key_share rewritten is one that can be. */
  lemma ShareWorks(h: Hello, w: Draws, i: nat)
    requires GoodDraws(w) && Rerandomized(h, w).Some? && FirstOf(h.extensions, EXT_KEY_SHARE) == Some(i)
    ensures i < |h.extensions| && FreshShareBody(RenameShares(h.extensions[i].data, w.group), w).Some?
  {
    RerandomizeShares(h, w);
    SharesSucceed(h.extensions[i].data, w);
  }

  lemma PlainDrawn(h: Hello, w: Draws, i: nat)
    requires GoodDraws(w) && Rerandomized(h, w).Some? && i < |h.extensions| && !IsGREASE(h.extensions[i].typ)
    ensures i < |Rerandomized(h, w).value.extensions| && DrawnAt(h.extensions, i, w, Rerandomized(h, w).value.extensions[i])
  {
    var e, first := h.extensions[i], FirstOfItsType(h.extensions, i);
    FirstMeans(h.extensions, i);
    RerandomizedAt(h, w, i);
    if first && e.typ == EXT_KEY_SHARE {
      ShareWorks(h, w, i);
    }
    BodiesDrawn(e.typ, first, e.data, w);
  }

  /** An edit of the first extension of another type. */
  lemma OtherKept(exts: seq<Extension>, t: u16, f: bytes -> bytes, i: nat)
    requires i < |exts| && exts[i].typ != t
    ensures EditFirst(exts, t, f)[i] == exts[i]
  {
  }

  lemma GreaseIsOther(t: u16)
    requires IsGREASE(t)
    ensures t != EXT_SUPPORTED_GROUPS && t != EXT_KEY_SHARE && t != EXT_SUPPORTED_VERSIONS && t != EXT_SIGNATURE_ALGORITHMS && t != EXT_ECH
  {
  }

  /** A GREASE extension keeps its body through the edits of others. */
  lemma RedrawKeepsGrease(exts: seq<Extension>, w: Draws, i: nat)
    requires GoodDraws(w) && i < |exts| && IsGREASE(exts[i].typ)
    ensures RedrawExtensions(exts, w)[i] == Extension(RedrawType(exts, i, w), exts[i].data)
  {
    var e0 := RedrawTypes(exts, w);
    var e1 := EditFirst(e0, EXT_SUPPORTED_GROUPS, d => ReplaceInList(d, 2, w.group));
    var e2 := EditFirst(e1, EXT_KEY_SHARE, d => RenameShares(d, w.group));
    var e3 := EditFirst(e2, EXT_SUPPORTED_VERSIONS, d => ReplaceInList(d, 1, w.version));
    RedrawnTypes(exts, w, i);
    GreaseIsOther(e0[i].typ);
    OtherKept(e0, EXT_SUPPORTED_GROUPS, d => ReplaceInList(d, 2, w.group), i);
    OtherKept(e1, EXT_KEY_SHARE, d => RenameShares(d, w.group), i);
    OtherKept(e2, EXT_SUPPORTED_VERSIONS, d => ReplaceInList(d, 1, w.version), i);
    OtherKept(e3, EXT_SIGNATURE_ALGORITHMS, d => ReplaceInList(d, 2, w.sigAlg), i);
  }

  /** So it does through the rest. */
  lemma FreshKeepsGrease(e1: seq<Extension>, w: Draws, i: nat)
    requires GoodDraws(w) && FreshFirstShares(e1, w).Some? && i < |e1| && IsGREASE(e1[i].typ)
    ensures EditFirst(FreshFirstShares(e1, w).value, EXT_ECH, d => FreshECH(d, w))[i] == e1[i]
  {
    GreaseIsOther(e1[i].typ);
    OtherKept(FreshFirstShares(e1, w).value, EXT_ECH, d => FreshECH(d, w), i);
  }

  lemma GreaseDrawn(h: Hello, w: Draws, i: nat)
    requires GoodDraws(w) && Rerandomized(h, w).Some? && i < |h.extensions| && IsGREASE(h.extensions[i].typ)
    ensures i < |Rerandomized(h, w).value.extensions| && DrawnAt(h.extensions, i, w, Rerandomized(h, w).value.extensions[i])
  {
    RedrawKeepsGrease(h.extensions, w, i);
    RedrawnTypes(h.extensions, w, i);
    FreshKeepsGrease(RedrawExtensions(h.extensions, w), w, i);
    GreaseTypes(h.extensions, w, i);
    GreaseIsOther(h.extensions[i].typ);
  }

  lemma GreaseTypes(exts: seq<Extension>, w: Draws, i: nat)
    requires i < |exts|
    ensures TypeDrawn(exts, i, w, RedrawType(exts, i, w))
  {
  }

  /** The whole of Rerandomize: the random and the session id are drawn, at their lengths; the GREASE suites
      are one draw; each extension stays in its place, with the type and the body drawn for it; version and
      compression stay. */
  lemma DrawsLand(h: Hello, w: Draws)
    requires GoodDraws(w) && Rerandomized(h, w).Some?
    ensures var r := Rerandomized(h, w).value;
            && r.version == h.version && r.compression == h.compression && r.random == w.random
            && |r.sessionID| == |h.sessionID| && (forall k :: 0 <= k < |h.sessionID| ==> r.sessionID[k] == w.sessionID(k))
            && |r.ciphers| == |h.ciphers|
            && (forall k :: 0 <= k < |h.ciphers| ==> r.ciphers[k] == if IsGREASE(h.ciphers[k]) then w.cipher else h.ciphers[k])
            && |r.extensions| == |h.extensions|
            && (forall i: nat :: i < |h.extensions| ==> DrawnAt(h.extensions, i, w, r.extensions[i]))
  {
    forall i: nat | i < |h.extensions| ensures DrawnAt(h.extensions, i, w, Rerandomized(h, w).value.extensions[i]) {
      if IsGREASE(h.extensions[i].typ) {
        GreaseDrawn(h, w, i);
      } else {
        PlainDrawn(h, w, i);
      }
    }
  }

  // ---------------------------------------------------------------- SetKeyShare

  /** The first 32-byte X25519 entry holds pub, and nothing else of the body has changed. */
  predicate KeyInstalled(d: bytes, pub: Bytes32, r: bytes) {
    && 2 <= |d| == |r| && r[..2] == d[..2] && Behind(r[2..]) == Behind(d[2..])
    && |Entries(r[2..])| == |Entries(d[2..])|
    && var x, y, k := Entries(d[2..]), Entries(r[2..]), FirstEntry(Entries(d[2..]));
       k < |x| && forall j :: 0 <= j < |x| ==> y[j] == if j == k then (0x001d, pub) else x[j]
  }

  /** SetKeyShare succeeds exactly when the first key_share has a complete 32-byte X25519 entry; it writes the
      key into the first such entry, and nothing else of the hello. */
  lemma KeyLands(h: Hello, pub: Bytes32)
    ensures WithKeyShare(h, pub).Some? <==>
            exists i: nat :: i < |h.extensions| && h.extensions[i].typ == 0x0033 && FirstOfItsType(h.extensions, i)
                             && 2 <= |h.extensions[i].data|
                             && FirstEntry(Entries(h.extensions[i].data[2..])) < |Entries(h.extensions[i].data[2..])|
    ensures WithKeyShare(h, pub).Some? ==>
            var r, i := WithKeyShare(h, pub).value, FirstOf(h.extensions, 0x0033).value;
            && r == h.(extensions := h.extensions[i := Extension(0x0033, r.extensions[i].data)])
            && KeyInstalled(h.extensions[i].data, pub, r.extensions[i].data)
  {
    var at := FirstOf(h.extensions, EXT_KEY_SHARE);
    if at.Some? {
      var i, d := at.value, h.extensions[at.value].data;
      FirstMeans(h.extensions, i);
      if |d| >= 2 {
        InstalledEntries(d[2..], pub);
        if InstallShareBody(d, pub).Some? {
          var r := InstallShareBody(d, pub).value;
          assert r[..2] == d[..2] && r[2..] == InstallShare(d[2..], pub).value;
          assert KeyInstalled(d, pub, r);
        }
      }
    }
  }

  /** The server's reading of it: the first X25519 entry of the first key_share, when that has 32 bytes. */
  lemma KeyIsRead(h: Hello, k: Bytes32)
    ensures KeyShareOf(h) == Some(k) <==>
            exists i: nat :: i < |h.extensions| && h.extensions[i].typ == 0x0033 && FirstOfItsType(h.extensions, i)
                             && 2 <= |h.extensions[i].data| && FirstKey(Entries(h.extensions[i].data[2..]), k)
  {
    var at := FirstOf(h.extensions, EXT_KEY_SHARE);
    if at.Some? {
      FirstMeans(h.extensions, at.value);
      if |h.extensions[at.value].data| >= 2 {
        ReadsFirst(h.extensions[at.value].data[2..]);
      }
    }
  }

  predicate FirstKey(x: seq<(u16, bytes)>, k: Bytes32) {
    FirstCurve(x) < |x| && x[FirstCurve(x)].1 == k
  }
}
