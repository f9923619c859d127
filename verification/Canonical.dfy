/** What identifies a pool entry: the canonical form behind contributionKey (harvester.go) and the
    fingerprint of a browser build (source.go). Both are hashed by the source; here they are the
    bytes handed to the hash, so equal bytes mean equal keys for every hash. */
module Canonical {
  import opened Bytes
  import opened HelloCodec
  import opened ExtensionBodies
  import opened ClientHelloObject
  import opened Emission
  import opened Sorting

  function NormGrease(v: u16): u16 {
    if IsGREASE(v) then GREASE_SENTINEL else v
  }

  function CanonShareBody(d: bytes): (r: bytes)
    ensures |r| == |d|
  {
    if |d| < 2 then d else d[..2] + CanonShares(d[2..])
  }

  /** The body of an extension with everything the emitter regenerates blanked. */
  function CanonBody(t: u16, d: bytes): bytes {
    if t == EXT_SERVER_NAME then []
    else if t == EXT_ECH then if |d| >= 5 then d[..5] else []
    else if t == EXT_KEY_SHARE then CanonShareBody(d)
    else if t == EXT_SUPPORTED_GROUPS || t == EXT_SIGNATURE_ALGORITHMS then ReplaceInList(d, 2, GREASE_SENTINEL)
    else if t == EXT_SUPPORTED_VERSIONS then ReplaceInList(d, 1, GREASE_SENTINEL)
    else d
  }

  function CanonExt(e: Extension): Extension {
    var t := NormGrease(e.typ);
    Extension(t, CanonBody(t, e.data))
  }

  function CanonExts(exts: seq<Extension>): (r: seq<Extension>)
    ensures |r| == |exts|
  {
    Map(exts, CanonExt)
  }

  /** bytes.Compare(a, b) <= 0. */
  predicate BytesLe(a: bytes, b: bytes) {
    a == [] || (b != [] && (a[0] < b[0] || (a[0] == b[0] && BytesLe(a[1..], b[1..]))))
  }

  predicate ExtLe(x: Extension, y: Extension) {
    x.typ < y.typ || (x.typ == y.typ && BytesLe(x.data, y.data))
  }

  function NormCiphers(cs: seq<u16>): (r: seq<u16>)
    ensures |r| == |cs|
  {
    Map(cs, NormGrease)
  }

  function CanonHello(h: Hello): Hello {
    Hello(h.version, Zeros(32), Zeros(|h.sessionID|), NormCiphers(h.ciphers), h.compression,
          Sort(CanonExts(h.extensions), ExtLe))
  }

  /** The bytes contributionKey hashes. */
  function CanonicalForm(h: Hello): bytes {
    Encode(CanonHello(h))
  }

  // -------------------------------------------------------------- fingerprint

  /** One extension as the fingerprint sees it: its type, GREASE folded, above its length; the
      ECH length is left out. */
  function FingerKey(e: Extension): nat {
    NormGrease(e.typ) as int * 0x1_0000 + if e.typ == EXT_ECH then 0 else |e.data|
  }

  function FingerKeys(exts: seq<Extension>): (r: seq<nat>)
    ensures |r| == |exts|
  {
    Map(exts, FingerKey)
  }

  predicate NatLe(x: nat, y: nat) {
    x <= y
  }

  function EncU32s(vs: seq<nat>): (r: bytes)
    ensures |r| == 4 * |vs|
  {
    if vs == [] then [] else U32(vs[0]) + EncU32s(vs[1..])
  }

  /** The bytes fingerprintIgnoringECHLength hashes, for extension bodies that fit 16 bits. */
  function FingerprintInput(h: Hello): bytes
    requires ExtsFit(h.extensions)
  {
    U16(h.version) + EncU16s(NormCiphers(h.ciphers)) + h.compression + EncU32s(Sort(FingerKeys(h.extensions), NatLe))
  }

  // -------------------------------------------------------------- the orders

  lemma {:induction false} BytesLeTotal(a: bytes, b: bytes)
    ensures BytesLe(a, b) || BytesLe(b, a)
    ensures BytesLe(a, b) && BytesLe(b, a) ==> a == b
  {
    if a != [] && b != [] {
      BytesLeTotal(a[1..], b[1..]);
      assert a == [a[0]] + a[1..] && b == [b[0]] + b[1..];
    }
  }

  lemma {:induction false} BytesLeTransitive(a: bytes, b: bytes, c: bytes)
    requires BytesLe(a, b) && BytesLe(b, c)
    ensures BytesLe(a, c)
  {
    if a != [] && a[0] == b[0] && b[0] == c[0] {
      BytesLeTransitive(a[1..], b[1..], c[1..]);
    }
  }

  lemma ExtLeTotalOrder()
    ensures TotalOrder(ExtLe)
  {
    forall x: Extension, y: Extension
      ensures (ExtLe(x, y) || ExtLe(y, x)) && (ExtLe(x, y) && ExtLe(y, x) ==> x == y)
    {
      BytesLeTotal(x.data, y.data);
    }
    forall x: Extension, y: Extension, z: Extension | ExtLe(x, y) && ExtLe(y, z) ensures ExtLe(x, z) {
      if x.typ == y.typ && y.typ == z.typ {
        BytesLeTransitive(x.data, y.data, z.data);
      }
    }
  }

  lemma NatLeTotalOrder()
    ensures TotalOrder(NatLe)
  {
  }

  // --------------------------------------------- what the canonical form ignores

  /** The canonical form depends on these parts of a hello and on nothing else. */
  lemma CanonicalFrom(h: Hello, h': Hello)
    requires h.version == h'.version && h.compression == h'.compression && |h.sessionID| == |h'.sessionID|
    requires NormCiphers(h.ciphers) == NormCiphers(h'.ciphers)
    requires multiset(CanonExts(h.extensions)) == multiset(CanonExts(h'.extensions))
    ensures CanonHello(h) == CanonHello(h') && CanonicalForm(h) == CanonicalForm(h')
  {
    ExtLeTotalOrder();
    SortByElements(CanonExts(h.extensions), CanonExts(h'.extensions), ExtLe);
  }

  /** Editing one body invisibly leaves every canonical extension alone. */
  lemma CanonAfterEdit(exts: seq<Extension>, i: nat, d: bytes)
    requires i < |exts| && CanonExt(Extension(exts[i].typ, d)) == CanonExt(exts[i])
    ensures CanonExts(exts[i := Extension(exts[i].typ, d)]) == CanonExts(exts)
  {
  }

  lemma CanonAfterSNI(h: Hello, name: bytes)
    requires WithName(h, name).Some?
    ensures CanonicalForm(WithName(h, name).value) == CanonicalForm(h)
  {
    var i := FirstOf(h.extensions, EXT_SERVER_NAME).value;
    CanonAfterEdit(h.extensions, i, NameBody(name));
    CanonicalFrom(h, WithName(h, name).value);
  }

  lemma CanonAfterKeyShare(h: Hello, pub: Bytes32)
    requires WithKeyShare(h, pub).Some?
    ensures CanonicalForm(WithKeyShare(h, pub).value) == CanonicalForm(h)
  {
    var i := FirstOf(h.extensions, EXT_KEY_SHARE).value;
    var d := h.extensions[i].data;
    CanonAfterInstall(d[2..], pub);
    var d' := InstallShareBody(d, pub).value;
    assert d'[..2] == d[..2] && d'[2..] == InstallShare(d[2..], pub).value;
    CanonAfterEdit(h.extensions, i, d');
    CanonicalFrom(h, WithKeyShare(h, pub).value);
  }

  lemma CanonAfterShuffle(h: Hello, picks: nat -> nat)
    requires GoodPicks(picks) && Shuffled(h.extensions, picks).Some?
    ensures CanonicalForm(h.(extensions := Shuffled(h.extensions, picks).value)) == CanonicalForm(h)
  {
    var r := Shuffled(h.extensions, picks).value;
    ShuffleKeepsEnds(h.extensions, picks);
    MapOfPermutation(r, h.extensions, CanonExt);
    CanonicalFrom(h, h.(extensions := r));
  }

  // ------------------------------------------------------------- Rerandomize

  /** An outer ECH body too short to hold the KDF and AEAD ids, in the extension the emitter
      rewrites. */
  predicate ShortOuterECH(exts: seq<Extension>) {
    match FirstOf(exts, EXT_ECH)
    case None => false
    case Some(i) => 1 <= |exts[i].data| < 5 && exts[i].data[0] == 0x00
  }

  /** Redrawing keeps every type up to GREASE. */
  lemma RedrawnTypes(exts: seq<Extension>, w: Draws, i: nat)
    requires GoodDraws(w) && i < |exts|
    ensures NormGrease(RedrawType(exts, i, w)) == NormGrease(exts[i].typ)
    ensures IsGREASE(RedrawType(exts, i, w)) <==> IsGREASE(exts[i].typ)
  {
  }

  lemma CanonAfterTypes(exts: seq<Extension>, w: Draws)
    requires GoodDraws(w)
    ensures CanonExts(RedrawTypes(exts, w)) == CanonExts(exts)
  {
    forall i | 0 <= i < |exts| ensures CanonExt(RedrawTypes(exts, w)[i]) == CanonExt(exts[i]) {
      RedrawnTypes(exts, w, i);
    }
  }

  /** A body edit that the canonical body of its type does not see. */
  ghost predicate Invisible(t: u16, f: bytes -> bytes) {
    !IsGREASE(t) && forall d :: CanonBody(t, f(d)) == CanonBody(t, d)
  }

  lemma CanonAfterEditFirst(exts: seq<Extension>, t: u16, f: bytes -> bytes)
    requires Invisible(t, f)
    ensures CanonExts(EditFirst(exts, t, f)) == CanonExts(exts)
  {
    var at := FirstOf(exts, t);
    if at.Some? {
      CanonAfterEdit(exts, at.value, f(exts[at.value].data));
    }
  }

  lemma ReplacingIsInvisible(t: u16, hdr: nat, g: u16)
    requires IsGREASE(g)
    requires (hdr == 2 && (t == EXT_SUPPORTED_GROUPS || t == EXT_SIGNATURE_ALGORITHMS)) || (hdr == 1 && t == EXT_SUPPORTED_VERSIONS)
    ensures Invisible(t, d => ReplaceInList(d, hdr, g))
  {
    forall d: bytes ensures CanonBody(t, ReplaceInList(d, hdr, g)) == CanonBody(t, d) {
      ReplaceTwice(d, hdr, g, GREASE_SENTINEL);
    }
  }

  lemma RenamingIsInvisible(g: u16)
    requires IsGREASE(g)
    ensures Invisible(EXT_KEY_SHARE, d => RenameShares(d, g))
  {
    forall d: bytes ensures CanonShareBody(RenameShares(d, g)) == CanonShareBody(d) {
      if |d| >= 2 {
        var r := RenameShares(d, g);
        assert r[..2] == d[..2] && r[2..] == RenameGroups(d[2..], g);
        CanonAfterRename(d[2..], g);
      }
    }
  }

  lemma CanonAfterRedraw(exts: seq<Extension>, w: Draws)
    requires GoodDraws(w)
    ensures CanonExts(RedrawExtensions(exts, w)) == CanonExts(exts)
  {
    var e0 := RedrawTypes(exts, w);
    CanonAfterTypes(exts, w);
    ReplacingIsInvisible(EXT_SUPPORTED_GROUPS, 2, w.group);
    RenamingIsInvisible(w.group);
    ReplacingIsInvisible(EXT_SUPPORTED_VERSIONS, 1, w.version);
    ReplacingIsInvisible(EXT_SIGNATURE_ALGORITHMS, 2, w.sigAlg);
    CanonAfterEditFirst(e0, EXT_SUPPORTED_GROUPS, d => ReplaceInList(d, 2, w.group));
    var e1 := EditFirst(e0, EXT_SUPPORTED_GROUPS, d => ReplaceInList(d, 2, w.group));
    CanonAfterEditFirst(e1, EXT_KEY_SHARE, d => RenameShares(d, w.group));
    var e2 := EditFirst(e1, EXT_KEY_SHARE, d => RenameShares(d, w.group));
    CanonAfterEditFirst(e2, EXT_SUPPORTED_VERSIONS, d => ReplaceInList(d, 1, w.version));
    var e3 := EditFirst(e2, EXT_SUPPORTED_VERSIONS, d => ReplaceInList(d, 1, w.version));
    CanonAfterEditFirst(e3, EXT_SIGNATURE_ALGORITHMS, d => ReplaceInList(d, 2, w.sigAlg));
  }

  lemma CanonAfterFreshShares(exts: seq<Extension>, w: Draws)
    requires GoodDraws(w) && FreshFirstShares(exts, w).Some?
    ensures CanonExts(FreshFirstShares(exts, w).value) == CanonExts(exts)
  {
    var at := FirstOf(exts, EXT_KEY_SHARE);
    if at.Some? {
      var d := exts[at.value].data;
      var d' := FreshShareBody(d, w).value;
      CanonAfterFresh(d[2..], 0, w.x25519, w.hybrid);
      assert d'[..2] == d[..2] && d'[2..] == FreshShares(d[2..], 0, w.x25519, w.hybrid).value;
      CanonAfterEdit(exts, at.value, d');
    }
  }

  /** The steps before the ECH one leave every ECH extension where and as it is. */
  ghost predicate SameECH(a: seq<Extension>, b: seq<Extension>) {
    && |a| == |b|
    && forall i :: 0 <= i < |a| ==>
        (a[i].typ == EXT_ECH <==> b[i].typ == EXT_ECH) && (a[i].typ == EXT_ECH ==> a[i] == b[i])
  }

  lemma SameECHFirst(a: seq<Extension>, b: seq<Extension>)
    requires SameECH(a, b)
    ensures FirstOf(a, EXT_ECH) == FirstOf(b, EXT_ECH)
    ensures ShortOuterECH(a) <==> ShortOuterECH(b)
  {
    var at := FirstOf(a, EXT_ECH);
    if at.Some? {
      FirstOfUnique(b, EXT_ECH, at.value);
    }
  }

  lemma EditKeepsECH(exts: seq<Extension>, t: u16, f: bytes -> bytes)
    requires t != EXT_ECH
    ensures SameECH(exts, EditFirst(exts, t, f))
  {
  }

  lemma RedrawKeepsECH(exts: seq<Extension>, w: Draws)
    requires GoodDraws(w)
    ensures SameECH(exts, RedrawExtensions(exts, w))
  {
    var e0 := RedrawTypes(exts, w);
    forall i | 0 <= i < |exts| ensures exts[i].typ == EXT_ECH <==> e0[i].typ == EXT_ECH {
      RedrawnTypes(exts, w, i);
    }
    var e1 := EditFirst(e0, EXT_SUPPORTED_GROUPS, d => ReplaceInList(d, 2, w.group));
    EditKeepsECH(e0, EXT_SUPPORTED_GROUPS, d => ReplaceInList(d, 2, w.group));
    var e2 := EditFirst(e1, EXT_KEY_SHARE, d => RenameShares(d, w.group));
    EditKeepsECH(e1, EXT_KEY_SHARE, d => RenameShares(d, w.group));
    var e3 := EditFirst(e2, EXT_SUPPORTED_VERSIONS, d => ReplaceInList(d, 1, w.version));
    EditKeepsECH(e2, EXT_SUPPORTED_VERSIONS, d => ReplaceInList(d, 1, w.version));
    EditKeepsECH(e3, EXT_SIGNATURE_ALGORITHMS, d => ReplaceInList(d, 2, w.sigAlg));
  }

  /** The new ECH body keeps the canonical body unless the old one was outer and short; then the
      canonical body grows from nothing to five bytes. */
  lemma FreshECHBody(d: bytes, w: Draws)
    requires w.bucket < 4
    ensures |FreshECH(d, w)| < 0x1_0000 || FreshECH(d, w) == d
    ensures FreshECH(d, w) == d || |FreshECH(d, w)| >= 5
    ensures if 1 <= |d| < 5 && d[0] == 0x00
            then CanonBody(EXT_ECH, d) == [] && |CanonBody(EXT_ECH, FreshECH(d, w))| == 5
            else CanonBody(EXT_ECH, FreshECH(d, w)) == CanonBody(EXT_ECH, d)
  {
    if |d| >= 5 && d[0] == 0x00 {
      assert FreshECH(d, w)[..5] == [0x00] + d[1..5] == d[..5];
    }
  }

  lemma {:induction false} SortKeepsLength(s: seq<Extension>)
    ensures |EncExts(Sort(s, ExtLe))| == |EncExts(s)|
  {
    if s != [] {
      SortKeepsLength(s[1..]);
      InsertLength(s[0], Sort(s[1..], ExtLe));
    }
  }

  lemma {:induction false} InsertLength(x: Extension, s: seq<Extension>)
    ensures |EncExts(Insert(x, s, ExtLe))| == 4 + |x.data| + |EncExts(s)|
  {
    if s == [] || ExtLe(x, s[0]) {
      EncExtsCons(x, s);
    } else {
      InsertLength(x, s[1..]);
      EncExtsCons(s[0], Insert(x, s[1..], ExtLe));
    }
  }

  lemma {:induction false} UpdateLength(s: seq<Extension>, i: nat, x: Extension)
    requires i < |s|
    ensures |EncExts(s[i := x])| == |EncExts(s)| - |s[i].data| + |x.data|
  {
    if i > 0 {
      UpdateLength(s[1..], i - 1, x);
      assert s[i := x][1..] == s[1..][i - 1 := x];
    } else {
      assert s[0 := x][1..] == s[1..];
    }
  }

  lemma FormLength(h: Hello)
    ensures |CanonicalForm(h)| ==
            49 + |h.sessionID| + 2 * |h.ciphers| + |h.compression| + |EncExts(CanonExts(h.extensions))|
  {
    SortKeepsLength(CanonExts(h.extensions));
  }

  /** Two hellos alike but for the body of one ECH extension, which was rewritten. */
  lemma CanonAfterECH(h: Hello, h': Hello, e2: seq<Extension>, i: nat, w: Draws)
    requires w.bucket < 4 && FirstOf(e2, EXT_ECH) == Some(i) && CanonExts(e2) == CanonExts(h.extensions)
    requires h'.extensions == e2[i := Extension(EXT_ECH, FreshECH(e2[i].data, w))]
    requires h'.version == h.version && |h'.sessionID| == |h.sessionID| && h'.compression == h.compression
    requires NormCiphers(h'.ciphers) == NormCiphers(h.ciphers) && |h'.ciphers| == |h.ciphers|
    ensures ShortOuterECH(e2) ==> |CanonicalForm(h')| == |CanonicalForm(h)| + 5
    ensures !ShortOuterECH(e2) ==> CanonicalForm(h') == CanonicalForm(h)
  {
    FreshECHBody(e2[i].data, w);
    if ShortOuterECH(e2) {
      assert CanonExts(h'.extensions) == CanonExts(e2)[i := CanonExt(h'.extensions[i])];
      UpdateLength(CanonExts(e2), i, CanonExt(h'.extensions[i]));
      FormLength(h);
      FormLength(h');
    } else {
      CanonAfterEdit(e2, i, FreshECH(e2[i].data, w));
      CanonicalFrom(h, h');
    }
  }

  /** Rerandomize keeps the canonical form exactly when the ECH extension it rewrites is not an
      outer one of under five bytes; otherwise the form grows by five bytes. */
  lemma CanonAfterRerandomize(h: Hello, w: Draws)
    requires GoodDraws(w) && Rerandomized(h, w).Some?
    ensures CanonicalForm(Rerandomized(h, w).value) == CanonicalForm(h) <==> !ShortOuterECH(h.extensions)
    ensures |CanonicalForm(Rerandomized(h, w).value)| == |CanonicalForm(h)| + if ShortOuterECH(h.extensions) then 5 else 0
  {
    var h' := Rerandomized(h, w).value;
    var e1 := RedrawExtensions(h.extensions, w);
    var e2 := FreshFirstShares(e1, w).value;
    CanonAfterRedraw(h.extensions, w);
    CanonAfterFreshShares(e1, w);
    RedrawKeepsECH(h.extensions, w);
    SameECHFirst(h.extensions, e1);
    SameECHFirst(e1, e2);
    assert NormCiphers(h'.ciphers) == NormCiphers(h.ciphers);
    var at := FirstOf(e2, EXT_ECH);
    if at.None? {
      CanonicalFrom(h, h');
    } else {
      CanonAfterECH(h, h', e2, at.value, w);
    }
  }
}
