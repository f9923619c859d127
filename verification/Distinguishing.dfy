/** What the two identities of a pool entry still tell apart (harvester.go, source.go): the other half of what
    Canonical and PoolIdentity show they ignore. Each is stated on the hellos themselves. */
module Distinguishing {
  import opened Bytes
  import opened HelloCodec
  import opened ExtensionBodies
  import opened BodyViews
  import opened Sorting
  import opened Canonical

  // ------------------------------------------------------------------ the dedup key

  /** The same groups up to GREASE and the same value lengths, behind the same list length. */
  predicate SharesSame(a: bytes, b: bytes) {
    if |a| < 2 || |b| < 2 then a == b else a[..2] == b[..2] && OffersSame(a[2..], b[2..])
  }

  /** Nothing of a name; of an ECH body its kind and its HPKE ids; of a key_share its groups and lengths; of
      three lists their values, GREASE folded; and every byte of any other body. */
  predicate BodySame(t: u16, a: bytes, b: bytes) {
    if t == 0x0000 then true
    else if t == 0xfe0d then if |a| >= 5 && |b| >= 5 then a[..5] == b[..5] else |a| < 5 && |b| < 5
    else if t == 0x0033 then SharesSame(a, b)
    else if t == 0x000a || t == 0x000d then ListSame(a, b, 2)
    else if t == 0x002b then ListSame(a, b, 1)
    else a == b
  }

  predicate ExtSame(e: Extension, f: Extension) {
    UpToGrease(e.typ, f.typ) && BodySame(e.typ, e.data, f.data)
  }

  predicate SuitesSame(a: seq<u16>, b: seq<u16>) {
    |a| == |b| && forall i :: 0 <= i < |a| ==> UpToGrease(a[i], b[i])
  }

  /** Place by place alike. */
  ghost predicate Alike(a: seq<Extension>, c: seq<Extension>, same: (Extension, Extension) -> bool) {
    |c| == |a| && forall i :: 0 <= i < |a| ==> same(a[i], c[i])
  }

  /** The extensions correspond one to one: some order of b is, place by place, like a. */
  ghost predicate OneToOne(a: seq<Extension>, b: seq<Extension>, same: (Extension, Extension) -> bool) {
    exists c :: multiset(c) == multiset(b) && Alike(a, c, same)
  }

  /** What a pool entry contributes is the same. */
  ghost predicate SameEntry(h: Hello, h': Hello) {
    && h.version == h'.version && h.compression == h'.compression && |h.sessionID| == |h'.sessionID|
    && SuitesSame(h.ciphers, h'.ciphers) && OneToOne(h.extensions, h'.extensions, ExtSame)
  }

  lemma NormedAlike(u: u16, v: u16)
    ensures NormGrease(u) == NormGrease(v) <==> UpToGrease(u, v)
  {
  }

  lemma SplitAt2(h: bytes, x: bytes, k: bytes, y: bytes)
    requires |h| == |k|
    ensures h + x == k + y <==> h == k && x == y
  {
    if h + x == k + y {
      assert (h + x)[..|h|] == h && (k + y)[..|k|] == k;
      assert (h + x)[|h|..] == x && (k + y)[|k|..] == y;
    }
  }

  lemma SharesAlike(a: bytes, b: bytes)
    ensures CanonShareBody(a) == CanonShareBody(b) <==> SharesSame(a, b)
  {
    if |a| >= 2 && |b| >= 2 {
      SplitAt2(a[..2], CanonShares(a[2..]), b[..2], CanonShares(b[2..]));
      BlankedAlike(a[2..], b[2..]);
    } else if CanonShareBody(a) == CanonShareBody(b) {
      assert |CanonShareBody(a)| == |a| && |CanonShareBody(b)| == |b|;
    }
  }

  lemma BodiesAlike(t: u16, a: bytes, b: bytes)
    ensures CanonBody(t, a) == CanonBody(t, b) <==> BodySame(t, a, b)
  {
    if t == 0x0033 {
      SharesAlike(a, b);
    } else if t == 0x000a || t == 0x000d {
      FoldedAlike(a, b, 2, GREASE_SENTINEL);
    } else if t == 0x002b {
      FoldedAlike(a, b, 1, GREASE_SENTINEL);
    }
  }

  /** Two extensions have one canonical form exactly when they are the same up to what is redrawn. */
  lemma ExtsAlike(e: Extension, f: Extension)
    ensures CanonExt(e) == CanonExt(f) <==> ExtSame(e, f)
  {
    NormedAlike(e.typ, f.typ);
    if IsGREASE(e.typ) {
      assert CanonBody(GREASE_SENTINEL, e.data) == e.data && CanonBody(GREASE_SENTINEL, f.data) == f.data;
      assert BodySame(e.typ, e.data, f.data) <==> e.data == f.data;
    } else {
      BodiesAlike(e.typ, e.data, f.data);
    }
  }

  lemma SuitesAlike(a: seq<u16>, b: seq<u16>)
    ensures NormCiphers(a) == NormCiphers(b) <==> SuitesSame(a, b)
  {
    var x, y := NormCiphers(a), NormCiphers(b);
    if |a| == |b| {
      forall i | 0 <= i < |a| ensures x[i] == y[i] <==> UpToGrease(a[i], b[i]) {
        NormedAlike(a[i], b[i]);
      }
    }
  }

  /** A list of images matches up exactly when the elements do. */
  lemma MatchesUp<B(!new)>(a: seq<Extension>, b: seq<Extension>, f: Extension -> B, same: (Extension, Extension) -> bool)
    requires forall x, y :: f(x) == f(y) <==> same(x, y)
    ensures multiset(Map(a, f)) == multiset(Map(b, f)) <==> OneToOne(a, b, same)
  {
    if multiset(Map(a, f)) == multiset(Map(b, f)) {
      var c := MatchUp(a, b, f);
      assert Alike(a, c, same);
    }
    if OneToOne(a, b, same) {
      var c :| multiset(c) == multiset(b) && Alike(a, c, same);
      assert Map(a, f) == Map(c, f);
      MapOfPermutation(c, b, f);
    }
  }

  lemma ExtensionsAlike(a: seq<Extension>, b: seq<Extension>)
    ensures multiset(CanonExts(a)) == multiset(CanonExts(b)) <==> OneToOne(a, b, ExtSame)
  {
    forall x, y ensures CanonExt(x) == CanonExt(y) <==> ExtSame(x, y) {
      ExtsAlike(x, y);
    }
    MatchesUp(a, b, CanonExt, ExtSame);
  }

  lemma {:induction false} CanonNoLonger(exts: seq<Extension>)
    requires ExtsFit(exts)
    ensures |EncExts(CanonExts(exts))| <= |EncExts(exts)|
  {
    if exts != [] {
      CanonNoLonger(exts[1..]);
      assert CanonExts(exts)[1..] == CanonExts(exts[1..]);
      assert |CanonBody(NormGrease(exts[0].typ), exts[0].data)| <= |exts[0].data|;
    }
  }

  lemma SortedFit(exts: seq<Extension>)
    requires ExtsFit(exts)
    ensures ExtsFit(Sort(CanonExts(exts), ExtLe))
  {
    var c := CanonExts(exts);
    ExtLeTotalOrder();
    SortSorts(c, ExtLe);
    forall i | 0 <= i < |c| ensures |c[i].data| < 0x1_0000 {
      assert |CanonBody(NormGrease(exts[i].typ), exts[i].data)| <= |exts[i].data|;
    }
    var s := Sort(c, ExtLe);
    forall i | 0 <= i < |s| ensures |s[i].data| < 0x1_0000 {
      assert s[i] in multiset(s);
      assert s[i] in c;
    }
  }

  lemma BodyLength(h: Hello)
    ensures |EncBody(h)| == 40 + |h.sessionID| + 2 * |h.ciphers| + |h.compression| + |EncExts(h.extensions)|
  {
    BodyShape(h, |EncExts(h.extensions)|);
    FrontLength(h);
  }

  /** The canonical form of a hello that fits is itself the encoding of a hello that fits. */
  lemma CanonFits(h: Hello)
    requires Fits(h)
    ensures Fits(CanonHello(h))
  {
    var c := CanonHello(h);
    SortKeepsLength(CanonExts(h.extensions));
    CanonNoLonger(h.extensions);
    SortedFit(h.extensions);
    BodyLength(h);
    BodyLength(c);
  }

  lemma FormsAlike(h: Hello, h': Hello)
    requires Fits(h) && Fits(h')
    ensures CanonicalForm(h) == CanonicalForm(h') <==> CanonHello(h) == CanonHello(h')
  {
    CanonFits(h);
    CanonFits(h');
    DecodeEncode(CanonHello(h));
    DecodeEncode(CanonHello(h'));
  }

  /** The dedup key's input: two hellos have one canonical form exactly when they contribute the same. So
      nothing the emitter does not redraw is lost, whatever the order and the types of the extensions. */
  lemma FormMeans(h: Hello, h': Hello)
    requires Fits(h) && Fits(h')
    ensures CanonicalForm(h) == CanonicalForm(h') <==> SameEntry(h, h')
  {
    FormsAlike(h, h');
    SuitesAlike(h.ciphers, h'.ciphers);
    ExtLeTotalOrder();
    SortByElements(CanonExts(h.extensions), CanonExts(h'.extensions), ExtLe);
    ExtensionsAlike(h.extensions, h'.extensions);
    assert |Zeros(|h.sessionID|)| == |h.sessionID| && |Zeros(|h'.sessionID|)| == |h'.sessionID|;
  }

  /** Every record the parser takes fits, so the same holds of what the records decode to. */
  lemma DecodedForms(a: bytes, b: bytes)
    requires Decode(a).Some? && Decode(b).Some?
    ensures CanonicalForm(Decode(a).value) == CanonicalForm(Decode(b).value) <==> SameEntry(Decode(a).value, Decode(b).value)
  {
    EncodeDecode(a);
    EncodeDecode(b);
    FormMeans(Decode(a).value, Decode(b).value);
  }

  // ---------------------------------------------------------------- the fingerprint

  /** The same type up to GREASE and, unless it is ECH, the same length. */
  predicate FingerSame(e: Extension, f: Extension) {
    UpToGrease(e.typ, f.typ) && (e.typ == 0xfe0d || |e.data| == |f.data|)
  }

  /** One browser build, as far as a fingerprint says. */
  ghost predicate SameFingerprint(h: Hello, h': Hello) {
    && h.version == h'.version && h.compression == h'.compression
    && SuitesSame(h.ciphers, h'.ciphers) && OneToOne(h.extensions, h'.extensions, FingerSame)
  }

  lemma KeysAlike(e: Extension, f: Extension)
    requires |e.data| < 0x1_0000 && |f.data| < 0x1_0000
    ensures FingerKey(e) == FingerKey(f) <==> FingerSame(e, f)
  {
    NormedAlike(e.typ, f.typ);
  }

  lemma {:induction false} EncU32sInjective(a: seq<nat>, b: seq<nat>)
    requires forall i :: 0 <= i < |a| ==> a[i] < 0x1_0000_0000
    requires forall i :: 0 <= i < |b| ==> b[i] < 0x1_0000_0000
    ensures EncU32s(a) == EncU32s(b) <==> a == b
  {
    if EncU32s(a) == EncU32s(b) && a != [] {
      assert |EncU32s(a)| == 4 * |a| && |EncU32s(b)| == 4 * |b|;
      SplitAt2(U32(a[0]), EncU32s(a[1..]), U32(b[0]), EncU32s(b[1..]));
      U32RoundTrip(a[0]);
      U32RoundTrip(b[0]);
      EncU32sInjective(a[1..], b[1..]);
      assert a == [a[0]] + a[1..] && b == [b[0]] + b[1..];
    }
  }

  /** Four parts, the first three of known lengths. */
  lemma FourParts(a: bytes, b: bytes, c: bytes, d: bytes, a': bytes, b': bytes, c': bytes, d': bytes)
    requires |a| == |a'| && |b| == |b'| && |c| == |c'|
    ensures a + b + c + d == a' + b' + c' + d' <==> a == a' && b == b' && c == c' && d == d'
  {
    SplitAt2(a + b + c, d, a' + b' + c', d');
    SplitAt2(a + b, c, a' + b', c');
    SplitAt2(a, b, a', b');
  }

  lemma SuiteBytesAlike(a: seq<u16>, b: seq<u16>)
    ensures EncU16s(NormCiphers(a)) == EncU16s(NormCiphers(b)) <==> SuitesSame(a, b)
  {
    SuitesAlike(a, b);
    DecEncU16s(NormCiphers(a));
    DecEncU16s(NormCiphers(b));
  }

  lemma {:induction false} SortedNats(s: seq<nat>)
    requires forall i :: 0 <= i < |s| ==> s[i] < 0x1_0000_0000
    ensures forall i :: 0 <= i < |Sort(s, NatLe)| ==> Sort(s, NatLe)[i] < 0x1_0000_0000
  {
    var r := Sort(s, NatLe);
    NatLeTotalOrder();
    SortSorts(s, NatLe);
    forall i | 0 <= i < |r| ensures r[i] < 0x1_0000_0000 {
      assert r[i] in multiset(r);
      assert r[i] in s;
    }
  }

  lemma KeysFit(exts: seq<Extension>)
    requires ExtsFit(exts)
    ensures forall i :: 0 <= i < |exts| ==> FingerKeys(exts)[i] < 0x1_0000_0000
  {
  }

  lemma KeyBytesAlike(a: seq<Extension>, b: seq<Extension>)
    requires ExtsFit(a) && ExtsFit(b)
    ensures EncU32s(Sort(FingerKeys(a), NatLe)) == EncU32s(Sort(FingerKeys(b), NatLe))
            <==> multiset(FingerKeys(a)) == multiset(FingerKeys(b))
  {
    KeysFit(a);
    KeysFit(b);
    SortedNats(FingerKeys(a));
    SortedNats(FingerKeys(b));
    EncU32sInjective(Sort(FingerKeys(a), NatLe), Sort(FingerKeys(b), NatLe));
    NatLeTotalOrder();
    SortByElements(FingerKeys(a), FingerKeys(b), NatLe);
  }

  lemma FingersAlike(a: seq<Extension>, b: seq<Extension>)
    requires ExtsFit(a) && ExtsFit(b)
    ensures multiset(FingerKeys(a)) == multiset(FingerKeys(b)) <==> OneToOne(a, b, FingerSame)
  {
    if multiset(FingerKeys(a)) == multiset(FingerKeys(b)) {
      var c := MatchUp(a, b, FingerKey);
      forall i | 0 <= i < |a| ensures FingerSame(a[i], c[i]) {
        assert c[i] in multiset(c);
        assert c[i] in b;
        KeysAlike(c[i], a[i]);
      }
      assert Alike(a, c, FingerSame);
    }
    if OneToOne(a, b, FingerSame) {
      var c :| multiset(c) == multiset(b) && Alike(a, c, FingerSame);
      forall i | 0 <= i < |a| ensures FingerKey(a[i]) == FingerKey(c[i]) {
        assert c[i] in multiset(c);
        assert c[i] in b;
        KeysAlike(a[i], c[i]);
      }
      assert FingerKeys(a) == FingerKeys(c);
      MapOfPermutation(c, b, FingerKey);
    }
  }

  /** The fingerprint's input: with as many suites and compression methods each, two hellos have one input
      exactly when version, suites, compression and the types and lengths of the extensions agree, GREASE
      folded and ECH lengths left out. The input marks no boundaries, so the counts are needed. */
  lemma FingerprintMeans(h: Hello, h': Hello)
    requires ExtsFit(h.extensions) && ExtsFit(h'.extensions)
    ensures FingerprintInput(h) == FingerprintInput(h') && |h.ciphers| == |h'.ciphers| && |h.compression| == |h'.compression|
            <==> SameFingerprint(h, h')
  {
    SuiteBytesAlike(h.ciphers, h'.ciphers);
    KeyBytesAlike(h.extensions, h'.extensions);
    FingersAlike(h.extensions, h'.extensions);
    U16RoundTrip(h.version);
    U16RoundTrip(h'.version);
    if |h.ciphers| == |h'.ciphers| && |h.compression| == |h'.compression| {
      FourParts(U16(h.version), EncU16s(NormCiphers(h.ciphers)), h.compression, EncU32s(Sort(FingerKeys(h.extensions), NatLe)),
                U16(h'.version), EncU16s(NormCiphers(h'.ciphers)), h'.compression, EncU32s(Sort(FingerKeys(h'.extensions), NatLe)));
    }
  }

  // ------------------------------------------------- what the fingerprint confuses

  /** Two more suites at the end of the list. */
  function WithSuites(h: Hello): Hello {
    h.(ciphers := h.ciphers + [0x0000, 0x0001])
  }

  /** One more server_name of 256 bytes in front of the last extension. */
  function WithSecondName(h: Hello, x: Extension): Hello
    requires h.extensions != []
  {
    var n := |h.extensions| - 1;
    h.(extensions := h.extensions[..n] + [x] + h.extensions[n..])
  }

  /** No extension sorts before a server_name of 256 bytes. */
  predicate NoneBefore(exts: seq<Extension>) {
    forall i :: 0 <= i < |exts| ==> FingerKey(exts[i]) >= 256
  }

  lemma SortedFrom(s: seq<nat>)
    ensures Sort(s, NatLe) != [] ==> Sort(s, NatLe)[0] in s
  {
    NatLeTotalOrder();
    SortSorts(s, NatLe);
    if Sort(s, NatLe) != [] {
      assert Sort(s, NatLe)[0] in multiset(Sort(s, NatLe));
    }
  }

  lemma InsertLeast(s: seq<nat>, v: nat)
    requires forall i :: 0 <= i < |s| ==> v <= s[i]
    ensures Sort([v] + s, NatLe) == [v] + Sort(s, NatLe)
  {
    SortedFrom(s);
    assert ([v] + s)[1..] == s;
  }

  lemma SecondNameKeys(exts: seq<Extension>, x: Extension, n: nat)
    requires n <= |exts| && x.typ == 0x0000 && |x.data| == 256 && NoneBefore(exts)
    ensures Sort(FingerKeys(exts[..n] + [x] + exts[n..]), NatLe) == [256] + Sort(FingerKeys(exts), NatLe)
  {
    var moved := exts[..n] + [x] + exts[n..];
    var k := FingerKeys(exts);
    NatLeTotalOrder();
    assert FingerKeys(moved) == k[..n] + [256] + k[n..];
    assert k == k[..n] + k[n..];
    assert multiset(FingerKeys(moved)) == multiset([256] + k);
    SortByElements(FingerKeys(moved), [256] + k, NatLe);
    InsertLeast(k, 256);
  }

  lemma BoundaryBytes(front: bytes, rest: bytes)
    ensures front + [0x00, 0x00, 0x00, 0x01] + [0x00] + rest == front + [0x00] + ([0x00, 0x00, 0x01, 0x00] + rest)
  {
  }

  lemma {:induction false} SuiteBytesJoin(a: seq<u16>, b: seq<u16>)
    ensures EncU16s(a + b) == EncU16s(a) + EncU16s(b)
  {
    if a == [] {
      assert a + b == b;
    } else {
      SuiteBytesJoin(a[1..], b);
      assert (a + b)[1..] == a[1..] + b;
      Assoc(U16(a[0]), EncU16s(a[1..]), EncU16s(b));
    }
  }

  lemma MoreSuites(h: Hello)
    ensures EncU16s(NormCiphers(WithSuites(h).ciphers)) == EncU16s(NormCiphers(h.ciphers)) + [0x00, 0x00, 0x00, 0x01]
  {
    assert NormCiphers(WithSuites(h).ciphers) == NormCiphers(h.ciphers) + [0x0000, 0x0001];
    SuiteBytesJoin(NormCiphers(h.ciphers), [0x0000, 0x0001]);
    assert EncU16s([0x0000, 0x0001]) == U16(0) + (U16(1) + []);
  }

  /** Without the counts two builds can share a fingerprint: two suites of one hello read as an extension of the
      other, across the one byte of a null compression. */
  lemma BoundaryMoves(h: Hello, x: Extension)
    requires h.extensions != [] && ExtsFit(h.extensions) && h.compression == [0x00] && NoneBefore(h.extensions)
    requires x.typ == 0x0000 && |x.data| == 256
    ensures ExtsFit(WithSuites(h).extensions) && ExtsFit(WithSecondName(h, x).extensions)
    ensures FingerprintInput(WithSuites(h)) == FingerprintInput(WithSecondName(h, x))
    ensures !SameFingerprint(WithSuites(h), WithSecondName(h, x))
  {
    var n := |h.extensions| - 1;
    var keys := EncU32s(Sort(FingerKeys(h.extensions), NatLe));
    SecondNameKeys(h.extensions, x, n);
    MoreSuites(h);
    BoundaryBytes(U16(h.version) + EncU16s(NormCiphers(h.ciphers)), keys);
    Assoc(U16(h.version), EncU16s(NormCiphers(h.ciphers)), [0x00, 0x00, 0x00, 0x01]);
    var all := [256] + Sort(FingerKeys(h.extensions), NatLe);
    assert all[1..] == Sort(FingerKeys(h.extensions), NatLe);
    assert EncU32s(all) == U32(256) + keys;
    assert U32(256) == [0x00, 0x00, 0x01, 0x00];
    assert |WithSuites(h).ciphers| != |WithSecondName(h, x).ciphers|;
  }
}
