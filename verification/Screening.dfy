/** What a harvested record is turned into before it is pooled, extension by extension, and which records a pool
    takes for one (harvester.go, source.go). */
module Screening {
  import opened Bytes
  import opened HelloCodec
  import opened HelloLayout
  import opened ClientHelloObject
  import opened Canonical
  import opened Admission
  import opened Distinguishing
  import opened Sorting
  import opened DevicePool
  import opened PoolContents
  import opened HarvesterObject

  // -------------------------------------------------------------------- Sanitize

  /** A server_name body with one host name, section 3 of RFC 6066. */
  predicate NameAt(d: bytes, name: bytes) {
    |d| == 5 + |name| && ValueAt(d, 0, |name| + 3) && d[2] == 0x00 && ValueAt(d, 3, |name|) && Stands(d, 5, name)
  }

  lemma NameStands(name: bytes)
    requires |name| + 3 < 0x1_0000
    ensures NameAt(NameBody(name), name)
  {
    U16RoundTrip(|name| + 3);
    U16RoundTrip(|name|);
    var a, t, l := U16(|name| + 3), [0x00 as byte], U16(|name|);
    assert NameBody(name) == a + (t + (l + (name + [])));
    Layers(a, t, l, name + []);
    PairAt(NameBody(name), 0, a);
    PairAt(NameBody(name), 3, l);
    At(NameBody(name), 2, t, 0);
    assert NameBody(name) == (a + t + l) + (name + []);
    Between(a + t + l, name, []);
  }

  /** SetSNI succeeds exactly when there is a server_name and the name fits one; the first server_name takes it,
      and nothing else of the hello changes. */
  lemma NameLands(h: Hello, name: bytes)
    ensures WithName(h, name).Some? <==> (exists e :: e in h.extensions && e.typ == 0x0000) && |name| <= 65530
    ensures WithName(h, name).Some? ==>
      var r, i := WithName(h, name).value, FirstOf(h.extensions, 0x0000).value;
      && r == h.(extensions := h.extensions[i := Extension(0x0000, r.extensions[i].data)])
      && NameAt(r.extensions[i].data, name)
  {
    var at := FirstOf(h.extensions, EXT_SERVER_NAME);
    if at.Some? {
      assert h.extensions[at.value] in h.extensions;
    }
    if |name| <= 65530 {
      NameStands(name);
    }
  }

  /** What one extension is kept as. */
  predicate KeptAs(exts: seq<Extension>, i: nat, name: bytes, r: Extension)
    requires i < |exts|
  {
    && exts[i].typ != 0x0029 && exts[i].typ != 0x002a && r.typ == exts[i].typ
    && (if exts[i].typ == 0x0023 then r.data == []
        else if exts[i].typ == 0x0000 && (forall j :: 0 <= j < i ==> exts[j].typ != 0x0000) then NameAt(r.data, name)
        else r.data == exts[i].data)
  }

  /** The extensions of r are those of exts that do not carry a resumption, in order, each kept. */
  ghost predicate KeptAt(exts: seq<Extension>, name: bytes, n: nat, ps: seq<nat>, r: seq<Extension>)
    requires n <= |exts|
  {
    && |ps| == |r| && Increasing(ps)
    && (forall k :: 0 <= k < |ps| ==> ps[k] < n && KeptAs(exts, ps[k], name, r[k]))
    && forall i: nat :: i < n && exts[i].typ != 0x0029 && exts[i].typ != 0x002a ==> i in ps
  }

  lemma KeptMore(exts: seq<Extension>, name: bytes, n: nat, ps: seq<nat>, r: seq<Extension>, e: Extension)
    requires n < |exts| && KeptAt(exts, name, n, ps, r) && KeptAs(exts, n, name, e)
    ensures KeptAt(exts, name, n + 1, ps + [n], r + [e])
  {
    var qs := ps + [n];
    forall i: nat | i < n + 1 && exts[i].typ != 0x0029 && exts[i].typ != 0x002a ensures i in qs {
      if i == n {
        assert qs[|ps|] == i;
      } else {
        var k :| 0 <= k < |ps| && ps[k] == i;
        assert qs[k] == i;
      }
    }
  }

  /** The extension at place i of the renamed list, blanked. */
  lemma BlankedAs(h: Hello, name: bytes, i: nat)
    requires WithName(h, name).Some? && i < |h.extensions| && !Dropped(h.extensions[i].typ)
    ensures i < |WithName(h, name).value.extensions|
    ensures KeptAs(h.extensions, i, name, Blanked(WithName(h, name).value.extensions[i]))
  {
    NameLands(h, name);
  }

  lemma KeptSkips(exts: seq<Extension>, name: bytes, n: nat, ps: seq<nat>, r: seq<Extension>)
    requires n < |exts| && KeptAt(exts, name, n, ps, r) && Dropped(exts[n].typ)
    ensures KeptAt(exts, name, n + 1, ps, r)
  {
  }

  lemma CleanNext(h: Hello, name: bytes, n: nat, ps: seq<nat>, named: seq<Extension>) returns (qs: seq<nat>)
    requires WithName(h, name).Some? && named == WithName(h, name).value.extensions && n < |h.extensions| == |named|
    requires KeptAt(h.extensions, name, n, ps, CleanExts(named[..n]))
    ensures KeptAt(h.extensions, name, n + 1, qs, CleanExts(named[..n + 1]))
  {
    CleanSnoc(named, n);
    var r := CleanExts(named[..n]);
    assert named[n].typ == h.extensions[n].typ;
    if Dropped(h.extensions[n].typ) {
      assert r + [] == r;
      KeptSkips(h.extensions, name, n, ps, r);
      qs := ps;
    } else {
      BlankedAs(h, name, n);
      KeptMore(h.extensions, name, n, ps, r, Blanked(named[n]));
      qs := ps + [n];
    }
  }

  lemma {:induction false} CleanPlaces(h: Hello, name: bytes, n: nat) returns (ps: seq<nat>)
    requires WithName(h, name).Some? && n <= |h.extensions|
    ensures |WithName(h, name).value.extensions| == |h.extensions|
    ensures KeptAt(h.extensions, name, n, ps, CleanExts(WithName(h, name).value.extensions[..n]))
    decreases n
  {
    if n == 0 {
      ps := [];
    } else {
      ps := CleanPlaces(h, name, n - 1);
      ps := CleanNext(h, name, n - 1, ps, WithName(h, name).value.extensions);
    }
  }

  /** Sanitize, field by field: version, suites and compression stay; random and session id are cleared at
      their lengths; pre_shared_key and early_data go; session_ticket is emptied; the first server_name holds
      as many x as the name had bytes; and every other extension stays, in order. */
  lemma SanitizedExactly(h: Hello) returns (ps: seq<nat>)
    requires Sanitized(h).Some?
    ensures var r, name := Sanitized(h).value, seq(|NameIn(h.extensions)|, _ => 0x78);
            && r.version == h.version && r.ciphers == h.ciphers && r.compression == h.compression
            && (forall j :: 0 <= j < 32 ==> r.random[j] == 0)
            && |r.sessionID| == |h.sessionID| && (forall j :: 0 <= j < |h.sessionID| ==> r.sessionID[j] == 0)
            && KeptAt(h.extensions, name, |h.extensions|, ps, r.extensions)
  {
    var name := Placeholder(|NameIn(h.extensions)|);
    assert name == seq(|NameIn(h.extensions)|, _ => 0x78);
    ps := CleanPlaces(h, name, |h.extensions|);
    var named := WithName(h, name).value.extensions;
    assert named[..|h.extensions|] == named;
  }

  /** It fails for want of a server_name, and for nothing else. */
  lemma SanitizeNeedsName(h: Hello)
    requires Fits(h)
    ensures Sanitized(h).Some? <==> exists e :: e in h.extensions && e.typ == 0x0000
  {
    NameLands(h, Placeholder(|NameIn(h.extensions)|));
    var at := FirstOf(h.extensions, EXT_SERVER_NAME);
    if at.Some? {
      assert |h.extensions[at.value].data| < 0x1_0000;
    }
  }

  // -------------------------------------------------------------- what is pooled

  lemma EncodedFits(h: Hello)
    requires Decode(Encode(h)).Some? && |h.sessionID| < 0x100 && |h.compression| < 0x100 && 2 * |h.ciphers| < 0x1_0000
    ensures Fits(h)
  {
    var body := EncBody(h);
    FrameLength(body);
    BodyShape(h, |EncExts(h.extensions)|);
    BodiesFit(h.extensions);
  }

  lemma FrameLength(body: bytes)
    requires |Frame(body)| >= 9 && |Frame(body)| == 5 + GetU16(Frame(body), 3) as int
    ensures |body| + 4 < 0x1_0000
  {
  }

  lemma {:induction false} BodiesFit(exts: seq<Extension>)
    requires |EncExts(exts)| < 0x1_0000
    ensures ExtsFit(exts)
  {
    if exts != [] {
      BodiesFit(exts[1..]);
      assert forall i :: 1 <= i < |exts| ==> exts[i] == exts[1..][i - 1];
    }
  }

  /** A screened record is the encoding of the sanitised hello, decodes to it, and is usable. */
  lemma ScreenedMeans(rec: bytes)
    requires Screened(rec).Some?
    ensures Decode(rec).Some? && Sanitized(Decode(rec).value).Some?
    ensures var c, s := Screened(rec).value, Sanitized(Decode(rec).value).value;
            c == Encode(s) && Decode(c) == Some(s) && UsableHello(s)
  {
    var h := Decode(rec).value;
    var s := Sanitized(h).value;
    EncodeDecode(rec);
    EncodedFits(s);
    DecodeEncode(s);
  }

  // ---------------------------------------------------------- what counts as one

  /** The hash of the canonical form tells these two apart. */
  predicate KeysApart(f: Hashes, a: bytes, b: bytes)
    requires Decode(a).Some? && Decode(b).Some?
  {
    var x, y := CanonicalForm(Decode(a).value), CanonicalForm(Decode(b).value);
    f.key(x) == f.key(y) ==> x == y
  }

  /** Two records have one key exactly when what they contribute is the same. */
  lemma KeysMean(f: Hashes, a: bytes, b: bytes)
    requires Decode(a).Some? && Decode(b).Some? && KeysApart(f, a, b)
    ensures KeyOf(f, a) == KeyOf(f, b) <==> SameEntry(Decode(a).value, Decode(b).value)
  {
    DecodedForms(a, b);
  }

  /** With as many suites and compression methods each, and a hash that tells their fingerprints apart, two
      records are of one build exactly when the fingerprint's parts agree. */
  lemma BuildsMean(f: Hashes, a: bytes, b: bytes)
    requires Decode(a).Some? && Decode(b).Some?
    requires var h, h' := Decode(a).value, Decode(b).value;
             && |h.ciphers| == |h'.ciphers| && |h.compression| == |h'.compression| && ExtsFit(h.extensions) && ExtsFit(h'.extensions)
             && (f.build(FingerprintInput(h)) == f.build(FingerprintInput(h')) ==> FingerprintInput(h) == FingerprintInput(h'))
    ensures BuildOf(f, a) == BuildOf(f, b) <==> SameFingerprint(Decode(a).value, Decode(b).value)
  {
    FingerprintMeans(Decode(a).value, Decode(b).value);
  }

  /** Every record of a pool parses, and its key is told apart from that of rec. */
  ghost predicate AllApart(f: Hashes, hs: seq<bytes>, rec: bytes)
    requires Decode(rec).Some?
  {
    forall i :: 0 <= i < |hs| ==> Decode(hs[i]).Some? && KeysApart(f, hs[i], rec)
  }

  /** A record is refused as a duplicate only of one that contributes the same: it counts as held exactly when
      such a one is in the pool. */
  lemma DuplicatesAreSame(f: Hashes, hs: seq<bytes>, rec: bytes)
    requires Decode(rec).Some? && AllApart(f, hs, rec)
    ensures Held(RecordIds(f), hs, rec) <==>
            exists i :: 0 <= i < |hs| && Decode(hs[i]).Some? && SameEntry(Decode(hs[i]).value, Decode(rec).value)
  {
    forall i | 0 <= i < |hs| ensures KeyOf(f, hs[i]) == KeyOf(f, rec) <==> SameEntry(Decode(hs[i]).value, Decode(rec).value) {
      KeysMean(f, hs[i], rec);
    }
  }
}
