/** Records a client can be given, on which the conditions of the theorems part: where the dedup key
    changes, where the fingerprint does, where the server does not read the key the client installed,
    and one that carries a pre_shared_key. */
module Samples {
  import opened Bytes
  import opened HelloCodec
  import opened ExtensionBodies
  import opened ClientHelloObject
  import opened Emission
  import opened Canonical
  import opened PoolIdentity
  import opened Admission
  import opened Twiddle
  import opened Distinguishing

  /** A hello with GREASE at both ends, a name, a key_share, an ECH extension, and what `tail` puts behind
      the trailing GREASE. */
  function Sample(name: bytes, share: bytes, ech: bytes, tail: seq<Extension>): Hello {
    Hello(0x0303, Zeros(32), Zeros(32), [0x0a0a, 0x1301], [0x00], SampleExts(name, share, ech) + tail)
  }

  function SampleExts(name: bytes, share: bytes, ech: bytes): seq<Extension> {
    [Extension(0x0a0a, []), Extension(EXT_SERVER_NAME, NameBody(name)), Extension(EXT_KEY_SHARE, share),
     Extension(EXT_ECH, ech), Extension(0x1a1a, [0x00])]
  }

  /** One X25519 entry of 32 bytes. */
  const ONE_KEY: bytes := U16(36) + ([0x00, 0x1d, 0x00, 0x20] + Zeros(32))

  /** An X25519 entry of one byte in front of it. */
  const SHORT_KEY_FIRST: bytes := U16(41) + ([0x00, 0x1d, 0x00, 0x01, 0x00] + ([0x00, 0x1d, 0x00, 0x20] + Zeros(32)))

  lemma ExtsLength(name: bytes, share: bytes, ech: bytes, tail: seq<Extension>)
    ensures |EncExts(SampleExts(name, share, ech) + tail)| == 26 + |name| + |share| + |ech| + |EncExts(tail)|
  {
    var e := SampleExts(name, share, ech);
    EncExtsCons(e[4], tail);
    EncExtsCons(e[3], [e[4]] + tail);
    EncExtsCons(e[2], [e[3]] + ([e[4]] + tail));
    EncExtsCons(e[1], [e[2]] + ([e[3]] + ([e[4]] + tail)));
    EncExtsCons(e[0], [e[1]] + ([e[2]] + ([e[3]] + ([e[4]] + tail))));
    assert e + tail == [e[0]] + ([e[1]] + ([e[2]] + ([e[3]] + ([e[4]] + tail))));
  }

  lemma SampleExtsFit(name: bytes, share: bytes, ech: bytes, tail: seq<Extension>)
    requires |name| < 1000 && |share| < 1000 && |ech| < 1000 && ExtsFit(tail)
    ensures ExtsFit(SampleExts(name, share, ech) + tail)
  {
  }

  /** The record parses back. */
  lemma SampleDecodes(name: bytes, share: bytes, ech: bytes, tail: seq<Extension>)
    requires |name| < 1000 && |share| < 1000 && |ech| < 1000 && |EncExts(tail)| < 1000 && ExtsFit(tail)
    ensures Fits(Sample(name, share, ech, tail))
    ensures Decode(Encode(Sample(name, share, ech, tail))) == Some(Sample(name, share, ech, tail))
  {
    var h := Sample(name, share, ech, tail);
    ExtsLength(name, share, ech, tail);
    BodyShape(h, |EncExts(h.extensions)|);
    FrontLength(h);
    SampleExtsFit(name, share, ech, tail);
    assert Fits(h);
    DecodeEncode(h);
  }

  lemma SamplePlaces(name: bytes, share: bytes, ech: bytes, tail: seq<Extension>)
    ensures var exts := SampleExts(name, share, ech) + tail;
            && FirstOf(exts, EXT_SERVER_NAME) == Some(1) && FirstOf(exts, EXT_KEY_SHARE) == Some(2) && FirstOf(exts, EXT_ECH) == Some(3)
  {
    var exts := SampleExts(name, share, ech) + tail;
    FirstOfUnique(exts, EXT_SERVER_NAME, 1);
    FirstOfUnique(exts, EXT_KEY_SHARE, 2);
    FirstOfUnique(exts, EXT_ECH, 3);
  }

  lemma SampleEnds(name: bytes, share: bytes, ech: bytes)
    ensures UsableHello(Sample(name, share, ech, []))
  {
    var exts := SampleExts(name, share, ech) + [];
    SamplePlaces(name, share, ech, []);
    assert exts[0].typ == 0x0a0a && exts[4].typ == 0x1a1a && |exts| == 5;
    assert forall i :: 0 <= i < 5 ==> exts[i].typ != EXT_PRE_SHARED_KEY;
  }

  /** It is admitted to the pool when nothing follows the trailing GREASE. */
  lemma SampleUsable(name: bytes, share: bytes, ech: bytes)
    requires |name| < 1000 && |share| < 1000 && |ech| < 1000
    ensures Usable(Encode(Sample(name, share, ech, [])))
  {
    SampleDecodes(name, share, ech, []);
    SampleEnds(name, share, ech);
  }

  lemma OneKeyWorks()
    ensures CompleteShares(ONE_KEY) && Offering(ONE_KEY)
  {
    var s := [0x00, 0x1d, 0x00, 0x20] + Zeros(32);
    assert ONE_KEY[2..] == s;
    assert GetU16(s, 2) == 32 && HasEntry(s) && EntryLen(s) == 36 && s[36..] == [];
  }

  /** The dedup key changes: a usable record whose ECH body is a single zero byte gets another key from every
      Rerandomize. */
  lemma DedupKeyChanges(w: Draws)
    requires GoodDraws(w)
    ensures var h := Sample([0x61], ONE_KEY, [0x00], []);
            && Usable(Encode(h)) && Decode(Encode(h)) == Some(h)
            && Rerandomized(h, w).Some? && CanonicalForm(Rerandomized(h, w).value) != CanonicalForm(h)
  {
    var h := Sample([0x61], ONE_KEY, [0x00], []);
    SampleDecodes([0x61], ONE_KEY, [0x00], []);
    SampleUsable([0x61], ONE_KEY, [0x00]);
    SamplePlaces([0x61], ONE_KEY, [0x00], []);
    OneKeyWorks();
    RerandomizeShares(h, w);
    CanonAfterRerandomize(h, w);
  }

  /** The fingerprint changes: a usable record and a name one byte longer than its own. */
  lemma FingerprintChanges()
    ensures var h := Sample([0x61], ONE_KEY, [0x00], []);
            && Usable(Encode(h)) && Decode(Encode(h)) == Some(h) && WithName(h, [0x61, 0x62]).Some?
            && ExtsFit(h.extensions) && ExtsFit(WithName(h, [0x61, 0x62]).value.extensions)
            && FingerprintInput(WithName(h, [0x61, 0x62]).value) != FingerprintInput(h)
  {
    var h := Sample([0x61], ONE_KEY, [0x00], []);
    SampleDecodes([0x61], ONE_KEY, [0x00], []);
    SampleUsable([0x61], ONE_KEY, [0x00]);
    SamplePlaces([0x61], ONE_KEY, [0x00], []);
    FingerAfterSNI(h, [0x61, 0x62]);
  }

  lemma ShortKeyFirst(pub: Bytes32)
    ensures CompleteShares(SHORT_KEY_FIRST) && !Offering(SHORT_KEY_FIRST) && InstallShare(SHORT_KEY_FIRST[2..], pub).Some?
  {
    var t := [0x00, 0x1d, 0x00, 0x20] + Zeros(32);
    var s := [0x00, 0x1d, 0x00, 0x01, 0x00] + t;
    assert SHORT_KEY_FIRST[2..] == s;
    assert GetU16(s, 2) == 1 && HasEntry(s) && EntryLen(s) == 5 && s[5..] == t && GetU16(s, 0) == GROUP_X25519;
    assert GetU16(t, 2) == 32 && HasEntry(t) && EntryLen(t) == 36 && t[36..] == [];
    assert WellFormedShares(t) && WellFormedShares(s);
    assert |FirstShare(s).value| == 1;
    assert InstallShare(t, pub).Some?;
  }

  /** The installed key is not the key read: a usable record on which the whole pipeline succeeds, whatever
      is drawn, and the server then finds no key it can use. */
  lemma InstalledKeyUnread(w: Draws, picks: nat -> nat, pub: Bytes32)
    requires GoodDraws(w) && GoodPicks(picks)
    ensures var h := Sample([0x61], SHORT_KEY_FIRST, [0x00], []);
            && Usable(Encode(h)) && Decode(Encode(h)) == Some(h)
            && Emitted(h, w, picks, pub).Some? && KeyShareOf(Emitted(h, w, picks, pub).value) != Some(pub)
  {
    var h := Sample([0x61], SHORT_KEY_FIRST, [0x00], []);
    SampleDecodes([0x61], SHORT_KEY_FIRST, [0x00], []);
    SampleUsable([0x61], SHORT_KEY_FIRST, [0x00]);
    SamplePlaces([0x61], SHORT_KEY_FIRST, [0x00], []);
    UsableEnds(h);
    ShortKeyFirst(pub);
    OneKeyShare([0x61], SHORT_KEY_FIRST, [0x00]);
    OneShareDecides(h, w, picks, pub);
  }

  lemma OneKeyShare(name: bytes, share: bytes, ech: bytes)
    ensures AtMostOne(Sample(name, share, ech, []).extensions, EXT_KEY_SHARE)
  {
  }

  lemma ResumingEnds(psk: bytes)
    ensures var exts := SampleExts([0x61], ONE_KEY, [0x00]) + [Extension(EXT_PRE_SHARED_KEY, psk)];
            TailLen(exts) == Some(2) && FirstOf(exts, EXT_PRE_SHARED_KEY) == Some(5)
  {
    var exts := SampleExts([0x61], ONE_KEY, [0x00]) + [Extension(EXT_PRE_SHARED_KEY, psk)];
    assert exts[0].typ == 0x0a0a && exts[4].typ == 0x1a1a && exts[5].typ == EXT_PRE_SHARED_KEY;
    FirstOfUnique(exts, EXT_PRE_SHARED_KEY, 5);
  }

  lemma ResumingBodies(p: Cover, name: bytes, psk: bytes)
    requires p.hostMatches(name) && 0 < |name| < 1000
    ensures var exts := SampleExts([0x61], ONE_KEY, [0x00]) + [Extension(EXT_PRE_SHARED_KEY, psk)];
            Every(exts, EXT_KEY_SHARE, Offering) && NamesFit(exts, p, name) && OuterECH(exts)
  {
    var exts := SampleExts([0x61], ONE_KEY, [0x00]) + [Extension(EXT_PRE_SHARED_KEY, psk)];
    SamplePlaces([0x61], ONE_KEY, [0x00], [Extension(EXT_PRE_SHARED_KEY, psk)]);
    OneKeyWorks();
    assert exts[2].data == ONE_KEY && exts[3].data == [0x00];
    assert forall i :: 0 <= i < 6 ==> (exts[i].typ == EXT_KEY_SHARE <==> i == 2) && (exts[i].typ == EXT_SERVER_NAME <==> i == 1) && (exts[i].typ == EXT_ECH <==> i == 3);
  }

  /** The same with a pre_shared_key behind the trailing GREASE: as captured from a browser that resumes, and
      as good a template as without. */
  lemma ResumingTemplate(p: Cover, name: bytes, psk: bytes)
    requires p.cipherSuite == 0x1301 && p.hostMatches(name) && 0 < |name| < 1000 && |psk| < 900
    ensures var h := Sample([0x61], ONE_KEY, [0x00], [Extension(EXT_PRE_SHARED_KEY, psk)]);
            && Decode(Encode(h)) == Some(h) && FirstOf(h.extensions, EXT_PRE_SHARED_KEY).Some?
            && GoodTemplate(h, p, name) && OuterECH(h.extensions)
  {
    var tail := [Extension(EXT_PRE_SHARED_KEY, psk)];
    EncExtsCons(tail[0], []);
    assert tail == [tail[0]] + [];
    SampleDecodes([0x61], ONE_KEY, [0x00], tail);
    SamplePlaces([0x61], ONE_KEY, [0x00], tail);
    ResumingEnds(psk);
    ResumingBodies(p, name, psk);
    OneKeyWorks();
  }

  const LONG_NAME: bytes := seq(251, _ => 0x78)

  lemma ConfusedDecodes(h: Hello)
    requires ExtsFit(h.extensions) && |h.sessionID| == 32 && |h.ciphers| <= 4 && |h.compression| == 1 && |EncExts(h.extensions)| < 2000
    ensures Decode(Encode(h)) == Some(h)
  {
    BodyShape(h, |EncExts(h.extensions)|);
    FrontLength(h);
    DecodeEncode(h);
  }

  lemma SecondNameUsable(e: seq<Extension>, x: Extension)
    requires |e| == 5 && e[0].typ == 0x0a0a && e[1].typ == EXT_SERVER_NAME && e[2].typ == EXT_KEY_SHARE && e[3].typ == EXT_ECH
    requires e[4].typ == 0x1a1a && x.typ == EXT_SERVER_NAME
    ensures forall h: Hello :: h.extensions == [e[0], e[1], e[2], e[3], x, e[4]] ==> UsableHello(h)
  {
    var exts := [e[0], e[1], e[2], e[3], x, e[4]];
    FirstOfUnique(exts, EXT_SERVER_NAME, 1);
    FirstOfUnique(exts, EXT_KEY_SHARE, 2);
    assert forall i :: 0 <= i < 6 ==> exts[i].typ != EXT_PRE_SHARED_KEY;
  }

  lemma SecondNamePlaces(x: Extension)
    requires x.typ == EXT_SERVER_NAME && |x.data| == 256
    ensures var h := WithSecondName(Sample(LONG_NAME, ONE_KEY, [0x00], []), x);
            ExtsFit(h.extensions) && |EncExts(h.extensions)| < 2000 && UsableHello(h)
  {
    var e := SampleExts(LONG_NAME, ONE_KEY, [0x00]);
    var h := WithSecondName(Sample(LONG_NAME, ONE_KEY, [0x00], []), x);
    assert h.extensions == [e[0], e[1], e[2], e[3], x, e[4]];
    SecondNameUsable(e, x);
    ExtsLength(LONG_NAME, ONE_KEY, [0x00], []);
    SecondNameLength(e, x);
  }

  lemma SecondNameLength(e: seq<Extension>, x: Extension)
    requires |e| == 5 && |x.data| == 256 && |EncExts(e + [])| < 1000
    ensures |EncExts([e[0], e[1], e[2], e[3], x, e[4]])| < 2000
  {
    var front := [e[0], e[1], e[2], e[3]];
    assert e + [] == front + [e[4]];
    EncExtsSnoc(front, e[4]);
    EncExtsSnoc(front, x);
    EncExtsSnoc(front + [x], e[4]);
    assert [e[0], e[1], e[2], e[3], x, e[4]] == front + [x] + [e[4]];
  }

  lemma LongNameKeys()
    ensures NoneBefore(Sample(LONG_NAME, ONE_KEY, [0x00], []).extensions)
  {
    var e := SampleExts(LONG_NAME, ONE_KEY, [0x00]) + [];
    assert |e| == 5 && |NameBody(LONG_NAME)| == 256;
    assert FingerKey(e[0]) >= 256 && FingerKey(e[1]) == 256 && FingerKey(e[2]) >= 256 && FingerKey(e[3]) >= 256 && FingerKey(e[4]) >= 256;
  }

  /** The fingerprint confuses two usable records that offer different suites: 0x0000 and 0x0001 behind the
      others in one, a second server_name in the other. */
  lemma FingerprintConfuses()
    ensures var s, x := Sample(LONG_NAME, ONE_KEY, [0x00], []), Extension(EXT_SERVER_NAME, seq(256, _ => 0));
            var h, h' := WithSuites(s), WithSecondName(s, x);
            && Usable(Encode(h)) && Decode(Encode(h)) == Some(h) && Usable(Encode(h')) && Decode(Encode(h')) == Some(h')
            && ExtsFit(h.extensions) && ExtsFit(h'.extensions)
            && FingerprintInput(h) == FingerprintInput(h') && h.ciphers != h'.ciphers
  {
    var s, x := Sample(LONG_NAME, ONE_KEY, [0x00], []), Extension(EXT_SERVER_NAME, seq(256, _ => 0));
    SampleDecodes(LONG_NAME, ONE_KEY, [0x00], []);
    SampleEnds(LONG_NAME, ONE_KEY, [0x00]);
    ExtsLength(LONG_NAME, ONE_KEY, [0x00], []);
    SecondNamePlaces(x);
    LongNameKeys();
    BoundaryMoves(s, x);
    ConfusedDecodes(WithSuites(s));
    ConfusedDecodes(WithSecondName(s, x));
    assert |WithSuites(s).ciphers| == 4 && |WithSecondName(s, x).ciphers| == 2;
  }
}
