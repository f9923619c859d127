/** The synthesised ServerHello and the client's reading of it (serverhello.go). */
module ServerHello {
  import opened Bytes
  import opened HelloCodec

  const MLKEM_CIPHERTEXT_LEN: nat := 1088
  const HYBRID_SERVER_SHARE_LEN: nat := MLKEM_CIPHERTEXT_LEN + 32
  const AES_128: u16 := 0x1301
  const RESUMED_LEN: nat := 1221
  const FULL_LEN: nat := 1215
  const CHANGE_CIPHER_SPEC: bytes := [0x14, 0x03, 0x03, 0x00, 0x01, 0x01]

  type Ciphertext = b: bytes | |b| == MLKEM_CIPHERTEXT_LEN witness seq(MLKEM_CIPHERTEXT_LEN, _ => 0)

  /** The parameters, and the two random strings the source draws. */
  datatype Params = Params(
    sessionID: bytes, suite: u16, ephemeral: Bytes32, selected: u16, pskFirst: bool, full: bool,
    random: Bytes32, ciphertext: Ciphertext)

  function ShareBody(p: Params): (r: bytes)
    ensures |r| == 4 + HYBRID_SERVER_SHARE_LEN
  {
    U16(GROUP_HYBRID) + U16(HYBRID_SERVER_SHARE_LEN) + (p.ciphertext + p.ephemeral)
  }

  /** The extensions in the order of the cover. */
  function Extensions(p: Params): seq<Extension> {
    var psk := if p.full then [] else [Extension(EXT_PRE_SHARED_KEY, U16(p.selected))];
    var rest := [Extension(EXT_SUPPORTED_VERSIONS, U16(0x0304)), Extension(EXT_KEY_SHARE, ShareBody(p))];
    if p.pskFirst then psk + rest else rest + psk
  }

  /** Everything of the body before the extension block. */
  function Front(p: Params): (r: bytes)
    ensures |r| == 38 + |p.sessionID|
  {
    U16(0x0303) + p.random + [|p.sessionID| % 0x100] + p.sessionID + U16(if p.suite == 0 then AES_128 else p.suite) + [0x00]
  }

  function Body(p: Params): bytes {
    var ext := EncExts(Extensions(p));
    Front(p) + (U16(|ext|) + ext)
  }

  /** The whole record; None for a session id that cannot be echoed. */
  function Synthesized(p: Params): Option<bytes> {
    if |p.sessionID| == 0 || |p.sessionID| > 32 then None
    else
      var body := Body(p);
      var n := |body|;
      Some([0x16, 0x03, 0x03] + U16(n + 4) + [0x02, n / 0x1_0000 % 0x100, n / 0x100 % 0x100, n % 0x100] + body)
  }

  method SynthesizeServerHello(p: Params) returns (rec: Option<bytes>)
    ensures rec == Synthesized(p)
  {
    if |p.sessionID| == 0 || |p.sessionID| > 32 {
      return None;
    }
    var ext := AppendExtensions(p);
    var body: bytes := U16(0x0303);
    body := body + p.random;
    body := body + [|p.sessionID| % 0x100];
    body := body + p.sessionID;
    body := body + U16(if p.suite == 0 then AES_128 else p.suite);
    body := body + [0x00];
    body := body + U16(|ext|);
    body := body + ext;
    assert body == Body(p);
    var out: bytes := [0x16, 0x03, 0x03];
    out := out + U16(|body| + 4);
    out := out + [0x02, |body| / 0x1_0000 % 0x100, |body| / 0x100 % 0x100, |body| % 0x100];
    rec := Some(out + body);
  }

  method AppendExtensions(p: Params) returns (ext: bytes)
    ensures ext == EncExts(Extensions(p))
  {
    var share: bytes := p.ciphertext;
    share := share + p.ephemeral;
    var psk: bytes := [];
    if !p.full {
      psk := psk + U16(EXT_PRE_SHARED_KEY);
      psk := psk + U16(2);
      psk := psk + U16(p.selected);
    }
    var rest: bytes := U16(EXT_SUPPORTED_VERSIONS);
    rest := rest + U16(2);
    rest := rest + U16(0x0304);
    rest := rest + U16(EXT_KEY_SHARE);
    rest := rest + U16(4 + |share|);
    rest := rest + U16(GROUP_HYBRID);
    rest := rest + U16(|share|);
    rest := rest + share;
    ext := if p.pskFirst then psk + rest else rest + psk;
    assert psk == if p.full then [] else EncExt(Extension(EXT_PRE_SHARED_KEY, U16(p.selected)));
    var versions, keyShare := Extension(EXT_SUPPORTED_VERSIONS, U16(0x0304)), Extension(EXT_KEY_SHARE, ShareBody(p));
    assert rest == EncExt(versions) + EncExt(keyShare) by {
      Regroup(EncExt(versions), U16(EXT_KEY_SHARE), U16(4 + |share|), U16(GROUP_HYBRID), U16(|share|), share);
    }
    BlockOf(versions, keyShare, if p.full then [] else [Extension(EXT_PRE_SHARED_KEY, U16(p.selected))]);
  }

  lemma Regroup(a: bytes, b: bytes, c: bytes, d: bytes, e: bytes, f: bytes)
    ensures a + b + c + d + e + f == a + (b + c + (d + e + f))
  {
  }

  lemma EncTwo(a: Extension, b: Extension)
    ensures EncExts([a, b]) == EncExt(a) + EncExt(b)
  {
    EncExtsCons(b, []);
    EncExtsCons(a, [b]);
    assert [a] + [b] == [a, b] && [b] + [] == [b] && EncExt(b) + [] == EncExt(b);
  }

  lemma EncThree(a: Extension, b: Extension, c: Extension)
    ensures EncExts([a, b, c]) == EncExt(a) + (EncExt(b) + EncExt(c))
  {
    EncTwo(b, c);
    EncExtsCons(a, [b, c]);
    assert [a] + [b, c] == [a, b, c];
  }

  lemma BlockOf(a: Extension, b: Extension, c: seq<Extension>)
    requires |c| <= 1
    ensures var pre := if c == [] then [] else EncExt(c[0]);
            && EncExts(c + [a, b]) == pre + (EncExt(a) + EncExt(b))
            && EncExts([a, b] + c) == (EncExt(a) + EncExt(b)) + pre
  {
    if c == [] {
      EncTwo(a, b);
      assert c + [a, b] == [a, b] && [a, b] + c == [a, b];
    } else {
      BlockOfThree(a, b, c[0]);
      assert c + [a, b] == [c[0], a, b] && [a, b] + c == [a, b, c[0]];
    }
  }

  lemma BlockOfThree(a: Extension, b: Extension, c: Extension)
    ensures EncExts([c, a, b]) == EncExt(c) + (EncExt(a) + EncExt(b)) && EncExts([a, b, c]) == (EncExt(a) + EncExt(b)) + EncExt(c)
  {
    EncThree(c, a, b);
    EncThree(a, b, c);
    Assoc(EncExt(a), EncExt(b), EncExt(c));
  }

  // ------------------------------------------------------------------- the parser

  /** The extension loop; a later extension of a type replaces an earlier one. */
  function Walk(b: bytes, p: nat, end: nat, got: map<u16, bytes>): Option<map<u16, bytes>>
    decreases |b| - p
  {
    if p + 4 <= end && p + 4 <= |b| then
      var n := GetU16(b, p + 2) as int;
      if p + 4 + n > |b| then None else Walk(b, p + 4 + n, end, got[GetU16(b, p) := b[p + 4..p + 4 + n]])
    else Some(got)
  }

  function ParseExtensions(rec: bytes): Option<map<u16, bytes>> {
    if |rec| < 9 || rec[0] != 0x16 || rec[5] != 0x02 then None
    else
      var b := rec[9..];
      if 34 >= |b| then None
      else
        var p := 38 + b[34] as int;
        if p + 2 > |b| then None else Walk(b, p + 2, p + 2 + GetU16(b, p) as int, map[])
  }

  /** parseServerHelloExtensions. */
  method ParseServerHelloExtensions(rec: bytes) returns (got: Option<map<u16, bytes>>)
    ensures got == ParseExtensions(rec)
  {
    if |rec| < 9 || rec[0] != 0x16 || rec[5] != 0x02 {
      return None;
    }
    var b := rec[9..];
    var p := 2 + 32;
    if p >= |b| {
      return None;
    }
    p := p + 1 + b[p] as int;
    p := p + 2 + 1;
    if p + 2 > |b| {
      return None;
    }
    var end := p + 2 + GetU16(b, p) as int;
    p := p + 2;
    var out: map<u16, bytes> := map[];
    while p + 4 <= end && p + 4 <= |b|
      invariant 0 <= p
      invariant ParseExtensions(rec) == Walk(b, p, end, out)
      decreases |b| - p
    {
      var t, n := GetU16(b, p), GetU16(b, p + 2) as int;
      if p + 4 + n > |b| {
        return None;
      }
      out := out[t := b[p + 4..p + 4 + n]];
      p := p + 4 + n;
    }
    got := Some(out);
  }

  /** ServerEphemeralFromShare: the last 32 bytes of the announced key. */
  function EphemeralOf(rec: bytes): Option<Bytes32> {
    var exts :- ParseExtensions(rec);
    if EXT_KEY_SHARE !in exts || |exts[EXT_KEY_SHARE]| < 4 then None
    else
      var share := exts[EXT_KEY_SHARE];
      var n := GetU16(share, 2) as int;
      if 4 + n > |share| || n < 32 then None else Some(share[4 + n - 32..4 + n])
  }

  // ------------------------------------------------------------------- round trip

  function Added(got: map<u16, bytes>, exts: seq<Extension>): map<u16, bytes>
    decreases |exts|
  {
    if exts == [] then got else Added(got[exts[0].typ := exts[0].data], exts[1..])
  }

  /** Walking over an encoding collects its extensions. */
  lemma {:induction false} WalkEncoded(b: bytes, p: nat, exts: seq<Extension>, got: map<u16, bytes>)
    requires p <= |b| && b[p..] == EncExts(exts) && ExtsFit(exts)
    ensures Walk(b, p, |b|, got) == Some(Added(got, exts))
    decreases |exts|
  {
    if exts != [] {
      PeelExt(b, p, exts[0], EncExts(exts[1..]));
      WalkEncoded(b, p + 4 + |exts[0].data|, exts[1..], got[exts[0].typ := exts[0].data]);
    }
  }

  lemma {:induction false} AddedKeeps(got: map<u16, bytes>, exts: seq<Extension>, t: u16)
    requires t in got && forall i :: 0 <= i < |exts| ==> exts[i].typ != t
    ensures t in Added(got, exts) && Added(got, exts)[t] == got[t]
    decreases |exts|
  {
    if exts != [] {
      AddedKeeps(got[exts[0].typ := exts[0].data], exts[1..], t);
    }
  }

  lemma {:induction false} AddedFinds(got: map<u16, bytes>, exts: seq<Extension>, i: nat)
    requires i < |exts| && forall j :: i < j < |exts| ==> exts[j].typ != exts[i].typ
    ensures exts[i].typ in Added(got, exts) && Added(got, exts)[exts[i].typ] == exts[i].data
    decreases |exts|
  {
    if i == 0 {
      AddedKeeps(got[exts[0].typ := exts[0].data], exts[1..], exts[0].typ);
    } else {
      AddedFinds(got[exts[0].typ := exts[0].data], exts[1..], i - 1);
    }
  }

  lemma BlockLength(p: Params)
    ensures |EncExts(Extensions(p))| == if p.full then 1134 else 1140
    ensures ExtsFit(Extensions(p))
  {
    var versions, keyShare := Extension(EXT_SUPPORTED_VERSIONS, U16(0x0304)), Extension(EXT_KEY_SHARE, ShareBody(p));
    BlockOf(versions, keyShare, if p.full then [] else [Extension(EXT_PRE_SHARED_KEY, U16(p.selected))]);
  }

  /** The parser reaches the block wherever the session id ends, and reads all of it. */
  lemma ParsesFrom(rec: bytes, front: bytes, exts: seq<Extension>)
    requires |front| >= 38 && |front| == 38 + front[34] as int && |rec| >= 9 && rec[0] == 0x16 && rec[5] == 0x02
    requires ExtsFit(exts) && |EncExts(exts)| < 0x1_0000 && rec[9..] == front + (U16(|EncExts(exts)|) + EncExts(exts))
    ensures ParseExtensions(rec) == Some(Added(map[], exts))
  {
    var b := rec[9..];
    BehindFront(front, EncExts(exts));
    assert b[34] == front[34];
    WalkEncoded(b, |front| + 2, exts, map[]);
  }

  lemma ParsesSynthesized(p: Params)
    requires 1 <= |p.sessionID| <= 32
    ensures ParseExtensions(Synthesized(p).value) == Some(Added(map[], Extensions(p)))
  {
    BlockLength(p);
    RecordFields(p);
    FrontFields(p);
    ParsesFrom(Synthesized(p).value, Front(p), Extensions(p));
  }

  lemma RecordFields(p: Params)
    requires 1 <= |p.sessionID| <= 32
    ensures var rec := Synthesized(p).value; |rec| == 9 + |Body(p)| && rec[9..] == Body(p) && rec[0] == 0x16 && rec[5] == 0x02
  {
  }

  lemma FrontFields(p: Params)
    requires |p.sessionID| <= 32
    ensures Front(p)[34] == |p.sessionID|
  {
  }

  lemma BehindFront(front: bytes, ext: bytes)
    requires |ext| < 0x1_0000
    ensures var b := front + (U16(|ext|) + ext);
            |b| == |front| + 2 + |ext| && GetU16(b, |front|) == |ext| && b[|front| + 2..] == ext
  {
  }

  lemma ShareFields(p: Params)
    ensures var s := ShareBody(p); GetU16(s, 2) == HYBRID_SERVER_SHARE_LEN && s[4 + HYBRID_SERVER_SHARE_LEN - 32..] == p.ephemeral
  {
  }

  /** The key the client reads is the key the server put in, for every session id, both orders and both
      shapes; and with a 32-byte id the record has exactly the measured length. */
  lemma EphemeralRoundTrip(p: Params)
    requires 1 <= |p.sessionID| <= 32
    ensures Synthesized(p).Some? && EphemeralOf(Synthesized(p).value) == Some(p.ephemeral)
    ensures |Synthesized(p).value| == (if p.full then FULL_LEN else RESUMED_LEN) - 32 + |p.sessionID|
  {
    ParsesSynthesized(p);
    BlockLength(p);
    var i := if p.pskFirst && !p.full then 2 else 1;
    assert Extensions(p)[i] == Extension(EXT_KEY_SHARE, ShareBody(p));
    AddedFinds(map[], Extensions(p), i);
    ShareFields(p);
    var s := ShareBody(p);
    assert s[4 + HYBRID_SERVER_SHARE_LEN - 32..4 + HYBRID_SERVER_SHARE_LEN] == s[4 + HYBRID_SERVER_SHARE_LEN - 32..];
  }

  // ------------------------------------------------------------------- byte by byte

  /** The headers as an observer reads them: a handshake record of a server_hello, each length the true one,
      and last that of the extension block, which stands at `block`. */
  predicate HeadersAt(r: bytes, block: nat) {
    && 49 <= block <= |r|
    && Stands(r, 0, [0x16, 0x03, 0x03]) && GetU16(r, 3) as int == |r| - 5
    && r[5] == 0x02 && r[6] as int * 0x1_0000 + GetU16(r, 7) == |r| - 9
    && GetU16(r, block - 2) as int == |r| - block
  }

  /** The fields in front of the block: TLS 1.2 outside, the random, the session id behind its length, the suite
      and no compression. */
  predicate FieldsAt(p: Params, r: bytes) {
    var n := |p.sessionID|;
    && 49 + n <= |r|
    && r[9] == 0x03 && r[10] == 0x03 && Stands(r, 11, p.random)
    && r[43] == n && Stands(r, 44, p.sessionID)
    && GetU16(r, 44 + n) == (if p.suite == 0 then 0x1301 else p.suite) && r[46 + n] == 0
  }

  predicate FrontAt(p: Params, r: bytes) {
    HeadersAt(r, 49 + |p.sessionID|) && FieldsAt(p, r)
  }

  /** The block: supported_versions with TLS 1.3 and then key_share with one hybrid entry, the random bytes
      and the X25519 key; pre_shared_key in front of them or behind them, unless the handshake is full. */
  predicate BlockAt(p: Params, r: bytes) {
    var start := 49 + |p.sessionID|;
    var v := if p.pskFirst && !p.full then start + 6 else start;
    && |r| == start + (if p.full then 1134 else 1140)
    && Stands(r, v, [0x00, 0x2b, 0x00, 0x02, 0x03, 0x04])
    && Stands(r, v + 6, [0x00, 0x33, 0x04, 0x64, 0x11, 0xec, 0x04, 0x60])
    && Stands(r, v + 14, p.ciphertext) && Stands(r, v + 1102, p.ephemeral)
    && (!p.full ==> Stands(r, if p.pskFirst then start else start + 1134, [0x00, 0x29, 0x00, 0x02] + U16(p.selected)))
  }

  lemma FrontStands(p: Params)
    requires 1 <= |p.sessionID| <= 32
    ensures var f, n := Front(p), |p.sessionID|;
            && f[0] == 0x03 && f[1] == 0x03 && Stands(f, 2, p.random) && f[34] == n && Stands(f, 35, p.sessionID)
            && GetU16(f, 35 + n) == (if p.suite == 0 then 0x1301 else p.suite) && f[37 + n] == 0
  {
    var n, suite := |p.sessionID|, U16(if p.suite == 0 then AES_128 else p.suite);
    var f := Front(p);
    U16RoundTrip(if p.suite == 0 then AES_128 else p.suite);
    var tail := [n as byte] + p.sessionID + suite + [0x00];
    assert f == U16(0x0303) + (p.random + tail);
    Between(U16(0x0303), p.random, tail);
    var head := U16(0x0303) + p.random + [n as byte];
    assert |head| == 35 && f == head + (p.sessionID + (suite + [0x00]));
    Between(head, p.sessionID, suite + [0x00]);
    assert f[35 + n] == suite[0] && f[36 + n] == suite[1];
  }

  /** The record and handshake headers, and the two lengths in them. */
  lemma HeadStands(n: nat)
    requires n < 0xfff0
    ensures var h := [0x16, 0x03, 0x03] + U16(n + 4) + [0x02, n / 0x1_0000 % 0x100, n / 0x100 % 0x100, n % 0x100];
            && |h| == 9 && h[0] == 0x16 && h[1] == 0x03 && h[2] == 0x03 && GetU16(h, 3) as int == n + 4
            && h[5] == 0x02 && h[6] as int * 0x1_0000 + GetU16(h, 7) == n
  {
    U16RoundTrip(n + 4);
  }

  lemma RecordParts(p: Params) returns (head: bytes)
    requires 1 <= |p.sessionID| <= 32
    ensures var r, ext, n := Synthesized(p).value, EncExts(Extensions(p)), |p.sessionID|;
            && |r| == 49 + n + |ext| && |head| == 9 && Stands(r, 0, head) && Stands(r, 9, Front(p))
            && Stands(r, 47 + n, U16(|ext|)) && Stands(r, 49 + n, ext)
            && head[0] == 0x16 && head[1] == 0x03 && head[2] == 0x03 && GetU16(head, 3) as int == |r| - 5
            && head[5] == 0x02 && head[6] as int * 0x1_0000 + GetU16(head, 7) == |r| - 9
  {
    var ext, n := EncExts(Extensions(p)), |Body(p)|;
    BlockLength(p);
    HeadStands(n);
    head := [0x16, 0x03, 0x03] + U16(n + 4) + [0x02, n / 0x1_0000 % 0x100, n / 0x100 % 0x100, n % 0x100];
    Layers(head, Front(p), U16(|ext|), ext);
  }

  lemma HeadAt(r: bytes, head: bytes)
    requires |head| == 9 && Stands(r, 0, head)
    ensures forall i :: 0 <= i < 9 ==> r[i] == head[i]
  {
    forall i | 0 <= i < 9 ensures r[i] == head[i] {
      At(r, 0, head, i);
    }
  }

  lemma HeadersStand(p: Params)
    requires 1 <= |p.sessionID| <= 32
    ensures HeadersAt(Synthesized(p).value, 49 + |p.sessionID|)
  {
    var r, n, ext := Synthesized(p).value, |p.sessionID|, EncExts(Extensions(p));
    var head := RecordParts(p);
    HeadAt(r, head);
    BlockLength(p);
    U16RoundTrip(|ext|);
    At(r, 47 + n, U16(|ext|), 0);
    At(r, 47 + n, U16(|ext|), 1);
  }

  lemma FieldsStand(p: Params)
    requires 1 <= |p.sessionID| <= 32
    ensures FieldsAt(p, Synthesized(p).value)
  {
    var r, f, n := Synthesized(p).value, Front(p), |p.sessionID|;
    var _ := RecordParts(p);
    FrontStands(p);
    FrontBehind(r, f, n);
    PartWithin(r, 9, f, 2, p.random);
    PartWithin(r, 9, f, 35, p.sessionID);
  }

  lemma FrontBehind(r: bytes, f: bytes, n: nat)
    requires Stands(r, 9, f) && |f| == 38 + n
    ensures r[9] == f[0] && r[10] == f[1] && r[43] == f[34] && GetU16(r, 44 + n) == GetU16(f, 35 + n) && r[46 + n] == f[37 + n]
  {
    At(r, 9, f, 0);
    At(r, 9, f, 1);
    At(r, 9, f, 34);
    At(r, 9, f, 35 + n);
    At(r, 9, f, 36 + n);
    At(r, 9, f, 37 + n);
  }

  /** Everything in front of the block stands where an observer looks for it. */
  lemma FrontLayout(p: Params)
    requires 1 <= |p.sessionID| <= 32
    ensures FrontAt(p, Synthesized(p).value)
  {
    HeadersStand(p);
    FieldsStand(p);
  }

  lemma KeyShareStands(p: Params)
    ensures var e := EncExt(Extension(EXT_KEY_SHARE, ShareBody(p)));
            && |e| == 1128 && Stands(e, 0, [0x00, 0x33, 0x04, 0x64, 0x11, 0xec, 0x04, 0x60])
            && Stands(e, 8, p.ciphertext) && Stands(e, 1096, p.ephemeral)
  {
    var e := EncExt(Extension(EXT_KEY_SHARE, ShareBody(p)));
    var head := U16(EXT_KEY_SHARE) + U16(1124) + U16(GROUP_HYBRID) + U16(HYBRID_SERVER_SHARE_LEN);
    assert head == [0x00, 0x33, 0x04, 0x64, 0x11, 0xec, 0x04, 0x60];
    assert e == head + (p.ciphertext + p.ephemeral);
    Between(head, p.ciphertext, p.ephemeral);
    Between([], head, p.ciphertext + p.ephemeral);
    Between(head + p.ciphertext, p.ephemeral, []);
    assert e == head + p.ciphertext + (p.ephemeral + []);
    assert [] + (head + (p.ciphertext + p.ephemeral)) == e;
  }

  /** The parts of a block x whose key_share is e. */
  predicate BlockParts(p: Params, x: bytes, e: bytes) {
    var v := if p.pskFirst && !p.full then 6 else 0;
    && Stands(x, v, [0x00, 0x2b, 0x00, 0x02, 0x03, 0x04]) && Stands(x, v + 6, e)
    && Stands(e, 0, [0x00, 0x33, 0x04, 0x64, 0x11, 0xec, 0x04, 0x60])
    && Stands(e, 8, p.ciphertext) && Stands(e, 1096, p.ephemeral)
    && (!p.full ==> Stands(x, if p.pskFirst then 0 else 1134, [0x00, 0x29, 0x00, 0x02] + U16(p.selected)))
  }

  /** The block stands where its parts do, in each order. */
  lemma BlockStands(p: Params)
    ensures BlockParts(p, EncExts(Extensions(p)), EncExt(Extension(EXT_KEY_SHARE, ShareBody(p))))
  {
    var versions, keyShare := Extension(EXT_SUPPORTED_VERSIONS, U16(0x0304)), Extension(EXT_KEY_SHARE, ShareBody(p));
    var psk := Extension(EXT_PRE_SHARED_KEY, U16(p.selected));
    var a, b, c := EncExt(versions), EncExt(keyShare), EncExt(psk);
    assert a == [0x00, 0x2b, 0x00, 0x02, 0x03, 0x04];
    assert c == [0x00, 0x29, 0x00, 0x02] + U16(p.selected);
    KeyShareStands(p);
    BlockOf(versions, keyShare, if p.full then [] else [psk]);
    if p.full {
      TwoStand([], a, b, []);
    } else if p.pskFirst {
      TwoStand(c, a, b, []);
      Between([], c, a + b);
    } else {
      TwoStand([], a, b, c);
      Between(a + b, c, []);
      assert a + b + (c + []) == a + b + c;
    }
  }

  lemma TwoStand(before: bytes, a: bytes, b: bytes, after: bytes)
    ensures Stands(before + (a + b) + after, |before|, a) && Stands(before + (a + b) + after, |before| + |a|, b)
    ensures before == [] ==> before + (a + b) + after == (a + b) + after
    ensures after == [] ==> before + (a + b) + after == before + (a + b)
  {
    assert before + (a + b) + after == before + (a + (b + after));
    Between(before, a, b + after);
    assert before + (a + b) + after == before + a + (b + after);
    Between(before + a, b, after);
  }

  /** So does everything in the block, for both shapes and both orders. */
  lemma BlockLayout(p: Params)
    requires 1 <= |p.sessionID| <= 32
    ensures BlockAt(p, Synthesized(p).value)
  {
    var r, x, start := Synthesized(p).value, EncExts(Extensions(p)), 49 + |p.sessionID|;
    BlockLength(p);
    var _ := RecordParts(p);
    BlockStands(p);
    KeyShareStands(p);
    BlockWithin(p, r, x, start);
  }

  lemma BlockWithin(p: Params, r: bytes, x: bytes, start: nat)
    requires Stands(r, start, x) && start == 49 + |p.sessionID| && |r| == start + |x| && |x| == if p.full then 1134 else 1140
    requires BlockParts(p, x, EncExt(Extension(EXT_KEY_SHARE, ShareBody(p))))
    ensures BlockAt(p, r)
  {
    var v := if p.pskFirst && !p.full then 6 else 0;
    var e := EncExt(Extension(EXT_KEY_SHARE, ShareBody(p)));
    PartWithin(r, start, x, v, [0x00, 0x2b, 0x00, 0x02, 0x03, 0x04]);
    PartWithin(r, start, x, v + 6, e);
    PartWithin(r, start + v + 6, e, 0, [0x00, 0x33, 0x04, 0x64, 0x11, 0xec, 0x04, 0x60]);
    PartWithin(r, start + v + 6, e, 8, p.ciphertext);
    PartWithin(r, start + v + 6, e, 1096, p.ephemeral);
    if !p.full {
      PartWithin(r, start, x, if p.pskFirst then 0 else 1134, [0x00, 0x29, 0x00, 0x02] + U16(p.selected));
    }
  }
}
