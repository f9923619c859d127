/** Where each field of a marshalled ClientHello stands (hello.go Marshal), so that the codec's round trips are
    about these bytes and no others; and the GREASE codepoints, one by one. */
module HelloLayout {
  import opened Bytes
  import opened HelloCodec

  /** The n-th GREASE codepoint. */
  function GreaseValue(n: nat): nat {
    0x0a0a + n * 0x1010
  }

  /** There are sixteen. */
  lemma GreaseValues(v: u16)
    ensures IsGREASE(v) <==> exists n :: 0 <= n < 16 && v == GreaseValue(n)
  {
    if IsGREASE(v) {
      var n := v / 0x1000;
      assert v / 0x100 == 0x10 * n + 0xa;
      assert v == GreaseValue(n);
    }
  }

  /** How far behind the start of the block extension i begins. */
  function ExtOffset(exts: seq<Extension>, i: nat): nat
    requires i <= |exts|
  {
    if i == 0 then 0 else 4 + |exts[0].data| + ExtOffset(exts[1..], i - 1)
  }

  predicate ExtStands(r: bytes, at: nat, e: Extension) {
    at + 4 <= |r| && GetU16(r, at) == e.typ && GetU16(r, at + 2) as int == |e.data| && Stands(r, at + 4, e.data)
  }

  /** A front and, behind it, one more part of the whole. */
  lemma Next(whole: bytes, front: bytes, part: bytes, rest: bytes)
    requires whole == front + (part + rest)
    ensures Stands(whole, |front|, part) && whole == (front + part) + rest
  {
    Between(front, part, rest);
    Assoc(front, part, rest);
  }

  lemma {:induction false} SuiteStands(vs: seq<u16>, i: nat)
    requires i < |vs|
    ensures GetU16(EncU16s(vs), 2 * i) == vs[i]
  {
    var r := EncU16s(vs[1..]);
    if i == 0 {
      U16RoundTrip(vs[0]);
      assert EncU16s(vs) == U16(vs[0]) + r;
    } else {
      SuiteStands(vs[1..], i - 1);
      PairBehind(U16(vs[0]), r, 2 * i - 2);
    }
  }

  lemma PairBehind(a: bytes, b: bytes, i: nat)
    requires i + 2 <= |b|
    ensures GetU16(a + b, |a| + i) == GetU16(b, i)
  {
  }

  lemma ExtBehind(a: bytes, b: bytes, i: nat, e: Extension)
    requires ExtStands(b, i, e)
    ensures ExtStands(a + b, |a| + i, e)
  {
    PairBehind(a, b, i);
    PairBehind(a, b, i + 2);
    assert a + b == a + (b + []);
    Between(a, b, []);
    PartWithin(a + b, |a|, b, i + 4, e.data);
  }

  lemma ExtHead(e: Extension, rest: bytes)
    requires |e.data| < 0x1_0000
    ensures ExtStands(EncExt(e) + rest, 0, e)
  {
    U16RoundTrip(e.typ);
    U16RoundTrip(|e.data|);
    var whole := EncExt(e) + rest;
    assert whole == U16(e.typ) + (U16(|e.data|) + (e.data + rest));
    Layers(U16(e.typ), U16(|e.data|), e.data, rest);
    At(whole, 0, U16(e.typ), 0);
    At(whole, 0, U16(e.typ), 1);
    At(whole, 2, U16(|e.data|), 0);
    At(whole, 2, U16(|e.data|), 1);
  }

  lemma {:induction false} ExtsStand(exts: seq<Extension>, i: nat)
    requires ExtsFit(exts) && i < |exts|
    ensures ExtStands(EncExts(exts), ExtOffset(exts, i), exts[i])
    decreases i
  {
    if i == 0 {
      ExtHead(exts[0], EncExts(exts[1..]));
    } else {
      ExtsStand(exts[1..], i - 1);
      ExtBehind(EncExt(exts[0]), EncExts(exts[1..]), ExtOffset(exts[1..], i - 1), exts[i]);
    }
  }

  /** The fields of a body b that stand in front of the suites: version, random, session id. */
  predicate HeadAt(h: Hello, b: bytes) {
    35 + |h.sessionID| <= |b| && GetU16(b, 0) == h.version && Stands(b, 2, h.random) && b[34] as int == |h.sessionID| && Stands(b, 35, h.sessionID)
  }

  /** A list of suites from position p on, behind its length in bytes. */
  predicate SuitesAt(cs: seq<u16>, b: bytes, p: nat) {
    && p + 2 + 2 * |cs| <= |b| && ValueAt(b, p, 2 * |cs|)
    && forall i :: 0 <= i < |cs| ==> ValueAt(b, p + 2 + 2 * i, cs[i])
  }

  predicate ValueAt(b: bytes, at: nat, v: nat) {
    at + 2 <= |b| && GetU16(b, at) as int == v
  }

  predicate MethodsAt(comp: bytes, b: bytes, p: nat) {
    p < |b| && b[p] as int == |comp| && Stands(b, p + 1, comp)
  }

  /** The extension block from position p to the end, behind its length. */
  predicate BlockAt(exts: seq<Extension>, b: bytes, p: nat) {
    && p + 2 <= |b| && GetU16(b, p) as int == |b| - p - 2 && |b| - p - 2 == ExtOffset(exts, |exts|)
    && forall i :: 0 <= i < |exts| ==> ExtStands(b, p + 2 + ExtOffset(exts, i), exts[i])
  }

  /** The suites, the compression methods and the extension block, from position p on. */
  predicate TailAt(h: Hello, b: bytes, p: nat) {
    var c := p + 2 + 2 * |h.ciphers|;
    SuitesAt(h.ciphers, b, p) && MethodsAt(h.compression, b, c) && BlockAt(h.extensions, b, c + 1 + |h.compression|)
  }

  lemma {:induction false} BlockEnds(exts: seq<Extension>)
    ensures |EncExts(exts)| == ExtOffset(exts, |exts|)
  {
    if exts != [] {
      BlockEnds(exts[1..]);
    }
  }

  lemma HeadStands(h: Hello, total: nat)
    requires |h.sessionID| < 0x100
    ensures HeadAt(h, BodyWith(h, total))
  {
    var b, n, tail := BodyWith(h, total), |h.sessionID|, TailWith(h, total);
    var v, l := U16(h.version), [n as byte];
    U16RoundTrip(h.version);
    assert Vec8(h.sessionID) + tail == l + (h.sessionID + tail);
    Layers(v, h.random, l, h.sessionID + tail);
    assert b == v + (h.random + (l + (h.sessionID + tail)));
    Next(b, v, h.random, l + (h.sessionID + tail));
    Next(b, v + h.random, l, h.sessionID + tail);
    Next(b, v + h.random + l, h.sessionID, tail);
    At(b, 0, v, 0);
    At(b, 0, v, 1);
    At(b, 34, l, 0);
  }

  lemma ValueInside(a: bytes, l: bytes, part: bytes, rest: bytes, i: nat, v: nat)
    requires ValueAt(part, i, v)
    ensures ValueAt(a + ((l + part) + rest), |a| + |l| + i, v)
  {
    Assoc(l, part, rest);
    PairBehind(a, l + (part + rest), |l| + i);
    PairBehind(l, part + rest, i);
  }

  lemma LengthInFront(a: bytes, part: bytes, rest: bytes)
    requires |part| < 0x1_0000
    ensures ValueAt(a + (Vec16(part) + rest), |a|, |part|)
  {
    U16RoundTrip(|part|);
    PairBehind(a, Vec16(part) + rest, 0);
    assert GetU16(Vec16(part) + rest, 0) == GetU16(U16(|part|), 0);
  }

  lemma SuitesStand(vs: seq<u16>, cs: bytes, a: bytes, rest: bytes)
    requires |cs| == 2 * |vs| < 0x1_0000 && AllValues(vs, cs)
    ensures SuitesAt(vs, a + (Vec16(cs) + rest), |a|)
  {
    LengthInFront(a, cs, rest);
    forall i | 0 <= i < |vs| ensures ValueAt(a + (Vec16(cs) + rest), |a| + 2 + 2 * i, vs[i]) {
      ValueInside(a, U16(|cs|), cs, rest, 2 * i, vs[i]);
    }
  }

  lemma EncodedSuites(vs: seq<u16>)
    ensures AllValues(vs, EncU16s(vs))
  {
    forall i | 0 <= i < |vs| ensures ValueAt(EncU16s(vs), 2 * i, vs[i]) {
      SuiteStands(vs, i);
    }
  }

  lemma MethodsStand(comp: bytes, a: bytes, rest: bytes)
    requires |comp| < 0x100
    ensures MethodsAt(comp, a + (Vec8(comp) + rest), |a|)
  {
    var l := [|comp| as byte];
    Assoc(l, comp, rest);
    Layers(a, l, comp, rest);
    At(a + (l + (comp + rest)), |a|, l, 0);
  }

  /** Every extension of a block. */
  predicate AllStand(exts: seq<Extension>, block: bytes) {
    |block| == ExtOffset(exts, |exts|) && forall i :: 0 <= i < |exts| ==> ExtStands(block, ExtOffset(exts, i), exts[i])
  }

  lemma EncodedStand(exts: seq<Extension>)
    requires ExtsFit(exts)
    ensures AllStand(exts, EncExts(exts))
  {
    BlockEnds(exts);
    forall i | 0 <= i < |exts| ensures ExtStands(EncExts(exts), ExtOffset(exts, i), exts[i]) {
      ExtsStand(exts, i);
    }
  }

  lemma BlockStands(exts: seq<Extension>, block: bytes, a: bytes, b: bytes)
    requires AllStand(exts, block) && |block| < 0x1_0000 && b == a + (U16(|block|) + block)
    ensures BlockAt(exts, b, |a|)
  {
    U16RoundTrip(|block|);
    PairBehind(a, U16(|block|) + block, 0);
    forall i | 0 <= i < |exts| ensures ExtStands(b, |a| + 2 + ExtOffset(exts, i), exts[i]) {
      ExtBehindTwo(a, U16(|block|), block, ExtOffset(exts, i), exts[i]);
    }
  }

  lemma ExtBehindTwo(a: bytes, b: bytes, c: bytes, i: nat, e: Extension)
    requires ExtStands(c, i, e)
    ensures ExtStands(a + (b + c), |a| + |b| + i, e)
  {
    ExtBehind(b, c, i, e);
    ExtBehind(a, b + c, |b| + i, e);
  }

  lemma PairAt(t: bytes, i: nat, part: bytes)
    requires Stands(t, i, part) && |part| == 2
    ensures GetU16(t, i) == GetU16(part, 0)
  {
    At(t, i, part, 0);
    At(t, i, part, 1);
  }

  /** A client hello on the wire: a handshake record of TLS 1.0 with its length, a client_hello with its
      24-bit length, and a body. */
  predicate Framed(r: bytes) {
    && 9 <= |r| && Stands(r, 0, [0x16, 0x03, 0x01]) && GetU16(r, 3) as int == |r| - 5
    && r[5] == 0x01 && r[6] as int * 0x1_0000 + r[7] as int * 0x100 + r[8] == |r| - 9
  }

  lemma FrameStands(body: bytes)
    requires |body| + 4 < 0x1_0000
    ensures Framed(Frame(body)) && Frame(body)[9..] == body
  {
    var n, r := |body|, Frame(body);
    var a, b, c := [0x16 as byte, 0x03, 0x01], U16(n + 4), [0x01 as byte, n / 0x1_0000 % 0x100, n / 0x100 % 0x100, n % 0x100];
    FrameParts(a, b, c, body);
    U16RoundTrip(n + 4);
    PairAt(r, 3, b);
    At(r, 5, c, 0);
    At(r, 5, c, 1);
    At(r, 5, c, 2);
    At(r, 5, c, 3);
  }

  lemma FrameParts(a: bytes, b: bytes, c: bytes, body: bytes)
    ensures var r := a + b + c + body;
            Stands(r, 0, a) && Stands(r, |a|, b) && Stands(r, |a| + |b|, c) && r[|a| + |b| + |c|..] == body
  {
    var r := a + b + c + body;
    assert r == a + (b + (c + body));
    Layers(a, b, c, body);
  }

  /** A body in parts, with what stands in the list of suites and in the block. */
  predicate CutAs(h: Hello, b: bytes, a: bytes, cs: bytes, block: bytes) {
    && b == a + (Vec16(cs) + (Vec8(h.compression) + (U16(|block|) + block)))
    && |a| == 35 + |h.sessionID| && |cs| == 2 * |h.ciphers| < 0x1_0000 && |h.compression| < 0x100 && |block| < 0x1_0000
  }

  predicate AllValues(vs: seq<u16>, cs: bytes) {
    forall i :: 0 <= i < |vs| ==> ValueAt(cs, 2 * i, vs[i])
  }

  lemma BodyCuts(h: Hello)
    requires Fits(h)
    ensures CutAs(h, EncBody(h), U16(h.version) + h.random + Vec8(h.sessionID), EncU16s(h.ciphers), EncExts(h.extensions))
  {
    var tail := TailWith(h, |EncExts(h.extensions)|);
    Assoc(U16(h.version), h.random, Vec8(h.sessionID) + tail);
    Assoc(U16(h.version) + h.random, Vec8(h.sessionID), tail);
  }

  lemma CutSuites(h: Hello, b: bytes, a: bytes, cs: bytes, block: bytes)
    requires CutAs(h, b, a, cs, block) && AllValues(h.ciphers, cs)
    ensures SuitesAt(h.ciphers, b, |a|)
  {
    SuitesStand(h.ciphers, cs, a, Vec8(h.compression) + (U16(|block|) + block));
  }

  lemma CutMethods(h: Hello, b: bytes, a: bytes, cs: bytes, block: bytes)
    requires CutAs(h, b, a, cs, block)
    ensures MethodsAt(h.compression, b, |a| + 2 + |cs|)
  {
    var rest := U16(|block|) + block;
    Assoc(a, Vec16(cs), Vec8(h.compression) + rest);
    MethodsStand(h.compression, a + Vec16(cs), rest);
  }

  lemma Regroup(a: bytes, b: bytes, c: bytes, d: bytes)
    ensures a + (b + (c + d)) == a + b + c + d
  {
    Assoc(a, b, c + d);
    Assoc(a + b, c, d);
  }

  /** A block that ends the body stands behind everything else of it. */
  lemma CutBlock(h: Hello, b: bytes, a: bytes, cs: bytes, block: bytes, p: nat)
    requires b == a + (Vec16(cs) + (Vec8(h.compression) + (U16(|block|) + block)))
    requires |block| < 0x1_0000 && AllStand(h.extensions, block) && p == |a| + 2 + |cs| + 1 + |h.compression|
    ensures BlockAt(h.extensions, b, p)
  {
    var front := a + Vec16(cs) + Vec8(h.compression);
    Regroup(a, Vec16(cs), Vec8(h.compression), U16(|block|) + block);
    assert |front| == p;
    BlockStands(h.extensions, block, front, b);
  }

  lemma SuitesPlaced(h: Hello)
    requires Fits(h)
    ensures SuitesAt(h.ciphers, EncBody(h), 35 + |h.sessionID|)
  {
    BodyCuts(h);
    EncodedSuites(h.ciphers);
    CutSuites(h, EncBody(h), U16(h.version) + h.random + Vec8(h.sessionID), EncU16s(h.ciphers), EncExts(h.extensions));
  }

  lemma MethodsPlaced(h: Hello)
    requires Fits(h)
    ensures MethodsAt(h.compression, EncBody(h), 37 + |h.sessionID| + 2 * |h.ciphers|)
  {
    BodyCuts(h);
    CutMethods(h, EncBody(h), U16(h.version) + h.random + Vec8(h.sessionID), EncU16s(h.ciphers), EncExts(h.extensions));
  }

  lemma BlockPlaced(h: Hello)
    requires Fits(h)
    ensures BlockAt(h.extensions, EncBody(h), 38 + |h.sessionID| + 2 * |h.ciphers| + |h.compression|)
  {
    BodyCuts(h);
    EncodedStand(h.extensions);
    CutBlock(h, EncBody(h), U16(h.version) + h.random + Vec8(h.sessionID), EncU16s(h.ciphers), EncExts(h.extensions),
             38 + |h.sessionID| + 2 * |h.ciphers| + |h.compression|);
  }

  /** Marshal, byte by byte, for every hello whose lengths fit their fields. */
  lemma FieldsStand(h: Hello)
    requires Fits(h)
    ensures Framed(Encode(h)) && HeadAt(h, Encode(h)[9..]) && TailAt(h, Encode(h)[9..], 35 + |h.sessionID|)
  {
    FrameStands(EncBody(h));
    HeadStands(h, |EncExts(h.extensions)|);
    SuitesPlaced(h);
    MethodsPlaced(h);
    BlockPlaced(h);
  }

  // ------------------------------------------------------------ what is accepted

  /** As long as any extension is left, at least n bytes are. */
  predicate NeverLess(exts: seq<Extension>, n: nat) {
    exts == [] || (n <= |EncExts(exts)| && NeverLess(exts[1..], n))
  }

  lemma {:induction false} LastIsLeft(exts: seq<Extension>)
    requires exts != []
    ensures NeverLess(exts, 4 + |exts[|exts| - 1].data|)
  {
    if |exts| > 1 {
      LastIsLeft(exts[1..]);
      assert exts[1..][|exts| - 2] == exts[|exts| - 1];
    }
  }

  lemma LeftAt(b: bytes, i: nat, exts: seq<Extension>, n: nat, end: nat)
    requires i <= |b| && b[i..] == EncExts(exts) && exts != [] && NeverLess(exts, n) && |b| - n < end
    ensures i < end && NeverLess(exts[1..], n)
  {
    assert |b[i..]| == |b| - i;
  }

  /** Every turn of the loop from i on, up to the end of the bytes, begins in front of `end`. */
  predicate BeginBefore(b: bytes, i: nat, end: nat)
    requires i <= |b|
    decreases |b| - i
  {
    i == |b| || (i < end && i + 4 <= |b| && i + 4 + GetU16(b, i + 2) <= |b| && BeginBefore(b, i + 4 + GetU16(b, i + 2), end))
  }

  /** Then that end serves the loop as well as the true one. */
  lemma {:induction false} EarlierEnd(b: bytes, i: nat, end: nat)
    requires i <= |b| && end <= |b| && BeginBefore(b, i, end)
    ensures ParseExts(b, i, end) == ParseExts(b, i, |b|)
    decreases |b| - i
  {
    if i < |b| {
      EarlierEnd(b, i + 4 + GetU16(b, i + 2), end);
    }
  }

  lemma {:induction false} EncodedBegin(exts: seq<Extension>, b: bytes, i: nat, n: nat, end: nat)
    requires ExtsFit(exts) && i <= |b| && b[i..] == EncExts(exts) && NeverLess(exts, n) && |b| - n < end
    ensures BeginBefore(b, i, end)
    decreases |exts|
  {
    if exts != [] {
      LeftAt(b, i, exts, n, end);
      PeelExt(b, i, exts[0], EncExts(exts[1..]));
      EncodedBegin(exts[1..], b, i + 4 + |exts[0].data|, n, end);
    }
  }

  lemma AnnouncedTail(h: Hello, total: u16)
    requires Fits(h) && AnnouncedOk(h.extensions, total)
    ensures ParseTail(TailWith(h, total)) == Some((h.ciphers, h.compression, h.extensions))
  {
    var block := EncExts(h.extensions);
    TakeVec16Undo(EncU16s(h.ciphers), Vec8(h.compression) + (U16(total) + block));
    TakeVec8Undo(h.compression, U16(total) + block);
    TakeU16Undo(total, block);
    DecEncU16s(h.ciphers);
    assert block[0..] == block;
    if h.extensions != [] {
      LastIsLeft(h.extensions);
      EncodedBegin(h.extensions, block, 0, 4 + |h.extensions[|h.extensions| - 1].data|, total);
      EarlierEnd(block, 0, total);
    }
    ParseEncExts(h.extensions, block, 0);
  }

  lemma AnnouncedBody(h: Hello, total: u16)
    requires Fits(h) && AnnouncedOk(h.extensions, total)
    ensures ParseBody(BodyWith(h, total)) == Some(h)
  {
    ParseEncHead(h, total);
    AnnouncedTail(h, total);
  }

  /** The two records agree but for the record version and the announced length of the block. */
  predicate AgreeBut(rec: bytes, enc: bytes, at: nat) {
    |rec| == |enc| && at + 2 <= |rec| && forall k :: 0 <= k < |rec| && k !in {1, 2, at, at + 1} ==> rec[k] == enc[k]
  }

  lemma BodyFrom(rec: bytes, front: bytes, t: u16, block: bytes, enc: bytes)
    requires |enc| == 9 + |front| + 2 + |block| && AgreeBut(rec, enc, 9 + |front|)
    requires enc[9..] == front + (U16(|block|) + block) && t == GetU16(rec, 9 + |front|)
    ensures rec[9..] == front + (U16(t) + block)
  {
    var b, n := front + (U16(|block|) + block), |front|;
    forall k | 0 <= k < |b| ensures rec[9..][k] == (front + (U16(t) + block))[k] {
      if k == n {
        assert U16(t)[0] == rec[9 + n];
      } else if k == n + 1 {
        assert U16(t)[1] == rec[9 + n + 1];
      } else {
        assert rec[9 + k] == enc[9 + k] == enc[9..][k] == b[k];
      }
    }
  }

  lemma HeaderFrom(rec: bytes, body: bytes, at: nat)
    requires AgreeBut(rec, Frame(body), at) && 9 <= at && |body| + 4 < 0x1_0000
    ensures Decode(rec) == ParseBody(rec[9..])
  {
    FrameFields(body);
    var enc := Frame(body);
    assert rec[0] == enc[0] && rec[3] == enc[3] && rec[4] == enc[4] && rec[5] == enc[5];
    assert rec[6] == enc[6] && rec[7] == enc[7] && rec[8] == enc[8];
  }

  /** The parser, both ways: a record decodes to a hello exactly when the hello fits and the record is its
      encoding, but for the version in the record header, which is anything, and the announced length of the
      block, which may stop short inside the last extension. */
  lemma DecodesExactly(rec: bytes, h: Hello)
    ensures Decode(rec) == Some(h) <==>
            Fits(h) && AgreeBut(rec, Encode(h), BlockLengthAt(h)) && AnnouncedOk(h.extensions, GetU16(rec, BlockLengthAt(h)))
  {
    if Decode(rec) == Some(h) {
      EncodeDecode(rec);
    } else if Fits(h) && AgreeBut(rec, Encode(h), BlockLengthAt(h)) && AnnouncedOk(h.extensions, GetU16(rec, BlockLengthAt(h))) {
      Accepted(rec, h);
    }
  }

  lemma Accepted(rec: bytes, h: Hello)
    requires Fits(h) && AgreeBut(rec, Encode(h), BlockLengthAt(h)) && AnnouncedOk(h.extensions, GetU16(rec, BlockLengthAt(h)))
    ensures Decode(rec) == Some(h)
  {
    var n, t := |EncExts(h.extensions)|, GetU16(rec, BlockLengthAt(h));
    FrameFields(EncBody(h));
    BodyShape(h, n);
    BodyFrom(rec, BodyFront(h), t, EncExts(h.extensions), Encode(h));
    BodyShape(h, t);
    HeaderFrom(rec, EncBody(h), BlockLengthAt(h));
    AnnouncedBody(h, t);
  }
}
