/** The ClientHello codec on values (hello.go): the builder, the parser, and both round trips. */
module HelloCodec {
  import opened Bytes

  const EXT_SERVER_NAME: u16 := 0x0000
  const EXT_SUPPORTED_GROUPS: u16 := 0x000a
  const EXT_SIGNATURE_ALGORITHMS: u16 := 0x000d
  const EXT_SESSION_TICKET: u16 := 0x0023
  const EXT_PRE_SHARED_KEY: u16 := 0x0029
  const EXT_EARLY_DATA: u16 := 0x002a
  const EXT_SUPPORTED_VERSIONS: u16 := 0x002b
  const EXT_KEY_SHARE: u16 := 0x0033
  const EXT_ECH: u16 := 0xfe0d
  const GROUP_X25519: u16 := 0x001d
  const GROUP_HYBRID: u16 := 0x11ec

  datatype Extension = Extension(typ: u16, data: bytes)

  /** The value of a ClientHello: what the struct's fields hold. */
  datatype Hello = Hello(
    version: u16, random: Bytes32, sessionID: bytes, ciphers: seq<u16>, compression: bytes,
    extensions: seq<Extension>)

  /** Both bytes equal and of the form 0x?a. */
  predicate IsGREASE(v: u16) {
    v % 0x10 == 0xa && v / 0x100 == v % 0x100
  }

  // ---------------------------------------------------------------- builder

  function EncExt(e: Extension): (r: bytes)
    ensures |r| == 4 + |e.data|
  {
    U16(e.typ) + U16(|e.data|) + e.data
  }

  function EncExts(exts: seq<Extension>): bytes {
    if exts == [] then [] else EncExt(exts[0]) + EncExts(exts[1..])
  }

  function EncU16s(vs: seq<u16>): (r: bytes)
    ensures |r| == 2 * |vs|
  {
    if vs == [] then [] else U16(vs[0]) + EncU16s(vs[1..])
  }

  /** The hello body announcing `total` as the length of its extension block. */
  function BodyWith(h: Hello, total: nat): bytes {
    U16(h.version) + (h.random + (Vec8(h.sessionID) + TailWith(h, total)))
  }

  function TailWith(h: Hello, total: nat): bytes {
    Vec16(EncU16s(h.ciphers)) + (Vec8(h.compression) + (U16(total) + EncExts(h.extensions)))
  }

  function EncBody(h: Hello): bytes {
    BodyWith(h, |EncExts(h.extensions)|)
  }

  /** A message body behind its type and 24-bit length, in a record. */
  function Frame(body: bytes): bytes {
    var n := |body|;
    [0x16, 0x03, 0x01] + U16(n + 4) + [0x01, n / 0x1_0000 % 0x100, n / 0x100 % 0x100, n % 0x100] + body
  }

  /** The complete record. */
  function Encode(h: Hello): bytes {
    Frame(EncBody(h))
  }

  predicate ExtsFit(exts: seq<Extension>) {
    forall i :: 0 <= i < |exts| ==> |exts[i].data| < 0x1_0000
  }

  /** Every length fits the field that carries it. */
  predicate Fits(h: Hello) {
    && |h.sessionID| < 0x100
    && |h.compression| < 0x100
    && 2 * |h.ciphers| < 0x1_0000
    && ExtsFit(h.extensions)
    && |EncBody(h)| + 4 < 0x1_0000
  }

  // ----------------------------------------------------------------- parser

  function DecU16s(b: bytes): (r: seq<u16>)
    ensures |r| == |b| / 2
  {
    if |b| < 2 then [] else [GetU16(b, 0)] + DecU16s(b[2..])
  }

  /** The extension loop, with its cursor and where the announced block ends. The last extension
      may run past that end; the cursor must stop exactly at the end of the bytes. */
  function ParseExts(b: bytes, i: nat, end: nat): Option<seq<Extension>>
    requires i <= |b|
    decreases |b| - i
  {
    if i >= end then
      if i == |b| then Some([]) else None
    else if i + 4 > |b| || i + 4 + GetU16(b, i + 2) > |b| then None
    else
      var n: nat := GetU16(b, i + 2);
      var rest :- ParseExts(b, i + 4 + n, end);
      Some([Extension(GetU16(b, i), b[i + 4..i + 4 + n])] + rest)
  }

  function ParseBody(b: bytes): Option<Hello> {
    var (version, random, sid, rest) :- ParseHead(b);
    var (ciphers, comp, exts) :- ParseTail(rest);
    Some(Hello(version, random, sid, ciphers, comp, exts))
  }

  function ParseHead(b0: bytes): Option<(u16, Bytes32, bytes, bytes)> {
    var (version, b1) :- TakeU16(b0);
    var (random, b2) :- TakeN(b1, 32);
    var (sid, b3) :- TakeVec8(b2);
    Some((version, random, sid, b3))
  }

  function ParseTail(b0: bytes): Option<(seq<u16>, bytes, seq<Extension>)> {
    var (cs, b1) :- TakeVec16(b0);
    var _ :- Need(|cs| % 2 == 0);
    var (comp, b2) :- TakeVec8(b1);
    var (total, b3) :- TakeU16(b2);
    var exts :- ParseExts(b3, 0, total);
    Some((DecU16s(cs), comp, exts))
  }

  function Decode(rec: bytes): Option<Hello> {
    if |rec| < 9 || rec[0] != 0x16 then None
    else if |rec| != 5 + GetU16(rec, 3) as int then None
    else if rec[5] != 0x01 then None
    else if rec[6] as int * 0x1_0000 + GetU16(rec, 7) != |rec| - 9 then None
    else ParseBody(rec[9..])
  }

  // ------------------------------------------------------------ round trips

  lemma {:induction false} DecEncU16s(vs: seq<u16>)
    ensures DecU16s(EncU16s(vs)) == vs
  {
    if vs != [] {
      assert EncU16s(vs)[2..] == EncU16s(vs[1..]);
      DecEncU16s(vs[1..]);
    }
  }

  lemma {:induction false} EncDecU16s(b: bytes)
    requires |b| % 2 == 0
    ensures EncU16s(DecU16s(b)) == b
  {
    if |b| >= 2 {
      EncDecU16s(b[2..]);
      assert b == U16(GetU16(b, 0)) + b[2..];
    }
  }

  lemma PeelExt(b: bytes, i: nat, e: Extension, rest: bytes)
    requires i <= |b| && b[i..] == EncExt(e) + rest && |e.data| < 0x1_0000
    ensures var n := |e.data|;
            && i + 4 + n <= |b|
            && GetU16(b, i) == e.typ && GetU16(b, i + 2) == n
            && b[i + 4..i + 4 + n] == e.data && b[i + 4 + n..] == rest
  {
    var s, n := b[i..], |e.data|;
    EncodedExtFields(s, e, rest);
    assert GetU16(b, i) == GetU16(s, 0) && GetU16(b, i + 2) == GetU16(s, 2);
    assert b[i + 4..i + 4 + n] == s[4..4 + n] && b[i + 4 + n..] == s[4 + n..];
  }

  lemma EncodedExtFields(s: bytes, e: Extension, rest: bytes)
    requires s == EncExt(e) + rest && |e.data| < 0x1_0000
    ensures GetU16(s, 0) == e.typ && GetU16(s, 2) == |e.data|
    ensures s[4..4 + |e.data|] == e.data && s[4 + |e.data|..] == rest
  {
  }

  lemma {:induction false} ParseEncExts(exts: seq<Extension>, b: bytes, i: nat)
    requires ExtsFit(exts)
    requires i <= |b| && b[i..] == EncExts(exts)
    ensures ParseExts(b, i, |b|) == Some(exts)
    decreases |exts|
  {
    if exts != [] {
      var e := exts[0];
      PeelExt(b, i, e, EncExts(exts[1..]));
      ParseEncExts(exts[1..], b, i + 4 + |e.data|);
      assert [e] + exts[1..] == exts;
    }
  }

  lemma EncExtsCons(e: Extension, rest: seq<Extension>)
    ensures EncExts([e] + rest) == EncExt(e) + EncExts(rest)
  {
    assert ([e] + rest)[1..] == rest;
  }

  /** What the loop accepts is exactly an encoding. */
  lemma {:induction false} EncParseExts(b: bytes, i: nat, end: nat, exts: seq<Extension>)
    requires i <= |b| && ParseExts(b, i, end) == Some(exts)
    ensures EncExts(exts) == b[i..]
    ensures ExtsFit(exts)
    decreases |b| - i
  {
    if i < end {
      var n: nat := GetU16(b, i + 2);
      var e, rest := Extension(GetU16(b, i), b[i + 4..i + 4 + n]), exts[1..];
      EncParseExts(b, i + 4 + n, end, rest);
      EncExtsCons(e, rest);
      assert exts == [e] + rest;
      UnpeelExt(b, i, n);
    }
  }

  lemma UnpeelExt(b: bytes, i: nat, n: nat)
    requires i + 4 + n <= |b| && GetU16(b, i + 2) == n
    ensures b[i..] == EncExt(Extension(GetU16(b, i), b[i + 4..i + 4 + n])) + b[i + 4 + n..]
  {
  }

  /** The announced length is at most the true one and reaches into the last extension. */
  lemma {:induction false} ExtBudget(b: bytes, i: nat, end: nat, exts: seq<Extension>)
    requires i <= |b| && ParseExts(b, i, end) == Some(exts) && i <= end
    ensures end <= |b|
    ensures if exts == [] then end == i else |b| - 4 - |exts[|exts| - 1].data| < end
    decreases |b| - i
  {
    if i < end {
      var n: nat := GetU16(b, i + 2);
      var rest := exts[1..];
      if i + 4 + n <= end {
        ExtBudget(b, i + 4 + n, end, rest);
      }
      assert rest != [] ==> exts[|exts| - 1] == rest[|rest| - 1];
    }
  }

  lemma ParseEncTail(h: Hello)
    requires Fits(h)
    ensures ParseTail(TailWith(h, |EncExts(h.extensions)|)) == Some((h.ciphers, h.compression, h.extensions))
  {
    var block := EncExts(h.extensions);
    TakeVec16Undo(EncU16s(h.ciphers), Vec8(h.compression) + (U16(|block|) + block));
    TakeVec8Undo(h.compression, U16(|block|) + block);
    TakeU16Undo(|block|, block);
    DecEncU16s(h.ciphers);
    assert block[0..] == block;
    ParseEncExts(h.extensions, block, 0);
  }

  /** The head of a body is read whatever length it announces. */
  lemma ParseEncHead(h: Hello, total: nat)
    requires |h.sessionID| < 0x100
    ensures ParseHead(BodyWith(h, total)) == Some((h.version, h.random, h.sessionID, TailWith(h, total)))
  {
    var tail := TailWith(h, total);
    TakeU16Undo(h.version, h.random + (Vec8(h.sessionID) + tail));
    TakeNUndo(h.random, Vec8(h.sessionID) + tail);
    TakeVec8Undo(h.sessionID, tail);
  }

  lemma FrameFields(body: bytes)
    requires |body| + 4 < 0x1_0000
    ensures var r := Frame(body);
            && |r| == |body| + 9 && r[9..] == body && r[0] == 0x16 && r[5] == 0x01
            && GetU16(r, 3) == |body| + 4 && r[6] == 0 && GetU16(r, 7) == |body|
  {
  }

  /** Parsing what the builder wrote gives the hello back, for every hello whose lengths fit. */
  lemma DecodeEncode(h: Hello)
    requires Fits(h)
    ensures Decode(Encode(h)) == Some(h)
  {
    FrameFields(EncBody(h));
    ParseEncHead(h, |EncExts(h.extensions)|);
    ParseEncTail(h);
  }

  /** A block length the parser accepts for these extensions: never more than the true one, and
      reaching past the start of the last extension. */
  predicate AnnouncedOk(exts: seq<Extension>, total: nat) {
    && total <= |EncExts(exts)|
    && if exts == [] then total == 0 else |EncExts(exts)| - 4 - |exts[|exts| - 1].data| < total
  }

  lemma EncParseHead(b: bytes)
    requires ParseHead(b).Some?
    ensures var (version, random, sid, tail) := ParseHead(b).value;
            b == U16(version) + (random + (Vec8(sid) + tail)) && |sid| < 0x100
  {
    var (version, b1) := TakeU16(b).value;
    var (random, b2) := TakeN(b1, 32).value;
    TakeU16Split(b);
    TakeNSplit(b1, 32);
    TakeVec8Split(b2);
  }

  lemma EncParseTail(h: Hello, b: bytes) returns (total: u16)
    requires ParseTail(b) == Some((h.ciphers, h.compression, h.extensions))
    ensures b == TailWith(h, total)
    ensures 2 * |h.ciphers| < 0x1_0000 && |h.compression| < 0x100
    ensures ExtsFit(h.extensions) && AnnouncedOk(h.extensions, total)
  {
    var (cs, b1) := TakeVec16(b).value;
    var (comp, b2) := TakeVec8(b1).value;
    var (t, b3) := TakeU16(b2).value;
    total := t;
    TakeVec16Split(b);
    TakeVec8Split(b1);
    TakeU16Split(b2);
    EncDecU16s(cs);
    assert b3[0..] == b3;
    EncParseExts(b3, 0, total, h.extensions);
    ExtBudget(b3, 0, total, h.extensions);
  }

  /** Everything before the announced block length. */
  function BodyFront(h: Hello): bytes {
    U16(h.version) + h.random + Vec8(h.sessionID) + Vec16(EncU16s(h.ciphers)) + Vec8(h.compression)
  }

  lemma Reassociate(a: bytes, b: bytes, c: bytes, d: bytes, e: bytes, f: bytes)
    ensures a + (b + (c + (d + (e + f)))) == a + b + c + d + e + f
  {
  }

  lemma BodyShape(h: Hello, total: nat)
    ensures BodyWith(h, total) == BodyFront(h) + (U16(total) + EncExts(h.extensions))
  {
    Reassociate(U16(h.version), h.random, Vec8(h.sessionID), Vec16(EncU16s(h.ciphers)), Vec8(h.compression),
                U16(total) + EncExts(h.extensions));
  }

  /** Where the two bytes of the announced extension-block length stand in a record. */
  function BlockLengthAt(h: Hello): nat {
    9 + |BodyFront(h)|
  }

  lemma ParsedBody(b: bytes, h: Hello) returns (total: u16)
    requires ParseBody(b) == Some(h) && |b| + 4 < 0x1_0000
    ensures b == BodyFront(h) + (U16(total) + EncExts(h.extensions))
    ensures Fits(h) && AnnouncedOk(h.extensions, total)
  {
    var tail := BodyParts(b, h);
    total := ParsedRest(b, tail, h);
  }

  lemma BodyParts(b: bytes, h: Hello) returns (tail: bytes)
    requires ParseBody(b) == Some(h)
    ensures ParseTail(tail) == Some((h.ciphers, h.compression, h.extensions))
    ensures b == U16(h.version) + (h.random + (Vec8(h.sessionID) + tail)) && |h.sessionID| < 0x100
  {
    tail := BothParts(b, h);
    EncParseHead(b);
  }

  lemma BothParts(b: bytes, h: Hello) returns (tail: bytes)
    requires ParseBody(b) == Some(h)
    ensures ParseHead(b) == Some((h.version, h.random, h.sessionID, tail))
    ensures ParseTail(tail) == Some((h.ciphers, h.compression, h.extensions))
  {
    tail := ParseHead(b).value.3;
  }

  lemma FrontLength(h: Hello)
    ensures |BodyFront(h)| == 38 + |h.sessionID| + 2 * |h.ciphers| + |h.compression|
  {
  }

  lemma ParsedRest(b: bytes, tail: bytes, h: Hello) returns (total: u16)
    requires ParseTail(tail) == Some((h.ciphers, h.compression, h.extensions))
    requires b == U16(h.version) + (h.random + (Vec8(h.sessionID) + tail)) && |h.sessionID| < 0x100
    requires |b| + 4 < 0x1_0000
    ensures b == BodyFront(h) + (U16(total) + EncExts(h.extensions))
    ensures Fits(h) && AnnouncedOk(h.extensions, total)
  {
    total := EncParseTail(h, tail);
    BodyShape(h, total);
    SameLength(h, total, |EncExts(h.extensions)|);
  }

  lemma SameLength(h: Hello, total: nat, total': nat)
    ensures |BodyWith(h, total)| == |BodyWith(h, total')|
  {
  }

  /** For every accepted record: the parsed hello fits, marshalling it keeps the length and
      every byte but the record version and the announced block length, and it parses back. The
      bytes are the very same exactly when those two fields hold 0x0301 and the true length. */
  lemma EncodeDecode(rec: bytes)
    requires Decode(rec).Some?
    ensures var h := Decode(rec).value;
            var at := BlockLengthAt(h);
            && Fits(h)
            && Decode(Encode(h)) == Some(h)
            && |Encode(h)| == |rec| && at + 2 <= |rec|
            && (forall k :: 0 <= k < |rec| && k !in {1, 2, at, at + 1} ==> rec[k] == Encode(h)[k])
            && AnnouncedOk(h.extensions, GetU16(rec, at))
            && (rec == Encode(h) <==>
                rec[1] == 0x03 && rec[2] == 0x01 && GetU16(rec, at) == |EncExts(h.extensions)|)
  {
    var h := Decode(rec).value;
    DecodedFrame(rec);
    var total := ParsedBody(rec[9..], h);
    DecodeEncode(h);
    BodyShape(h, |EncExts(h.extensions)|);
    FramesDiffer(rec, BodyFront(h), total, |EncExts(h.extensions)|, EncExts(h.extensions));
  }

  /** What an accepted record looks like around its body. */
  lemma DecodedFrame(rec: bytes)
    requires Decode(rec).Some?
    ensures |rec| >= 9 && rec[0] == 0x16 && |rec| == 5 + GetU16(rec, 3) as int && rec[5] == 0x01
    ensures rec[6] as int * 0x1_0000 + GetU16(rec, 7) == |rec| - 9 && ParseBody(rec[9..]) == Decode(rec)
  {
  }

  /** Two frames of the same shape agree outside the version and the two bytes after `front`. */
  lemma FramesDiffer(r: bytes, front: bytes, t: u16, t': u16, back: bytes)
    requires |r| >= 9 && r[0] == 0x16 && |r| == 5 + GetU16(r, 3) as int && r[5] == 0x01
    requires r[6] as int * 0x1_0000 + GetU16(r, 7) == |r| - 9
    requires r[9..] == front + (U16(t) + back)
    ensures var r' := Frame(front + (U16(t') + back));
            var at := 9 + |front|;
            && |r| == |r'|
            && GetU16(r, at) == t
            && (forall k :: 0 <= k < |r| && k !in {1, 2, at, at + 1} ==> r[k] == r'[k])
            && (r == r' <==> r[1] == 0x03 && r[2] == 0x01 && t == t')
  {
    var b, b', at := front + (U16(t) + back), front + (U16(t') + back), 9 + |front|;
    var r' := Frame(b');
    FrameFields(b');
    BodiesDiffer(front, t, t', back);
    assert forall k :: 9 <= k < |r| ==> r[k] == b[k - 9] && r'[k] == b'[k - 9];
    assert r'[1] == 0x03 && r'[2] == 0x01;
    assert r[3] == r'[3] && r[4] == r'[4] && r[5] == r'[5] && r[6] == r'[6] && r[7] == r'[7] && r[8] == r'[8];
    if r[1] == 0x03 && r[2] == 0x01 && t == t' {
      assert forall k :: 0 <= k < |r| ==> r[k] == r'[k];
    }
  }

  lemma BodiesDiffer(front: bytes, t: u16, t': u16, back: bytes)
    ensures var b, b', at := front + (U16(t) + back), front + (U16(t') + back), |front|;
            && |b| == |b'|
            && GetU16(b, at) == t && GetU16(b', at) == t'
            && forall k :: 0 <= k < |b| && k != at && k != at + 1 ==> b[k] == b'[k]
  {
  }
}
