/** One record of the tunnel (conn.go), after sections 5.2 to 5.4 of RFC 8446: the inner plaintext with
    its content type and zero padding, the nonce, the header bound as additional data. The AEAD is an
    argument. */
module RecordLayer {
  import opened Bytes

  const RECORD_HEADER_LEN: nat := 5
  const MAX_PLAINTEXT: nat := 0x4000
  const MAX_INNER: nat := MAX_PLAINTEXT + 1
  const MAX_CIPHERTEXT: nat := MAX_PLAINTEXT + 256
  const OVERHEAD: nat := 16
  const APP_DATA: byte := 0x17
  const ALERT: byte := 0x15
  const HANDSHAKE: byte := 0x16
  const CLOSE_NOTIFY_WIRE: nat := 24
  const COUNTER: nat := 0x1_0000_0000_0000_0000

  /** A 64-bit counter one further; it wraps. */
  function NextSeq(n: U64): U64 {
    if n + 1 == COUNTER then 0 else n + 1
  }

  /** The counter after i steps from zero. */
  function Count(i: nat): U64 {
    if i == 0 then 0 else NextSeq(Count(i - 1))
  }

  lemma {:induction false} CountBelow(i: nat)
    requires i < COUNTER
    ensures Count(i) == i
  {
    if i > 0 {
      CountBelow(i - 1);
    }
  }

  type IV = b: bytes | |b| == 12 witness seq(12, _ => 0)

  /** seal(nonce, inner, header) and open(nonce, ciphertext, header). */
  datatype Aead = Aead(seal: (bytes, bytes, bytes) -> bytes, open: (bytes, bytes, bytes) -> Option<bytes>)

  ghost predicate Correct(a: Aead) {
    && (forall n, x, h :: |a.seal(n, x, h)| == |x| + OVERHEAD)
    && (forall n, x, h :: a.open(n, a.seal(n, x, h), h) == Some(x))
  }

  // -------------------------------------------------------------------- nonce

  /** Exclusive or of the low k bits. */
  function XorBits(x: nat, y: nat, k: nat): (r: nat)
    ensures r < Pow2(k)
    decreases k
  {
    if k == 0 then 0 else 2 * XorBits(x / 2, y / 2, k - 1) + (x % 2 + y % 2) % 2
  }

  function Pow2(k: nat): (r: nat)
    ensures r > 0
  {
    if k == 0 then 1 else 2 * Pow2(k - 1)
  }

  function Xor(x: byte, y: byte): byte {
    assert Pow2(8) == 0x100;
    XorBits(x, y, 8)
  }

  /** The IV with the big-endian sequence number folded into its last eight bytes. */
  function NonceFor(iv: IV, n: U64): (r: bytes)
    ensures |r| == 12
  {
    var s := PutU64(n);
    iv[..4] + seq(8, i requires 0 <= i < 8 => Xor(iv[4 + i], s[i]))
  }

  /** Bit j of x, the lowest first. */
  predicate Bit(x: nat, j: nat) {
    if j == 0 then x % 2 == 1 else Bit(x / 2, j - 1)
  }

  /** Each bit of the exclusive or is set exactly where the two differ. */
  lemma {:induction false} XorBit(x: nat, y: nat, k: nat, j: nat)
    requires j < k
    ensures Bit(XorBits(x, y, k), j) <==> Bit(x, j) != Bit(y, j)
    decreases k
  {
    if j > 0 {
      XorBit(x / 2, y / 2, k - 1, j - 1);
      assert XorBits(x, y, k) / 2 == XorBits(x / 2, y / 2, k - 1);
    }
  }

  /** The nonce, bit by bit: the IV's first four bytes as they are, and the last eight with the bytes of
      the counter, the most significant first, folded in. */
  lemma NonceBits(iv: IV, n: U64) returns (s: bytes)
    ensures |s| == 8
    ensures BigEndian(s) == n
    ensures NonceFor(iv, n)[..4] == iv[..4]
    ensures forall i: nat, j: nat :: i < 8 && j < 8 ==>
              (Bit(NonceFor(iv, n)[4 + i], j) <==> Bit(iv[4 + i], j) != Bit(s[i], j))
  {
    s := PutU64(n);
    U64Value(n);
    forall i: nat, j: nat | i < 8 && j < 8
      ensures Bit(NonceFor(iv, n)[4 + i], j) <==> Bit(iv[4 + i], j) != Bit(s[i], j)
    {
      assert Pow2(8) == 0x100;
      assert NonceFor(iv, n)[4 + i] == XorBits(iv[4 + i], s[i], 8);
      XorBit(iv[4 + i], s[i], 8, j);
    }
  }

  lemma {:induction false} XorCancels(x: nat, y: nat, z: nat, k: nat)
    requires XorBits(x, y, k) == XorBits(x, z, k) && y < Pow2(k) && z < Pow2(k)
    ensures y == z
    decreases k
  {
    if k > 0 {
      LastBits(XorBits(x / 2, y / 2, k - 1), XorBits(x / 2, z / 2, k - 1), x % 2, y % 2, z % 2);
      XorCancels(x / 2, y / 2, z / 2, k - 1);
    }
  }

  lemma LastBits(u: nat, v: nat, x: nat, y: nat, z: nat)
    requires x < 2 && y < 2 && z < 2 && 2 * u + (x + y) % 2 == 2 * v + (x + z) % 2
    ensures u == v && y == z
  {
  }

  /** Two records of one direction share a nonce exactly when they share a sequence number. */
  lemma NonceInjective(iv: IV, m: U64, n: U64)
    ensures NonceFor(iv, m) == NonceFor(iv, n) <==> m == n
  {
    if NonceFor(iv, m) == NonceFor(iv, n) {
      var s, t := PutU64(m), PutU64(n);
      forall i | 0 <= i < 8 ensures s[i] == t[i] {
        assert NonceFor(iv, m)[4 + i] == Xor(iv[4 + i], s[i]);
        assert NonceFor(iv, n)[4 + i] == Xor(iv[4 + i], t[i]);
        assert Pow2(8) == 0x100;
        XorCancels(iv[4 + i], s[i], t[i], 8);
      }
      assert s == t;
      U64RoundTrip(m);
      U64RoundTrip(n);
    }
  }

  // ----------------------------------------------------------------- plaintext

  /** What one record carries; padTo is the inner length asked for. */
  datatype Content = Content(typ: byte, payload: bytes, padTo: int)

  /** A request to pad below the content or beyond the largest inner length is ignored. */
  function Inner(c: Content): bytes {
    var n := |c.payload| + 1;
    c.payload + [c.typ] + Zeros(if n < c.padTo <= MAX_INNER then c.padTo - n else 0)
  }

  /** Drops trailing zeros and splits off the content type. */
  function Strip(inner: bytes): Option<(byte, bytes)> {
    if inner == [] then None
    else
      var n := |inner| - 1;
      if inner[n] == 0 then Strip(inner[..n]) else Some((inner[n], inner[..n]))
  }

  /** Padding is invisible to the reader, also behind a payload that itself ends in zeros. */
  lemma StripInner(c: Content)
    requires c.typ != 0
    ensures Strip(Inner(c)) == Some((c.typ, c.payload))
  {
    var n := |c.payload| + 1;
    StripPadding(c.payload, c.typ, if n < c.padTo <= MAX_INNER then c.padTo - n else 0);
  }

  lemma {:induction false} StripPadding(payload: bytes, typ: byte, k: nat)
    requires typ != 0
    ensures Strip(payload + [typ] + Zeros(k)) == Some((typ, payload))
    decreases k
  {
    var s := payload + [typ] + Zeros(k);
    if k == 0 {
      assert s[..|s| - 1] == payload;
    } else {
      StripPadding(payload, typ, k - 1);
      assert s[..|s| - 1] == payload + [typ] + Zeros(k - 1);
    }
  }

  // -------------------------------------------------------------------- record

  function Header(n: nat): (r: bytes)
    ensures |r| == RECORD_HEADER_LEN
  {
    [APP_DATA, 0x03, 0x03] + U16(n)
  }

  /** The bytes of one record under a sequence number. */
  function Record(a: Aead, iv: IV, n: U64, c: Content): bytes {
    var inner := Inner(c);
    var hdr := Header(|inner| + OVERHEAD);
    hdr + a.seal(NonceFor(iv, n), inner, hdr)
  }

  /** Small enough for the peer to read. */
  predicate Readable(c: Content) {
    c.typ != 0 && |c.payload| <= MAX_PLAINTEXT
  }

  /** How long the inner plaintext is: the content and its type, or what was asked for where that is more
      and a record can hold it. */
  function PaddedLength(c: Content): nat {
    if |c.payload| + 1 < c.padTo <= MAX_INNER then c.padTo else |c.payload| + 1
  }

  /** The record r as anyone on the wire and anyone with the key sees it: application data of TLS 1.2
      outside, then the length of what follows, which is the length of the inner plaintext and of the tag;
      behind it the payload, its type and zeros, sealed with the five bytes in front of them. */
  ghost predicate OnTheWire(a: Aead, iv: IV, n: U64, c: Content, r: bytes) {
    && |r| == 5 + PaddedLength(c) + 16
    && r[0] == 23 && r[1] == 3 && r[2] == 3 && GetU16(r, 3) as int == |r| - 5
    && r[5..] == a.seal(NonceFor(iv, n), c.payload + [c.typ] + Zeros(PaddedLength(c) - |c.payload| - 1), r[..5])
  }

  lemma RecordOnTheWire(a: Aead, iv: IV, n: U64, c: Content)
    requires Correct(a) && |c.payload| <= MAX_PLAINTEXT
    ensures OnTheWire(a, iv, n, c, Record(a, iv, n, c))
  {
    var inner := Inner(c);
    InnerLength(c);
    assert |inner| == PaddedLength(c);
    var hdr := Header(|inner| + OVERHEAD);
    var r := Record(a, iv, n, c);
    assert r[..5] == hdr && r[5..] == a.seal(NonceFor(iv, n), inner, hdr);
    assert GetU16(r, 3) == GetU16(hdr, 3);
  }

  lemma InnerLength(c: Content)
    requires |c.payload| <= MAX_PLAINTEXT
    ensures |Inner(c)| == if |c.payload| + 1 < c.padTo <= MAX_INNER then c.padTo else |c.payload| + 1
    ensures |Inner(c)| <= MAX_INNER
  {
  }

  /** The header and the ciphertext at the front of a stream, and what is left. */
  function SplitRecord(stream: bytes): (r: Option<(bytes, bytes, bytes)>)
    ensures r.Some? ==> |r.value.0| == RECORD_HEADER_LEN && stream == r.value.0 + r.value.1 + r.value.2
  {
    var (hdr, rest) :- TakeN(stream, RECORD_HEADER_LEN);
    var len := GetU16(hdr, 3) as int;
    var _ :- Need(len <= MAX_CIPHERTEXT && OVERHEAD <= len);
    var (ct, left) :- TakeN(rest, len);
    Some((hdr, ct, left))
  }

  function OpenRecord(a: Aead, iv: IV, n: U64, hdr: bytes, ct: bytes): Option<(byte, bytes)> {
    var inner :- a.open(NonceFor(iv, n), ct, hdr);
    Strip(inner)
  }

  /** One record read off the front of a stream: what it carried and what is left. */
  function ReadOne(a: Aead, iv: IV, n: U64, stream: bytes): Option<((byte, bytes), bytes)> {
    var (hdr, ct, left) :- SplitRecord(stream);
    var got :- OpenRecord(a, iv, n, hdr, ct);
    Some((got, left))
  }

  /** The reader recovers exactly what was written, at every padding, and stops exactly behind it. */
  lemma ReadRecord(a: Aead, iv: IV, n: U64, c: Content, rest: bytes)
    requires Correct(a) && Readable(c)
    ensures ReadOne(a, iv, n, Record(a, iv, n, c) + rest) == Some(((c.typ, c.payload), rest))
  {
    var inner := Inner(c);
    var hdr := Header(|inner| + OVERHEAD);
    var ct := a.seal(NonceFor(iv, n), inner, hdr);
    InnerLength(c);
    assert GetU16(hdr, 3) == |ct|;
    SplitUndo(hdr, ct, rest);
    StripInner(c);
  }

  lemma SplitUndo(hdr: bytes, ct: bytes, rest: bytes)
    requires |hdr| == RECORD_HEADER_LEN && OVERHEAD <= |ct| == GetU16(hdr, 3) as int <= MAX_CIPHERTEXT
    ensures SplitRecord(hdr + ct + rest) == Some((hdr, ct, rest))
  {
    assert hdr + ct + rest == hdr + (ct + rest);
    TakeNUndo(hdr, ct + rest);
    TakeNUndo(ct, rest);
  }
}
