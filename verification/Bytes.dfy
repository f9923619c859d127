/** Octets, big-endian integers and the failure-compatible result type shared by every module. */
module Bytes {

  type byte = b: int | 0 <= b < 0x100
  type u16 = v: int | 0 <= v < 0x1_0000
  type bytes = seq<byte>

  /** The fixed 32-byte arrays of the source: randoms, psks, X25519 public keys. */
  type Bytes32 = b: bytes | |b| == 32 witness seq(32, _ => 0)

  /** A value or a failure. The source's error texts are not modelled. */
  datatype Option<+T> = None | Some(value: T) {
    predicate IsFailure() {
      None?
    }

    function PropagateFailure<U>(): Option<U>
      requires None?
    {
      None
    }

    function Extract(): T
      requires Some?
    {
      value
    }
  }

  function Need(condition: bool): Option<()> {
    if condition then Some(()) else None
  }

  /** appendU16's two bytes; like the conversion uint16(v), it keeps only the low 16 bits. */
  function U16(v: nat): (r: bytes)
    ensures |r| == 2
  {
    [v / 0x100 % 0x100, v % 0x100]
  }

  function GetU16(b: bytes, i: nat): u16
    requires i + 2 <= |b|
  {
    b[i] as int * 0x100 + b[i + 1]
  }

  type U64 = v: int | 0 <= v < 0x1_0000_0000_0000_0000

  function U32(v: nat): (r: bytes)
    ensures |r| == 4
  {
    U16(v / 0x1_0000) + U16(v % 0x1_0000)
  }

  function GetU32(b: bytes): (v: nat)
    requires |b| == 4
    ensures v < 0x1_0000_0000
  {
    GetU16(b[..2], 0) as int * 0x1_0000 + GetU16(b[2..], 0)
  }

  function PutU64(v: U64): (r: bytes)
    ensures |r| == 8
  {
    U32(v / 0x1_0000_0000) + U32(v % 0x1_0000_0000)
  }

  function GetU64(b: bytes): U64
    requires |b| == 8
  {
    GetU32(b[..4]) * 0x1_0000_0000 + GetU32(b[4..])
  }

  lemma U16RoundTrip(v: u16)
    ensures GetU16(U16(v), 0) == v
  {
  }

  lemma U32RoundTrip(v: nat)
    requires v < 0x1_0000_0000
    ensures GetU32(U32(v)) == v
  {
    U16RoundTrip(v / 0x1_0000);
    U16RoundTrip(v % 0x1_0000);
    assert U32(v)[..2] == U16(v / 0x1_0000) && U32(v)[2..] == U16(v % 0x1_0000);
  }

  lemma U64RoundTrip(v: U64)
    ensures GetU64(PutU64(v)) == v
  {
    U32RoundTrip(v / 0x1_0000_0000);
    U32RoundTrip(v % 0x1_0000_0000);
    assert PutU64(v)[..4] == U32(v / 0x1_0000_0000) && PutU64(v)[4..] == U32(v % 0x1_0000_0000);
  }

  /** The number these bytes spell, the most significant first. */
  function BigEndian(s: bytes): nat {
    if s == [] then 0 else BigEndian(s[..|s| - 1]) * 0x100 + s[|s| - 1]
  }

  lemma {:induction false} BigEndianJoin(s: bytes, a: byte, b: byte)
    ensures BigEndian(s + [a, b]) == BigEndian(s) * 0x1_0000 + a as int * 0x100 + b
  {
    assert (s + [a, b])[..|s| + 1] == s + [a];
    assert (s + [a])[..|s|] == s;
  }

  lemma {:induction false} U16Value(v: u16)
    ensures BigEndian(U16(v)) == v
  {
    BigEndianJoin([], v / 0x100, v % 0x100);
    assert [] + [v / 0x100, v % 0x100] == U16(v);
  }

  lemma {:induction false} U32Value(v: nat, s: bytes)
    requires v < 0x1_0000_0000
    ensures BigEndian(s + U32(v)) == BigEndian(s) * 0x1_0000_0000 + v
  {
    var h, l := v / 0x1_0000, v % 0x1_0000;
    BigEndianJoin(s, h / 0x100, h % 0x100);
    BigEndianJoin(s + U16(h), l / 0x100, l % 0x100);
    assert s + U32(v) == s + U16(h) + [l / 0x100, l % 0x100];
  }

  /** The eight bytes spell the number. */
  lemma {:induction false} U64Value(v: U64)
    ensures BigEndian(PutU64(v)) == v
  {
    U32Value(v / 0x1_0000_0000, []);
    assert [] + U32(v / 0x1_0000_0000) == U32(v / 0x1_0000_0000);
    U32Value(v % 0x1_0000_0000, U32(v / 0x1_0000_0000));
  }

  function Zeros(n: nat): (r: bytes)
    ensures |r| == n
    ensures forall k :: 0 <= k < n ==> r[k] == 0
  {
    seq(n, _ => 0)
  }

  lemma Assoc(a: bytes, b: bytes, c: bytes)
    ensures a + (b + c) == a + b + c
  {
  }

  // Cursor primitives on the bytes still to be read. Each returns the value and what is left.

  function TakeN(b: bytes, n: nat): Option<(bytes, bytes)> {
    if n <= |b| then Some((b[..n], b[n..])) else None
  }

  function TakeU16(b: bytes): Option<(u16, bytes)> {
    if 2 <= |b| then Some((GetU16(b, 0), b[2..])) else None
  }

  /** A vector behind its one-byte length. */
  function Vec8(s: bytes): bytes {
    [|s| % 0x100] + s
  }

  /** A vector behind its two-byte length. */
  function Vec16(s: bytes): bytes {
    U16(|s|) + s
  }

  function TakeVec8(b: bytes): Option<(bytes, bytes)> {
    if 1 <= |b| then TakeN(b[1..], b[0]) else None
  }

  function TakeVec16(b: bytes): Option<(bytes, bytes)> {
    if 2 <= |b| then TakeN(b[2..], GetU16(b, 0)) else None
  }

  lemma TakeU16Undo(v: u16, rest: bytes)
    ensures TakeU16(U16(v) + rest) == Some((v, rest))
  {
    assert (U16(v) + rest)[2..] == rest;
  }

  lemma TakeNUndo(s: bytes, rest: bytes)
    ensures TakeN(s + rest, |s|) == Some((s, rest))
  {
    assert (s + rest)[..|s|] == s && (s + rest)[|s|..] == rest;
  }

  lemma TakeVec8Undo(s: bytes, rest: bytes)
    requires |s| < 0x100
    ensures TakeVec8(Vec8(s) + rest) == Some((s, rest))
  {
    TakeNUndo(s, rest);
    assert (Vec8(s) + rest)[1..] == s + rest;
  }

  lemma TakeVec16Undo(s: bytes, rest: bytes)
    requires |s| < 0x1_0000
    ensures TakeVec16(Vec16(s) + rest) == Some((s, rest))
  {
    TakeNUndo(s, rest);
    assert (Vec16(s) + rest)[2..] == s + rest;
  }

  // What a primitive took is what stood there.

  lemma TakeNSplit(b: bytes, n: nat)
    requires TakeN(b, n).Some?
    ensures var (s, rest) := TakeN(b, n).value; b == s + rest && |s| == n
  {
  }

  lemma TakeU16Split(b: bytes)
    requires TakeU16(b).Some?
    ensures b == U16(TakeU16(b).value.0) + TakeU16(b).value.1
  {
  }

  lemma TakeVec8Split(b: bytes)
    requires TakeVec8(b).Some?
    ensures var (s, rest) := TakeVec8(b).value; b == Vec8(s) + rest && |s| < 0x100
  {
    var (s, rest) := TakeVec8(b).value;
    TakeNSplit(b[1..], b[0]);
    assert b == [b[0]] + (s + rest);
    assert [b[0]] + (s + rest) == ([b[0]] + s) + rest;
  }

  lemma TakeVec16Split(b: bytes)
    requires TakeVec16(b).Some?
    ensures var (s, rest) := TakeVec16(b).value; b == Vec16(s) + rest && |s| < 0x1_0000
  {
    var (s, rest) := TakeVec16(b).value;
    TakeNSplit(b[2..], GetU16(b, 0));
    assert b == U16(GetU16(b, 0)) + (s + rest);
    assert U16(|s|) + (s + rest) == (U16(|s|) + s) + rest;
  }

  // What stands where in a string put together from parts.

  /** From position i on r reads `part`. */
  predicate Stands(r: bytes, i: nat, part: bytes) {
    i + |part| <= |r| && r[i..i + |part|] == part
  }

  lemma Between(a: bytes, part: bytes, b: bytes)
    ensures Stands(a + (part + b), |a|, part)
  {
    assert (a + (part + b))[|a|..] == part + b;
    assert (a + (part + b))[|a|..|a| + |part|] == (part + b)[..|part|] == part;
  }

  /** A part of a part. */
  lemma PartWithin(r: bytes, i: nat, whole: bytes, j: nat, part: bytes)
    requires Stands(r, i, whole) && Stands(whole, j, part)
    ensures Stands(r, i + j, part)
  {
    forall k | 0 <= k < |part| ensures r[i + j + k] == part[k] {
      assert r[i..i + |whole|][j + k] == whole[j + k] && whole[j..j + |part|][k] == part[k];
    }
  }

  lemma At(r: bytes, i: nat, part: bytes, j: nat)
    requires Stands(r, i, part) && j < |part|
    ensures r[i + j] == part[j]
  {
    assert r[i..i + |part|][j] == r[i + j];
  }

  lemma Layers(head: bytes, front: bytes, len: bytes, ext: bytes)
    ensures var r := head + (front + (len + ext));
            && |r| == |head| + |front| + |len| + |ext|
            && Stands(r, 0, head) && Stands(r, |head|, front)
            && Stands(r, |head| + |front|, len) && Stands(r, |head| + |front| + |len|, ext)
  {
    var r := head + (front + (len + ext));
    assert r == [] + (head + (front + (len + ext)));
    Between([], head, front + (len + ext));
    Between(head, front, len + ext);
    assert r == head + front + (len + ext);
    Between(head + front, len, ext);
    assert r == head + front + len + (ext + []);
    Between(head + front + len, ext, []);
  }
}
