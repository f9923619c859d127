/** The mutable side of hello.go: the cursor object, the ClientHello object, and the methods that
    read or edit it. Each method is tied to a function of HelloCodec. */
module ClientHelloObject {
  import opened Bytes
  import opened HelloCodec

  /** A cursor whose error, once set, makes every later read return zero. */
  class Reader {
    const b: bytes
    var i: nat
    var err: bool

    constructor (b: bytes)
      ensures this.b == b && i == 0 && !err
    {
      this.b := b;
      i, err := 0, false;
    }

    ghost predicate Valid()
      reads this
    {
      i <= |b|
    }

    /** What is left to read, or None after an error. */
    ghost function Left(): Option<bytes>
      reads this
      requires Valid()
    {
      if err then None else Some(b[i..])
    }

    method U8() returns (v: byte)
      requires Valid()
      modifies this
      ensures Valid()
      ensures Left() == match old(Left()) case None => None case Some(s) => if 1 <= |s| then Some(s[1..]) else None
      ensures v == match old(Left()) case None => 0 case Some(s) => if 1 <= |s| then s[0] else 0
      ensures !err ==> i == old(i) + 1
    {
      if err || i + 1 > |b| {
        err := true;
        return 0;
      }
      v := b[i];
      i := i + 1;
    }

    method U16() returns (v: u16)
      requires Valid()
      modifies this
      ensures Valid()
      ensures Left() == match old(Left()) case None => None case Some(s) => if 2 <= |s| then Some(s[2..]) else None
      ensures v == match old(Left()) case None => 0 case Some(s) => if 2 <= |s| then GetU16(s, 0) else 0
      ensures !err ==> i == old(i) + 2
    {
      if err || i + 2 > |b| {
        err := true;
        return 0;
      }
      v := GetU16(b, i);
      i := i + 2;
    }

    method Bytes(n: int) returns (v: bytes)
      requires Valid()
      modifies this
      ensures Valid()
      ensures Left() == match old(Left())
                        case None => None
                        case Some(s) => if 0 <= n <= |s| then Some(s[n..]) else None
      ensures v == match old(Left()) case None => [] case Some(s) => if 0 <= n <= |s| then s[..n] else []
      ensures !err ==> i == old(i) + n
    {
      if err || n < 0 || i + n > |b| {
        err := true;
        return [];
      }
      v := b[i..i + n];
      i := i + n;
    }

    /** bytes(u8()): a vector behind its one-byte length. */
    method Vec8() returns (v: bytes)
      requires Valid()
      modifies this
      ensures Valid()
      ensures Left() == match old(Left())
                        case None => None
                        case Some(s) => if TakeVec8(s).Some? then Some(TakeVec8(s).value.1) else None
      ensures Left().Some? ==> v == TakeVec8(old(Left()).value).value.0
    {
      var n := U8();
      v := Bytes(n);
    }

    /** bytes(u16()): a vector behind its two-byte length. */
    method Vec16() returns (v: bytes)
      requires Valid()
      modifies this
      ensures Valid()
      ensures Left() == match old(Left())
                        case None => None
                        case Some(s) => if TakeVec16(s).Some? then Some(TakeVec16(s).value.1) else None
      ensures v == if Left().Some? then TakeVec16(old(Left()).value).value.0 else []
      ensures !err ==> i == old(i) + 2 + |v|
    {
      var n := U16();
      v := Bytes(n);
    }
  }

  class ClientHello {
    var legacyVersion: u16
    var random: Bytes32
    var sessionID: bytes
    var cipherSuites: seq<u16>
    var compression: bytes
    var extensions: seq<Extension>

    constructor (h: Hello)
      ensures Value() == h
    {
      legacyVersion, random, sessionID := h.version, h.random, h.sessionID;
      cipherSuites, compression, extensions := h.ciphers, h.compression, h.extensions;
    }

    ghost function Value(): Hello
      reads this
    {
      Hello(legacyVersion, random, sessionID, cipherSuites, compression, extensions)
    }

    /** Rebuilds the record, recomputing every length. */
    method Marshal() returns (out: bytes)
      ensures out == Encode(Value())
    {
      var ext := AppendExts(extensions);
      var body: bytes := U16(legacyVersion);
      body := body + random;
      body := body + [|sessionID| % 0x100];
      body := body + sessionID;
      body := body + U16(2 * |cipherSuites|);
      body := AppendU16s(body, cipherSuites);
      body := body + [|compression| % 0x100];
      body := body + compression;
      body := body + U16(|ext|);
      body := body + ext;
      BodyBuilt(Value(), body);
      out := [0x16, 0x03, 0x01];
      out := out + U16(|body| + 4);
      out := out + [0x01, |body| / 0x1_0000 % 0x100, |body| / 0x100 % 0x100, |body| % 0x100];
      out := out + body;
    }

    /** The first extension of a type, by position. */
    method Find(t: u16) returns (r: Option<nat>)
      ensures r == FirstOf(extensions, t)
    {
      for i := 0 to |extensions|
        invariant FirstOf(extensions, t) == Shift(FirstOf(extensions[i..], t), i)
      {
        if extensions[i].typ == t {
          return Some(i);
        }
        assert extensions[i..][1..] == extensions[i + 1..];
      }
      r := None;
    }

    method SNI() returns (name: bytes)
      ensures name == NameIn(extensions)
    {
      var at := Find(EXT_SERVER_NAME);
      if at.None? || |extensions[at.value].data| < 5 {
        return [];
      }
      var d := extensions[at.value].data;
      var n := GetU16(d, 3) as int;
      if 5 + n > |d| {
        return [];
      }
      name := d[5..5 + n];
    }

    /** Replaces the first server name; fails without one or when the name is too long. */
    method SetSNI(name: bytes) returns (ok: bool)
      modifies this`extensions
      ensures ok == WithName(old(Value()), name).Some?
      ensures Value() == if ok then WithName(old(Value()), name).value else old(Value())
    {
      var at := Find(EXT_SERVER_NAME);
      if at.None? {
        return false;
      }
      if |name| > 0xffff - 5 {
        return false;
      }
      var d: bytes := U16(|name| + 3);
      d := d + [0x00];
      d := d + U16(|name|);
      extensions := extensions[at.value := Extension(EXT_SERVER_NAME, d + name)];
      ok := true;
    }

    /** Removes every extension of a type. */
    method DropExtension(t: u16) returns (removed: bool)
      modifies this`extensions
      ensures extensions == Without(old(extensions), t)
      ensures removed <==> exists i :: 0 <= i < |old(extensions)| && old(extensions)[i].typ == t
    {
      var exts, out: seq<Extension> := extensions, [];
      for i := 0 to |exts|
        invariant out == Without(exts[..i], t) && |out| <= i
        invariant |out| == i <==> forall j :: 0 <= j < i ==> exts[j].typ != t
      {
        WithoutSnoc(exts[..i], exts[i], t);
        assert exts[..i + 1] == exts[..i] + [exts[i]];
        if exts[i].typ != t {
          out := out + [exts[i]];
        }
      }
      assert exts[..|exts|] == exts;
      removed := |out| != |exts|;
      extensions := out;
    }
  }

  method AppendExts(exts: seq<Extension>) returns (ext: bytes)
    ensures ext == EncExts(exts)
  {
    ext := [];
    for i := 0 to |exts|
      invariant ext == EncExts(exts[..i])
    {
      var e := exts[i];
      ext := ext + U16(e.typ);
      ext := ext + U16(|e.data|);
      ext := ext + e.data;
      EncExtsSnoc(exts[..i], e);
      assert exts[..i + 1] == exts[..i] + [e];
    }
    assert exts[..|exts|] == exts;
  }

  method AppendU16s(front: bytes, vs: seq<u16>) returns (b: bytes)
    ensures b == front + EncU16s(vs)
  {
    b := front;
    for i := 0 to |vs|
      invariant b == front + EncU16s(vs[..i])
    {
      b := b + U16(vs[i]);
      EncU16sSnoc(vs[..i], vs[i]);
      assert vs[..i + 1] == vs[..i] + [vs[i]];
    }
    assert vs[..|vs|] == vs;
  }

  /** Parses a record that includes its five-byte header; null stands for the error. */
  method ParseClientHello(rec: bytes) returns (h: ClientHello?)
    ensures h == null <==> Decode(rec).None?
    ensures h != null ==> fresh(h) && h.Value() == Decode(rec).value
  {
    if |rec| < 9 || rec[0] != 0x16 {
      return null;
    }
    if |rec| != 5 + GetU16(rec, 3) as int {
      return null;
    }
    var r := new Reader(rec[5..]);
    var t := r.U8();
    if t != 0x01 {
      return null;
    }
    var hi := r.U8();
    var lo := r.U16();
    if hi as int * 0x1_0000 + lo != |r.b| - 4 {
      return null;
    }
    assert r.b[r.i..] == rec[9..];
    var parsed := ReadBody(r);
    if parsed.None? {
      return null;
    }
    h := new ClientHello(parsed.value);
  }

  method ReadBody(r: Reader) returns (h: Option<Hello>)
    requires r.Valid() && !r.err
    modifies r
    ensures h == ParseBody(r.b[old(r.i)..])
  {
    ghost var b := r.b[r.i..];
    var version := r.U16();
    var random := r.Bytes(32);
    var sid := r.Vec8();
    assert r.Left() == if ParseHead(b).Some? then Some(ParseHead(b).value.3) else None;
    var rest := ReadTail(r);
    if rest.None? {
      return None;
    }
    h := Some(Hello(version, random, sid, rest.value.0, rest.value.1, rest.value.2));
  }

  method ReadTail(r: Reader) returns (h: Option<(seq<u16>, bytes, seq<Extension>)>)
    requires r.Valid()
    modifies r
    ensures h == if old(r.Left()).Some? then ParseTail(old(r.Left()).value) else None
  {
    var cs := r.Vec16();
    if |cs| % 2 != 0 {
      return None;
    }
    var ciphers := ReadU16s(cs);
    var comp := r.Vec8();
    var total := r.U16();
    var exts := ReadExts(r, total);
    if r.err || r.i != |r.b| {
      return None;
    }
    h := Some((ciphers, comp, exts));
  }

  method ReadU16s(b: bytes) returns (vs: seq<u16>)
    ensures vs == DecU16s(b)
  {
    vs := [];
    var i := 0;
    while i + 2 <= |b|
      invariant 0 <= i <= |b|
      invariant DecU16s(b) == vs + DecU16s(b[i..])
    {
      DecU16sStep(vs, b, i);
      vs := vs + [GetU16(b, i)];
      i := i + 2;
    }
  }

  /** The extension loop. It leaves the cursor in error, or short of the end, exactly when the
      block does not parse. */
  method ReadExts(r: Reader, total: u16) returns (exts: seq<Extension>)
    requires r.Valid()
    modifies r
    ensures r.Valid()
    ensures old(r.Left()).None? ==> r.err
    ensures old(r.Left()).Some? ==>
      if ParseExts(old(r.Left()).value, 0, total).Some?
      then !r.err && r.i == |r.b| && exts == ParseExts(old(r.Left()).value, 0, total).value
      else r.err || r.i != |r.b|
  {
    exts := [];
    var end := r.i + total as int;
    ghost var b, at := r.b[r.i..], r.i;
    ghost var goal := if r.err then None else ExtLoop([], b, 0, total);
    ExtLoopStarts(b, 0, total);
    while r.i < end && !r.err
      invariant r.Valid() && (!r.err ==> at <= r.i)
      invariant old(r.err) ==> r.err
      invariant goal == if r.err then None else ExtLoop(exts, b, r.i - at, total)
      decreases !r.err, |r.b| - r.i
    {
      ghost var j := r.i - at;
      ExtLoopStep(exts, b, j, total);
      assert r.b[r.i..] == b[j..];
      var e := ReadExt(r, b, j);
      exts := exts + [e];
    }
    if !r.err {
      ExtLoopEnds(exts, b, r.i - at, total);
    }
  }

  /** One extension, at position j of the block b. */
  method ReadExt(r: Reader, ghost b: bytes, ghost j: nat) returns (e: Extension)
    requires r.Valid() && !r.err
    requires j <= |b| && r.b[r.i..] == b[j..]
    modifies r
    ensures r.Valid()
    ensures if j + 4 > |b| || j + 4 + GetU16(b, j + 2) > |b| then r.err
            else !r.err && r.i == old(r.i) + 4 + GetU16(b, j + 2)
                 && e == Extension(GetU16(b, j), b[j + 4..j + 4 + GetU16(b, j + 2)])
  {
    ghost var s := b[j..];
    assert |s| == |b| - j;
    assert |s| >= 4 ==> GetU16(b, j) == GetU16(s, 0) && GetU16(b, j + 2) == GetU16(s[2..], 0);
    var t := r.U16();
    var d := r.Vec16();
    e := Extension(t, d);
    if !r.err {
      var n := |d|;
      assert d == s[2..][2..][..n] && s[2..][2..] == b[j + 4..];
    }
  }

  // ------------------------------------------------ specification functions

  function Shift(r: Option<nat>, n: nat): Option<nat> {
    if r.None? then None else Some(r.value + n)
  }

  /** The position of the first extension of a type. */
  function FirstOf(exts: seq<Extension>, t: u16): (r: Option<nat>)
    ensures r.Some? ==> r.value < |exts| && exts[r.value].typ == t
    ensures r.Some? ==> forall j :: 0 <= j < r.value ==> exts[j].typ != t
    ensures r.None? ==> forall j :: 0 <= j < |exts| ==> exts[j].typ != t
  {
    if exts == [] then None
    else if exts[0].typ == t then Some(0)
    else
      var r := FirstOf(exts[1..], t);
      assert r.None? ==> forall j :: 1 <= j < |exts| ==> exts[j] == exts[1..][j - 1];
      Shift(r, 1)
  }

  function Without(exts: seq<Extension>, t: u16): seq<Extension> {
    if exts == [] then []
    else if exts[0].typ == t then Without(exts[1..], t)
    else [exts[0]] + Without(exts[1..], t)
  }

  function NameIn(exts: seq<Extension>): bytes {
    var at := FirstOf(exts, EXT_SERVER_NAME);
    if at.None? then [] else NameOf(exts[at.value].data)
  }

  /** The first host name of a server_name body; empty when the body is too short for it. */
  function NameOf(d: bytes): bytes {
    if |d| < 5 || 5 + GetU16(d, 3) as int > |d| then [] else d[5..5 + GetU16(d, 3)]
  }

  /** The body of a server_name extension holding one host name. */
  function NameBody(name: bytes): bytes {
    U16(|name| + 3) + [0x00] + U16(|name|) + name
  }

  function WithName(h: Hello, name: bytes): Option<Hello> {
    var at := FirstOf(h.extensions, EXT_SERVER_NAME);
    if at.None? || |name| > 0xffff - 5 then None
    else Some(h.(extensions := h.extensions[at.value := Extension(EXT_SERVER_NAME, NameBody(name))]))
  }

  // ------------------------------------------------------------------ lemmas

  lemma {:induction false} EncExtsSnoc(exts: seq<Extension>, e: Extension)
    ensures EncExts(exts + [e]) == EncExts(exts) + U16(e.typ) + U16(|e.data|) + e.data
  {
    if exts == [] {
      assert [e][1..] == [];
    } else {
      EncExtsSnoc(exts[1..], e);
      assert (exts + [e])[1..] == exts[1..] + [e];
    }
  }

  lemma {:induction false} EncU16sSnoc(vs: seq<u16>, v: u16)
    ensures EncU16s(vs + [v]) == EncU16s(vs) + U16(v)
  {
    if vs != [] {
      EncU16sSnoc(vs[1..], v);
      assert (vs + [v])[1..] == vs[1..] + [v];
    }
  }

  /** What the extension loop is going to return, given what it has collected. */
  function ExtLoop(got: seq<Extension>, b: bytes, i: nat, end: nat): Option<seq<Extension>>
    requires i <= |b|
  {
    var more := ParseExts(b, i, end);
    if more.None? then None else Some(got + more.value)
  }

  lemma ExtLoopStarts(b: bytes, i: nat, end: nat)
    requires i <= |b|
    ensures ExtLoop([], b, i, end) == ParseExts(b, i, end)
  {
    var more := ParseExts(b, i, end);
    if more.Some? {
      assert [] + more.value == more.value;
    }
  }

  lemma ExtLoopEnds(got: seq<Extension>, b: bytes, i: nat, end: nat)
    requires end <= i <= |b|
    ensures ExtLoop(got, b, i, end) == if i == |b| then Some(got) else None
  {
    assert got + [] == got;
  }

  lemma ExtLoopStep(got: seq<Extension>, b: bytes, i: nat, end: nat)
    requires i < end && i <= |b|
    ensures if i + 4 > |b| || i + 4 + GetU16(b, i + 2) > |b|
            then ExtLoop(got, b, i, end) == None
            else
              var n: nat := GetU16(b, i + 2);
              var e := Extension(GetU16(b, i), b[i + 4..i + 4 + n]);
              ExtLoop(got, b, i, end) == ExtLoop(got + [e], b, i + 4 + n, end)
  {
    if i + 4 <= |b| && i + 4 + GetU16(b, i + 2) <= |b| {
      var n: nat := GetU16(b, i + 2);
      var e := Extension(GetU16(b, i), b[i + 4..i + 4 + n]);
      var more := ParseExts(b, i + 4 + n, end);
      if more.Some? {
        assert got + ([e] + more.value) == got + [e] + more.value;
      }
    }
  }

  lemma DecU16sStep(got: seq<u16>, b: bytes, i: nat)
    requires i + 2 <= |b|
    ensures got + DecU16s(b[i..]) == got + [GetU16(b, i)] + DecU16s(b[i + 2..])
  {
    assert b[i..][2..] == b[i + 2..];
    assert GetU16(b[i..], 0) == GetU16(b, i);
  }

  lemma BodyBuilt(h: Hello, body: bytes)
    requires body == U16(h.version) + h.random + [|h.sessionID| % 0x100] + h.sessionID + U16(2 * |h.ciphers|)
                     + EncU16s(h.ciphers) + [|h.compression| % 0x100] + h.compression
                     + U16(|EncExts(h.extensions)|) + EncExts(h.extensions)
    ensures body == EncBody(h)
  {
    BodyShape(h, |EncExts(h.extensions)|);
    Grouped(U16(h.version), h.random, [|h.sessionID| % 0x100], h.sessionID, U16(2 * |h.ciphers|),
            EncU16s(h.ciphers), [|h.compression| % 0x100], h.compression);
    Assoc(BodyFront(h), U16(|EncExts(h.extensions)|), EncExts(h.extensions));
  }

  lemma Grouped(a: bytes, b: bytes, c: bytes, d: bytes, e: bytes, f: bytes, g: bytes, i: bytes)
    ensures a + b + c + d + e + f + g + i == a + b + (c + d) + (e + f) + (g + i)
  {
  }

  lemma {:induction false} WithoutSnoc(exts: seq<Extension>, e: Extension, t: u16)
    ensures Without(exts + [e], t) == Without(exts, t) + if e.typ == t then [] else [e]
  {
    if exts == [] {
      assert [e][1..] == [];
    } else {
      WithoutSnoc(exts[1..], e, t);
      assert (exts + [e])[1..] == exts[1..] + [e];
    }
  }

  lemma {:induction false} WithoutNone(exts: seq<Extension>, t: u16)
    ensures FirstOf(Without(exts, t), t).None?
    ensures FirstOf(exts, t).None? ==> Without(exts, t) == exts
  {
    if exts != [] {
      WithoutNone(exts[1..], t);
      assert ([exts[0]] + Without(exts[1..], t))[1..] == Without(exts[1..], t);
    }
  }

  /** SNI reads back what SetSNI wrote, and only one extension body changes. */
  lemma NameRoundTrip(h: Hello, name: bytes)
    requires WithName(h, name).Some?
    ensures NameIn(WithName(h, name).value.extensions) == name
  {
    var at := FirstOf(h.extensions, EXT_SERVER_NAME).value;
    var exts := WithName(h, name).value.extensions;
    FirstOfUnique(exts, EXT_SERVER_NAME, at);
    var d := NameBody(name);
    assert GetU16(d, 3) == |name|;
    assert d[5..5 + |name|] == name;
  }

  lemma FirstOfUnique(exts: seq<Extension>, t: u16, at: nat)
    requires at < |exts| && exts[at].typ == t
    requires forall j :: 0 <= j < at ==> exts[j].typ != t
    ensures FirstOf(exts, t) == Some(at)
  {
  }
}
