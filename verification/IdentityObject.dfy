/** The loops that render a pool entry's identity (harvester.go canonicalForm, source.go Fingerprint), on
    copies, so the hello they are asked about is left alone. */
module IdentityObject {
  import opened Bytes
  import opened HelloCodec
  import opened ExtensionBodies
  import opened ClientHelloObject
  import opened Sorting
  import opened Canonical
  import opened BodiesInPlace
  import opened EmissionObject

  /** One extension of the canonical form: a copy of the body, blanked in place. */
  method BlankExtension(e: Extension) returns (r: Extension)
    ensures r == CanonExt(e)
  {
    var t := if IsGREASE(e.typ) then GREASE_SENTINEL else e.typ;
    var d := ToArray(e.data);
    if t == EXT_SERVER_NAME {
      return Extension(t, []);
    }
    if t == EXT_ECH {
      return Extension(t, if d.Length >= 5 then d[..5] else []);
    }
    if t == EXT_KEY_SHARE {
      BlankShares(d);
    } else if t == EXT_SUPPORTED_GROUPS || t == EXT_SIGNATURE_ALGORITHMS {
      ReplaceGREASEInU16List(d, 2, GREASE_SENTINEL);
    } else if t == EXT_SUPPORTED_VERSIONS {
      ReplaceGREASEInU16List(d, 1, GREASE_SENTINEL);
    }
    r := Extension(t, d[..]);
  }

  /** The two key_share passes: values to zero, then GREASE groups to the sentinel. */
  method BlankShares(d: array<byte>)
    modifies d
    ensures d[..] == CanonShareBody(old(d[..]))
  {
    ghost var was := d[..];
    BlankKeyShareValues(d);
    if d.Length >= 2 {
      assert d[..][..2] == was[..2] && d[..][2..] == BlankValues(was[2..]);
    }
    ReplaceGREASEKeyShareGroup(d, GREASE_SENTINEL);
  }

  /** canonicalForm. */
  method RenderCanonical(h: ClientHello) returns (out: bytes)
    ensures out == CanonicalForm(h.Value())
  {
    var suites := h.cipherSuites;
    for i := 0 to |suites|
      invariant |suites| == |h.cipherSuites|
      invariant forall j :: 0 <= j < i ==> suites[j] == NormGrease(h.cipherSuites[j])
      invariant forall j :: i <= j < |suites| ==> suites[j] == h.cipherSuites[j]
    {
      if IsGREASE(suites[i]) {
        suites := suites[i := GREASE_SENTINEL];
      }
    }
    assert suites == NormCiphers(h.cipherSuites);
    var exts: seq<Extension> := [];
    for i := 0 to |h.extensions|
      invariant |exts| == i && forall j :: 0 <= j < i ==> exts[j] == CanonExt(h.extensions[j])
    {
      var e := BlankExtension(h.extensions[i]);
      exts := exts + [e];
    }
    assert exts == CanonExts(h.extensions);
    var c := new ClientHello(Hello(h.legacyVersion, Zeros(32), Zeros(|h.sessionID|), suites, h.compression, Sort(exts, ExtLe)));
    out := c.Marshal();
  }

  /** The bytes fingerprintIgnoringECHLength hashes. */
  method RenderFingerprint(h: ClientHello) returns (b: bytes)
    requires ExtsFit(h.extensions)
    ensures b == FingerprintInput(h.Value())
  {
    b := U16(h.legacyVersion);
    var suites: seq<u16> := [];
    for i := 0 to |h.cipherSuites|
      invariant |suites| == i && forall j :: 0 <= j < i ==> suites[j] == NormGrease(h.cipherSuites[j])
    {
      suites := suites + [if IsGREASE(h.cipherSuites[i]) then GREASE_SENTINEL else h.cipherSuites[i]];
    }
    assert suites == NormCiphers(h.cipherSuites);
    b := AppendU16s(b, suites);
    b := b + h.compression;
    var keys: seq<nat> := [];
    for i := 0 to |h.extensions|
      invariant |keys| == i && forall j :: 0 <= j < i ==> keys[j] == FingerKey(h.extensions[j])
    {
      var e := h.extensions[i];
      var len := if e.typ == EXT_ECH then 0 else |e.data|;
      var t: u16 := if IsGREASE(e.typ) then GREASE_SENTINEL else e.typ;
      keys := keys + [t as int * 0x1_0000 + len];
    }
    assert keys == FingerKeys(h.extensions);
    b := AppendU32s(b, Sort(keys, NatLe));
  }

  method AppendU32s(front: bytes, vs: seq<nat>) returns (b: bytes)
    ensures b == front + EncU32s(vs)
  {
    b := front;
    assert vs[0..] == vs;
    for i := 0 to |vs|
      invariant b + EncU32s(vs[i..]) == front + EncU32s(vs)
    {
      assert vs[i..][1..] == vs[i + 1..];
      Assoc(b, U32(vs[i]), EncU32s(vs[i + 1..]));
      b := b + U32(vs[i]);
    }
    assert b + [] == b;
  }
}
