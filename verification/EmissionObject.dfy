/** The emission steps as methods on the ClientHello object (twiddle.go, auth.go). */
module EmissionObject {
  import opened Bytes
  import opened HelloCodec
  import opened ExtensionBodies
  import opened ClientHelloObject
  import opened Emission
  import opened BodiesInPlace

  method ToArray(s: bytes) returns (a: array<byte>)
    ensures fresh(a) && a[..] == s
  {
    a := new byte[|s|](i requires 0 <= i < |s| => s[i]);
  }

  method RedrawCipherSuites(h: ClientHello, v: u16)
    modifies h`cipherSuites
    ensures h.cipherSuites == RedrawCiphers(old(h.cipherSuites), v)
  {
    ghost var was := h.cipherSuites;
    for i := 0 to |h.cipherSuites|
      invariant |h.cipherSuites| == |was|
      invariant forall j :: 0 <= j < i ==> h.cipherSuites[j] == RedrawCipher(was[j], v)
      invariant forall j :: i <= j < |was| ==> h.cipherSuites[j] == was[j]
    {
      if IsGREASE(h.cipherSuites[i]) {
        h.cipherSuites := h.cipherSuites[i := v];
      }
    }
  }

  /** The positions of the GREASE extensions, in order. */
  method GreasePositions(exts: seq<Extension>) returns (greased: seq<nat>)
    ensures forall m :: 0 <= m < |greased| ==> greased[m] < |exts| && IsGREASE(exts[greased[m]].typ)
    ensures forall m, n :: 0 <= m < n < |greased| ==> greased[m] < greased[n]
    ensures forall i :: 0 <= i < |exts| && IsGREASE(exts[i].typ) ==> i in greased
  {
    greased := [];
    for i := 0 to |exts|
      invariant forall m :: 0 <= m < |greased| ==> greased[m] < i && IsGREASE(exts[greased[m]].typ)
      invariant forall m, n :: 0 <= m < n < |greased| ==> greased[m] < greased[n]
      invariant forall j :: 0 <= j < i && IsGREASE(exts[j].typ) ==> j in greased
    {
      if IsGREASE(exts[i].typ) {
        greased := greased + [i];
      }
    }
  }

  /** The first GREASE extension draws ext1, the last of several ext2, any between their own. */
  method RedrawExtensionTypes(h: ClientHello, w: Draws)
    modifies h`extensions
    ensures h.extensions == RedrawTypes(old(h.extensions), w)
  {
    ghost var was := h.extensions;
    var greased := GreasePositions(h.extensions);
    for n := 0 to |greased|
      invariant |h.extensions| == |was|
      invariant forall m :: 0 <= m < n ==>
        h.extensions[greased[m]] == Extension(RedrawType(was, greased[m], w), was[greased[m]].data)
      invariant forall m :: n <= m < |greased| ==> h.extensions[greased[m]] == was[greased[m]]
      invariant forall i :: 0 <= i < |was| && i !in greased ==> h.extensions[i] == was[i]
    {
      var i := greased[n];
      var t := if n == 0 then w.ext1 else if n == |greased| - 1 then w.ext2 else w.interior(i);
      DrawOf(was, greased, n, w);
      h.extensions := h.extensions[i := Extension(t, h.extensions[i].data)];
    }
    forall i | 0 <= i < |was| ensures h.extensions[i] == RedrawTypes(was, w)[i] {
      if IsGREASE(was[i].typ) {
        assert i in greased;
      }
    }
  }

  lemma DrawOf(exts: seq<Extension>, greased: seq<nat>, n: nat, w: Draws)
    requires n < |greased|
    requires forall m :: 0 <= m < |greased| ==> greased[m] < |exts| && IsGREASE(exts[greased[m]].typ)
    requires forall m, k :: 0 <= m < k < |greased| ==> greased[m] < greased[k]
    requires forall i :: 0 <= i < |exts| && IsGREASE(exts[i].typ) ==> i in greased
    ensures RedrawType(exts, greased[n], w) ==
            if n == 0 then w.ext1 else if n == |greased| - 1 then w.ext2 else w.interior(greased[n])
  {
    var i := greased[n];
    if n == 0 {
      assert !GreaseBefore(exts, i);
    } else {
      assert IsGREASE(exts[greased[0]].typ);
      assert GreaseBefore(exts, i);
      if n == |greased| - 1 {
        assert !GreaseAfter(exts, i);
      } else {
        assert IsGREASE(exts[greased[n + 1]].typ);
        assert GreaseAfter(exts, i);
      }
    }
  }

  /** Rewrites the GREASE of the first list extension of a type. */
  method RedrawList(h: ClientHello, t: u16, hdr: nat, v: u16)
    requires 1 <= hdr <= 2
    modifies h`extensions
    ensures h.extensions == EditFirst(old(h.extensions), t, d => ReplaceInList(d, hdr, v))
  {
    var at := h.Find(t);
    if at.Some? {
      var e := h.extensions[at.value];
      var d := ToArray(e.data);
      ReplaceGREASEInU16List(d, hdr, v);
      h.extensions := h.extensions[at.value := Extension(e.typ, d[..])];
    }
  }

  method RerandGREASE(h: ClientHello, w: Draws)
    modifies h`cipherSuites, h`extensions
    ensures h.cipherSuites == RedrawCiphers(old(h.cipherSuites), w.cipher)
    ensures h.extensions == RedrawExtensions(old(h.extensions), w)
  {
    RedrawCipherSuites(h, w.cipher);
    RedrawExtensionTypes(h, w);
    RedrawList(h, EXT_SUPPORTED_GROUPS, 2, w.group);
    var at := h.Find(EXT_KEY_SHARE);
    if at.Some? {
      var e := h.extensions[at.value];
      var d := ToArray(e.data);
      ReplaceGREASEKeyShareGroup(d, w.group);
      h.extensions := h.extensions[at.value := Extension(e.typ, d[..])];
    }
    RedrawList(h, EXT_SUPPORTED_VERSIONS, 1, w.version);
    RedrawList(h, EXT_SIGNATURE_ALGORITHMS, 2, w.sigAlg);
  }

  method RerandECHGrease(e: Extension, w: Draws) returns (e': Extension)
    ensures e' == Extension(e.typ, FreshECH(e.data, w))
  {
    if |e.data| < 1 || e.data[0] != 0x00 {
      return e;
    }
    var kdf, aead: u16 := 0x0001, 0x0001;
    if |e.data| >= 5 {
      kdf, aead := GetU16(e.data, 1), GetU16(e.data, 3);
    }
    var d: bytes := [0x00];
    d := d + U16(kdf);
    d := d + U16(aead);
    d := d + [w.configID];
    d := d + U16(32);
    d := d + w.enc;
    d := d + U16(BucketLen(w.bucket));
    d := d + DrawBytes(BucketLen(w.bucket), w.payload);
    ghost var ids := if |e.data| >= 5 then e.data[1..5] else [0x00, 0x01, 0x00, 0x01];
    assert U16(kdf) + U16(aead) == ids;
    assert [0x00] + U16(kdf) + U16(aead) == [0x00] + ids;
    e' := Extension(e.typ, d);
  }

  /** Refreshes every per-connection field. On failure the hello is left half rewritten, and the
      caller discards it. */
  method Rerandomize(h: ClientHello, w: Draws) returns (ok: bool)
    requires GoodDraws(w)
    modifies h
    ensures ok <==> Rerandomized(old(h.Value()), w).Some?
    ensures ok ==> h.Value() == Rerandomized(old(h.Value()), w).value
  {
    RerandGREASE(h, w);
    h.random := w.random;
    h.sessionID := DrawBytes(|h.sessionID|, w.sessionID);
    var at := h.Find(EXT_KEY_SHARE);
    if at.Some? {
      var e := h.extensions[at.value];
      var d := ToArray(e.data);
      var fine := RerandKeyShare(d, w);
      if !fine {
        return false;
      }
      h.extensions := h.extensions[at.value := Extension(e.typ, d[..])];
    }
    at := h.Find(EXT_ECH);
    if at.Some? {
      var e := RerandECHGrease(h.extensions[at.value], w);
      h.extensions := h.extensions[at.value := e];
    }
    ok := true;
  }

  /** Replaces the X25519 public key; nothing changes on failure. */
  method SetKeyShare(h: ClientHello, pub: Bytes32) returns (ok: bool)
    modifies h`extensions
    ensures ok <==> WithKeyShare(old(h.Value()), pub).Some?
    ensures h.Value() == if ok then WithKeyShare(old(h.Value()), pub).value else old(h.Value())
  {
    var at := h.Find(EXT_KEY_SHARE);
    if at.None? {
      return false;
    }
    var d := ToArray(h.extensions[at.value].data);
    ok := InstallKeyShare(d, pub);
    if ok {
      h.extensions := h.extensions[at.value := Extension(EXT_KEY_SHARE, d[..])];
    }
  }

  /** Fisher-Yates over the interior, in place. */
  method ShuffleArray(a: array<Extension>, picks: nat -> nat)
    requires GoodPicks(picks)
    modifies a
    ensures a[..] == FisherYates(old(a[..]), a.Length, picks)
  {
    var i := a.Length;
    while i > 1
      invariant 0 <= i <= a.Length
      invariant FisherYates(a[..], i, picks) == FisherYates(old(a[..]), a.Length, picks)
    {
      i := i - 1;
      var k := picks(i);
      ghost var was := a[..];
      a[i], a[k] := a[k], a[i];
      assert a[..] == Swap(was, i, k);
    }
  }

  /** Permutes the interior extensions; nothing changes on failure. */
  method Shuffle(h: ClientHello, picks: nat -> nat) returns (ok: bool)
    requires GoodPicks(picks)
    modifies h`extensions
    ensures ok <==> Shuffled(old(h.extensions), picks).Some?
    ensures h.extensions == if ok then Shuffled(old(h.extensions), picks).value else old(h.extensions)
  {
    var n := |h.extensions|;
    if n < 3 {
      return false;
    }
    if !IsGREASE(h.extensions[0].typ) {
      return false;
    }
    var tail := 1;
    if h.extensions[n - 1].typ == EXT_PRE_SHARED_KEY {
      if !IsGREASE(h.extensions[n - 2].typ) {
        return false;
      }
      tail := 2;
    } else if !IsGREASE(h.extensions[n - 1].typ) {
      return false;
    }
    var body := h.extensions[1..n - tail];
    var interior := new Extension[|body|](i requires 0 <= i < |body| => body[i]);
    assert interior[..] == body;
    ShuffleArray(interior, picks);
    h.extensions := [h.extensions[0]] + interior[..] + h.extensions[n - tail..];
    ok := true;
  }
}
