/** What a whole emission does to a pool entry's identity: the dedup key over any run of the
    pipeline's steps, and the fingerprint of the browser build (harvester.go, source.go). */
module PoolIdentity {
  import opened Bytes
  import opened HelloCodec
  import opened ExtensionBodies
  import opened ClientHelloObject
  import opened Emission
  import opened Sorting
  import opened Canonical

  /** The steps Twiddle takes before authenticating, with the draws each one makes. */
  datatype Step =
    | SetName(name: bytes)
    | Rerandomize(w: Draws)
    | Shuffle(picks: nat -> nat)
    | SetKeyShare(pub: Bytes32)

  ghost predicate GoodStep(s: Step) {
    match s
    case Rerandomize(w) => GoodDraws(w)
    case Shuffle(picks) => GoodPicks(picks)
    case _ => true
  }

  /** One step; None when the source returns an error. */
  ghost function Apply(h: Hello, s: Step): Option<Hello>
    requires GoodStep(s)
  {
    match s
    case SetName(name) => WithName(h, name)
    case Rerandomize(w) => Rerandomized(h, w)
    case SetKeyShare(pub) => WithKeyShare(h, pub)
    case Shuffle(picks) =>
      var exts :- Shuffled(h.extensions, picks);
      Some(h.(extensions := exts))
  }

  ghost predicate GoodSteps(steps: seq<Step>) {
    forall i :: 0 <= i < |steps| ==> GoodStep(steps[i])
  }

  ghost function Run(h: Hello, steps: seq<Step>): Option<Hello>
    requires GoodSteps(steps)
    decreases |steps|
  {
    if steps == [] then Some(h)
    else
      var h' :- Apply(h, steps[0]);
      Run(h', steps[1..])
  }

  predicate ShortOuter(e: Extension) {
    e.typ == EXT_ECH && 1 <= |e.data| < 5 && e.data[0] == 0x00
  }

  /** No ECH extension is an outer one of under five bytes. */
  predicate NoShortOuterECH(exts: seq<Extension>) {
    forall i :: 0 <= i < |exts| ==> !ShortOuter(exts[i])
  }

  /** The step writes default ids into an ECH body that had none. */
  predicate FillsECH(h: Hello, s: Step) {
    s.Rerandomize? && ShortOuterECH(h.extensions)
  }

  /** A step leaves the key alone, or fills an ECH body and adds five bytes to the form. */
  ghost predicate KeyStep(h: Hello, fills: bool, h': Hello) {
    if fills then |CanonicalForm(h')| == |CanonicalForm(h)| + 5 else CanonicalForm(h') == CanonicalForm(h)
  }

  lemma SetNameKey(h: Hello, name: bytes)
    requires WithName(h, name).Some?
    ensures KeyStep(h, false, WithName(h, name).value)
  {
    CanonAfterSNI(h, name);
  }

  lemma SetKeyShareKey(h: Hello, pub: Bytes32)
    requires WithKeyShare(h, pub).Some?
    ensures KeyStep(h, false, WithKeyShare(h, pub).value)
  {
    CanonAfterKeyShare(h, pub);
  }

  lemma RerandomizeKey(h: Hello, w: Draws)
    requires GoodDraws(w) && Rerandomized(h, w).Some?
    ensures KeyStep(h, ShortOuterECH(h.extensions), Rerandomized(h, w).value)
  {
    CanonAfterRerandomize(h, w);
  }

  lemma ShuffleKey(h: Hello, picks: nat -> nat)
    requires GoodPicks(picks) && Shuffled(h.extensions, picks).Some?
    ensures KeyStep(h, false, h.(extensions := Shuffled(h.extensions, picks).value))
  {
    CanonAfterShuffle(h, picks);
  }

  lemma ApplyKey(h: Hello, s: Step)
    requires GoodStep(s) && Apply(h, s).Some?
    ensures KeyStep(h, FillsECH(h, s), Apply(h, s).value)
  {
    match s
    case SetName(name) => SetNameKey(h, name);
    case SetKeyShare(pub) => SetKeyShareKey(h, pub);
    case Rerandomize(w) => RerandomizeKey(h, w);
    case Shuffle(picks) => ShuffleKey(h, picks);
  }

  /** How many steps of a run fill an ECH body. */
  ghost function Fills(h: Hello, steps: seq<Step>): nat
    requires GoodSteps(steps) && Run(h, steps).Some?
    decreases |steps|
  {
    if steps == [] then 0
    else (if FillsECH(h, steps[0]) then 1 else 0) + Fills(Apply(h, steps[0]).value, steps[1..])
  }

  /** The dedup key survives the emitter: over any run of the pipeline's steps that succeeds it is
      unchanged exactly when no Rerandomize of the run meets an outer ECH body of one to four bytes, for
      each one that does makes the form five bytes longer and nothing makes it shorter. */
  lemma {:induction false} RunKeepsKey(h: Hello, steps: seq<Step>)
    requires GoodSteps(steps) && Run(h, steps).Some?
    ensures CanonicalForm(Run(h, steps).value) == CanonicalForm(h) <==> Fills(h, steps) == 0
    ensures |CanonicalForm(Run(h, steps).value)| == |CanonicalForm(h)| + 5 * Fills(h, steps)
    decreases |steps|
  {
    if steps != [] {
      ApplyKey(h, steps[0]);
      RunKeepsKey(Apply(h, steps[0]).value, steps[1..]);
    }
  }

  lemma ApplyKeepsLong(h: Hello, s: Step)
    requires GoodStep(s) && Apply(h, s).Some? && NoShortOuterECH(h.extensions)
    ensures NoShortOuterECH(Apply(h, s).value.extensions)
  {
    match s
    case SetName(_) =>
    case SetKeyShare(_) =>
    case Rerandomize(w) => RerandomizeKeepsECHLong(h, w);
    case Shuffle(picks) =>
      ShuffleKeepsEnds(h.extensions, picks);
      AllOfPermutation(h.extensions, Shuffled(h.extensions, picks).value);
  }

  lemma RerandomizeKeepsECHLong(h: Hello, w: Draws)
    requires GoodDraws(w) && Rerandomized(h, w).Some? && NoShortOuterECH(h.extensions)
    ensures NoShortOuterECH(Rerandomized(h, w).value.extensions)
  {
    var e1 := RedrawExtensions(h.extensions, w);
    RedrawKeepsECH(h.extensions, w);
    var e2 := FreshFirstShares(e1, w).value;
    var at := FirstOf(e2, EXT_ECH);
    if at.Some? {
      FreshECHBody(e2[at.value].data, w);
    }
  }

  lemma AllOfPermutation(a: seq<Extension>, b: seq<Extension>)
    requires multiset(a) == multiset(b) && NoShortOuterECH(a)
    ensures NoShortOuterECH(b)
  {
    forall i | 0 <= i < |b| ensures !ShortOuter(b[i]) {
      assert b[i] in multiset(a);
      assert b[i] in a;
    }
  }

  /** A record without such a body never meets one. */
  lemma {:induction false} LongECHKeepsKey(h: Hello, steps: seq<Step>)
    requires GoodSteps(steps) && Run(h, steps).Some? && NoShortOuterECH(h.extensions)
    ensures Fills(h, steps) == 0
    decreases |steps|
  {
    if steps != [] {
      ApplyKeepsLong(h, steps[0]);
      LongECHKeepsKey(Apply(h, steps[0]).value, steps[1..]);
    }
  }

  // -------------------------------------------------------------- fingerprint

  lemma FingerFrom(h: Hello, h': Hello)
    requires ExtsFit(h.extensions) && ExtsFit(h'.extensions)
    requires h.version == h'.version && h.compression == h'.compression
    requires NormCiphers(h.ciphers) == NormCiphers(h'.ciphers)
    ensures FingerprintInput(h) == FingerprintInput(h') <==>
            multiset(FingerKeys(h.extensions)) == multiset(FingerKeys(h'.extensions))
  {
    var s, t := Sort(FingerKeys(h.extensions), NatLe), Sort(FingerKeys(h'.extensions), NatLe);
    NatLeTotalOrder();
    SortByElements(FingerKeys(h.extensions), FingerKeys(h'.extensions), NatLe);
    if FingerprintInput(h) == FingerprintInput(h') {
      var front := U16(h.version) + EncU16s(NormCiphers(h.ciphers)) + h.compression;
      assert FingerprintInput(h)[|front|..] == EncU32s(s);
      assert FingerprintInput(h')[|front|..] == EncU32s(t);
      SortedKeysFit(h.extensions);
      SortedKeysFit(h'.extensions);
      EncU32sInjective(s, t);
    }
  }

  ghost predicate FitU32(vs: seq<nat>) {
    forall i :: 0 <= i < |vs| ==> vs[i] < 0x1_0000_0000
  }

  lemma SortedKeysFit(exts: seq<Extension>)
    requires ExtsFit(exts)
    ensures FitU32(Sort(FingerKeys(exts), NatLe))
  {
    var keys := FingerKeys(exts);
    var sorted := Sort(keys, NatLe);
    NatLeTotalOrder();
    SortSorts(keys, NatLe);
    forall i | 0 <= i < |sorted| ensures sorted[i] < 0x1_0000_0000 {
      assert sorted[i] in multiset(keys);
      var j := PositionIn(keys, sorted[i]);
      assert keys[j] == FingerKey(exts[j]);
    }
  }

  lemma {:induction false} EncU32sInjective(s: seq<nat>, t: seq<nat>)
    requires FitU32(s) && FitU32(t)
    requires EncU32s(s) == EncU32s(t)
    ensures s == t
  {
    if s != [] && t != [] {
      var a, b := EncU32s(s), EncU32s(t);
      assert a[..4] == U32(s[0]) && b[..4] == U32(t[0]);
      U32RoundTrip(s[0]);
      U32RoundTrip(t[0]);
      assert a[4..] == EncU32s(s[1..]) && b[4..] == EncU32s(t[1..]);
      EncU32sInjective(s[1..], t[1..]);
      assert s == [s[0]] + s[1..] && t == [t[0]] + t[1..];
    }
  }

  /** Shuffle never changes the build. */
  lemma FingerAfterShuffle(h: Hello, picks: nat -> nat)
    requires GoodPicks(picks) && Shuffled(h.extensions, picks).Some? && ExtsFit(h.extensions)
    ensures var h' := h.(extensions := Shuffled(h.extensions, picks).value);
            ExtsFit(h'.extensions) && FingerprintInput(h') == FingerprintInput(h)
  {
    var h' := h.(extensions := Shuffled(h.extensions, picks).value);
    ShuffleKeepsEnds(h.extensions, picks);
    MapOfPermutation(h.extensions, h'.extensions, FingerKey);
    forall i | 0 <= i < |h'.extensions| ensures |h'.extensions[i].data| < 0x1_0000 {
      assert h'.extensions[i] in multiset(h.extensions);
      var j := PositionIn(h.extensions, h'.extensions[i]);
    }
    FingerFrom(h, h');
  }

  /** Rerandomize never changes the build: every length but the ECH one stays. */
  lemma FingerAfterRerandomize(h: Hello, w: Draws)
    requires GoodDraws(w) && Rerandomized(h, w).Some? && ExtsFit(h.extensions)
    ensures var h' := Rerandomized(h, w).value;
            && LengthsKept(h.extensions, h'.extensions)
            && ExtsFit(h'.extensions)
            && FingerprintInput(h') == FingerprintInput(h)
  {
    var h' := Rerandomized(h, w).value;
    RerandomizeKeepsLengths(h, w);
    KeysFromLengths(h.extensions, h'.extensions);
    assert NormCiphers(h'.ciphers) == NormCiphers(h.ciphers);
    FingerFrom(h, h');
  }

  lemma RerandomizeKeepsLengths(h: Hello, w: Draws)
    requires GoodDraws(w) && Rerandomized(h, w).Some? && ExtsFit(h.extensions)
    ensures var h' := Rerandomized(h, w).value;
            LengthsKept(h.extensions, h'.extensions) && ExtsFit(h'.extensions)
  {
    var e1 := RedrawExtensions(h.extensions, w);
    RedrawKeepsLengths(h.extensions, w);
    LengthsKeptLater(h.extensions, e1, FreshFirstShares(e1, w).value, w);
  }

  lemma LengthsKeptLater(exts: seq<Extension>, e1: seq<Extension>, e2: seq<Extension>, w: Draws)
    requires GoodDraws(w) && ExtsFit(exts) && LengthsKept(exts, e1) && FreshFirstShares(e1, w) == Some(e2)
    requires forall i :: 0 <= i < |exts| ==> |e1[i].data| == |exts[i].data|
    ensures LengthsKept(exts, EditFirst(e2, EXT_ECH, d => FreshECH(d, w))) && ExtsFit(EditFirst(e2, EXT_ECH, d => FreshECH(d, w)))
  {
    assert forall i :: 0 <= i < |exts| ==> e2[i].typ == e1[i].typ && |e2[i].data| == |exts[i].data|;
    var at := FirstOf(e2, EXT_ECH);
    if at.Some? {
      FreshECHBody(e2[at.value].data, w);
    }
  }

  lemma KeysFromLengths(a: seq<Extension>, b: seq<Extension>)
    requires LengthsKept(a, b)
    ensures FingerKeys(a) == FingerKeys(b)
  {
    forall i | 0 <= i < |a| ensures FingerKey(a[i]) == FingerKey(b[i]) {
      assert !IsGREASE(EXT_ECH);
      assert NormGrease(a[i].typ) == NormGrease(b[i].typ);
    }
  }

  /** Types agree up to GREASE, and lengths do except at ECH. */
  ghost predicate LengthsKept(a: seq<Extension>, b: seq<Extension>) {
    && |a| == |b|
    && forall i :: 0 <= i < |a| ==>
        && NormGrease(a[i].typ) == NormGrease(b[i].typ)
        && (!IsGREASE(a[i].typ) ==> a[i].typ == b[i].typ)
        && (a[i].typ != EXT_ECH ==> |a[i].data| == |b[i].data|)
  }

  ghost predicate KeepsLength(f: bytes -> bytes) {
    forall d :: |f(d)| == |d|
  }

  lemma EditKeepsLengths(exts: seq<Extension>, t: u16, f: bytes -> bytes)
    requires KeepsLength(f)
    ensures var r := EditFirst(exts, t, f);
            forall i :: 0 <= i < |exts| ==> r[i].typ == exts[i].typ && |r[i].data| == |exts[i].data|
  {
  }

  lemma RedrawKeepsLengths(exts: seq<Extension>, w: Draws)
    requires GoodDraws(w)
    ensures LengthsKept(exts, RedrawExtensions(exts, w))
    ensures forall i :: 0 <= i < |exts| ==> |RedrawExtensions(exts, w)[i].data| == |exts[i].data|
  {
    var e0 := RedrawTypes(exts, w);
    var e1 := EditFirst(e0, EXT_SUPPORTED_GROUPS, d => ReplaceInList(d, 2, w.group));
    EditKeepsLengths(e0, EXT_SUPPORTED_GROUPS, d => ReplaceInList(d, 2, w.group));
    var e2 := EditFirst(e1, EXT_KEY_SHARE, d => RenameShares(d, w.group));
    EditKeepsLengths(e1, EXT_KEY_SHARE, d => RenameShares(d, w.group));
    var e3 := EditFirst(e2, EXT_SUPPORTED_VERSIONS, d => ReplaceInList(d, 1, w.version));
    EditKeepsLengths(e2, EXT_SUPPORTED_VERSIONS, d => ReplaceInList(d, 1, w.version));
    EditKeepsLengths(e3, EXT_SIGNATURE_ALGORITHMS, d => ReplaceInList(d, 2, w.sigAlg));
    forall i | 0 <= i < |exts| ensures NormGrease(e0[i].typ) == NormGrease(exts[i].typ) {
      RedrawnTypes(exts, w, i);
    }
  }

  /** The server name's length is part of the build: SetSNI keeps the fingerprint exactly when the
      new name is as long as the body it replaces. */
  lemma FingerAfterSNI(h: Hello, name: bytes)
    requires WithName(h, name).Some? && ExtsFit(h.extensions)
    ensures var h' := WithName(h, name).value;
            var i := FirstOf(h.extensions, EXT_SERVER_NAME).value;
            ExtsFit(h'.extensions)
            && (FingerprintInput(h') == FingerprintInput(h) <==> |h.extensions[i].data| == 5 + |name|)
  {
    var h' := WithName(h, name).value;
    var i := FirstOf(h.extensions, EXT_SERVER_NAME).value;
    var a, b := FingerKeys(h.extensions), FingerKeys(h'.extensions);
    assert b == a[i := FingerKey(h'.extensions[i])];
    FingerFrom(h, h');
    if a[i] == b[i] {
      assert a == b;
    } else {
      assert multiset(b) == multiset(a) - multiset{a[i]} + multiset{b[i]};
      assert multiset(b)[b[i]] == multiset(a)[b[i]] + 1;
    }
  }
}
