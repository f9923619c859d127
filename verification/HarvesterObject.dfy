/** The Harvester object and the screening in front of it (harvester.go, source.go Sanitize): records are
    cleaned and admitted, then pooled by the hashes of their canonical form and of their fingerprint. */
module HarvesterObject {
  import opened Bytes
  import opened HelloCodec
  import opened ClientHelloObject
  import opened Canonical
  import opened Admission
  import opened Auth
  import opened Twiddle
  import opened DevicePool

  // ------------------------------------------------------------------ screening

  /** What Sanitize does to one extension. */
  predicate Dropped(t: u16) {
    t == EXT_PRE_SHARED_KEY || t == EXT_EARLY_DATA
  }

  function Blanked(e: Extension): Extension {
    if e.typ == EXT_SESSION_TICKET then Extension(e.typ, []) else e
  }

  function CleanExts(exts: seq<Extension>): seq<Extension> {
    if exts == [] then []
    else
      var n := |exts| - 1;
      CleanExts(exts[..n]) + if Dropped(exts[n].typ) then [] else [Blanked(exts[n])]
  }

  /** A name of the same length. */
  function Placeholder(n: nat): (r: bytes)
    ensures |r| == n
  {
    seq(n, _ => 0x78)
  }

  /** Sanitize; None without a server_name. */
  function Sanitized(h: Hello): Option<Hello> {
    var named :- WithName(h, Placeholder(|NameIn(h.extensions)|));
    Some(Hello(h.version, Zeros(32), Zeros(|h.sessionID|), h.ciphers, h.compression, CleanExts(named.extensions)))
  }

  /** The filter of Sanitize, in place: a write position that never overtakes the read one. */
  method Filter(exts: array<Extension>) returns (kept: nat)
    modifies exts
    ensures kept <= exts.Length && exts[..kept] == CleanExts(old(exts[..]))
  {
    ghost var was := exts[..];
    kept := 0;
    for i := 0 to exts.Length
      invariant 0 <= kept <= i
      invariant exts[..kept] == CleanExts(was[..i])
      invariant forall j :: i <= j < exts.Length ==> exts[j] == was[j]
    {
      var e := exts[i];
      CleanSnoc(was, i);
      ghost var front := exts[..kept];
      if e.typ == EXT_PRE_SHARED_KEY || e.typ == EXT_EARLY_DATA {
        continue;
      }
      if e.typ == EXT_SESSION_TICKET {
        e := Extension(e.typ, []);
      }
      exts[kept] := e;
      kept := kept + 1;
      assert exts[..kept] == front + [e];
    }
    assert was[..exts.Length] == was;
  }

  lemma CleanSnoc(exts: seq<Extension>, i: nat)
    requires i < |exts|
    ensures CleanExts(exts[..i + 1]) == CleanExts(exts[..i]) + if Dropped(exts[i].typ) then [] else [Blanked(exts[i])]
  {
    assert exts[..i + 1][..i] == exts[..i];
  }

  /** Nothing changes on failure. */
  method Sanitize(h: ClientHello) returns (ok: bool)
    modifies h
    ensures ok <==> Sanitized(old(h.Value())).Some?
    ensures h.Value() == if ok then Sanitized(old(h.Value())).value else old(h.Value())
  {
    var at := h.Find(EXT_SERVER_NAME);
    if at.None? {
      return false;
    }
    var name := h.SNI();
    ok := h.SetSNI(Placeholder(|name|));
    if !ok {
      return false;
    }
    var list := h.extensions;
    var exts := new Extension[|list|](i requires 0 <= i < |list| => list[i]);
    assert exts[..] == list;
    var kept := Filter(exts);
    h.extensions := exts[..kept];
    h.random := Zeros(32);
    h.sessionID := Zeros(|h.sessionID|);
  }

  /** The hello with the user's traces replaced: another name, random and session id of the same length,
      any ticket in the session_ticket extensions. */
  ghost predicate SameButTraces(a: Hello, b: Hello) {
    && a.version == b.version && a.ciphers == b.ciphers && a.compression == b.compression
    && |a.sessionID| == |b.sessionID| && |NameIn(a.extensions)| == |NameIn(b.extensions)|
    && |a.extensions| == |b.extensions|
    && FirstOf(a.extensions, EXT_SERVER_NAME) == FirstOf(b.extensions, EXT_SERVER_NAME)
    && forall i :: 0 <= i < |a.extensions| ==>
        || a.extensions[i] == b.extensions[i]
        || FirstOf(a.extensions, EXT_SERVER_NAME) == Some(i)
        || (a.extensions[i].typ == b.extensions[i].typ == EXT_SESSION_TICKET)
        || (Dropped(a.extensions[i].typ) && Dropped(b.extensions[i].typ))
  }

  lemma {:induction false} CleanAlike(a: seq<Extension>, b: seq<Extension>)
    requires |a| == |b|
    requires forall i :: 0 <= i < |a| ==>
      a[i] == b[i] || (a[i].typ == b[i].typ == EXT_SESSION_TICKET) || (Dropped(a[i].typ) && Dropped(b[i].typ))
    ensures CleanExts(a) == CleanExts(b)
    decreases |a|
  {
    if a != [] {
      CleanAlike(a[..|a| - 1], b[..|b| - 1]);
    }
  }

  /** What is kept does not depend on the site, the tickets or the connection: hellos that differ in
      nothing else are sanitised to the same hello. */
  lemma SanitizeForgets(a: Hello, b: Hello)
    requires SameButTraces(a, b)
    ensures Sanitized(a) == Sanitized(b)
  {
    var n := Placeholder(|NameIn(a.extensions)|);
    if WithName(a, n).Some? {
      var x, y := WithName(a, n).value.extensions, WithName(b, n).value.extensions;
      CleanAlike(x, y);
    }
  }

  /** An extension Sanitize neither drops nor blanks. */
  predicate Kept(t: u16) {
    !Dropped(t) && t != EXT_SESSION_TICKET && t != EXT_SERVER_NAME
  }

  /** The extensions of a list that are kept, in order. */
  function KeptOf(exts: seq<Extension>): seq<Extension> {
    if exts == [] then []
    else
      var n := |exts| - 1;
      KeptOf(exts[..n]) + if Kept(exts[n].typ) then [exts[n]] else []
  }

  lemma KeptSnoc(exts: seq<Extension>, e: Extension)
    ensures KeptOf(exts + [e]) == KeptOf(exts) + if Kept(e.typ) then [e] else []
  {
    assert (exts + [e])[..|exts|] == exts;
  }

  /** No resumption carrier, and no ticket in a session_ticket. */
  ghost predicate Clean(exts: seq<Extension>) {
    forall i :: 0 <= i < |exts| ==> CleanOne(exts[i])
  }

  predicate CleanOne(e: Extension) {
    !Dropped(e.typ) && (e.typ == EXT_SESSION_TICKET ==> e.data == [])
  }

  lemma CleanSkips(exts: seq<Extension>, clean: seq<Extension>, e: Extension)
    requires KeptOf(clean) == KeptOf(exts) && Dropped(e.typ)
    ensures KeptOf(clean) == KeptOf(exts + [e])
  {
    KeptSnoc(exts, e);
    assert KeptOf(exts) + [] == KeptOf(exts);
  }

  lemma CleanTakes(exts: seq<Extension>, clean: seq<Extension>, e: Extension)
    requires KeptOf(clean) == KeptOf(exts) && !Dropped(e.typ)
    ensures KeptOf(clean + [Blanked(e)]) == KeptOf(exts + [e])
  {
    KeptSnoc(exts, e);
    KeptSnoc(clean, Blanked(e));
    BlankedKept(e);
  }

  lemma BlankedKept(e: Extension)
    ensures Blanked(e).typ == e.typ && (Kept(e.typ) ==> Blanked(e) == e)
  {
  }

  lemma CleanSnocClean(clean: seq<Extension>, e: Extension)
    requires Clean(clean) && !Dropped(e.typ)
    ensures Clean(clean + [Blanked(e)])
  {
  }

  lemma CleanStep(exts: seq<Extension>, clean: seq<Extension>, e: Extension)
    requires KeptOf(clean) == KeptOf(exts) && Clean(clean)
    ensures var clean' := clean + if Dropped(e.typ) then [] else [Blanked(e)];
            KeptOf(clean') == KeptOf(exts + [e]) && Clean(clean')
  {
    if Dropped(e.typ) {
      CleanSkips(exts, clean, e);
      assert clean + [] == clean;
    } else {
      CleanTakes(exts, clean, e);
      CleanSnocClean(clean, e);
    }
  }

  lemma {:induction false} CleanTo(exts: seq<Extension>, i: nat)
    requires i <= |exts|
    ensures KeptOf(CleanExts(exts[..i])) == KeptOf(exts[..i]) && Clean(CleanExts(exts[..i]))
    decreases i
  {
    if i > 0 {
      var n: nat := i - 1;
      CleanTo(exts, n);
      CleanSnoc(exts, n);
      CleanStep(exts[..n], CleanExts(exts[..n]), exts[n]);
      assert exts[..i] == exts[..n] + [exts[n]];
    }
  }

  lemma CleanKeeps(exts: seq<Extension>)
    ensures KeptOf(CleanExts(exts)) == KeptOf(exts) && Clean(CleanExts(exts))
  {
    CleanTo(exts, |exts|);
    assert exts[..|exts|] == exts;
  }

  lemma {:induction false} KeptUpdate(exts: seq<Extension>, i: nat, e: Extension)
    requires i < |exts| && e.typ == exts[i].typ && !Kept(e.typ)
    ensures KeptOf(exts[i := e]) == KeptOf(exts)
    decreases |exts|
  {
    var n := |exts| - 1;
    var front := exts[..n];
    assert exts == front + [exts[n]];
    KeptSnoc(front, exts[n]);
    if i < n {
      KeptUpdate(front, i, e);
      KeptSnoc(front[i := e], exts[n]);
      assert exts[i := e] == front[i := e] + [exts[n]];
    } else {
      KeptSnoc(front, e);
      assert exts[i := e] == front + [e];
    }
  }

  lemma FindStep(exts: seq<Extension>, clean: seq<Extension>, e: Extension, t: u16)
    requires !Dropped(t) && t != EXT_SESSION_TICKET && Found(clean, t) == Found(exts, t)
    ensures Found(clean + if Dropped(e.typ) then [] else [Blanked(e)], t) == Found(exts + [e], t)
  {
    FoundSnoc(exts, e, t);
    if Dropped(e.typ) {
      assert clean + [] == clean;
    } else {
      FoundSnoc(clean, Blanked(e), t);
    }
  }

  lemma {:induction false} CleanFindsTo(exts: seq<Extension>, t: u16, i: nat)
    requires !Dropped(t) && t != EXT_SESSION_TICKET && i <= |exts|
    ensures Found(CleanExts(exts[..i]), t) == Found(exts[..i], t)
    decreases i
  {
    if i > 0 {
      var n: nat := i - 1;
      CleanFindsTo(exts, t, n);
      CleanFindsNext(exts, t, n);
    }
  }

  lemma CleanFindsNext(exts: seq<Extension>, t: u16, n: nat)
    requires !Dropped(t) && t != EXT_SESSION_TICKET && n < |exts| && Found(CleanExts(exts[..n]), t) == Found(exts[..n], t)
    ensures Found(CleanExts(exts[..n + 1]), t) == Found(exts[..n + 1], t)
  {
    CleanSnoc(exts, n);
    FindStep(exts[..n], CleanExts(exts[..n]), exts[n], t);
    assert exts[..n + 1] == exts[..n] + [exts[n]];
  }

  lemma CleanFinds(exts: seq<Extension>, t: u16)
    requires !Dropped(t) && t != EXT_SESSION_TICKET
    ensures Found(CleanExts(exts), t) == Found(exts, t)
  {
    CleanFindsTo(exts, t, |exts|);
    assert exts[..|exts|] == exts;
  }

  lemma FoundSnoc(exts: seq<Extension>, e: Extension, t: u16)
    ensures Found(exts + [e], t) == if Found(exts, t).Some? then Found(exts, t) else if e.typ == t then Some(e) else None
  {
    FirstOfSnoc(exts, e, t);
  }

  /** What Sanitize leaves: no resumption carrier, no ticket, a placeholder of the name's length for a
      name, and every other extension as it was and where it was among them. */
  lemma SanitizedKeeps(h: Hello)
    requires Sanitized(h).Some?
    ensures var s := Sanitized(h).value;
            && Clean(s.extensions)
            && NameIn(s.extensions) == Placeholder(|NameIn(h.extensions)|)
            && KeptOf(s.extensions) == KeptOf(h.extensions)
            && s.ciphers == h.ciphers && s.compression == h.compression && s.version == h.version && |s.sessionID| == |h.sessionID|
  {
    var name := Placeholder(|NameIn(h.extensions)|);
    var named, at := WithName(h, name).value, FirstOf(h.extensions, EXT_SERVER_NAME).value;
    CleanKeeps(named.extensions);
    KeptUpdate(h.extensions, at, Extension(EXT_SERVER_NAME, NameBody(name)));
    CleanFinds(named.extensions, EXT_SERVER_NAME);
    NameRoundTrip(h, name);
    NameFrom(CleanExts(named.extensions), named.extensions);
  }

  /** The record Offer stores: sanitised, marshalled and admitted. */
  function Screened(rec: bytes): Option<bytes> {
    var h :- Decode(rec);
    var clean :- Sanitized(h);
    var _ :- Need(Usable(Encode(clean)));
    Some(Encode(clean))
  }

  // -------------------------------------------------------------------- the pool

  /** The two hashes: of the canonical form, and of the fingerprint as a number. */
  datatype Hashes = Hashes(key: bytes -> bytes, build: bytes -> nat)

  lemma DecodedFits(rec: bytes)
    requires Decode(rec).Some?
    ensures Fits(Decode(rec).value)
  {
    EncodeDecode(rec);
  }

  /** recordBuild: the empty string, before every fingerprint, for what does not parse. */
  function BuildOf(f: Hashes, rec: bytes): nat {
    if Decode(rec).None? then 0
    else
      DecodedFits(rec);
      1 + f.build(FingerprintInput(Decode(rec).value))
  }

  function KeyOf(f: Hashes, rec: bytes): bytes {
    if Decode(rec).None? then [] else f.key(CanonicalForm(Decode(rec).value))
  }

  function RecordIds(f: Hashes): Ids {
    Ids((rec: bytes) => BuildOf(f, rec), (rec: bytes) => KeyOf(f, rec))
  }

  predicate Parses(rec: bytes) {
    Decode(rec).Some?
  }

  class Harvester {
    const max: nat
    const ids: Ids
    var hellos: seq<bytes>
    var keys: set<Key>
    var pending: seq<bytes>
    var pendingKeys: set<Key>

    ghost predicate Valid()
      reads this
    {
      0 < max && Bounded(ids, max, Value()) && keys == Keys(ids, hellos) && pendingKeys == Keys(ids, pending)
    }

    ghost function Value(): Pool
      reads this
    {
      Pool(hellos, pending)
    }

    /** The pool starts with the file's records. A file of one build gives a pool of one; nothing here
        refuses one of several. */
    constructor (max: int, f: Hashes, file: seq<bytes>)
      ensures this.max == (if max <= 0 then 32 else max) && ids == RecordIds(f)
      ensures Value() == Pool(Loaded(ids, Parses, this.max, file, |file|), []) && keys == Keys(ids, hellos) && pendingKeys == {}
      ensures Valid() && (SingleBuild(ids, file) ==> Sound(ids, this.max, Value()))
    {
      this.max := if max <= 0 then 32 else max;
      this.ids := RecordIds(f);
      var hs, ks := Load(RecordIds(f), Parses, if max <= 0 then 32 else max, file);
      hellos, keys, pending, pendingKeys := hs, ks, [], {};
      new;
      LoadedSound(ids, Parses, this.max, file);
    }

    /** Offer, on the connection path, whatever the pool holds; a sound pool stays sound. */
    method Offer(rec: bytes) returns (ok: bool)
      requires Valid()
      modifies this
      ensures Valid() && (old(Sound(ids, max, Value())) ==> Sound(ids, max, Value()))
      ensures Screened(rec).None? ==> !ok && Value() == old(Value())
      ensures Screened(rec).Some? ==> (Value(), ok) == Offered(ids, max, old(Value()), Screened(rec).value)
    {
      var parsed := ParseClientHello(rec);
      if parsed == null {
        return false;
      }
      var named := Sanitize(parsed);
      if !named {
        return false;
      }
      var clean := parsed.Marshal();
      if !Usable(clean) {
        return false;
      }
      if Sound(ids, max, Value()) {
        OfferSound(ids, max, Value(), clean);
      }
      OfferBounded(ids, max, Value(), clean);
      ok := Collect(clean);
    }

    /** The part of Offer under the mutex. */
    method Collect(clean: bytes) returns (ok: bool)
      requires Valid() && Bounded(ids, max, Offered(ids, max, Value(), clean).0)
      modifies this
      ensures Valid() && (Value(), ok) == Offered(ids, max, old(Value()), clean)
    {
      var key := ids.key(clean);
      if key in keys {
        return false;
      }
      var build := ids.build(clean);
      if |hellos| == 0 || build == ids.build(hellos[0]) {
        Join(clean, key);
        return true;
      }
      if key in pendingKeys {
        return false;
      }
      SetAside(clean, key);
      var best := LargestBuild(ids, pending);
      if |best| <= |hellos| {
        TrimPending();
        return false;
      }
      Promote(best);
      ok := true;
    }

    method Join(clean: bytes, key: Key)
      requires keys == Keys(ids, hellos) && key == ids.key(clean)
      modifies this`hellos, this`keys
      ensures hellos == Newest(old(hellos) + [clean], max) && keys == Keys(ids, hellos)
    {
      KeysSnoc(ids, hellos, clean);
      hellos := hellos + [clean];
      keys := keys + {key};
      Cap();
    }

    method SetAside(clean: bytes, key: Key)
      requires Distinct(ids, pending) && pendingKeys == Keys(ids, pending) && key == ids.key(clean) && key !in pendingKeys
      modifies this`pending, this`pendingKeys
      ensures pending == old(pending) + [clean] && Distinct(ids, pending) && pendingKeys == Keys(ids, pending)
    {
      KeysSnoc(ids, pending, clean);
      DistinctSnoc(ids, pending, clean);
      pending := pending + [clean];
      pendingKeys := pendingKeys + {key};
    }

    method Promote(best: seq<bytes>)
      modifies this
      ensures hellos == Newest(best, max) && keys == Keys(ids, hellos) && pending == [] && pendingKeys == {}
    {
      hellos := best;
      keys := KeysOf(hellos);
      pending, pendingKeys := [], {};
      Cap();
    }

    /** Keeps the latest max records. */
    method Cap()
      requires keys == Keys(ids, hellos)
      modifies this`hellos, this`keys
      ensures hellos == Newest(old(hellos), max) && keys == Keys(ids, hellos)
    {
      if |hellos| > max {
        hellos := hellos[|hellos| - max..];
        keys := KeysOf(hellos);
      }
    }

    method KeysOf(hs: seq<bytes>) returns (ks: set<Key>)
      ensures ks == Keys(ids, hs)
    {
      ks := {};
      for i := 0 to |hs|
        invariant ks == Keys(ids, hs[..i])
      {
        KeysSnoc(ids, hs[..i], hs[i]);
        assert hs[..i + 1] == hs[..i] + [hs[i]];
        ks := ks + {ids.key(hs[i])};
      }
      assert hs[..|hs|] == hs;
    }

    /** trimPendingLocked. */
    method TrimPending()
      requires Distinct(ids, pending) && pendingKeys == Keys(ids, pending)
      modifies this`pending, this`pendingKeys
      ensures pending == Trimmed(SmallestFirst(ids), old(pending), max + 1) && pendingKeys == Keys(ids, pending)
    {
      ghost var was := pending;
      while |pending| > max + 1
        invariant Distinct(ids, pending) && pendingKeys == Keys(ids, pending)
        invariant Trimmed(SmallestFirst(ids), pending, max + 1) == Trimmed(SmallestFirst(ids), was, max + 1)
        decreases |pending|
      {
        var drop := NextDrop(ids, pending);
        DistinctRemoved(ids, pending, drop);
        pendingKeys := pendingKeys - {ids.key(pending[drop])};
        pending := pending[..drop] + pending[drop + 1..];
      }
    }
  }

  /** The oldest sample of the smallest group. */
  method NextDrop(ids: Ids, hs: seq<bytes>) returns (drop: nat)
    requires hs != []
    ensures drop == DropAt(ids, hs)
  {
    var victim := SmallestBuild(ids, hs);
    drop := 0;
    while ids.build(hs[drop]) != victim
      invariant 0 <= drop < |hs|
      invariant exists k :: drop <= k < |hs| && ids.build(hs[k]) == victim
      invariant OldestOf(ids, hs, victim, 0) == OldestOf(ids, hs, victim, drop)
      decreases |hs| - drop
    {
      drop := drop + 1;
    }
  }

  /** Groups the records by build, then picks the first group by size and fingerprint. */
  method LargestBuild(ids: Ids, hs: seq<bytes>) returns (best: seq<bytes>)
    ensures best == Largest(ids, hs)
  {
    var groups := GroupBuilds(ids, hs);
    if hs == [] {
      return [];
    }
    var lead := ids.build(hs[0]);
    assert Occurs(ids, hs, lead);
    var ks := groups.Keys;
    while ks != {}
      invariant ks <= groups.Keys && lead in groups
      invariant forall b :: b in groups && b !in ks ==> Leads(ids, hs, lead, b)
      decreases |ks|
    {
      var b :| b in ks;
      ks := ks - {b};
      if |groups[b]| > |groups[lead]| || (|groups[b]| == |groups[lead]| && b < lead) {
        lead := b;
      }
    }
    forall i | 0 <= i < |hs| ensures Leads(ids, hs, lead, ids.build(hs[i])) {
      assert Occurs(ids, hs, ids.build(hs[i]));
    }
    LeaderUnique(ids, hs, lead);
    best := groups[lead];
  }

  lemma LeaderUnique(ids: Ids, hs: seq<bytes>, b: Build)
    requires hs != [] && Occurs(ids, hs, b)
    requires forall i :: 0 <= i < |hs| ==> Leads(ids, hs, b, ids.build(hs[i]))
    ensures b == LeaderOf(ids, hs, |hs|)
  {
    var c := LeaderOf(ids, hs, |hs|);
    var i :| 0 <= i < |hs| && ids.build(hs[i]) == b;
    assert Leads(ids, hs, c, ids.build(hs[i]));
    var j :| 0 <= j < |hs| && ids.build(hs[j]) == c;
    assert Leads(ids, hs, b, ids.build(hs[j]));
  }

  lemma VictimUnique(ids: Ids, hs: seq<bytes>, b: Build)
    requires hs != [] && Occurs(ids, hs, b)
    requires forall i :: 0 <= i < |hs| ==> Trails(ids, hs, b, ids.build(hs[i]))
    ensures b == VictimOf(ids, hs, |hs|)
  {
    var c := VictimOf(ids, hs, |hs|);
    var i :| 0 <= i < |hs| && ids.build(hs[i]) == b;
    assert Trails(ids, hs, c, ids.build(hs[i]));
    var j :| 0 <= j < |hs| && ids.build(hs[j]) == c;
    assert Trails(ids, hs, b, ids.build(hs[j]));
  }

  ghost predicate Occurs(ids: Ids, hs: seq<bytes>, b: Build) {
    exists i :: 0 <= i < |hs| && ids.build(hs[i]) == b
  }

  /** One group per build that occurs. */
  ghost predicate Grouped(ids: Ids, hs: seq<bytes>, groups: map<Build, seq<bytes>>) {
    && (forall b :: b in groups <==> Occurs(ids, hs, b))
    && (forall b :: b in groups ==> groups[b] == Group(ids, hs, b))
  }

  method GroupBuilds(ids: Ids, hs: seq<bytes>) returns (groups: map<Build, seq<bytes>>)
    ensures Grouped(ids, hs, groups)
  {
    groups := map[];
    ghost var done: seq<bytes> := [];
    for i := 0 to |hs|
      invariant done == hs[..i] && Grouped(ids, done, groups)
    {
      GroupedSnoc(ids, done, hs[i], groups);
      done := done + [hs[i]];
      groups := AddTo(groups, ids.build(hs[i]), hs[i]);
    }
    assert hs[..|hs|] == hs;
  }

  function AddTo(groups: map<Build, seq<bytes>>, b: Build, r: bytes): map<Build, seq<bytes>> {
    groups[b := (if b in groups then groups[b] else []) + [r]]
  }

  lemma GroupedSnoc(ids: Ids, hs: seq<bytes>, r: bytes, groups: map<Build, seq<bytes>>)
    requires Grouped(ids, hs, groups)
    ensures Grouped(ids, hs + [r], AddTo(groups, ids.build(r), r))
  {
    var b, all := ids.build(r), hs + [r];
    var groups' := AddTo(groups, b, r);
    forall c ensures Occurs(ids, all, c) <==> Occurs(ids, hs, c) || c == b {
      OccursSnoc(ids, hs, r, c);
    }
    forall c | c in groups' ensures groups'[c] == Group(ids, all, c) {
      GroupSnoc(ids, hs, r, c);
      if c == b && Group(ids, hs, b) != [] {
        GroupOccurs(ids, hs, b);
      }
    }
  }

  lemma OccursSnoc(ids: Ids, hs: seq<bytes>, r: bytes, c: Build)
    ensures Occurs(ids, hs + [r], c) <==> Occurs(ids, hs, c) || c == ids.build(r)
  {
    var all := hs + [r];
    assert all[|hs|] == r;
    if Occurs(ids, hs, c) {
      var i :| 0 <= i < |hs| && ids.build(hs[i]) == c;
      assert all[i] == hs[i];
    }
  }

  lemma GroupOccurs(ids: Ids, hs: seq<bytes>, b: Build)
    requires Group(ids, hs, b) != []
    ensures Occurs(ids, hs, b)
  {
    GroupMembers(ids, hs, b);
    assert Group(ids, hs, b)[0] in hs;
  }

  /** The build whose oldest sample goes next. */
  method SmallestBuild(ids: Ids, hs: seq<bytes>) returns (victim: Build)
    requires hs != []
    ensures victim == VictimOf(ids, hs, |hs|)
  {
    var groups := GroupBuilds(ids, hs);
    victim := ids.build(hs[0]);
    assert Occurs(ids, hs, victim);
    var ks := groups.Keys;
    while ks != {}
      invariant ks <= groups.Keys && victim in groups
      invariant forall b :: b in groups && b !in ks ==> Trails(ids, hs, victim, b)
      decreases |ks|
    {
      var b :| b in ks;
      ks := ks - {b};
      if |groups[b]| < |groups[victim]| || (|groups[b]| == |groups[victim]| && b < victim) {
        victim := b;
      }
    }
    forall i | 0 <= i < |hs| ensures Trails(ids, hs, victim, ids.build(hs[i])) {
      assert Occurs(ids, hs, ids.build(hs[i]));
    }
    VictimUnique(ids, hs, victim);
  }
}
