/** What the emission pipeline does to a hello (twiddle.go, auth.go SetKeyShare), on values.
    Randomness is an argument: every draw the source makes is a component of Draws. */
module Emission {
  import opened Bytes
  import opened HelloCodec
  import opened ExtensionBodies
  import opened ClientHelloObject

  datatype Draws = Draws(
    cipher: u16, ext1: u16, ext2: u16, interior: nat -> u16, group: u16, version: u16, sigAlg: u16,
    random: Bytes32, sessionID: nat -> byte, x25519: nat -> Bytes32, hybrid: nat -> bytes,
    bucket: nat, enc: Bytes32, payload: nat -> byte, configID: byte)

  /** What the source guarantees of its draws; ext2 is redrawn until it differs from ext1. */
  ghost predicate GoodDraws(w: Draws) {
    && IsGREASE(w.cipher) && IsGREASE(w.ext1) && IsGREASE(w.ext2) && w.ext1 != w.ext2
    && (forall i :: IsGREASE(w.interior(i)))
    && IsGREASE(w.group) && IsGREASE(w.version) && IsGREASE(w.sigAlg)
    && (forall i :: |w.hybrid(i)| == HYBRID_SHARE_LEN)
    && w.bucket < 4
  }

  /** n random bytes. */
  function DrawBytes(n: nat, f: nat -> byte): (r: bytes)
    ensures |r| == n
  {
    seq(n, (i: nat) => f(i))
  }

  /** The outer ECH payload lengths, in 32-byte buckets. */
  function BucketLen(bucket: nat): nat {
    144 + 32 * bucket
  }

  // ------------------------------------------------------------- rerandGREASE

  function RedrawCipher(c: u16, v: u16): u16 {
    if IsGREASE(c) then v else c
  }

  function RedrawCiphers(cs: seq<u16>, v: u16): (r: seq<u16>)
    ensures |r| == |cs|
  {
    seq(|cs|, i requires 0 <= i < |cs| => RedrawCipher(cs[i], v))
  }

  predicate GreaseBefore(exts: seq<Extension>, i: nat)
    requires i <= |exts|
  {
    exists j :: 0 <= j < i && IsGREASE(exts[j].typ)
  }

  predicate GreaseAfter(exts: seq<Extension>, i: nat) {
    exists j :: i < j < |exts| && IsGREASE(exts[j].typ)
  }

  /** The first GREASE extension draws ext1, the last of several draws ext2. */
  function RedrawType(exts: seq<Extension>, i: nat, w: Draws): u16
    requires i < |exts|
  {
    if !IsGREASE(exts[i].typ) then exts[i].typ
    else if !GreaseBefore(exts, i) then w.ext1
    else if !GreaseAfter(exts, i) then w.ext2
    else w.interior(i)
  }

  function RedrawTypes(exts: seq<Extension>, w: Draws): (r: seq<Extension>)
    ensures |r| == |exts|
  {
    seq(|exts|, i requires 0 <= i < |exts| => Extension(RedrawType(exts, i, w), exts[i].data))
  }

  /** The extensions with the first one of type t given a new body. */
  function EditFirst(exts: seq<Extension>, t: u16, f: bytes -> bytes): (r: seq<Extension>)
    ensures |r| == |exts|
  {
    match FirstOf(exts, t)
    case None => exts
    case Some(i) => exts[i := Extension(exts[i].typ, f(exts[i].data))]
  }

  function RenameShares(d: bytes, v: u16): (r: bytes)
    ensures |r| == |d|
  {
    if |d| < 2 then d else d[..2] + RenameGroups(d[2..], v)
  }

  function RedrawExtensions(exts: seq<Extension>, w: Draws): (r: seq<Extension>)
    ensures |r| == |exts|
  {
    var e1 := EditFirst(RedrawTypes(exts, w), EXT_SUPPORTED_GROUPS, d => ReplaceInList(d, 2, w.group));
    var e2 := EditFirst(e1, EXT_KEY_SHARE, d => RenameShares(d, w.group));
    var e3 := EditFirst(e2, EXT_SUPPORTED_VERSIONS, d => ReplaceInList(d, 1, w.version));
    EditFirst(e3, EXT_SIGNATURE_ALGORITHMS, d => ReplaceInList(d, 2, w.sigAlg))
  }

  // -------------------------------------------------------------- Rerandomize

  /** rerandKeyShare on an extension body. */
  function FreshShareBody(d: bytes, w: Draws): (r: Option<bytes>)
    requires forall i :: |w.hybrid(i)| == HYBRID_SHARE_LEN
    ensures r.Some? ==> |r.value| == |d|
  {
    if |d| < 2 then None
    else
      var s :- FreshShares(d[2..], 0, w.x25519, w.hybrid);
      Some(d[..2] + s)
  }

  /** rerandECHGrease on an extension body: an inner or empty one is left alone, and a body too
      short to hold the KDF and AEAD ids gets the default ones. */
  function FreshECH(d: bytes, w: Draws): bytes {
    if |d| < 1 || d[0] != 0x00 then d
    else
      var ids := if |d| >= 5 then d[1..5] else [0x00, 0x01, 0x00, 0x01];
      [0x00] + ids + [w.configID] + U16(32) + w.enc + U16(BucketLen(w.bucket))
      + DrawBytes(BucketLen(w.bucket), w.payload)
  }

  function FreshFirstShares(exts: seq<Extension>, w: Draws): (r: Option<seq<Extension>>)
    requires forall i :: |w.hybrid(i)| == HYBRID_SHARE_LEN
    ensures r.Some? ==> |r.value| == |exts|
  {
    match FirstOf(exts, EXT_KEY_SHARE)
    case None => Some(exts)
    case Some(i) =>
      var d :- FreshShareBody(exts[i].data, w);
      Some(exts[i := Extension(exts[i].typ, d)])
  }

  function Rerandomized(h: Hello, w: Draws): Option<Hello>
    requires forall i :: |w.hybrid(i)| == HYBRID_SHARE_LEN
  {
    var exts :- FreshFirstShares(RedrawExtensions(h.extensions, w), w);
    Some(Hello(h.version, w.random, DrawBytes(|h.sessionID|, w.sessionID), RedrawCiphers(h.ciphers, w.cipher),
               h.compression, EditFirst(exts, EXT_ECH, d => FreshECH(d, w))))
  }

  // -------------------------------------------------------------- SetKeyShare

  function InstallShareBody(d: bytes, pub: Bytes32): (r: Option<bytes>)
    ensures r.Some? ==> |r.value| == |d|
  {
    if |d| < 2 then None
    else
      var s :- InstallShare(d[2..], pub);
      Some(d[..2] + s)
  }

  function WithKeyShare(h: Hello, pub: Bytes32): Option<Hello> {
    match FirstOf(h.extensions, EXT_KEY_SHARE)
    case None => None
    case Some(i) =>
      var d :- InstallShareBody(h.extensions[i].data, pub);
      Some(h.(extensions := h.extensions[i := Extension(EXT_KEY_SHARE, d)]))
  }

  /** The client's X25519 key as the server reads it; a key of another length is refused. */
  function KeyShareOf(h: Hello): Option<Bytes32> {
    match FirstOf(h.extensions, EXT_KEY_SHARE)
    case None => None
    case Some(i) =>
      var d := h.extensions[i].data;
      if |d| < 2 then None
      else
        var k :- FirstShare(d[2..]);
        if |k| == 32 then Some(k) else None
  }

  // ------------------------------------------------------------------ Shuffle

  function Swap<T>(s: seq<T>, i: nat, k: nat): (r: seq<T>)
    requires i < |s| && k < |s|
    ensures |r| == |s|
  {
    s[i := s[k]][k := s[i]]
  }

  /** rand.Int(i + 1) returns at most i. */
  ghost predicate GoodPicks(picks: nat -> nat) {
    forall i :: picks(i) <= i
  }

  /** Fisher-Yates from position n - 1 down to 1; picks(i) <= i is the draw at position i. */
  function FisherYates<T>(s: seq<T>, n: nat, picks: nat -> nat): (r: seq<T>)
    requires n <= |s| && GoodPicks(picks)
    ensures |r| == |s|
    decreases n
  {
    if n <= 1 then s else FisherYates(Swap(s, n - 1, picks(n - 1)), n - 1, picks)
  }

  /** How many extensions Shuffle pins at the end: the trailing GREASE, and pre_shared_key after
      it when there is one. None when the ends are not as required. */
  function TailLen(exts: seq<Extension>): (r: Option<nat>)
    ensures r.Some? ==> 1 + r.value <= |exts| && 1 <= r.value <= 2
  {
    if |exts| < 3 || !IsGREASE(exts[0].typ) then None
    else if exts[|exts| - 1].typ == EXT_PRE_SHARED_KEY then
      if IsGREASE(exts[|exts| - 2].typ) then Some(2) else None
    else if IsGREASE(exts[|exts| - 1].typ) then Some(1)
    else None
  }

  function Interior(exts: seq<Extension>): seq<Extension>
    requires TailLen(exts).Some?
  {
    exts[1..|exts| - TailLen(exts).value]
  }

  function Shuffled(exts: seq<Extension>, picks: nat -> nat): Option<seq<Extension>>
    requires GoodPicks(picks)
  {
    if TailLen(exts).None? then None
    else Some([exts[0]] + FisherYates(Interior(exts), |Interior(exts)|, picks)
              + exts[|exts| - TailLen(exts).value..])
  }

  // ------------------------------------------------------------------- lemmas

  lemma SwapElements<T>(s: seq<T>, i: nat, k: nat)
    requires i < |s| && k < |s|
    ensures multiset(Swap(s, i, k)) == multiset(s)
  {
  }

  lemma {:induction false} FisherYatesPermutes<T>(s: seq<T>, n: nat, picks: nat -> nat)
    requires n <= |s| && GoodPicks(picks)
    ensures multiset(FisherYates(s, n, picks)) == multiset(s)
    decreases n
  {
    if n > 1 {
      SwapElements(s, n - 1, picks(n - 1));
      FisherYatesPermutes(Swap(s, n - 1, picks(n - 1)), n - 1, picks);
    }
  }

  /** goal is an order of s that differs from it in the first n places at most. */
  ghost predicate Reorders<T>(s: seq<T>, n: nat, goal: seq<T>) {
    n <= |s| == |goal| && goal[n..] == s[n..] && multiset(goal) == multiset(s)
  }

  /** Every order is reachable: for each permutation of the first n elements there are draws that
      produce it. */
  lemma {:induction false} FisherYatesReaches<T>(s: seq<T>, n: nat, goal: seq<T>) returns (picks: nat -> nat)
    requires Reorders(s, n, goal)
    ensures GoodPicks(picks)
    ensures FisherYates(s, n, picks) == goal
    decreases n
  {
    if n <= 1 {
      OnlyOneOrder(s, n, goal);
      picks := NoPicks(s, n);
    } else {
      var k := PlaceLast(s, n, goal);
      var rest := FisherYatesReaches(Swap(s, n - 1, k), n - 1, goal);
      picks := FirstPick(s, n, k, rest);
    }
  }

  /** A first draw after which one place fewer is open. */
  lemma PlaceLast<T>(s: seq<T>, n: nat, goal: seq<T>) returns (k: nat)
    requires 1 < n && Reorders(s, n, goal)
    ensures k < n && Reorders(Swap(s, n - 1, k), n - 1, goal)
  {
    k := FindInFront(s, n, goal);
    SwapElements(s, n - 1, k);
    SwapBack(s, n, k, goal);
  }

  lemma NoPicks<T>(s: seq<T>, n: nat) returns (picks: nat -> nat)
    requires n <= 1 && n <= |s|
    ensures GoodPicks(picks)
    ensures FisherYates(s, n, picks) == s
  {
    picks := (i: nat) => 0;
  }

  /** Drawing k first and then as `rest` does. */
  lemma FirstPick<T>(s: seq<T>, n: nat, k: nat, rest: nat -> nat) returns (picks: nat -> nat)
    requires 1 < n <= |s| && k < n && GoodPicks(rest)
    ensures GoodPicks(picks)
    ensures FisherYates(s, n, picks) == FisherYates(Swap(s, n - 1, k), n - 1, rest)
  {
    picks := (i: nat) => if i == n - 1 then k else rest(i);
    SamePicks(Swap(s, n - 1, k), n - 1, rest, picks);
  }

  lemma SwapBack<T>(s: seq<T>, n: nat, k: nat, goal: seq<T>)
    requires 1 <= n <= |s| == |goal| && k < n && goal[n..] == s[n..] && s[k] == goal[n - 1]
    ensures Swap(s, n - 1, k)[n - 1..] == goal[n - 1..]
  {
    var t := Swap(s, n - 1, k);
    forall j | n - 1 <= j < |s| ensures t[j] == goal[j] {
      assert j >= n ==> goal[j] == goal[n..][j - n] && s[j] == s[n..][j - n];
    }
  }

  lemma OnlyOneOrder<T>(s: seq<T>, n: nat, goal: seq<T>)
    requires n <= 1 && n <= |s| == |goal| && goal[n..] == s[n..] && multiset(goal) == multiset(s)
    ensures s == goal
  {
    if n == 1 {
      assert s == [s[0]] + s[1..] && goal == [goal[0]] + goal[1..];
      assert multiset(s) - multiset(s[1..]) == multiset{s[0]};
      assert multiset(goal) - multiset(goal[1..]) == multiset{goal[0]};
      assert goal[0] in multiset{s[0]};
    }
  }

  lemma FindInFront<T>(s: seq<T>, n: nat, goal: seq<T>) returns (k: nat)
    requires 1 <= n <= |s| == |goal| && goal[n..] == s[n..] && multiset(goal) == multiset(s)
    ensures k < n && s[k] == goal[n - 1]
  {
    assert s == s[..n] + s[n..] && goal == goal[..n] + goal[n..];
    assert multiset(s[..n]) == multiset(s) - multiset(s[n..]);
    assert multiset(goal[..n]) == multiset(goal) - multiset(goal[n..]);
    assert goal[..n][n - 1] in multiset(goal[..n]);
    assert goal[n - 1] in s[..n];
    var j: int :| 0 <= j < n && s[..n][j] == goal[n - 1];
    k := j;
  }

  lemma {:induction false} SamePicks<T>(s: seq<T>, n: nat, p: nat -> nat, q: nat -> nat)
    requires n <= |s| && GoodPicks(p) && GoodPicks(q)
    requires forall i: nat :: i < n ==> p(i) == q(i)
    ensures FisherYates(s, n, p) == FisherYates(s, n, q)
    decreases n
  {
    if n > 1 {
      SamePicks(Swap(s, n - 1, p(n - 1)), n - 1, p, q);
    }
  }

  /** Shuffle keeps both ends in place and permutes what is between. */
  lemma ShuffleKeepsEnds(exts: seq<Extension>, picks: nat -> nat)
    requires GoodPicks(picks)
    requires Shuffled(exts, picks).Some?
    ensures var r, k := Shuffled(exts, picks).value, TailLen(exts).value;
            && |r| == |exts| && r[0] == exts[0] && r[|r| - k..] == exts[|exts| - k..]
            && multiset(r[1..|r| - k]) == multiset(exts[1..|exts| - k])
            && multiset(r) == multiset(exts)
  {
    var body, k := Interior(exts), TailLen(exts).value;
    var mixed := FisherYates(body, |body|, picks);
    FisherYatesPermutes(body, |body|, picks);
    var r := [exts[0]] + mixed + exts[|exts| - k..];
    assert r[1..|r| - k] == mixed;
    assert exts == [exts[0]] + body + exts[|exts| - k..];
  }

  /** Every order of the interior is produced by some draws. */
  lemma ShuffleReaches(exts: seq<Extension>, goal: seq<Extension>) returns (picks: nat -> nat)
    requires TailLen(exts).Some? && multiset(goal) == multiset(Interior(exts))
    ensures GoodPicks(picks)
    ensures Shuffled(exts, picks) == Some([exts[0]] + goal + exts[|exts| - TailLen(exts).value..])
  {
    var body := Interior(exts);
    assert |multiset(goal)| == |goal| && |multiset(body)| == |body|;
    assert goal[|goal|..] == body[|body|..];
    picks := FisherYatesReaches(body, |body|, goal);
  }
}
