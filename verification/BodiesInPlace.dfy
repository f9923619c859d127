/** The loops that rewrite extension bodies in place (twiddle.go, auth.go, harvester.go), each
    proved to compute its function of ExtensionBodies or Emission. */
module BodiesInPlace {
  import opened Bytes
  import opened HelloCodec
  import opened ExtensionBodies
  import opened Emission

  method PutUint16(d: array<byte>, p: nat, v: u16)
    requires p + 2 <= d.Length
    modifies d
    ensures d[..] == old(d[..p]) + U16(v) + old(d[p + 2..])
  {
    d[p] := v / 0x100;
    d[p + 1] := v % 0x100;
  }

  method CopyInto(d: array<byte>, at: nat, s: bytes)
    requires at + |s| <= d.Length
    modifies d
    ensures d[..] == old(d[..at]) + s + old(d[at + |s|..])
  {
    for i := 0 to |s|
      invariant d[..at + i] == old(d[..at]) + s[..i]
      invariant d[at + i..] == old(d[at + i..])
    {
      d[at + i] := s[i];
      assert s[..i + 1] == s[..i] + [s[i]];
      assert d[..at + i + 1] == d[..at + i] + [s[i]];
    }
    assert s[..|s|] == s;
    assert d[..] == d[..at + |s|] + d[at + |s|..];
  }

  method Zero(d: array<byte>, lo: nat, hi: nat)
    requires lo <= hi <= d.Length
    modifies d
    ensures d[..] == old(d[..lo]) + Zeros(hi - lo) + old(d[hi..])
  {
    for i := lo to hi
      invariant d[..i] == old(d[..lo]) + Zeros(i - lo)
      invariant d[i..] == old(d[i..])
    {
      d[i] := 0;
      assert Zeros(i + 1 - lo) == Zeros(i - lo) + [0];
      assert d[..i + 1] == d[..i] + [0];
    }
    assert d[..] == d[..hi] + d[hi..];
  }

  /** replaceGREASEInU16List. */
  method ReplaceGREASEInU16List(d: array<byte>, hdr: nat, v: u16)
    requires 1 <= hdr <= 2
    modifies d
    ensures d[..] == ReplaceInList(old(d[..]), hdr, v)
  {
    if d.Length < hdr {
      return;
    }
    var n: int := if hdr == 1 then d[0] else GetU16(d[..], 0);
    var end: int := hdr + n;
    if end > d.Length {
      end := d.Length;
    }
    ghost var done, s, after := d[..hdr], d[hdr..end], d[end..];
    ghost var goal := done + ReplacePairs(s, v) + after;
    assert d[..] == done + s + after;
    var p := hdr;
    while p + 2 <= end
      invariant p == |done| && p + |s| == end && d[..] == done + s + after
      invariant goal == done + ReplacePairs(s, v) + after
    {
      PairStep(done, s, after, v);
      if IsGREASE(GetU16(d[..], p)) {
        PutUint16(d, p, v);
      }
      done, s := done + (if IsGREASE(GetU16(s, 0)) then U16(v) else s[..2]), s[2..];
      p := p + 2;
    }
  }

  lemma PairStep(done: bytes, s: bytes, after: bytes, v: u16)
    requires |s| >= 2
    ensures var b, x := done + s + after, GetU16(s, 0);
            var done' := done + if IsGREASE(x) then U16(v) else s[..2];
            && GetU16(b, |done|) == x
            && done + ReplacePairs(s, v) + after == done' + ReplacePairs(s[2..], v) + after
            && done' + s[2..] + after == if IsGREASE(x) then b[..|done|] + U16(v) + b[|done| + 2..] else b
  {
    PairBytes(done, s, after, U16(v));
    var two := if IsGREASE(GetU16(s, 0)) then U16(v) else s[..2];
    Assoc(done, two, ReplacePairs(s[2..], v));
  }

  lemma PairBytes(done: bytes, s: bytes, after: bytes, two: bytes)
    requires |s| >= 2
    ensures var b := done + s + after;
            && GetU16(b, |done|) == GetU16(s, 0)
            && done + two + s[2..] + after == b[..|done|] + two + b[|done| + 2..]
            && done + s[..2] + s[2..] + after == b
  {
    var b := done + s + after;
    assert b[..|done|] == done && b[|done| + 2..] == s[2..] + after;
    Assoc(done, s[..2], s[2..]);
    assert s == s[..2] + s[2..];
  }

  /** replaceGREASEKeyShareGroup. */
  method ReplaceGREASEKeyShareGroup(d: array<byte>, v: u16)
    modifies d
    ensures d[..] == RenameShares(old(d[..]), v)
  {
    if d.Length < 2 {
      return;
    }
    ghost var done, s := d[..2], d[2..];
    ghost var goal := done + RenameGroups(s, v);
    var p := 2;
    while p + 4 <= d.Length
      invariant p == |done| && d[..] == done + s
      invariant goal == done + RenameGroups(s, v)
      decreases d.Length - p
    {
      var n: nat := GetU16(d[..], p + 2);
      assert GetU16(s, 2) == n && GetU16(s, 0) == GetU16(d[..], p);
      if IsGREASE(GetU16(d[..], p)) {
        PutUint16(d, p, v);
      }
      RenamedHead(done, s, v);
      if p + 4 + n > d.Length {
        return;
      }
      RenameStep(done, s, v);
      p := p + 4 + n;
      done, s := done + RenameHead(s, v) + s[4..4 + n], s[4 + n..];
    }
  }

  lemma RenamedHead(done: bytes, s: bytes, v: u16)
    requires |s| >= 4
    ensures var b := done + s;
            done + RenameHead(s, v) + s[4..] ==
            if IsGREASE(GetU16(s, 0)) then b[..|done|] + U16(v) + b[|done| + 2..] else b
    ensures !HasEntry(s) ==> done + RenameGroups(s, v) == done + RenameHead(s, v) + s[4..]
  {
    assert (done + s)[..|done|] == done && (done + s)[|done| + 2..] == s[2..];
    assert s[2..] == s[2..4] + s[4..];
    assert s == s[..2] + s[2..4] + s[4..];
    Assoc(done, RenameHead(s, v), s[4..]);
  }

  lemma RenameStep(done: bytes, s: bytes, v: u16)
    requires HasEntry(s)
    ensures var n := EntryLen(s);
            var done' := done + RenameHead(s, v) + s[4..n];
            && done + RenameGroups(s, v) == done' + RenameGroups(s[n..], v)
            && done + RenameHead(s, v) + s[4..] == done' + s[n..]
  {
    var n := EntryLen(s);
    assert s[4..] == s[4..n] + s[n..];
  }

  /** blankKeyShareValues. */
  method BlankKeyShareValues(d: array<byte>)
    modifies d
    ensures d[..] == if d.Length < 2 then old(d[..]) else old(d[..2]) + BlankValues(old(d[2..]))
  {
    if d.Length < 2 {
      return;
    }
    ghost var done, s := d[..2], d[2..];
    ghost var goal := done + BlankValues(s);
    var p := 2;
    while p + 4 <= d.Length
      invariant p == |done| && d[..] == done + s
      invariant goal == done + BlankValues(s)
      decreases d.Length - p
    {
      var n: nat := GetU16(d[..], p + 2);
      assert GetU16(s, 2) == n;
      if p + 4 + n > d.Length {
        return;
      }
      EntryStep(done, s, Zeros(n), BlankValues(s[4 + n..]));
      Zero(d, p + 4, p + 4 + n);
      assert d[..] == done + s[..4] + Zeros(n) + s[4 + n..];
      p := p + 4 + n;
      done, s := done + s[..4] + Zeros(n), s[4 + n..];
    }
  }

  /** Overwriting the value of the entry behind `done`, whatever the rest becomes later. */
  lemma EntryStep(done: bytes, s: bytes, value: bytes, rest: bytes)
    requires HasEntry(s) && |value| == EntryLen(s) - 4
    ensures var n, b := EntryLen(s), done + s;
            && b[..|done| + 4] + value + b[|done| + n..] == done + s[..4] + value + s[n..]
            && done + (s[..4] + value + rest) == done + s[..4] + value + rest
  {
    var n, b := EntryLen(s), done + s;
    assert b[..|done| + 4] == done + s[..4] && b[|done| + n..] == s[n..];
  }

  /** rerandKeyShare on an extension body; on failure the entries before the cut-off one are
      already fresh. */
  method RerandKeyShare(d: array<byte>, w: Draws) returns (ok: bool)
    requires GoodDraws(w)
    modifies d
    ensures ok <==> FreshShareBody(old(d[..]), w).Some?
    ensures ok ==> d[..] == FreshShareBody(old(d[..]), w).value
  {
    if d.Length < 2 {
      return false;
    }
    ghost var done, s := d[..2], d[2..];
    ghost var goal := FreshShareBody(d[..], w);
    assert goal == Behind(done, FreshShares(s, 0, w.x25519, w.hybrid));
    var p, at: nat := 2, 0;
    while p + 4 <= d.Length
      invariant p == |done| && d[..] == done + s
      invariant goal == Behind(done, FreshShares(s, at, w.x25519, w.hybrid))
      decreases d.Length - p
    {
      var n: nat := GetU16(d[..], p + 2);
      assert GetU16(s, 2) == n && GetU16(s, 0) == GetU16(d[..], p);
      if p + 4 + n > d.Length {
        return false;
      }
      RefreshEntry(d, p, at, w, done, s);
      FreshStep(done, s, at, w);
      done, s := done + s[..4] + FreshValue(GetU16(s, 0), n, at, w.x25519, w.hybrid), s[4 + n..];
      p, at := p + 4 + n, at + 1;
    }
    ok := true;
  }

  /** Writes the fresh value of the entry at p. */
  method RefreshEntry(d: array<byte>, p: nat, at: nat, w: Draws, ghost done: bytes, ghost s: bytes)
    requires GoodDraws(w) && d[..] == done + s && p == |done| && HasEntry(s)
    modifies d
    ensures var n := EntryLen(s);
            d[..] == done + s[..4] + FreshValue(GetU16(s, 0), n - 4, at, w.x25519, w.hybrid) + s[n..]
  {
    var group, n: nat := GetU16(d[..], p), GetU16(d[..], p + 2);
    assert GetU16(s, 2) == n && GetU16(s, 0) == group;
    var value := FreshValue(group, n, at, w.x25519, w.hybrid);
    EntryStep(done, s, value, []);
    CopyInto(d, p + 4, value);
  }

  function Behind(done: bytes, r: Option<bytes>): Option<bytes> {
    if r.None? then None else Some(done + r.value)
  }

  lemma FreshStep(done: bytes, s: bytes, k: nat, w: Draws)
    requires GoodDraws(w) && HasEntry(s)
    ensures var n := EntryLen(s);
            var value := FreshValue(GetU16(s, 0), n - 4, k, w.x25519, w.hybrid);
            Behind(done, FreshShares(s, k, w.x25519, w.hybrid)) ==
            Behind(done + s[..4] + value, FreshShares(s[n..], k + 1, w.x25519, w.hybrid))
  {
    var n := EntryLen(s);
    var value := FreshValue(GetU16(s, 0), n - 4, k, w.x25519, w.hybrid);
    var rest := FreshShares(s[n..], k + 1, w.x25519, w.hybrid);
    if rest.Some? {
      WalkOn(done, s[..4], value, rest.value);
    }
  }

  lemma WalkOn(done: bytes, head: bytes, value: bytes, rest: bytes)
    ensures done + (head + value + rest) == done + head + value + rest
  {
  }

  /** SetKeyShare's search and copy on an extension body; nothing changes on failure. */
  method InstallKeyShare(d: array<byte>, pub: Bytes32) returns (ok: bool)
    modifies d
    ensures ok <==> InstallShareBody(old(d[..]), pub).Some?
    ensures d[..] == if ok then InstallShareBody(old(d[..]), pub).value else old(d[..])
  {
    if d.Length < 2 {
      return false;
    }
    ghost var done, s, was := d[..2], d[2..], d[..];
    var p := 2;
    while p + 4 <= d.Length
      invariant p == |done| && d[..] == was == done + s
      invariant InstallShareBody(was, pub) == Behind(done, InstallShare(s, pub))
      decreases d.Length - p
    {
      var group, n: nat := GetU16(d[..], p), GetU16(d[..], p + 2);
      assert GetU16(s, 2) == n && GetU16(s, 0) == group;
      if p + 4 + n > d.Length {
        return false;
      }
      if group == GROUP_X25519 && n == |pub| {
        EntryStep(done, s, pub, s[36..]);
        CopyInto(d, p + 4, pub);
        return true;
      }
      InstallStep(done, s, pub);
      p := p + 4 + n;
      done, s := done + s[..4 + n], s[4 + n..];
    }
    ok := false;
  }

  lemma InstallStep(done: bytes, s: bytes, pub: Bytes32)
    requires HasEntry(s) && !(GetU16(s, 0) == GROUP_X25519 && EntryLen(s) == 36)
    ensures var n := EntryLen(s);
            && Behind(done, InstallShare(s, pub)) == Behind(done + s[..n], InstallShare(s[n..], pub))
            && done + s == done + s[..n] + s[n..]
  {
    var n := EntryLen(s);
    var rest := InstallShare(s[n..], pub);
    if rest.Some? {
      Assoc(done, s[..n], rest.value);
    }
    assert s == s[..n] + s[n..];
  }
}
