/** The bodies of extensions that the emission pipeline looks inside: lists of 16-bit values and
    key_share entries (twiddle.go, auth.go, and the blanking half of harvester.go). */
module ExtensionBodies {
  import opened Bytes
  import opened HelloCodec

  const HYBRID_SHARE_LEN: nat := 1184 + 32
  /** Stands for any GREASE codepoint in a canonical form. */
  const GREASE_SENTINEL: u16 := 0x0a0a

  // ------------------------------------------------------ lists of 16-bit values

  /** Where the announced list ends, cut to the body; hdr is the size of the length prefix. */
  function ListEnd(d: bytes, hdr: nat): (end: nat)
    requires 1 <= hdr <= 2 && hdr <= |d|
    ensures hdr <= end <= |d|
  {
    var n: nat := if hdr == 1 then d[0] else GetU16(d, 0);
    if hdr + n > |d| then |d| else hdr + n
  }

  /** A run of 16-bit values with every GREASE one replaced by v; a last odd byte is kept. */
  function ReplacePairs(s: bytes, v: u16): (r: bytes)
    ensures |r| == |s|
  {
    if |s| < 2 then s
    else (if IsGREASE(GetU16(s, 0)) then U16(v) else s[..2]) + ReplacePairs(s[2..], v)
  }

  /** replaceGREASEInU16List: the announced list, cut to the body, with GREASE replaced. */
  function ReplaceInList(d: bytes, hdr: nat, v: u16): (r: bytes)
    requires 1 <= hdr <= 2
    ensures |r| == |d|
  {
    if |d| < hdr then d
    else d[..hdr] + ReplacePairs(d[hdr..ListEnd(d, hdr)], v) + d[ListEnd(d, hdr)..]
  }

  /** What the replaced run holds at every pair: GREASE became v, and nothing else changed. */
  lemma {:induction false} ReplacedPair(s: bytes, v: u16, j: nat)
    requires 2 * j + 2 <= |s|
    ensures GetU16(ReplacePairs(s, v), 2 * j) == if IsGREASE(GetU16(s, 2 * j)) then v else GetU16(s, 2 * j)
  {
    var r := ReplacePairs(s, v);
    if j == 0 {
      assert GetU16(r, 0) == if IsGREASE(GetU16(s, 0)) then v else GetU16(s, 0);
    } else {
      ReplacedPair(s[2..], v, j - 1);
      assert GetU16(r, 2 * j) == GetU16(ReplacePairs(s[2..], v), 2 * (j - 1));
      assert GetU16(s, 2 * j) == GetU16(s[2..], 2 * (j - 1));
    }
  }

  lemma {:induction false} ReplacePairsTwice(s: bytes, g: u16, v: u16)
    requires IsGREASE(g)
    ensures ReplacePairs(ReplacePairs(s, g), v) == ReplacePairs(s, v)
  {
    if |s| >= 2 {
      var r := ReplacePairs(s, g);
      ReplacePairsTwice(s[2..], g, v);
      assert r[2..] == ReplacePairs(s[2..], g);
      ReplacedPair(s, g, 0);
      assert IsGREASE(GetU16(s, 0)) || r[..2] == s[..2];
    }
  }

  /** A later replacement hides an earlier one that wrote GREASE. */
  lemma ReplaceTwice(d: bytes, hdr: nat, g: u16, v: u16)
    requires 1 <= hdr <= 2 && IsGREASE(g)
    ensures ReplaceInList(ReplaceInList(d, hdr, g), hdr, v) == ReplaceInList(d, hdr, v)
  {
    if |d| >= hdr {
      var end := ListEnd(d, hdr);
      var mid := d[hdr..end];
      ThreeParts(d[..hdr], ReplacePairs(mid, g), d[end..]);
      var r := ReplaceInList(d, hdr, g);
      assert ListEnd(r, hdr) == end by {
        assert r[0] == r[..hdr][0] == d[0];
        assert hdr == 2 ==> r[1] == r[..hdr][1] == d[1];
      }
      ReplacePairsTwice(mid, g, v);
    }
  }

  lemma ThreeParts(a: bytes, b: bytes, c: bytes)
    ensures var s := a + b + c;
            s[..|a|] == a && s[|a|..|a| + |b|] == b && s[|a| + |b|..] == c
  {
  }

  // ------------------------------------------------------- key_share entries

  /** Whether a complete entry stands at the head of the entry bytes s. */
  predicate HasEntry(s: bytes) {
    4 <= |s| && 4 + GetU16(s, 2) as int <= |s|
  }

  function EntryLen(s: bytes): nat
    requires HasEntry(s)
  {
    4 + GetU16(s, 2) as int
  }

  /** Every entry is complete; at most three stray bytes follow. */
  predicate WellFormedShares(s: bytes)
    decreases |s|
  {
    |s| < 4 || (HasEntry(s) && WellFormedShares(s[EntryLen(s)..]))
  }

  /** An entry header with a GREASE group renamed to v. */
  function RenameHead(s: bytes, v: u16): (r: bytes)
    requires 4 <= |s|
    ensures |r| == 4 && GetU16(r, 2) == GetU16(s, 2)
  {
    (if IsGREASE(GetU16(s, 0)) then U16(v) else s[..2]) + s[2..4]
  }

  /** replaceGREASEKeyShareGroup on the entry bytes: the header of a cut-off entry is renamed too. */
  function RenameGroups(s: bytes, v: u16): (r: bytes)
    ensures |r| == |s|
    decreases |s|
  {
    if |s| < 4 then s
    else if !HasEntry(s) then RenameHead(s, v) + s[4..]
    else RenameHead(s, v) + s[4..EntryLen(s)] + RenameGroups(s[EntryLen(s)..], v)
  }

  /** blankKeyShareValues on the entry bytes. */
  function BlankValues(s: bytes): (r: bytes)
    ensures |r| == |s|
    decreases |s|
  {
    if !HasEntry(s) then s
    else s[..4] + Zeros(EntryLen(s) - 4) + BlankValues(s[EntryLen(s)..])
  }

  /** A fresh value for one entry; k counts the entries before it. */
  function FreshValue(group: u16, n: nat, k: nat, x25519: nat -> Bytes32, hybrid: nat -> bytes): (r: bytes)
    requires forall i :: |hybrid(i)| == HYBRID_SHARE_LEN
    ensures |r| == n
  {
    if group == GROUP_X25519 && n == 32 then x25519(k)
    else if group == GROUP_HYBRID && n == HYBRID_SHARE_LEN then hybrid(k)
    else Zeros(n)
  }

  /** rerandKeyShare on the entry bytes; fails at a cut-off entry. */
  function FreshShares(s: bytes, k: nat, x25519: nat -> Bytes32, hybrid: nat -> bytes): (r: Option<bytes>)
    requires forall i :: |hybrid(i)| == HYBRID_SHARE_LEN
    ensures r.Some? ==> |r.value| == |s|
    decreases |s|
  {
    if |s| < 4 then Some(s)
    else if !HasEntry(s) then None
    else
      var rest :- FreshShares(s[EntryLen(s)..], k + 1, x25519, hybrid);
      Some(s[..4] + FreshValue(GetU16(s, 0), EntryLen(s) - 4, k, x25519, hybrid) + rest)
  }

  /** SetKeyShare on the entry bytes: the first 32-byte X25519 entry takes the public key. */
  function InstallShare(s: bytes, pub: Bytes32): (r: Option<bytes>)
    ensures r.Some? ==> |r.value| == |s|
    decreases |s|
  {
    if !HasEntry(s) then None
    else if GetU16(s, 0) == GROUP_X25519 && EntryLen(s) == 36 then Some(s[..4] + pub + s[36..])
    else
      var rest :- InstallShare(s[EntryLen(s)..], pub);
      Some(s[..EntryLen(s)] + rest)
  }

  /** KeyShare on the entry bytes: the value of the first X25519 entry, whatever its length. */
  function FirstShare(s: bytes): Option<bytes>
    decreases |s|
  {
    if !HasEntry(s) then None
    else if GetU16(s, 0) == GROUP_X25519 then Some(s[4..EntryLen(s)])
    else FirstShare(s[EntryLen(s)..])
  }

  /** Whether the first X25519 entry, if there is one before any cut-off entry, has 32 bytes. */
  predicate OffersX25519(s: bytes) {
    FirstShare(s).Some? && |FirstShare(s).value| == 32
  }

  /** The canonical form of the entry bytes: values blanked, then GREASE groups renamed. */
  function CanonShares(s: bytes): bytes {
    RenameGroups(BlankValues(s), GREASE_SENTINEL)
  }

  // ------------------------------------------------------------------ lemmas

  /** The head and tail of a string that begins with a complete entry. */
  lemma EntryParts(head: bytes, value: bytes, rest: bytes)
    requires |head| == 4 && GetU16(head, 2) == |value|
    ensures var s := head + value + rest;
            && HasEntry(s) && EntryLen(s) == 4 + |value|
            && s[..4] == head && s[4..EntryLen(s)] == value && s[EntryLen(s)..] == rest
            && GetU16(s, 0) == GetU16(head, 0) && GetU16(s, 2) == GetU16(head, 2) && s[2..4] == head[2..4]
  {
  }

  lemma BlankEntry(head: bytes, value: bytes, rest: bytes)
    requires |head| == 4 && GetU16(head, 2) == |value|
    ensures BlankValues(head + value + rest) == head + Zeros(|value|) + BlankValues(rest)
  {
    EntryParts(head, value, rest);
  }

  lemma RenameEntry(head: bytes, value: bytes, rest: bytes, v: u16)
    requires |head| == 4 && GetU16(head, 2) == |value|
    ensures RenameGroups(head + value + rest, v) == RenameHead(head, v) + value + RenameGroups(rest, v)
  {
    EntryParts(head, value, rest);
  }

  lemma CanonEntry(head: bytes, value: bytes, rest: bytes)
    requires |head| == 4 && GetU16(head, 2) == |value|
    ensures CanonShares(head + value + rest) == RenameHead(head, GREASE_SENTINEL) + Zeros(|value|) + CanonShares(rest)
  {
    BlankEntry(head, value, rest);
    RenameEntry(head, Zeros(|value|), BlankValues(rest), GREASE_SENTINEL);
  }

  lemma EntrySplit(s: bytes)
    requires HasEntry(s)
    ensures s == s[..4] + s[4..EntryLen(s)] + s[EntryLen(s)..]
    ensures |s[..4]| == 4 && GetU16(s[..4], 2) == |s[4..EntryLen(s)]| && GetU16(s[..4], 0) == GetU16(s, 0)
  {
  }

  lemma RenameHeadTwice(head: bytes, g: u16, v: u16)
    requires |head| == 4 && IsGREASE(g)
    ensures RenameHead(RenameHead(head, g), v) == RenameHead(head, v)
  {
    assert GetU16(RenameHead(head, g), 0) == if IsGREASE(GetU16(head, 0)) then g else GetU16(head, 0);
  }

  /** Redrawing GREASE groups does not show in the canonical form. */
  lemma {:induction false} CanonAfterRename(s: bytes, g: u16)
    requires IsGREASE(g)
    ensures CanonShares(RenameGroups(s, g)) == CanonShares(s)
    decreases |s|
  {
    if HasEntry(s) {
      var head, value, rest := s[..4], s[4..EntryLen(s)], s[EntryLen(s)..];
      EntrySplit(s);
      CanonAfterRename(rest, g);
      RenameEntry(head, value, rest, g);
      CanonEntry(head, value, rest);
      CanonEntry(RenameHead(head, g), value, RenameGroups(rest, g));
      RenameHeadTwice(head, g, GREASE_SENTINEL);
    } else if |s| >= 4 {
      var r := RenameHead(s, g) + s[4..];
      assert GetU16(r, 2) == GetU16(s, 2) && !HasEntry(r);
      assert r[4..] == s[4..] && RenameHead(r, GREASE_SENTINEL) == RenameHead(RenameHead(s[..4], g), GREASE_SENTINEL);
      RenameHeadTwice(s[..4], g, GREASE_SENTINEL);
    }
  }

  /** Fresh key values do not show in the canonical form. */
  lemma {:induction false} CanonAfterFresh(s: bytes, k: nat, x25519: nat -> Bytes32, hybrid: nat -> bytes)
    requires forall i :: |hybrid(i)| == HYBRID_SHARE_LEN
    requires FreshShares(s, k, x25519, hybrid).Some?
    ensures CanonShares(FreshShares(s, k, x25519, hybrid).value) == CanonShares(s)
    decreases |s|
  {
    if |s| >= 4 {
      var head, value, rest := s[..4], s[4..EntryLen(s)], s[EntryLen(s)..];
      EntrySplit(s);
      CanonAfterFresh(rest, k + 1, x25519, hybrid);
      CanonEntry(head, value, rest);
      CanonEntry(head, FreshValue(GetU16(s, 0), |value|, k, x25519, hybrid), FreshShares(rest, k + 1, x25519, hybrid).value);
    }
  }

  /** Installing the ephemeral key does not show in the canonical form. */
  lemma {:induction false} CanonAfterInstall(s: bytes, pub: Bytes32)
    requires InstallShare(s, pub).Some?
    ensures CanonShares(InstallShare(s, pub).value) == CanonShares(s)
    decreases |s|
  {
    var head, value, rest := s[..4], s[4..EntryLen(s)], s[EntryLen(s)..];
    EntrySplit(s);
    CanonEntry(head, value, rest);
    if GetU16(s, 0) == GROUP_X25519 && EntryLen(s) == 36 {
      CanonEntry(head, pub, rest);
    } else {
      CanonAfterInstall(rest, pub);
      CanonEntry(head, value, InstallShare(rest, pub).value);
      assert s[..EntryLen(s)] == head + value;
    }
  }

  /** rerandKeyShare succeeds exactly on well-formed entries. */
  lemma {:induction false} FreshSucceeds(s: bytes, k: nat, x25519: nat -> Bytes32, hybrid: nat -> bytes)
    requires forall i :: |hybrid(i)| == HYBRID_SHARE_LEN
    ensures FreshShares(s, k, x25519, hybrid).Some? <==> WellFormedShares(s)
    decreases |s|
  {
    if |s| >= 4 && HasEntry(s) {
      FreshSucceeds(s[EntryLen(s)..], k + 1, x25519, hybrid);
    }
  }

  /** Fresh values keep the entries: the first X25519 entry is offered as before. */
  lemma {:induction false} FreshKeepsShares(s: bytes, k: nat, x25519: nat -> Bytes32, hybrid: nat -> bytes)
    requires forall i :: |hybrid(i)| == HYBRID_SHARE_LEN
    requires FreshShares(s, k, x25519, hybrid).Some?
    ensures OffersX25519(FreshShares(s, k, x25519, hybrid).value) <==> OffersX25519(s)
    decreases |s|
  {
    if |s| >= 4 {
      var rest := s[EntryLen(s)..];
      FreshKeepsShares(rest, k + 1, x25519, hybrid);
      EntrySplit(s);
      EntryParts(s[..4], FreshValue(GetU16(s, 0), EntryLen(s) - 4, k, x25519, hybrid),
                 FreshShares(rest, k + 1, x25519, hybrid).value);
    }
  }

  /** Every GREASE group among the entries is g. */
  predicate GreaseGroupsAre(s: bytes, g: u16)
    decreases |s|
  {
    |s| < 4 || (
      && (IsGREASE(GetU16(s, 0)) ==> GetU16(s, 0) == g)
      && (HasEntry(s) ==> GreaseGroupsAre(s[EntryLen(s)..], g)))
  }

  lemma {:induction false} RenamedGroups(s: bytes, g: u16)
    ensures GreaseGroupsAre(RenameGroups(s, g), g)
    decreases |s|
  {
    if HasEntry(s) {
      var head, value, rest := s[..4], s[4..EntryLen(s)], s[EntryLen(s)..];
      RenamedGroups(rest, g);
      EntrySplit(s);
      EntryParts(RenameHead(head, g), value, RenameGroups(rest, g));
      assert GetU16(RenameHead(head, g), 0) == if IsGREASE(GetU16(s, 0)) then g else GetU16(s, 0);
    } else if |s| >= 4 {
      var r := RenameGroups(s, g);
      assert GetU16(r, 2) == GetU16(s, 2);
      assert GetU16(r, 0) == if IsGREASE(GetU16(s, 0)) then g else GetU16(s, 0);
    }
  }

  lemma {:induction false} FreshKeepsGroups(s: bytes, g: u16, k: nat, x25519: nat -> Bytes32, hybrid: nat -> bytes)
    requires forall i :: |hybrid(i)| == HYBRID_SHARE_LEN
    requires FreshShares(s, k, x25519, hybrid).Some? && GreaseGroupsAre(s, g)
    ensures GreaseGroupsAre(FreshShares(s, k, x25519, hybrid).value, g)
    decreases |s|
  {
    if |s| >= 4 {
      var rest := s[EntryLen(s)..];
      FreshKeepsGroups(rest, g, k + 1, x25519, hybrid);
      EntrySplit(s);
      EntryParts(s[..4], FreshValue(GetU16(s, 0), EntryLen(s) - 4, k, x25519, hybrid),
                 FreshShares(rest, k + 1, x25519, hybrid).value);
    }
  }

  lemma {:induction false} InstallKeepsGroups(s: bytes, g: u16, pub: Bytes32)
    requires InstallShare(s, pub).Some? && GreaseGroupsAre(s, g)
    ensures GreaseGroupsAre(InstallShare(s, pub).value, g)
    decreases |s|
  {
    var head, value, rest := s[..4], s[4..EntryLen(s)], s[EntryLen(s)..];
    EntrySplit(s);
    if GetU16(s, 0) == GROUP_X25519 && EntryLen(s) == 36 {
      EntryParts(head, pub, rest);
    } else {
      InstallKeepsGroups(rest, g, pub);
      assert s[..EntryLen(s)] == head + value;
      EntryParts(head, value, InstallShare(rest, pub).value);
    }
  }

  /** Renaming GREASE groups keeps the entries too: X25519 is not GREASE. */
  lemma {:induction false} RenameKeepsShares(s: bytes, g: u16)
    requires IsGREASE(g)
    ensures FirstShare(RenameGroups(s, g)) == FirstShare(s)
    decreases |s|
  {
    if HasEntry(s) {
      var head, value, rest := s[..4], s[4..EntryLen(s)], s[EntryLen(s)..];
      RenameKeepsShares(rest, g);
      EntrySplit(s);
      RenamedGroup(head, g);
      EntryParts(RenameHead(head, g), value, RenameGroups(rest, g));
    } else if |s| >= 4 {
      assert GetU16(RenameGroups(s, g), 2) == GetU16(s, 2);
    }
  }

  lemma RenamedGroup(s: bytes, g: u16)
    requires |s| >= 4
    ensures GetU16(RenameHead(s, g), 0) == if IsGREASE(GetU16(s, 0)) then g else GetU16(s, 0)
  {
  }

  lemma {:induction false} RenameKeepsForm(s: bytes, g: u16)
    ensures WellFormedShares(RenameGroups(s, g)) <==> WellFormedShares(s)
    decreases |s|
  {
    if HasEntry(s) {
      var head, value, rest := s[..4], s[4..EntryLen(s)], s[EntryLen(s)..];
      RenameKeepsForm(rest, g);
      EntrySplit(s);
      EntryParts(RenameHead(head, g), value, RenameGroups(rest, g));
    } else if |s| >= 4 {
      assert GetU16(RenameGroups(s, g), 2) == GetU16(s, 2);
    }
  }

  /** When the first X25519 entry has 32 bytes, SetKeyShare succeeds. */
  lemma {:induction false} InstallSucceeds(s: bytes, pub: Bytes32)
    requires OffersX25519(s)
    ensures InstallShare(s, pub).Some?
    decreases |s|
  {
    if GetU16(s, 0) != GROUP_X25519 {
      InstallSucceeds(s[EntryLen(s)..], pub);
    }
  }

  /** Fresh values leave SetKeyShare the entry it is looking for, and so does renaming. */
  lemma {:induction false} FreshKeepsInstall(s: bytes, k: nat, x25519: nat -> Bytes32, hybrid: nat -> bytes, pub: Bytes32)
    requires forall i :: |hybrid(i)| == HYBRID_SHARE_LEN
    requires FreshShares(s, k, x25519, hybrid).Some?
    ensures InstallShare(FreshShares(s, k, x25519, hybrid).value, pub).Some? <==> InstallShare(s, pub).Some?
    decreases |s|
  {
    if |s| >= 4 {
      var rest := s[EntryLen(s)..];
      FreshKeepsInstall(rest, k + 1, x25519, hybrid, pub);
      EntrySplit(s);
      EntryParts(s[..4], FreshValue(GetU16(s, 0), EntryLen(s) - 4, k, x25519, hybrid),
                 FreshShares(rest, k + 1, x25519, hybrid).value);
    }
  }

  lemma {:induction false} RenameKeepsInstall(s: bytes, g: u16, pub: Bytes32)
    requires IsGREASE(g)
    ensures InstallShare(RenameGroups(s, g), pub).Some? <==> InstallShare(s, pub).Some?
    decreases |s|
  {
    if HasEntry(s) {
      var head, value, rest := s[..4], s[4..EntryLen(s)], s[EntryLen(s)..];
      RenameKeepsInstall(rest, g, pub);
      EntrySplit(s);
      RenamedGroup(head, g);
      EntryParts(RenameHead(head, g), value, RenameGroups(rest, g));
    } else if |s| >= 4 {
      assert GetU16(RenameGroups(s, g), 2) == GetU16(s, 2);
    }
  }

  /** The key the server reads is the key the client installed exactly when the first X25519
      entry has 32 bytes: the writer skips entries of another length, the reader does not. */
  lemma {:induction false} InstallThenRead(s: bytes, pub: Bytes32)
    requires InstallShare(s, pub).Some?
    ensures FirstShare(InstallShare(s, pub).value) == Some(pub) <==> OffersX25519(s)
    decreases |s|
  {
    var head, value, rest := s[..4], s[4..EntryLen(s)], s[EntryLen(s)..];
    EntrySplit(s);
    if GetU16(s, 0) == GROUP_X25519 && EntryLen(s) == 36 {
      EntryParts(head, pub, rest);
    } else {
      InstallThenRead(rest, pub);
      assert s[..EntryLen(s)] == head + value;
      EntryParts(head, value, InstallShare(rest, pub).value);
    }
  }
}
