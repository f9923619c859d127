/** The bodies the emitter rewrites, as lists of values and of key_share entries, and what each rewriting of
    ExtensionBodies does to them: which values, which entries and which bytes change, and to what. */
module BodyViews {
  import opened Bytes
  import opened HelloCodec
  import opened ExtensionBodies

  /** The same value, or GREASE both times. */
  predicate UpToGrease(u: u16, v: u16) {
    u == v || (IsGREASE(u) && IsGREASE(v))
  }

  // ------------------------------------------------------ lists of 16-bit values

  /** How many values the list holds: as many as announced, or as fit the body. */
  function ValueCount(d: bytes, hdr: nat): (n: nat)
    requires 1 <= hdr <= 2 && hdr <= |d|
    ensures hdr + 2 * n <= |d|
  {
    var announced := if hdr == 1 then d[0] as int else d[0] as int * 0x100 + d[1];
    (if announced < |d| - hdr then announced else |d| - hdr) / 2
  }

  /** Every GREASE value of the list became v; the other values, the length in front of them and whatever
      is behind them are as they were. */
  predicate Replaced(d: bytes, hdr: nat, v: u16, r: bytes)
    requires 1 <= hdr <= 2
  {
    && |r| == |d|
    && if |d| < hdr then r == d else
       var n := ValueCount(d, hdr);
       && r[..hdr] == d[..hdr] && r[hdr + 2 * n..] == d[hdr + 2 * n..]
       && forall j :: 0 <= j < n ==> ReplacedAt(d, r, hdr + 2 * j, v)
  }

  predicate ReplacedAt(d: bytes, r: bytes, at: nat, v: u16)
    requires at + 2 <= |d| == |r|
  {
    GetU16(r, at) == if IsGREASE(GetU16(d, at)) then v else GetU16(d, at)
  }

  /** Two lists of one length with the same values up to GREASE, and the same bytes around them. */
  predicate ListSame(a: bytes, b: bytes, hdr: nat)
    requires 1 <= hdr <= 2
  {
    && |a| == |b|
    && if |a| < hdr then a == b else
       var n := ValueCount(a, hdr);
       && a[..hdr] == b[..hdr] && a[hdr + 2 * n..] == b[hdr + 2 * n..]
       && forall j :: 0 <= j < n ==> SameValueAt(a, b, hdr + 2 * j)
  }

  predicate SameValueAt(a: bytes, b: bytes, at: nat)
    requires at + 2 <= |a| == |b|
  {
    UpToGrease(GetU16(a, at), GetU16(b, at))
  }

  lemma {:induction false} OddByteKept(s: bytes, v: u16)
    ensures ReplacePairs(s, v)[|s| / 2 * 2..] == s[|s| / 2 * 2..]
  {
    if |s| >= 2 {
      OddByteKept(s[2..], v);
      var r, t := ReplacePairs(s, v), s[2..];
      assert r[2..] == ReplacePairs(t, v);
      assert r[|s| / 2 * 2..] == r[2..][|t| / 2 * 2..] && s[|s| / 2 * 2..] == t[|t| / 2 * 2..];
    }
  }

  lemma ListParts(d: bytes, hdr: nat, v: u16)
    requires 1 <= hdr <= 2 && hdr <= |d|
    ensures var r, end := ReplaceInList(d, hdr, v), ListEnd(d, hdr);
            && r[..hdr] == d[..hdr] && r[hdr..end] == ReplacePairs(d[hdr..end], v) && r[end..] == d[end..]
            && ValueCount(d, hdr) == (end - hdr) / 2
  {
    var end := ListEnd(d, hdr);
    ThreeParts(d[..hdr], ReplacePairs(d[hdr..end], v), d[end..]);
  }

  lemma MiddleAt(s: bytes, lo: nat, hi: nat, k: nat)
    requires lo <= hi <= |s| && k + 2 <= hi - lo
    ensures GetU16(s[lo..hi], k) == GetU16(s, lo + k)
  {
  }

  lemma DropOfMiddle(s: bytes, lo: nat, hi: nat, k: nat)
    requires lo <= hi <= |s| && k <= hi - lo
    ensures s[lo..hi][k..] == s[lo + k..hi]
  {
  }

  lemma SplitTail(r: bytes, d: bytes, at: nat, end: nat)
    requires at <= end <= |r| == |d| && r[at..end] == d[at..end] && r[end..] == d[end..]
    ensures r[at..] == d[at..]
  {
    assert r[at..] == r[at..end] + r[end..] && d[at..] == d[at..end] + d[end..];
  }

  lemma ReplacedValue(d: bytes, r: bytes, hdr: nat, end: nat, v: u16, j: nat)
    requires hdr <= end <= |d| == |r| && 2 * j + 2 <= end - hdr && r[hdr..end] == ReplacePairs(d[hdr..end], v)
    ensures ReplacedAt(d, r, hdr + 2 * j, v)
  {
    ReplacedPair(d[hdr..end], v, j);
    MiddleAt(d, hdr, end, 2 * j);
    MiddleAt(r, hdr, end, 2 * j);
  }

  lemma ReplacedEnds(d: bytes, hdr: nat, v: u16)
    requires 1 <= hdr <= 2 && hdr <= |d|
    ensures var r, at := ReplaceInList(d, hdr, v), hdr + 2 * ValueCount(d, hdr); r[..hdr] == d[..hdr] && r[at..] == d[at..]
  {
    var r, end, n := ReplaceInList(d, hdr, v), ListEnd(d, hdr), ValueCount(d, hdr);
    ListParts(d, hdr, v);
    OddByteKept(d[hdr..end], v);
    DropOfMiddle(r, hdr, end, 2 * n);
    DropOfMiddle(d, hdr, end, 2 * n);
    SplitTail(r, d, hdr + 2 * n, end);
  }

  /** What rewriting a list does, value by value. */
  lemma ReplacedList(d: bytes, hdr: nat, v: u16)
    requires 1 <= hdr <= 2
    ensures Replaced(d, hdr, v, ReplaceInList(d, hdr, v))
  {
    if hdr <= |d| {
      var r := ReplaceInList(d, hdr, v);
      ReplacedEnds(d, hdr, v);
      ListParts(d, hdr, v);
      forall j | 0 <= j < ValueCount(d, hdr) ensures ReplacedAt(d, r, hdr + 2 * j, v) {
        ReplacedValue(d, r, hdr, ListEnd(d, hdr), v, j);
      }
    }
  }

  lemma SameHeaderSameCount(a: bytes, b: bytes, hdr: nat)
    requires 1 <= hdr <= 2 && hdr <= |a| == |b| && a[..hdr] == b[..hdr]
    ensures ValueCount(a, hdr) == ValueCount(b, hdr)
  {
    assert a[0] == a[..hdr][0] == b[..hdr][0] == b[0];
    assert hdr == 2 ==> a[1] == a[..hdr][1] == b[..hdr][1] == b[1];
  }

  lemma SameBytesAt(r: bytes, s: bytes, hdr: nat, n: nat, k: nat)
    requires hdr + 2 * n <= |r| == |s| && hdr <= k < hdr + 2 * n
    requires forall j :: 0 <= j < n ==> GetU16(r, hdr + 2 * j) == GetU16(s, hdr + 2 * j)
    ensures r[k] == s[k]
  {
    var j := (k - hdr) / 2;
    assert GetU16(r, hdr + 2 * j) == GetU16(s, hdr + 2 * j);
    assert k == hdr + 2 * j || k == hdr + 2 * j + 1;
  }

  lemma SameBytes(r: bytes, s: bytes, hdr: nat, n: nat)
    requires hdr + 2 * n <= |r| == |s| && r[..hdr] == s[..hdr] && r[hdr + 2 * n..] == s[hdr + 2 * n..]
    requires forall j :: 0 <= j < n ==> GetU16(r, hdr + 2 * j) == GetU16(s, hdr + 2 * j)
    ensures r == s
  {
    forall k | 0 <= k < |r| ensures r[k] == s[k] {
      if k < hdr {
        assert r[k] == r[..hdr][k] && s[k] == s[..hdr][k];
      } else if k < hdr + 2 * n {
        SameBytesAt(r, s, hdr, n, k);
      } else {
        assert r[k] == r[hdr + 2 * n..][k - hdr - 2 * n] && s[k] == s[hdr + 2 * n..][k - hdr - 2 * n];
      }
    }
  }

  /** Folding GREASE makes two lists the same exactly when they hold the same values up to GREASE. */
  lemma FoldedAlike(a: bytes, b: bytes, hdr: nat, v: u16)
    requires 1 <= hdr <= 2 && IsGREASE(v)
    ensures ReplaceInList(a, hdr, v) == ReplaceInList(b, hdr, v) <==> ListSame(a, b, hdr)
  {
    var r, s := ReplaceInList(a, hdr, v), ReplaceInList(b, hdr, v);
    ReplacedList(a, hdr, v);
    ReplacedList(b, hdr, v);
    if |a| == |b| && hdr <= |a| && a[..hdr] == b[..hdr] {
      var n := ValueCount(a, hdr);
      SameHeaderSameCount(a, b, hdr);
      if r == s {
        forall j | 0 <= j < n ensures SameValueAt(a, b, hdr + 2 * j) {
          assert ReplacedAt(a, r, hdr + 2 * j, v) && ReplacedAt(b, s, hdr + 2 * j, v);
        }
      }
      if ListSame(a, b, hdr) {
        forall j | 0 <= j < n ensures GetU16(r, hdr + 2 * j) == GetU16(s, hdr + 2 * j) {
          assert ReplacedAt(a, r, hdr + 2 * j, v) && ReplacedAt(b, s, hdr + 2 * j, v) && SameValueAt(a, b, hdr + 2 * j);
        }
        SameBytes(r, s, hdr, n);
      }
    }
  }

  // ---------------------------------------------------------- key_share entries

  /** The complete entries at the front of a key_share: group and value. */
  function Entries(s: bytes): seq<(u16, bytes)>
    decreases |s|
  {
    if !HasEntry(s) then [] else [(GetU16(s, 0), s[4..EntryLen(s)])] + Entries(s[EntryLen(s)..])
  }

  /** What stands behind the complete entries: stray bytes, or an entry that is cut off. */
  function Behind(s: bytes): (r: bytes)
    ensures !HasEntry(r)
    decreases |s|
  {
    if !HasEntry(s) then s else Behind(s[EntryLen(s)..])
  }

  lemma ReadEntry(head: bytes, value: bytes, rest: bytes)
    requires |head| == 4 && GetU16(head, 2) == |value|
    ensures Entries(head + value + rest) == [(GetU16(head, 0), value)] + Entries(rest)
    ensures Behind(head + value + rest) == Behind(rest)
  {
    EntryParts(head, value, rest);
  }

  /** The entries and what is behind them are all there is. */
  lemma {:induction false} SameEntriesSameBytes(a: bytes, b: bytes)
    ensures Entries(a) == Entries(b) && Behind(a) == Behind(b) <==> a == b
    decreases |a|
  {
    if HasEntry(a) && HasEntry(b) {
      var x, y := a[EntryLen(a)..], b[EntryLen(b)..];
      SameEntriesSameBytes(x, y);
      if Entries(a) == Entries(b) && Behind(a) == Behind(b) {
        assert Entries(a)[1..] == Entries(x) && Entries(b)[1..] == Entries(y);
        assert Entries(a)[0] == Entries(b)[0];
        EntrySplit(a);
        EntrySplit(b);
        assert a[4..EntryLen(a)] == b[4..EntryLen(b)];
        SameHead(a, b);
      }
    } else if HasEntry(a) {
      assert |Entries(a)| > |Entries(b)|;
    } else if HasEntry(b) {
      assert |Entries(b)| > |Entries(a)|;
    }
  }

  lemma SameHead(a: bytes, b: bytes)
    requires 4 <= |a| && 4 <= |b| && GetU16(a, 0) == GetU16(b, 0) && GetU16(a, 2) == GetU16(b, 2)
    ensures a[..4] == b[..4]
  {
    assert a[0] == b[0] && a[1] == b[1] && a[2] == b[2] && a[3] == b[3];
  }

  /** One for one the same groups up to GREASE, and values of the same lengths. */
  predicate EntriesSame(x: seq<(u16, bytes)>, y: seq<(u16, bytes)>) {
    |x| == |y| && forall i :: 0 <= i < |x| ==> UpToGrease(x[i].0, y[i].0) && |x[i].1| == |y[i].1|
  }

  /** The same bytes, but for the GREASE group of an entry that is cut off. */
  predicate BehindSame(x: bytes, y: bytes) {
    if |x| < 4 || |y| < 4 then x == y else x[2..] == y[2..] && UpToGrease(GetU16(x, 0), GetU16(y, 0))
  }

  predicate OffersSame(a: bytes, b: bytes) {
    EntriesSame(Entries(a), Entries(b)) && BehindSame(Behind(a), Behind(b))
  }

  lemma SameEntriesCons(a: (u16, bytes), x: seq<(u16, bytes)>, b: (u16, bytes), y: seq<(u16, bytes)>)
    ensures EntriesSame([a] + x, [b] + y) <==> UpToGrease(a.0, b.0) && |a.1| == |b.1| && EntriesSame(x, y)
  {
    var l, r := [a] + x, [b] + y;
    if EntriesSame(l, r) {
      assert l[0] == a && r[0] == b;
      forall i | 0 <= i < |x| ensures UpToGrease(x[i].0, y[i].0) && |x[i].1| == |y[i].1| {
        assert l[i + 1] == x[i] && r[i + 1] == y[i];
      }
    }
  }

  lemma SameU16(x: bytes, y: bytes, i: nat)
    requires i + 2 <= |x| && i + 2 <= |y|
    ensures GetU16(x, i) == GetU16(y, i) <==> x[i] == y[i] && x[i + 1] == y[i + 1]
  {
  }

  lemma SameFour(x: bytes, y: bytes)
    requires |x| == |y| == 4
    ensures x == y <==> GetU16(x, 0) == GetU16(y, 0) && GetU16(x, 2) == GetU16(y, 2)
  {
    SameU16(x, y, 0);
    SameU16(x, y, 2);
  }

  lemma RenamedHeads(a: bytes, b: bytes, v: u16)
    requires 4 <= |a| && 4 <= |b| && IsGREASE(v)
    ensures RenameHead(a, v) == RenameHead(b, v) <==> UpToGrease(GetU16(a, 0), GetU16(b, 0)) && GetU16(a, 2) == GetU16(b, 2)
    ensures GetU16(RenameHead(a, v), 2) == GetU16(a, 2)
  {
    RenamedHeadGroup(a, v);
    RenamedHeadGroup(b, v);
    SameFour(RenameHead(a, v), RenameHead(b, v));
  }

  lemma SplitAt4(h: bytes, x: bytes, k: bytes, y: bytes)
    requires |h| == |k| == 4
    ensures h + x == k + y <==> h == k && x == y
  {
    if h + x == k + y {
      assert (h + x)[..4] == h && (k + y)[..4] == k;
      assert (h + x)[4..] == x && (k + y)[4..] == y;
    }
  }

  lemma TailParts(s: bytes)
    requires 4 <= |s|
    ensures s[2..] == s[2..4] + s[4..]
    ensures |s[2..4]| == 2 && GetU16(s[2..4], 0) == GetU16(s, 2)
  {
  }

  /** Canonical cut-off entries. */
  lemma BehindAlike(a: bytes, b: bytes)
    requires !HasEntry(a) && !HasEntry(b)
    ensures CanonShares(a) == CanonShares(b) <==> BehindSame(a, b)
  {
    if |a| >= 4 && |b| >= 4 {
      SplitAt4(RenameHead(a, GREASE_SENTINEL), a[4..], RenameHead(b, GREASE_SENTINEL), b[4..]);
      RenamedHeads(a, b, GREASE_SENTINEL);
      TailParts(a);
      TailParts(b);
      if a[2..] == b[2..] {
        assert a[2..][2..] == a[4..] && b[2..][2..] == b[4..];
        assert a[2..][..2] == a[2..4] && b[2..][..2] == b[2..4];
      }
    } else if CanonShares(a) == CanonShares(b) {
      assert |CanonShares(a)| == |a| && |CanonShares(b)| == |b|;
    }
  }

  /** A blanked string begins with a complete entry exactly when the string does. */
  lemma CanonHead(s: bytes)
    ensures |CanonShares(s)| == |s|
    ensures |s| >= 4 ==> GetU16(CanonShares(s), 2) == GetU16(s, 2)
  {
    if HasEntry(s) {
      var head, value, rest := s[..4], s[4..EntryLen(s)], s[EntryLen(s)..];
      EntrySplit(s);
      CanonEntry(head, value, rest);
      EntryParts(RenameHead(head, GREASE_SENTINEL), Zeros(|value|), CanonShares(rest));
    } else if |s| >= 4 {
      EntryHeadKept(RenameHead(s, GREASE_SENTINEL), s[4..]);
    }
  }

  lemma EntryHeadKept(h: bytes, x: bytes)
    requires |h| == 4
    ensures GetU16(h + x, 2) == GetU16(h, 2)
  {
  }

  lemma EntryJoin(h: bytes, x: bytes, k: bytes, y: bytes, n: nat)
    requires |h| == |k| == 4
    ensures h + Zeros(n) + x == k + Zeros(n) + y <==> h == k && x == y
  {
    assert h + Zeros(n) + x == h + (Zeros(n) + x) && k + Zeros(n) + y == k + (Zeros(n) + y);
    SplitAt4(h, Zeros(n) + x, k, Zeros(n) + y);
    if Zeros(n) + x == Zeros(n) + y {
      assert (Zeros(n) + x)[n..] == x && (Zeros(n) + y)[n..] == y;
    }
  }

  lemma CanonEntries(h: bytes, v: bytes, x: bytes, k: bytes, u: bytes, y: bytes)
    requires |h| == |k| == 4 && GetU16(h, 2) == |v| == |u| == GetU16(k, 2)
    ensures CanonShares(h + v + x) == CanonShares(k + u + y) <==> UpToGrease(GetU16(h, 0), GetU16(k, 0)) && CanonShares(x) == CanonShares(y)
  {
    CanonEntry(h, v, x);
    CanonEntry(k, u, y);
    EntryJoin(RenameHead(h, GREASE_SENTINEL), CanonShares(x), RenameHead(k, GREASE_SENTINEL), CanonShares(y), |v|);
    RenamedHeads(h, k, GREASE_SENTINEL);
  }

  lemma OfferedEntries(h: bytes, v: bytes, x: bytes, k: bytes, u: bytes, y: bytes)
    requires |h| == |k| == 4 && GetU16(h, 2) == |v| == |u| == GetU16(k, 2)
    ensures OffersSame(h + v + x, k + u + y) <==> UpToGrease(GetU16(h, 0), GetU16(k, 0)) && OffersSame(x, y)
  {
    ReadEntry(h, v, x);
    ReadEntry(k, u, y);
    SameEntriesCons((GetU16(h, 0), v), Entries(x), (GetU16(k, 0), u), Entries(y));
  }

  lemma OtherLengths(a: bytes, b: bytes)
    requires HasEntry(a) && HasEntry(b) && EntryLen(a) != EntryLen(b)
    ensures CanonShares(a) != CanonShares(b) && !OffersSame(a, b)
  {
    CanonHead(a);
    CanonHead(b);
    SameEntriesCons((GetU16(a, 0), a[4..EntryLen(a)]), Entries(a[EntryLen(a)..]), (GetU16(b, 0), b[4..EntryLen(b)]), Entries(b[EntryLen(b)..]));
  }

  /** What blanking still tells apart: two key_shares have one canonical form exactly when they offer the same
      groups up to GREASE, with values of the same lengths, in the same order, and end alike. */
  lemma {:induction false} BlankedAlike(a: bytes, b: bytes)
    ensures CanonShares(a) == CanonShares(b) <==> OffersSame(a, b)
    decreases |a|
  {
    CanonHead(a);
    CanonHead(b);
    if HasEntry(a) && HasEntry(b) && EntryLen(a) == EntryLen(b) {
      var n := EntryLen(a);
      BlankedAlike(a[n..], b[n..]);
      EntrySplit(a);
      EntrySplit(b);
      CanonEntries(a[..4], a[4..n], a[n..], b[..4], b[4..n], b[n..]);
      OfferedEntries(a[..4], a[4..n], a[n..], b[..4], b[4..n], b[n..]);
    } else if HasEntry(a) && HasEntry(b) {
      OtherLengths(a, b);
    } else if !HasEntry(a) && !HasEntry(b) {
      BehindAlike(a, b);
    } else {
      assert |Entries(a)| != |Entries(b)|;
    }
  }

  // ------------------------------------------------------------- the rewritings

  /** Renaming GREASE groups touches nothing else: each entry keeps its value, the entry that is cut off is
      renamed too. */
  predicate GroupsRenamed(x: seq<(u16, bytes)>, v: u16, y: seq<(u16, bytes)>) {
    |x| == |y| && forall i :: 0 <= i < |x| ==> y[i].1 == x[i].1 && y[i].0 == if IsGREASE(x[i].0) then v else x[i].0
  }

  lemma RenamedCons(a: (u16, bytes), x: seq<(u16, bytes)>, v: u16, b: (u16, bytes), y: seq<(u16, bytes)>)
    requires GroupsRenamed(x, v, y) && b.1 == a.1 && b.0 == if IsGREASE(a.0) then v else a.0
    ensures GroupsRenamed([a] + x, v, [b] + y)
  {
  }

  lemma {:induction false} RenamedEntries(s: bytes, v: u16)
    ensures GroupsRenamed(Entries(s), v, Entries(RenameGroups(s, v)))
    ensures var x, y := Behind(s), Behind(RenameGroups(s, v));
            if |x| < 4 then y == x
            else |y| == |x| && y[2..] == x[2..] && GetU16(y, 0) == if IsGREASE(GetU16(x, 0)) then v else GetU16(x, 0)
    decreases |s|
  {
    if HasEntry(s) {
      var head, value, rest := s[..4], s[4..EntryLen(s)], s[EntryLen(s)..];
      EntrySplit(s);
      RenamedEntries(rest, v);
      RenameEntry(head, value, rest, v);
      var h := RenameHead(head, v);
      RenamedHeadGroup(head, v);
      ReadEntry(h, value, RenameGroups(rest, v));
      RenamedCons((GetU16(s, 0), value), Entries(rest), v, (GetU16(h, 0), value), Entries(RenameGroups(rest, v)));
    } else if |s| >= 4 {
      var r := RenameGroups(s, v);
      RenamedHeadGroup(s, v);
      assert r == RenameHead(s, v) + s[4..];
      EntryHeadKept(RenameHead(s, v), s[4..]);
      assert !HasEntry(r) && r[2..] == s[2..4] + s[4..] && s[2..] == s[2..4] + s[4..];
      assert GetU16(r, 0) == GetU16(RenameHead(s, v), 0);
    }
  }

  lemma RenamedHeadGroup(s: bytes, v: u16)
    requires 4 <= |s|
    ensures GetU16(RenameHead(s, v), 0) == if IsGREASE(GetU16(s, 0)) then v else GetU16(s, 0)
    ensures RenameHead(s, v)[2..] == s[2..4]
  {
    U16RoundTrip(v);
    BehindTwo(if IsGREASE(GetU16(s, 0)) then U16(v) else s[..2], s[2..4]);
  }

  lemma BehindTwo(g: bytes, t: bytes)
    requires |g| == 2
    ensures GetU16(g + t, 0) == GetU16(g, 0) && (g + t)[2..] == t
  {
  }

  /** The first entry of that group and value length, or as many as there are. */
  function FirstEntry(x: seq<(u16, bytes)>): (i: nat)
    ensures i <= |x| && (i < |x| ==> x[i].0 == 0x001d && |x[i].1| == 32)
    ensures forall j :: 0 <= j < i ==> x[j].0 != 0x001d || |x[j].1| != 32
  {
    if x == [] || (x[0].0 == 0x001d && |x[0].1| == 32) then 0 else 1 + FirstEntry(x[1..])
  }

  lemma InstalledLater(s: bytes, r: bytes, pub: Bytes32)
    requires HasEntry(s)
    requires var x, i := Entries(s[EntryLen(s)..]), FirstEntry(Entries(s[EntryLen(s)..]));
             i < |x| && Entries(r) == x[i := (0x001d, pub)] && Behind(r) == Behind(s[EntryLen(s)..])
    ensures var x, i := Entries(s), FirstEntry(Entries(s[EntryLen(s)..])) + 1;
            i < |x| && Entries(s[..EntryLen(s)] + r) == x[i := (0x001d, pub)] && Behind(s[..EntryLen(s)] + r) == Behind(s)
  {
    var n := EntryLen(s);
    var head, value, rest := s[..4], s[4..n], s[n..];
    EntrySplit(s);
    assert s[..n] == head + value;
    ReadEntry(head, value, r);
    var i := FirstEntry(Entries(rest));
    assert Entries(s)[i + 1 := (0x001d, pub)] == [(GetU16(s, 0), value)] + Entries(rest)[i := (0x001d, pub)];
  }

  /** Installing a key succeeds exactly when a 32-byte X25519 entry is there; the first such entry takes the
      key, and every other entry and whatever is behind them stay. */
  lemma {:induction false} InstalledEntries(s: bytes, pub: Bytes32)
    ensures var x, i := Entries(s), FirstEntry(Entries(s));
            && (InstallShare(s, pub).Some? <==> i < |x|)
            && (i < |x| ==> Entries(InstallShare(s, pub).value) == x[i := (0x001d, pub)] && Behind(InstallShare(s, pub).value) == Behind(s))
    decreases |s|
  {
    if HasEntry(s) {
      var n := EntryLen(s);
      var head, value, rest := s[..4], s[4..n], s[n..];
      EntrySplit(s);
      var x := Entries(s);
      assert x == [(GetU16(s, 0), value)] + Entries(rest) && x[1..] == Entries(rest);
      if GetU16(s, 0) == GROUP_X25519 && n == 36 {
        ReadEntry(head, pub, rest);
        assert x[0 := (0x001d, pub)] == [(0x001d, pub)] + Entries(rest);
      } else {
        InstalledEntries(rest, pub);
        if InstallShare(rest, pub).Some? {
          InstalledLater(s, InstallShare(rest, pub).value, pub);
        }
      }
    }
  }

  /** The first X25519 entry, or as many as there are. */
  function FirstCurve(x: seq<(u16, bytes)>): (i: nat)
    ensures i <= |x| && (i < |x| ==> x[i].0 == 0x001d)
    ensures forall j :: 0 <= j < i ==> x[j].0 != 0x001d
  {
    if x == [] || x[0].0 == 0x001d then 0 else 1 + FirstCurve(x[1..])
  }

  /** The key read is the value of the first X25519 entry, whatever its length. */
  lemma {:induction false} ReadsFirst(s: bytes)
    ensures var x, i := Entries(s), FirstCurve(Entries(s));
            FirstShare(s) == if i < |x| then Some(x[i].1) else None
    decreases |s|
  {
    if HasEntry(s) {
      var n := EntryLen(s);
      EntrySplit(s);
      ReadsFirst(s[n..]);
      ReadEntry(s[..4], s[4..n], s[n..]);
      ReadShare(s[..4], s[4..n], s[n..]);
      CurveCons((GetU16(s, 0), s[4..n]), Entries(s[n..]));
    }
  }

  lemma ReadShare(head: bytes, value: bytes, rest: bytes)
    requires |head| == 4 && GetU16(head, 2) == |value|
    ensures FirstShare(head + value + rest) == if GetU16(head, 0) == GROUP_X25519 then Some(value) else FirstShare(rest)
  {
    EntryParts(head, value, rest);
  }

  lemma CurveCons(e: (u16, bytes), x: seq<(u16, bytes)>)
    ensures FirstCurve([e] + x) == if e.0 == 0x001d then 0 else 1 + FirstCurve(x)
  {
    assert ([e] + x)[1..] == x;
  }

  /** A key_share is made of complete entries exactly when fewer than four bytes are behind them. */
  lemma {:induction false} CompleteMeans(s: bytes)
    ensures WellFormedShares(s) <==> |Behind(s)| < 4
    decreases |s|
  {
    if HasEntry(s) {
      CompleteMeans(s[EntryLen(s)..]);
    }
  }
}
