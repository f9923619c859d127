/** Segmentation and padding (shaping.go): how a shaper cuts a stream of n bytes, and what it costs. */
module Shaping {
  import opened RecordLayer

  const CLIENT_MODES: seq<nat> := [
    26, 30, 34, 53, 69, 87, 94, 114, 124, 197, 278, 419, 601, 773, 1034, 1256, 1644, 2356, 3771, 6019, 9182, 13732, 16408]

  const SERVER_MODES: seq<nat> := [
    26, 34, 53, 57, 69, 74, 96, 135, 174, 210, 281, 298, 445, 551, 749, 1109, 1395, 2011, 3039, 4246, 4389, 6852, 7496,
    10101, 11317, 16401]

  function Modes(isServer: bool): seq<nat> {
    if isServer then SERVER_MODES else CLIENT_MODES
  }

  predicate Usable(mode: nat) {
    OVERHEAD < mode <= MAX_INNER + OVERHEAD
  }

  /** The inner lengths of the usable modes, in order. */
  function InnerModes(modes: seq<nat>): (r: seq<nat>)
    ensures |r| <= |modes|
  {
    if modes == [] then []
    else
      var n := |modes| - 1;
      InnerModes(modes[..n]) + if Usable(modes[n]) then [modes[n] - OVERHEAD] else []
  }

  /** The inner lengths to pad to, and the largest below the maximum, which runs are built from. */
  datatype Shaper = Shaper(inner: seq<nat>, bulk: nat)

  predicate IsBulk(inner: seq<nat>, bulk: nat) {
    && bulk < MAX_INNER && (exists i :: 0 <= i < |inner| && inner[i] == bulk)
    && forall i :: 0 <= i < |inner| && inner[i] < MAX_INNER ==> inner[i] <= bulk
  }

  method BrowsingShaper(isServer: bool) returns (s: Shaper)
    ensures Built(isServer, s)
  {
    var inner := InnerLengths(Modes(isServer));
    InnerTable(isServer);
    var bulk := Largest(inner);
    s := Shaper(inner, bulk);
  }

  method InnerLengths(modes: seq<nat>) returns (inner: seq<nat>)
    ensures inner == InnerModes(modes)
  {
    inner := [];
    for i := 0 to |modes|
      invariant inner == InnerModes(modes[..i])
    {
      assert modes[..i + 1][..i] == modes[..i];
      if modes[i] > OVERHEAD && modes[i] - OVERHEAD <= MAX_INNER {
        inner := inner + [modes[i] - OVERHEAD];
      }
    }
    assert modes[..|modes|] == modes;
  }

  /** The largest length below the maximum, starting from the first. */
  method Largest(inner: seq<nat>) returns (bulk: nat)
    requires inner != [] && inner[0] < MAX_INNER
    ensures IsBulk(inner, bulk)
  {
    bulk := inner[0];
    ghost var at := 0;
    for i := 0 to |inner|
      invariant bulk < MAX_INNER && 0 <= at < |inner| && inner[at] == bulk
      invariant forall j :: 0 <= j < i && inner[j] < MAX_INNER ==> inner[j] <= bulk
    {
      if inner[i] < MAX_INNER && inner[i] > bulk {
        bulk := inner[i];
        at := i;
      }
    }
  }

  /** The first length from position i on that holds need bytes. */
  function FirstFit(inner: seq<nat>, need: nat, i: nat): (j: nat)
    requires i <= |inner|
    ensures i <= j <= |inner| && (j < |inner| ==> need <= inner[j])
    ensures forall k :: i <= k < j ==> inner[k] < need
    decreases |inner| - i
  {
    if i == |inner| || inner[i] >= need then i else FirstFit(inner, need, i + 1)
  }

  /** The shaper's answer: how many bytes to take, and the inner length to pad them to. */
  function Next(s: Shaper, available: nat): (nat, nat) {
    var need := available + 1;
    var j := FirstFit(s.inner, need, 0);
    if need <= s.bulk && j < |s.inner| then (available, s.inner[j])
    else if available >= MAX_PLAINTEXT then (MAX_PLAINTEXT, MAX_INNER)
    else (if s.bulk > 0 then s.bulk - 1 else 0, s.bulk)
  }

  function PlainNext(available: nat): (nat, nat) {
    var take := if available > MAX_PLAINTEXT then MAX_PLAINTEXT else available;
    (take, take + 1)
  }

  // --------------------------------------------------------------- the tables

  lemma {:induction false} AllUsable(modes: seq<nat>)
    requires forall i :: 0 <= i < |modes| ==> Usable(modes[i])
    ensures |InnerModes(modes)| == |modes|
    ensures forall i :: 0 <= i < |modes| ==> InnerModes(modes)[i] == modes[i] - OVERHEAD
  {
    if modes != [] {
      AllUsable(modes[..|modes| - 1]);
    }
  }

  /** The usable modes of a direction: all the server's, and all the client's but its largest. */
  function Table(isServer: bool): seq<nat> {
    if isServer then SERVER_MODES else CLIENT_MODES[..22]
  }

  lemma InnerTable(isServer: bool)
    ensures var inner, table := InnerModes(Modes(isServer)), Table(isServer);
            |inner| == |table| && forall i :: 0 <= i < |table| ==> inner[i] == table[i] - OVERHEAD
    ensures InnerModes(Modes(isServer)) != [] && InnerModes(Modes(isServer))[0] == 10
  {
    if isServer {
      AllUsable(SERVER_MODES);
      assert SERVER_MODES[0] == 26;
    } else {
      AllUsable(CLIENT_MODES[..22]);
      assert CLIENT_MODES[22] == 16408 && CLIENT_MODES[..22][0] == 26;
    }
  }

  /** The shaper of a direction. */
  predicate Built(isServer: bool, s: Shaper) {
    s.inner == InnerModes(Modes(isServer)) && IsBulk(s.inner, s.bulk)
  }

  lemma BulkIs(isServer: bool, s: Shaper)
    requires Built(isServer, s)
    ensures s.bulk == if isServer then 11301 else 13716
    ensures |s.inner| == (if isServer then 26 else 22) && s.inner[if isServer then 24 else 21] == s.bulk
  {
    InnerTable(isServer);
    TopLengths(isServer);
    var i: int :| 0 <= i < |s.inner| && s.inner[i] == s.bulk;
  }

  lemma TopLengths(isServer: bool)
    ensures var t := Table(isServer);
            if isServer then |t| == 26 && t[24] == 11317 && (forall i :: 0 <= i < 24 ==> t[i] < 11317) && t[25] == 16401
            else |t| == 22 && t[21] == 13732 && forall i :: 0 <= i < 21 ==> t[i] < 13732
  {
  }

  // ------------------------------------------------------------------ one answer

  /** One record: between a byte and a record's worth, in a measured length or the largest. */
  predicate GoodCut(modes: seq<nat>, cut: (nat, nat)) {
    && 1 <= cut.0 <= MAX_PLAINTEXT && cut.0 + 1 <= cut.1 <= MAX_INNER
    && (cut.1 + OVERHEAD in modes || cut.1 + OVERHEAD == 16401)
  }

  /** One answer: no more is taken than there is, and padding is added only if nothing is left. */
  predicate FitsAt(modes: seq<nat>, s: Shaper, available: nat) {
    var (take, padTo) := Next(s, available);
    GoodCut(modes, (take, padTo)) && take <= available && (padTo > take + 1 ==> take == available)
  }

  ghost predicate Fits(modes: seq<nat>, s: Shaper) {
    forall n: nat :: 0 < n ==> FitsAt(modes, s, n)
  }

  /** A shaper over measured lengths whose bulk is one of them. */
  lemma LengthsFit(modes: seq<nat>, s: Shaper, i: nat)
    requires i < |s.inner| && s.inner[i] == s.bulk && 1 < s.bulk < MAX_INNER
    requires forall j :: 0 <= j < |s.inner| ==> s.inner[j] <= MAX_INNER && s.inner[j] + OVERHEAD in modes
    ensures Fits(modes, s)
  {
    forall n: nat | 0 < n ensures FitsAt(modes, s, n) {
      if n + 1 <= s.bulk {
        var j := FirstFit(s.inner, n + 1, 0);
        assert j <= i;
      }
    }
  }

  /** Both directions' shapers. */
  lemma BrowsingFits(isServer: bool, s: Shaper)
    requires Built(isServer, s)
    ensures Fits(Modes(isServer), s)
  {
    BulkIs(isServer, s);
    LengthsMeasured(isServer, s);
    LengthsFit(Modes(isServer), s, if isServer then 24 else 21);
  }

  lemma LengthsMeasured(isServer: bool, s: Shaper)
    requires Built(isServer, s)
    ensures forall j :: 0 <= j < |s.inner| ==> s.inner[j] <= MAX_INNER && s.inner[j] + OVERHEAD in Modes(isServer)
  {
    InnerTable(isServer);
    TopLengths(isServer);
    forall j | 0 <= j < |s.inner| ensures s.inner[j] <= MAX_INNER && s.inner[j] + OVERHEAD in Modes(isServer) {
      assert Modes(isServer)[j] == Table(isServer)[j];
    }
  }

  /** Consecutive lengths are close: rounding up to one costs at most five thirds, but for the first
      length and one early gap. */
  lemma Gaps(isServer: bool, j: nat)
    requires 1 <= j < |Table(isServer)| && j != (if isServer then 2 else 3)
    ensures 3 * (Table(isServer)[j] - OVERHEAD) <= 5 * (Table(isServer)[j - 1] - OVERHEAD + 1)
  {
  }

  /** Padding a single record costs at most two thirds of it exactly from five bytes on, outside 18
      to 21 bytes. */
  lemma RatioExact(isServer: bool, s: Shaper, available: nat)
    requires Built(isServer, s) && 0 < available < s.bulk
    ensures var (take, padTo) := Next(s, available);
            take == available && (3 * padTo <= 5 * (take + 1) <==> 5 <= take && !(18 <= take <= 21))
  {
    BulkIs(isServer, s);
    InnerTable(isServer);
    var j := FirstFit(s.inner, available + 1, 0);
    assert s.inner[if isServer then 24 else 21] == s.bulk;
    if j > 0 {
      assert s.inner[j - 1] < available + 1;
      if j != (if isServer then 2 else 3) {
        Gaps(isServer, j);
      }
    }
    EarlyLengths(isServer);
    assert j == 0 ==> s.inner[j] == 10;
  }

  lemma EarlyLengths(isServer: bool)
    ensures Table(isServer)[0] == 26
    ensures var k := if isServer then 2 else 3; Table(isServer)[k - 1] == 34 && Table(isServer)[k] == 53
  {
    if isServer {
      assert SERVER_MODES[0] == 26 && SERVER_MODES[1] == 34 && SERVER_MODES[2] == 53;
    } else {
      var t := CLIENT_MODES[..22];
      assert t[0] == CLIENT_MODES[0] && t[2] == CLIENT_MODES[2] && t[3] == CLIENT_MODES[3];
    }
  }

  // ---------------------------------------------------------------- a whole stream

  /** The records the flush loop cuts n bytes into. */
  ghost function Cuts(modes: seq<nat>, s: Shaper, n: nat): (r: seq<(nat, nat)>)
    requires Fits(modes, s)
    decreases n
  {
    if n == 0 then []
    else
      assert FitsAt(modes, s, n);
      [Next(s, n)] + Cuts(modes, s, n - Next(s, n).0)
  }

  function Total(cuts: seq<(nat, nat)>): nat {
    if cuts == [] then 0 else cuts[0].0 + Total(cuts[1..])
  }

  /** Cutting n bytes ends, and moves exactly n bytes; every record has a measured length and carries at
      least a byte; and none but the last is padded. */
  lemma {:induction false} CutsMoveAll(modes: seq<nat>, s: Shaper, n: nat)
    requires Fits(modes, s)
    ensures var r := Cuts(modes, s, n);
            && Total(r) == n
            && (forall i :: 0 <= i < |r| ==> GoodCut(modes, r[i]))
            && (forall i :: 0 <= i < |r| - 1 ==> r[i].1 == r[i].0 + 1)
    decreases n
  {
    if n > 0 {
      var first := Next(s, n);
      assert FitsAt(modes, s, n);
      CutsMoveAll(modes, s, n - first.0);
      CutsCons(modes, first, Cuts(modes, s, n - first.0));
    }
  }

  lemma CutsCons(modes: seq<nat>, first: (nat, nat), rest: seq<(nat, nat)>)
    requires GoodCut(modes, first) && (rest != [] ==> first.1 == first.0 + 1)
    requires forall i :: 0 <= i < |rest| ==> GoodCut(modes, rest[i])
    requires forall i :: 0 <= i < |rest| - 1 ==> rest[i].1 == rest[i].0 + 1
    ensures var r := [first] + rest;
            && Total(r) == first.0 + Total(rest)
            && (forall i :: 0 <= i < |r| ==> GoodCut(modes, r[i]))
            && (forall i :: 0 <= i < |r| - 1 ==> r[i].1 == r[i].0 + 1)
  {
    assert ([first] + rest)[1..] == rest;
  }

  // -------------------------------------------------------------- the exact answers

  /** The largest measured wire length below the maximum. */
  function BulkWire(isServer: bool): nat {
    if isServer then 11317 else 13732
  }

  /** Whatever fits a record below the maximum goes whole, in the least measured length that holds it. */
  predicate LeastFit(isServer: bool, n: nat, cut: (nat, nat)) {
    && cut.0 == n && n + 1 <= cut.1 && cut.1 + 16 in Modes(isServer)
    && forall i :: 0 <= i < |Modes(isServer)| && n + 1 + 16 <= Modes(isServer)[i] ==> cut.1 + 16 <= Modes(isServer)[i]
  }

  lemma TableIsModes(isServer: bool, i: nat)
    requires i < |Modes(isServer)|
    ensures i < |Table(isServer)| ==> Table(isServer)[i] == Modes(isServer)[i]
    ensures i >= |Table(isServer)| ==> Modes(isServer)[i] == 16408
  {
  }

  lemma FitPlace(isServer: bool, s: Shaper, n: nat) returns (j: nat)
    requires Built(isServer, s) && n + 1 <= s.bulk
    ensures j == FirstFit(s.inner, n + 1, 0) < |s.inner| && Next(s, n) == (n, s.inner[j]) && s.inner[j] + 16 in Modes(isServer)
  {
    BulkIs(isServer, s);
    LengthsMeasured(isServer, s);
    j := FirstFit(s.inner, n + 1, 0);
  }

  lemma SmallFits(isServer: bool, s: Shaper, n: nat)
    requires Built(isServer, s) && n + 1 <= s.bulk
    ensures LeastFit(isServer, n, Next(s, n))
  {
    var j := FitPlace(isServer, s, n);
    forall i | 0 <= i < |Modes(isServer)| && n + 1 + 16 <= Modes(isServer)[i] ensures s.inner[j] + 16 <= Modes(isServer)[i] {
      NoneSmaller(isServer, s, n, j, i);
    }
  }

  lemma NoneSmaller(isServer: bool, s: Shaper, n: nat, j: nat, i: nat)
    requires Built(isServer, s) && j == FirstFit(s.inner, n + 1, 0) < |s.inner|
    requires i < |Modes(isServer)| && n + 1 + 16 <= Modes(isServer)[i]
    ensures s.inner[j] + 16 <= Modes(isServer)[i]
  {
    InnerTable(isServer);
    TableIsModes(isServer, i);
    Ascending(isServer);
    if i < |Table(isServer)| {
      assert s.inner[i] == Table(isServer)[i] - OVERHEAD;
      assert j <= i;
      assert Table(isServer)[j] <= Table(isServer)[i];
    } else {
      assert s.inner[j] == Table(isServer)[j] - OVERHEAD;
      TopLengths(isServer);
    }
  }

  lemma Ascending(isServer: bool)
    ensures var t := Table(isServer); forall i, j :: 0 <= i <= j < |t| ==> t[i] <= t[j]
  {
    var t := Table(isServer);
    forall i, j | 0 <= i <= j < |t| ensures t[i] <= t[j] {
      if isServer {
        AscendingServer(i, j);
      } else {
        AscendingClient(i, j);
        assert t[i] == CLIENT_MODES[i] && t[j] == CLIENT_MODES[j];
      }
    }
  }

  lemma {:induction false} AscendingServer(i: nat, j: nat)
    requires i <= j < |SERVER_MODES|
    ensures SERVER_MODES[i] <= SERVER_MODES[j]
    decreases j
  {
    if i < j {
      AscendingServer(i, j - 1);
      assert SERVER_MODES[j - 1] <= SERVER_MODES[j];
    }
  }

  lemma {:induction false} AscendingClient(i: nat, j: nat)
    requires i <= j < |CLIENT_MODES|
    ensures CLIENT_MODES[i] <= CLIENT_MODES[j]
    decreases j
  {
    if i < j {
      AscendingClient(i, j - 1);
      assert CLIENT_MODES[j - 1] <= CLIENT_MODES[j];
    }
  }

  /** The shaper's answer at every count: the whole in the least measured length that holds it; from a
      record's worth on, a full record; in between, exactly one record of the largest measured length below
      the maximum. */
  lemma AnswersExactly(isServer: bool, s: Shaper, n: nat)
    requires Built(isServer, s) && 0 < n
    ensures var cut := Next(s, n);
            if n + 17 <= BulkWire(isServer) then LeastFit(isServer, n, cut)
            else if 16384 <= n then cut == (16384, 16385)
            else cut == (BulkWire(isServer) - 17, BulkWire(isServer) - 16)
  {
    BulkIs(isServer, s);
    if n + 1 <= s.bulk {
      SmallFits(isServer, s, n);
    }
  }

  /** The plain shaper takes all there is up to a record's worth, and pads nothing. */
  lemma PlainIsExact(n: nat)
    ensures var (take, padTo) := PlainNext(n);
            take <= n && take <= 16384 && (take == n || take == 16384) && padTo == take + 1
  {
  }

  lemma CutsTail(modes: seq<nat>, s: Shaper, n: nat)
    requires Fits(modes, s) && 0 < n
    ensures Next(s, n).0 <= n && Cuts(modes, s, n) == [Next(s, n)] + Cuts(modes, s, n - Next(s, n).0)
  {
    assert FitsAt(modes, s, n);
  }

  /** Less than a record's worth takes one record, or two when it does not fit the largest measured length
      below the maximum. */
  lemma FewCuts(isServer: bool, s: Shaper, n: nat)
    requires Built(isServer, s) && n < 16384 && Fits(Modes(isServer), s)
    ensures |Cuts(Modes(isServer), s, n)| == if n == 0 then 0 else if n + 17 <= BulkWire(isServer) then 1 else 2
  {
    if n > 0 {
      AnswersExactly(isServer, s, n);
      CutsTail(Modes(isServer), s, n);
      var left := n - Next(s, n).0;
      if left > 0 {
        AnswersExactly(isServer, s, left);
        CutsTail(Modes(isServer), s, left);
      }
    }
  }

  /** How a stream of n bytes leaves: in full records as long as there is a record's worth, and then in at
      most two more. */
  lemma {:induction false} CutsExactly(isServer: bool, s: Shaper, n: nat)
    requires Built(isServer, s) && Fits(Modes(isServer), s)
    ensures var r, left := Cuts(Modes(isServer), s, n), n % 16384;
            && |r| == n / 16384 + (if left == 0 then 0 else if left + 17 <= BulkWire(isServer) then 1 else 2)
            && forall i :: 0 <= i < n / 16384 ==> r[i] == (16384, 16385)
    decreases n
  {
    if n < 16384 {
      FewCuts(isServer, s, n);
    } else {
      FullCut(isServer, s, n);
      CutsExactly(isServer, s, n - 16384);
      FullFirst(Cuts(Modes(isServer), s, n - 16384), (n - 16384) / 16384);
    }
  }

  lemma FullCut(isServer: bool, s: Shaper, n: nat)
    requires Built(isServer, s) && Fits(Modes(isServer), s) && 16384 <= n
    ensures Cuts(Modes(isServer), s, n) == [(16384, 16385)] + Cuts(Modes(isServer), s, n - 16384)
  {
    AnswersExactly(isServer, s, n);
    CutsTail(Modes(isServer), s, n);
  }

  lemma FullFirst(rest: seq<(nat, nat)>, k: nat)
    requires k <= |rest| && forall i :: 0 <= i < k ==> rest[i] == (16384, 16385)
    ensures forall i :: 0 <= i < k + 1 ==> ([(16384, 16385)] + rest)[i] == (16384, 16385)
  {
  }
}
