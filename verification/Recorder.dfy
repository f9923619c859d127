/** The probe's record splitter and its range sampling (harvest/coverprobe/coverprobe.go), and the draw
    the server makes from the sampled ranges (cover.go). */
module Recorder {
  import opened Bytes
  import opened RecordLayer

  datatype Seen = Seen(typ: byte, wire: nat)

  /** The length of the record that stands complete at the front of the bytes. */
  function Complete(b: bytes): (r: Option<nat>)
    ensures r.Some? ==> RECORD_HEADER_LEN <= r.value <= |b|
  {
    if |b| < RECORD_HEADER_LEN then None
    else
      var n := RECORD_HEADER_LEN + GetU16(b, 3) as int;
      if |b| < n then None else Some(n)
  }

  /** The complete records of a stream, in order, and the bytes behind them. */
  function Split(b: bytes): (seq<Seen>, bytes)
    decreases |b|
  {
    match Complete(b)
    case None => ([], b)
    case Some(n) =>
      var (recs, left) := Split(b[n..]);
      ([Seen(b[0], n)] + recs, left)
  }

  class Recorder {
    var buf: bytes
    var recs: seq<Seen>
    ghost var fed: bytes

    constructor ()
      ensures Valid() && fed == []
    {
      buf, recs, fed := [], [], [];
    }

    /** What is kept is a function of the bytes fed, whatever pieces they came in. */
    ghost predicate Valid()
      reads this
    {
      (recs, buf) == Split(fed)
    }

    /** Takes one read's bytes. */
    method Read(b: bytes)
      requires Valid()
      modifies this
      ensures Valid() && fed == old(fed) + b
    {
      fed := fed + b;
      SplitMore(old(fed), b);
      buf := buf + b;
      while Complete(buf).Some?
        invariant fed == old(fed) + b && Split(fed) == (recs + Split(buf).0, Split(buf).1)
        decreases |buf|
      {
        var n := RECORD_HEADER_LEN + GetU16(buf, 3) as int;
        ghost var more := Split(buf[n..]).0;
        assert recs + ([Seen(buf[0], n)] + more) == recs + [Seen(buf[0], n)] + more;
        recs := recs + [Seen(buf[0], n)];
        buf := buf[n..];
      }
      assert recs + [] == recs;
    }
  }

  lemma CompleteMore(a: bytes, b: bytes)
    requires Complete(a).Some?
    ensures Complete(a + b) == Complete(a)
  {
  }

  /** Splitting a stream after each read keeps the records it would keep at the end. */
  lemma {:induction false} SplitMore(a: bytes, b: bytes)
    ensures var (recs, left) := Split(a);
            Split(a + b) == (recs + Split(left + b).0, Split(left + b).1)
    decreases |a|
  {
    if Complete(a).Some? {
      var n := Complete(a).value;
      CompleteMore(a, b);
      SplitMore(a[n..], b);
      assert (a + b)[n..] == a[n..] + b;
      var (recs, left) := Split(a[n..]);
      assert [Seen(a[0], n)] + (recs + Split(left + b).0) == [Seen(a[0], n)] + recs + Split(left + b).0;
    } else {
      assert [] + Split(a + b).0 == Split(a + b).0;
    }
  }

  function WireTotal(recs: seq<Seen>): nat {
    if recs == [] then 0 else recs[0].wire + WireTotal(recs[1..])
  }

  /** No byte is lost or counted twice. */
  lemma {:induction false} SizesConserved(b: bytes)
    ensures WireTotal(Split(b).0) + |Split(b).1| == |b|
    ensures Complete(Split(b).1).None?
    decreases |b|
  {
    if Complete(b).Some? {
      var n := Complete(b).value;
      SizesConserved(b[n..]);
      assert Split(b).0[1..] == Split(b[n..]).0;
    }
  }

  /** Where the i-th of these records begins. */
  function Begins(recs: seq<Seen>, i: nat): nat
    requires i <= |recs|
  {
    if i == 0 then 0 else recs[0].wire + Begins(recs[1..], i - 1)
  }

  /** The record at this place of the stream, by its own first byte and its own length field. */
  predicate RecordAt(b: bytes, at: nat, r: Seen) {
    at + 5 <= |b| && at + r.wire <= |b| && r.typ == b[at] && r.wire == 5 + b[at + 3] as int * 0x100 + b[at + 4]
  }

  lemma RecordBehind(a: bytes, n: nat, at: nat, r: Seen)
    requires n <= |a| && RecordAt(a[n..], at, r)
    ensures RecordAt(a, n + at, r)
  {
  }

  /** Every record kept is the one that stands there, one behind the other from the first byte on. */
  lemma {:induction false} SplitPlaces(b: bytes, i: nat)
    requires i < |Split(b).0|
    ensures RecordAt(b, Begins(Split(b).0, i), Split(b).0[i])
    decreases |b|
  {
    var n := Complete(b).value;
    assert Split(b).0 == [Seen(b[0], n)] + Split(b[n..]).0;
    if i > 0 {
      SplitPlaces(b[n..], i - 1);
      RecordBehind(b, n, Begins(Split(b[n..]).0, i - 1), Split(b).0[i]);
    }
  }

  /** What is left begins behind the last of them and is too short for its header or for its length. */
  lemma {:induction false} SplitLeaves(b: bytes)
    ensures var (recs, left) := Split(b);
            && Begins(recs, |recs|) <= |b| && left == b[Begins(recs, |recs|)..]
            && (|left| < 5 || |left| < 5 + left[3] as int * 0x100 + left[4])
    decreases |b|
  {
    if Complete(b).Some? {
      var n := Complete(b).value;
      SplitLeaves(b[n..]);
      var recs := Split(b[n..]).0;
      assert ([Seen(b[0], n)] + recs)[1..] == recs;
    }
  }

  // ------------------------------------------------------------------- sampling

  predicate SameCount(samples: seq<seq<int>>) {
    forall i :: 0 <= i < |samples| ==> |samples[i]| == |samples[0]|
  }

  /** lo and hi are the least and the greatest length seen at each position. */
  predicate Range(samples: seq<seq<int>>, lo: seq<int>, hi: seq<int>)
    requires SameCount(samples) && samples != []
  {
    && |lo| == |hi| == |samples[0]|
    && forall j :: 0 <= j < |lo| ==> RangeAt(samples, j, lo[j], hi[j])
  }

  predicate RangeAt(samples: seq<seq<int>>, j: nat, lo: int, hi: int)
    requires SameCount(samples) && samples != [] && j < |samples[0]|
  {
    && (forall i :: 0 <= i < |samples| ==> lo <= samples[i][j] <= hi)
    && (exists i :: 0 <= i < |samples| && samples[i][j] == lo)
    && (exists i :: 0 <= i < |samples| && samples[i][j] == hi)
  }

  function Highs(lo: seq<int>, jitter: seq<int>): seq<int>
    requires |lo| == |jitter|
  {
    seq(|lo|, j requires 0 <= j < |lo| => lo[j] + jitter[j])
  }

  /** SampleFull: the baseline and the jitter; None for fewer than two samples or when the record count
      changes between them. */
  method SampleFull(samples: seq<seq<int>>) returns (r: Option<(seq<int>, seq<int>)>)
    ensures r.Some? <==> |samples| >= 2 && SameCount(samples)
    ensures r.Some? ==> |r.value.0| == |r.value.1| && Range(samples, r.value.0, Highs(r.value.0, r.value.1))
  {
    if |samples| < 2 {
      return None;
    }
    var count := |samples[0]|;
    var lo, hi := new int[count](j requires 0 <= j < count => samples[0][j]), new int[count](j requires 0 <= j < count => samples[0][j]);
    var i := 1;
    while i < |samples|
      invariant 1 <= i <= |samples|
      invariant forall k :: 0 <= k < i ==> |samples[k]| == count
      invariant forall j :: 0 <= j < count ==> RangeAt(samples[..i], j, lo[j], hi[j])
    {
      if |samples[i]| != count {
        return None;
      }
      Widen(samples, i, lo, hi);
      i := i + 1;
    }
    assert samples[..i] == samples;
    var least, most := lo[..], hi[..];
    var jitter := seq(count, j requires 0 <= j < count => most[j] - least[j]);
    r := Some((least, jitter));
    assert Highs(least, jitter) == most;
  }

  /** One more sample. */
  method Widen(samples: seq<seq<int>>, i: nat, lo: array<int>, hi: array<int>)
    requires 1 <= i < |samples| && lo != hi && lo.Length == hi.Length == |samples[0]|
    requires SameCount(samples[..i + 1])
    requires forall j :: 0 <= j < lo.Length ==> RangeAt(samples[..i], j, lo[j], hi[j])
    modifies lo, hi
    ensures forall j :: 0 <= j < lo.Length ==> RangeAt(samples[..i + 1], j, lo[j], hi[j])
  {
    assert samples[..i + 1][i] == samples[i];
    for j := 0 to lo.Length
      invariant forall m :: 0 <= m < j ==> RangeAt(samples[..i + 1], m, lo[m], hi[m])
      invariant forall m :: j <= m < lo.Length ==> RangeAt(samples[..i], m, lo[m], hi[m])
    {
      var v := samples[i][j];
      RangeMore(samples, i, j, lo[j], hi[j]);
      if v < lo[j] {
        lo[j] := v;
      }
      if v > hi[j] {
        hi[j] := v;
      }
    }
  }

  lemma RangeMore(samples: seq<seq<int>>, i: nat, j: nat, lo: int, hi: int)
    requires 1 <= i < |samples| && SameCount(samples[..i + 1]) && j < |samples[0]|
    requires RangeAt(samples[..i], j, lo, hi)
    ensures var v := samples[i][j];
            RangeAt(samples[..i + 1], j, if v < lo then v else lo, if v > hi then v else hi)
  {
    var a, b := samples[..i], samples[..i + 1];
    assert forall k :: 0 <= k < i ==> a[k] == b[k];
    assert b[i] == samples[i];
  }

  /** DrawFullRemainder: each record of the baseline plus a draw of at most its jitter. None without a
      baseline, or with a jitter list of another length. */
  method DrawFullRemainder(base: seq<int>, jitter: seq<int>, draws: nat -> nat) returns (out: Option<seq<int>>)
    requires forall i :: 0 <= i < |jitter| && jitter[i] > 0 ==> draws(i) <= jitter[i]
    ensures out.Some? <==> base != [] && (jitter == [] || |jitter| == |base|)
    ensures out.Some? ==> Drawn(base, jitter, draws, out.value)
  {
    if base == [] || (|jitter| != 0 && |jitter| != |base|) {
      return None;
    }
    var r := new int[|base|];
    for i := 0 to |base|
      invariant forall k :: 0 <= k < i ==> r[k] == base[k] + DrawAt(jitter, draws, k)
    {
      r[i] := base[i];
      if |jitter| == 0 || jitter[i] <= 0 {
        continue;
      }
      r[i] := base[i] + draws(i);
    }
    out := Some(r[..]);
  }

  function DrawAt(jitter: seq<int>, draws: nat -> nat, i: nat): nat {
    if i >= |jitter| || jitter[i] <= 0 then 0 else draws(i)
  }

  predicate Drawn(base: seq<int>, jitter: seq<int>, draws: nat -> nat, out: seq<int>) {
    |out| == |base| && forall i :: 0 <= i < |base| ==> out[i] == base[i] + DrawAt(jitter, draws, i)
  }

  /** What is emitted has been seen or lies between two lengths that have, and every sample could have
      been emitted: it is the draw that adds what the sample had above the baseline. */
  lemma DrawsCoverSamples(samples: seq<seq<int>>, lo: seq<int>, hi: seq<int>, jitter: seq<int>, i: nat) returns (draws: nat -> nat)
    requires SameCount(samples) && i < |samples| && Range(samples, lo, hi)
    requires |jitter| == |lo| && forall j :: 0 <= j < |lo| ==> jitter[j] == hi[j] - lo[j]
    ensures Drawn(lo, jitter, draws, samples[i])
    ensures forall j :: 0 <= j < |jitter| && jitter[j] > 0 ==> draws(j) <= jitter[j]
  {
    assert forall j :: 0 <= j < |lo| ==> RangeAt(samples, j, lo[j], hi[j]);
    draws := (j: nat) => if j < |lo| && samples[i][j] >= lo[j] then samples[i][j] - lo[j] else 0;
  }
}
