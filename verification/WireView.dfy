/** What an observer who splits the stream at record headers sees of a connection: of both ends' openings, and
    of a shaped write. The splitter is the cover probe's own, so what is shown is what was measured. */
module WireView {
  import opened Bytes
  import opened RecordLayer
  import opened Interleaving
  import opened ConnObject
  import opened Recorder
  import opened Opening
  import opened Twiddle
  import Shaping
  import SH = ServerHello

  /** The lengths of these records, each with its header. */
  function SeenAs(cs: seq<Content>): (r: seq<Seen>)
    ensures |r| == |cs|
  {
    seq(|cs|, i requires 0 <= i < |cs| => Seen(23, 5 + PaddedLength(cs[i]) + 16))
  }

  /** A whole record in front of a stream is split off first. */
  lemma SplitFirst(r: bytes, rest: bytes)
    requires 5 <= |r| && GetU16(r, 3) as int == |r| - 5
    ensures Split(r + rest) == ([Seen(r[0], |r|)] + Split(rest).0, Split(rest).1)
  {
    assert GetU16(r + rest, 3) == GetU16(r, 3);
    assert (r + rest)[|r|..] == rest;
  }

  lemma SealedFirst(k: Keys, n: U64, c: Content, rest: bytes)
    requires Correct(k.aead) && |c.payload| <= MAX_PLAINTEXT
    ensures Split(Record(k.aead, k.iv, n, c) + rest)
            == ([Seen(23, 5 + PaddedLength(c) + 16)] + Split(rest).0, Split(rest).1)
  {
    RecordOnTheWire(k.aead, k.iv, n, c);
    SplitFirst(Record(k.aead, k.iv, n, c), rest);
  }

  predicate AllCarry(cs: seq<Content>) {
    forall i :: 0 <= i < |cs| ==> |cs[i].payload| <= MAX_PLAINTEXT
  }

  lemma SeenCons(cs: seq<Content>)
    requires cs != []
    ensures SeenAs(cs) == [Seen(23, 5 + PaddedLength(cs[0]) + 16)] + SeenAs(cs[1..])
  {
  }

  /** Sealed records show as application data of their padded lengths, one for one, and as nothing else. */
  lemma {:induction false} SealedSeen(k: Keys, n: U64, cs: seq<Content>)
    requires Correct(k.aead) && AllCarry(cs)
    ensures Split(SealMany(k, n, cs)) == (SeenAs(cs), [])
    decreases |cs|
  {
    if cs != [] {
      SealedSeen(k, NextSeq(n), cs[1..]);
      SealedFirst(k, n, cs[0], SealMany(k, NextSeq(n), cs[1..]));
      SeenCons(cs);
    }
  }

  lemma SizedSeen(payload: bytes, wireLen: int)
    requires Sizable(SizedContent(payload, wireLen))
    ensures 5 + PaddedLength(SizedContent(payload, wireLen)) + 16 == wireLen && |payload| <= MAX_PLAINTEXT
  {
  }

  /** The profile's lengths, then two ticket records. */
  function FlightSeen(remainder: seq<int>): seq<(byte, int)> {
    seq(|remainder|, i requires 0 <= i < |remainder| => (23, remainder[i])) + [(23, 370), (23, 370)]
  }

  predicate Shows(recs: seq<Seen>, want: seq<(byte, int)>) {
    |recs| == |want| && forall i :: 0 <= i < |recs| ==> recs[i].typ == want[i].0 && recs[i].wire == want[i].1
  }

  lemma ContentsSeen(remainder: seq<int>, next: Credential)
    requires AllSizable(ServerContents(remainder, next))
    ensures AllCarry(ServerContents(remainder, next)) && Shows(SeenAs(ServerContents(remainder, next)), FlightSeen(remainder))
  {
    var cs, n := ServerContents(remainder, next), |remainder|;
    var seen, want := SeenAs(cs), FlightSeen(remainder);
    forall i | 0 <= i < |cs| ensures |cs[i].payload| <= MAX_PLAINTEXT && seen[i].typ == want[i].0 && seen[i].wire == want[i].1 {
      if i < n {
        assert cs[i] == SizedContent([], remainder[i]);
        SizedSeen([], remainder[i]);
      } else if i == n {
        assert cs[i] == SizedContent(TicketRecord(next), SESSION_TICKET_WIRE);
        SizedSeen(TicketRecord(next), 370);
      } else {
        assert cs[i] == SizedContent(FullTicketRecord(next), SESSION_TICKET_WIRE);
        SizedSeen(FullTicketRecord(next), 370);
      }
    }
  }

  /** Two plain records in front of sealed ones. */
  lemma OpeningSplits(hello: bytes, ccs: bytes, sealed: bytes)
    requires 5 <= |hello| && GetU16(hello, 3) as int == |hello| - 5 && ccs == SH.CHANGE_CIPHER_SPEC
    ensures Split(hello + ccs + sealed) == ([Seen(hello[0], |hello|), Seen(20, 6)] + Split(sealed).0, Split(sealed).1)
  {
    assert hello + ccs + sealed == hello + (ccs + sealed);
    SplitFirst(hello, ccs + sealed);
    SplitFirst(ccs, sealed);
    assert [Seen(hello[0], |hello|)] + ([Seen(20, 6)] + Split(sealed).0) == [Seen(hello[0], |hello|), Seen(20, 6)] + Split(sealed).0;
  }

  /** The server's side of an opening, split by an observer: a handshake record of the measured ServerHello
      length for the shape, a ChangeCipherSpec, one record of each length the profile gives, and two
      records of 370 bytes; nothing more, and no byte left over. */
  lemma ServerSeen(p: SH.Params, k: Keys, remainder: seq<int>, next: Credential)
    requires 1 <= |p.sessionID| <= 32 && Correct(k.aead) && AllSizable(ServerContents(remainder, next))
    ensures var reply := SH.Synthesized(p).value;
            var (recs, left) := Split(reply + SH.CHANGE_CIPHER_SPEC + SealMany(k, 0, ServerContents(remainder, next)));
            && left == [] && |recs| == |remainder| + 4
            && recs[0] == Seen(0x16, (if p.full then 1215 else 1221) - 32 + |p.sessionID|) && recs[1] == Seen(0x14, 6)
            && Shows(recs[2..], FlightSeen(remainder))
  {
    var reply, sealed := SH.Synthesized(p).value, SealMany(k, 0, ServerContents(remainder, next));
    SH.FrontLayout(p);
    SH.EphemeralRoundTrip(p);
    ContentsSeen(remainder, next);
    SealedSeen(k, 0, ServerContents(remainder, next));
    assert reply[0] == 0x16 by {
      At(reply, 0, [0x16, 0x03, 0x03], 0);
    }
    OpeningSplits(reply, SH.CHANGE_CIPHER_SPEC, sealed);
    var recs := SeenAs(ServerContents(remainder, next));
    assert ([Seen(reply[0], |reply|), Seen(20, 6)] + recs)[2..] == recs;
  }

  /** The client's side: its hello, a ChangeCipherSpec and one record of the profile's length. */
  lemma ClientSeen(wire: bytes, k: Keys, clientWire: int)
    requires 5 <= |wire| && wire[0] == 0x16 && GetU16(wire, 3) as int == |wire| - 5
    requires Correct(k.aead) && Sizable(SizedContent([], clientWire))
    ensures Split(wire + SH.CHANGE_CIPHER_SPEC + SealMany(k, 0, [SizedContent([], clientWire)]))
            == ([Seen(0x16, |wire|), Seen(0x14, 6), Seen(0x17, clientWire)], [])
  {
    var cs := [SizedContent([], clientWire)];
    SizedSeen([], clientWire);
    SealedSeen(k, 0, cs);
    OpeningSplits(wire, SH.CHANGE_CIPHER_SPEC, SealMany(k, 0, cs));
    SeenCons(cs);
    assert SeenAs(cs[1..]) == [];
    ThreeSeen(Seen(0x16, |wire|), Seen(0x14, 6), Seen(0x17, clientWire));
  }

  lemma ThreeSeen(a: Seen, b: Seen, c: Seen)
    ensures [a, b] + ([c] + []) == [a, b, c]
  {
  }

  // ---------------------------------------------------------------- shaped writes

  /** The records these cuts become. */
  function CutsSeen(cuts: seq<(nat, nat)>): (r: seq<Seen>)
    ensures |r| == |cuts|
  {
    seq(|cuts|, i requires 0 <= i < |cuts| => Seen(23, 5 + cuts[i].1 + 16))
  }

  /** The shaper a Conn asks answers as s does. */
  ghost predicate Follows(shaper: nat -> (int, int), s: Shaping.Shaper) {
    forall n: nat :: shaper(n) == (Shaping.Next(s, n).0, Shaping.Next(s, n).1)
  }

  /** One turn of the flush loop under a shaper that fits, on a socket that takes it. */
  lemma ChunkSeen(k: Keys, modes: seq<nat>, s: Shaping.Shaper, shaper: nat -> (int, int), answers: nat -> (nat, bool), o: Out) returns (rec: bytes)
    requires Correct(k.aead) && SocketFine(answers) && o.wbuf != [] && Shaping.Fits(modes, s) && Follows(shaper, s)
    ensures var (o1, ok) := NextChunk(k, shaper, answers, false, o);
            && ok && o1.sent == o.sent + rec && |o1.wbuf| == |o.wbuf| - Shaping.Next(s, |o.wbuf|).0
    ensures |rec| == 21 + Shaping.Next(s, |o.wbuf|).1 && rec[0] == 23 && GetU16(rec, 3) as int == |rec| - 5
  {
    assert Shaping.FitsAt(modes, s, |o.wbuf|);
    var c := NextContent(shaper, o.wbuf).0;
    rec := Record(k.aead, k.iv, o.sendSeq, c);
    RecordOnTheWire(k.aead, k.iv, o.sendSeq, c);
  }

  /** A record at the end of what was there, and more behind it. */
  lemma SeenBehind(before: bytes, rec: bytes, all: bytes)
    requires before + rec <= all && 5 <= |rec| && GetU16(rec, 3) as int == |rec| - 5
    ensures before <= all
    ensures Split(all[|before|..]) == ([Seen(rec[0], |rec|)] + Split(all[|before + rec|..]).0, Split(all[|before + rec|..]).1)
  {
    assert all == before + rec + all[|before + rec|..];
    assert all[|before|..] == rec + all[|before + rec|..];
    SplitFirst(rec, all[|before + rec|..]);
  }

  lemma CutsSeenCons(first: (nat, nat), rest: seq<(nat, nat)>)
    ensures CutsSeen([first] + rest) == [Seen(23, 21 + first.1)] + CutsSeen(rest)
  {
  }

  /** What stands behind `before` splits into the cuts of n bytes. */
  ghost predicate SeenAsCuts(modes: seq<nat>, s: Shaping.Shaper, before: bytes, after: bytes, n: nat)
    requires Shaping.Fits(modes, s)
  {
    before <= after && Split(after[|before|..]) == (CutsSeen(Shaping.Cuts(modes, s, n)), [])
  }

  lemma SeenStep(modes: seq<nat>, s: Shaping.Shaper, before: bytes, rec: bytes, after: bytes, n: nat)
    requires Shaping.Fits(modes, s) && 0 < n
    requires |rec| == 21 + Shaping.Next(s, n).1 && rec[0] == 23 && GetU16(rec, 3) as int == |rec| - 5
    requires Shaping.Next(s, n).0 <= n && SeenAsCuts(modes, s, before + rec, after, n - Shaping.Next(s, n).0)
    ensures SeenAsCuts(modes, s, before, after, n)
  {
    SeenBehind(before, rec, after);
    Shaping.CutsTail(modes, s, n);
    CutsSeenCons(Shaping.Next(s, n), Shaping.Cuts(modes, s, n - Shaping.Next(s, n).0));
  }

  lemma NothingSeen(modes: seq<nat>, s: Shaping.Shaper, before: bytes)
    requires Shaping.Fits(modes, s)
    ensures SeenAsCuts(modes, s, before, before, 0)
  {
    assert before[|before|..] == [];
  }

  /** A whole write: what it puts on the socket splits into exactly the shaper's cuts of the buffer's length,
      so into measured lengths and full records, whatever was written. */
  lemma {:induction false} FlushSeen(k: Keys, modes: seq<nat>, s: Shaping.Shaper, shaper: nat -> (int, int), answers: nat -> (nat, bool), o: Out)
    requires Correct(k.aead) && SocketFine(answers) && Shaping.Fits(modes, s) && Follows(shaper, s)
    ensures var (o', ok) := FlushAll(k, shaper, answers, false, o); ok && SeenAsCuts(modes, s, o.sent, o'.sent, |o.wbuf|)
    decreases |o.wbuf|
  {
    if o.wbuf == [] {
      NothingSeen(modes, s, o.sent);
    } else {
      var rec := ChunkSeen(k, modes, s, shaper, answers, o);
      var o1 := NextChunk(k, shaper, answers, false, o).0;
      FlushSeen(k, modes, s, shaper, answers, o1);
      SeenStep(modes, s, o.sent, rec, FlushAll(k, shaper, answers, false, o1).0.sent, |o.wbuf|);
    }
  }
}
