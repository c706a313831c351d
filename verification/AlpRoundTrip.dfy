/** Senders of segmented datagrams, and why the receiver gives back exactly what they sent. */
module AlpRoundTrip {
  import opened Crc32
  import opened CrcComputation
  import opened AlpHeaders
  import opened Sequences
  import opened AlpReassembly

  // ---------- What a run of pieces carries ----------

  /** The sub-stream's pieces since its latest last segment: those of the datagram still open. */
  function Current(hs: seq<Piece>, subStream: nat): seq<Piece> {
    var n := |hs|;
    if n == 0 then []
    else
      var t, p := Current(hs[..n - 1], subStream), hs[n - 1];
      if p.segment.subStream != subStream then t
      else if p.segment.last then []
      else t + [p]
  }

  /** The sub-streams with an open datagram. */
  function Open(hs: seq<Piece>): set<nat> {
    var n := |hs|;
    if n == 0 then {}
    else if hs[n - 1].segment.last then Open(hs[..n - 1]) - {hs[n - 1].segment.subStream}
    else Open(hs[..n - 1]) + {hs[n - 1].segment.subStream}
  }

  /** Everything the datagram that p belongs to has carried so far, p included. */
  function Carried(hs: seq<Piece>, p: Piece): seq<Byte> {
    Payloads(Current(hs, p.segment.subStream) + [p])
  }

  /** The piece is the next of its datagram, within the size limit, and a last piece completes a checked datagram. */
  ghost predicate InOrder(cfg: Config, hs: seq<Piece>, p: Piece) {
    && p.segment.sequence == |Current(hs, p.segment.subStream)|
    && |Carried(hs, p)| <= cfg.maxDatagramSize
    && (p.segment.last ==> |Carried(hs, p)| > 0 && Strip(cfg, Carried(hs, p)).Some?)
  }

  /** No piece needs a seventeenth context. */
  ghost predicate HasRoom(hs: seq<Piece>, p: Piece) {
    |Open(hs) + {p.segment.subStream}| <= 16
  }

  /** What the piece should deliver. */
  ghost function Expected(cfg: Config, hs: seq<Piece>, p: Piece): Event {
    if !p.segment.last then Quiet
    else match Strip(cfg, Carried(hs, p))
      case None => BadCrc
      case Some(d) => if cfg.toIp && |d| > 0 then Delivered(d) else Quiet
  }

  lemma CurrentNext(hs: seq<Piece>, p: Piece, subStream: nat)
    ensures Current(hs + [p], subStream) ==
            if p.segment.subStream != subStream then Current(hs, subStream)
            else if p.segment.last then [] else Current(hs, subStream) + [p]
    ensures Open(hs + [p]) == if p.segment.last then Open(hs) - {p.segment.subStream}
            else Open(hs) + {p.segment.subStream}
  {
    assert (hs + [p])[..|hs|] == hs;
  }

  lemma {:induction false} OpenIsCurrent(hs: seq<Piece>, subStream: nat)
    ensures subStream in Open(hs) <==> |Current(hs, subStream)| > 0
    decreases |hs|
  {
    if |hs| > 0 {
      var front, p := hs[..|hs| - 1], hs[|hs| - 1];
      assert hs == front + [p];
      CurrentNext(front, p, subStream);
      OpenIsCurrent(front, subStream);
    }
  }

  // ---------- The receiver mirrors the senders ----------

  ghost predicate MirrorsAt(hs: seq<Piece>, c: Context) {
    c.active ==>
      var t := Current(hs, c.subStream);
      |t| > 0 && c == Context(true, c.subStream, |t|, Payloads(t))
  }

  /** The active contexts are exactly the open datagrams, one each. */
  ghost predicate Mirrors(hs: seq<Piece>, cs: seq<Context>) {
    && |cs| == MAX_CONTEXTS
    && Distinct(cs)
    && (forall k :: 0 <= k < |cs| ==> MirrorsAt(hs, cs[k]))
    && (forall subStream: nat :: subStream in Open(hs) ==> Find(cs, subStream, 0) < |cs|)
  }

  /** The sub-streams of the first n contexts. */
  function Served(cs: seq<Context>, n: nat): set<nat>
    requires n <= |cs|
  {
    if n == 0 then {} else Served(cs, n - 1) + {cs[n - 1].subStream}
  }

  lemma {:induction false} ServedBy(cs: seq<Context>, n: nat, s: nat) returns (k: nat)
    requires n <= |cs| && s in Served(cs, n)
    ensures k < n && cs[k].subStream == s
  {
    k := n - 1;
    if cs[n - 1].subStream != s {
      k := ServedBy(cs, n - 1, s);
    }
  }

  lemma {:induction false} ServedCount(cs: seq<Context>, n: nat)
    requires n <= |cs| && Distinct(cs)
    requires forall k :: 0 <= k < |cs| ==> cs[k].active
    ensures |Served(cs, n)| == n
  {
    if n > 0 {
      ServedCount(cs, n - 1);
      if cs[n - 1].subStream in Served(cs, n - 1) {
        var k := ServedBy(cs, n - 1, cs[n - 1].subStream);
      }
    }
  }

  lemma {:induction false} SubsetCount(a: set<nat>, b: set<nat>)
    requires a <= b
    ensures |a| <= |b|
  {
    if a != {} {
      var x :| x in a;
      SubsetCount(a - {x}, b - {x});
    }
  }

  /** With at most sixteen datagrams open, a free context is there for a new one. */
  lemma FreeContext(hs: seq<Piece>, cs: seq<Context>, p: Piece)
    requires Mirrors(hs, cs) && HasRoom(hs, p) && Find(cs, p.segment.subStream, 0) == |cs|
    ensures FirstFree(cs, 0) < |cs|
  {
    if FirstFree(cs, 0) == |cs| {
      var sid := p.segment.subStream;
      ServedCount(cs, |cs|);
      var served := Served(cs, |cs|);
      forall s | s in served + {sid}
        ensures s in Open(hs) + {sid}
      {
        if s != sid {
          var k := ServedBy(cs, |cs|, s);
          assert MirrorsAt(hs, cs[k]);
          OpenIsCurrent(hs, s);
        }
      }
      assert sid !in served by {
        if sid in served {
          var k := ServedBy(cs, |cs|, sid);
          assert Holds(cs[k], sid);
        }
      }
      SubsetCount(served + {sid}, Open(hs) + {sid});
    }
  }

  lemma FindAfter(cs: seq<Context>, k: nat, c: Context, subStream: nat)
    requires k < |cs| && Find(cs, subStream, 0) < |cs|
    requires Holds(cs[k], subStream) ==> Holds(c, subStream)
    ensures Find(cs[k := c], subStream, 0) < |cs|
  {
    var j := Find(cs, subStream, 0);
    assert Holds(cs[k := c][j], subStream);
  }

  lemma FindAt(cs: seq<Context>, k: nat, subStream: nat)
    requires k < |cs| && Holds(cs[k], subStream)
    ensures Find(cs, subStream, 0) < |cs|
  {}

  lemma MirrorsUpdate(hs: seq<Piece>, p: Piece, cs: seq<Context>, k: nat, c: Context)
    requires Mirrors(hs, cs) && k < |cs|
    requires forall j :: 0 <= j < |cs| && j != k ==> !Holds(cs[j], p.segment.subStream)
    requires cs[k].active ==> cs[k].subStream == p.segment.subStream
    requires c.active <==> !p.segment.last
    requires c.active ==> c.subStream == p.segment.subStream && MirrorsAt(hs + [p], c)
    ensures Mirrors(hs + [p], cs[k := c])
  {
    hide Current, Open;
    var sid, after := p.segment.subStream, cs[k := c];
    CurrentNext(hs, p, sid);
    forall j | 0 <= j < |after|
      ensures MirrorsAt(hs + [p], after[j])
    {
      if j != k && cs[j].active {
        assert MirrorsAt(hs, cs[j]);
        CurrentNext(hs, p, cs[j].subStream);
      }
    }
    forall s: nat | s in Open(hs + [p])
      ensures Find(after, s, 0) < |after|
    {
      if s == sid {
        FindAt(after, k, s);
      } else {
        FindAfter(cs, k, c, s);
      }
    }
  }

  lemma ContinueMirrors(cfg: Config, hs: seq<Piece>, cs: seq<Context>, k: nat, p: Piece)
    requires Mirrors(hs, cs) && k < |cs| && InOrder(cfg, hs, p)
    requires forall j :: 0 <= j < |cs| && j != k ==> !Holds(cs[j], p.segment.subStream)
    requires cs[k].active ==> cs[k].subStream == p.segment.subStream
    ensures var t := Current(hs, p.segment.subStream);
            var c := Context(true, p.segment.subStream, |t|, Payloads(t));
            var (cs', e) := Continue(cfg, cs[k := c], k, p);
            Mirrors(hs + [p], cs') && e == Expected(cfg, hs, p)
  {
    hide Mirrors, Current, Open, Payloads, Strip;
    var sid := p.segment.subStream;
    var t := Current(hs, sid);
    var c := Context(true, sid, |t|, Payloads(t));
    var next := Context(true, sid, |t| + 1, Payloads(t) + p.payload);
    PayloadsNext(t, p);
    CurrentNext(hs, p, sid);
    assert cs[k := c][k := next] == cs[k := next];
    assert cs[k := next][k := Released(next)] == cs[k := Released(next)];
    MirrorsUpdate(hs, p, cs, k, if p.segment.last then Released(next) else next);
  }

  /** One piece in order, with room: no error, and the delivery is the expected one. */
  lemma PieceMirrors(cfg: Config, hs: seq<Piece>, cs: seq<Context>, p: Piece)
    requires Mirrors(hs, cs) && InOrder(cfg, hs, p) && HasRoom(hs, p)
    ensures var (cs', e) := HandlePiece(cfg, cs, p);
            Mirrors(hs + [p], cs') && e == Expected(cfg, hs, p)
  {
    hide Current, Open, Payloads, Continue, HasRoom, Expected, Carried;
    var sid := p.segment.subStream;
    var k := Find(cs, sid, 0);
    OpenIsCurrent(hs, sid);
    PayloadsOfNothing();
    if k < |cs| {
      OnlyHolder(cs, k, sid);
      assert MirrorsAt(hs, cs[k]);
      assert cs[k := cs[k]] == cs;
      ContinueMirrors(cfg, hs, cs, k, p);
    } else {
      FreeContext(hs, cs, p);
      assert Current(hs, sid) == [];
      ContinueMirrors(cfg, hs, cs, FirstFree(cs, 0), p);
    }
  }

  // ---------- Senders ----------

  /** A datagram cut into parts: numbered from 0, the final one flagged last. */
  function Split(subStream: nat, parts: seq<seq<Byte>>): (ps: seq<Piece>)
    ensures |ps| == |parts|
  {
    seq(|parts|, j requires 0 <= j < |parts| => Piece(Segment(j, j == |parts| - 1, subStream), parts[j]))
  }

  /** Everything one sub-stream sends, datagram after datagram. */
  function SplitAll(subStream: nat, datagrams: seq<seq<seq<Byte>>>): seq<Piece> {
    var n := |datagrams|;
    if n == 0 then [] else SplitAll(subStream, datagrams[..n - 1]) + Split(subStream, datagrams[n - 1])
  }

  /** A non-empty datagram within the size limit that passes its check. */
  ghost predicate Sendable(cfg: Config, parts: seq<seq<Byte>>) {
    0 < |parts| && 0 < |Concat(parts)| <= cfg.maxDatagramSize && Strip(cfg, Concat(parts)).Some?
  }

  ghost predicate AllSendable(cfg: Config, datagrams: seq<seq<seq<Byte>>>) {
    forall i :: 0 <= i < |datagrams| ==> Sendable(cfg, datagrams[i])
  }

  /** The complete datagrams of one sub-stream, in order. */
  function Grams(hs: seq<Piece>, subStream: nat): seq<seq<Byte>> {
    var n := |hs|;
    if n == 0 then []
    else
      var front, p := hs[..n - 1], hs[n - 1];
      Grams(front, subStream) + (if p.segment.subStream == subStream && p.segment.last then [Carried(front, p)] else [])
  }

  lemma GramsNext(hs: seq<Piece>, p: Piece, subStream: nat)
    ensures Grams(hs + [p], subStream) ==
            Grams(hs, subStream) + (if p.segment.subStream == subStream && p.segment.last then [Carried(hs, p)] else [])
  {
    assert (hs + [p])[..|hs|] == hs;
  }

  /** Other sub-streams do not matter. */
  lemma {:induction false} OnlyMatters(hs: seq<Piece>, subStream: nat)
    ensures Current(hs, subStream) == Current(Only(hs, subStream), subStream)
    ensures Grams(hs, subStream) == Grams(Only(hs, subStream), subStream)
    decreases |hs|
  {
    hide Current, Grams, Payloads, Open;
    if |hs| == 0 {
      assert Only(hs, subStream) == hs;
    } else {
      var front, p := hs[..|hs| - 1], hs[|hs| - 1];
      assert hs == front + [p];
      TailNext(front, p, subStream);
      OnlyMatters(front, subStream);
      CurrentNext(front, p, subStream);
      GramsNext(front, p, subStream);
      if p.segment.subStream == subStream {
        CurrentNext(Only(front, subStream), p, subStream);
        GramsNext(Only(front, subStream), p, subStream);
      } else {
        assert Only(front, subStream) + [] == Only(front, subStream);
        assert Grams(front, subStream) + [] == Grams(front, subStream);
      }
    }
  }

  lemma {:induction false} PayloadsOfSplit(subStream: nat, parts: seq<seq<Byte>>, j: nat)
    requires j <= |parts|
    ensures Payloads(Split(subStream, parts)[..j]) == Concat(parts[..j])
  {
    if j == 0 {
      PayloadsOfNothing();
    } else {
      PayloadsOfSplit(subStream, parts, j - 1);
      assert Split(subStream, parts)[..j] == Split(subStream, parts)[..j - 1] + [Split(subStream, parts)[j - 1]];
      PayloadsNext(Split(subStream, parts)[..j - 1], Split(subStream, parts)[j - 1]);
      assert parts[..j][..j - 1] == parts[..j - 1];
    }
  }

  /** Part of a datagram after whole ones: those parts are current, and no datagram has been completed by them. */
  lemma {:induction false} CurrentOfPart(w: seq<Piece>, subStream: nat, parts: seq<seq<Byte>>, j: nat)
    requires j < |parts| && Current(w, subStream) == []
    ensures Current(w + Split(subStream, parts)[..j], subStream) == Split(subStream, parts)[..j]
    ensures Grams(w + Split(subStream, parts)[..j], subStream) == Grams(w, subStream)
  {
    hide Current, Grams, Open;
    var ps := Split(subStream, parts);
    if j == 0 {
      assert w + ps[..0] == w;
    } else {
      CurrentOfPart(w, subStream, parts, j - 1);
      assert w + ps[..j] == w + ps[..j - 1] + [ps[j - 1]];
      CurrentNext(w + ps[..j - 1], ps[j - 1], subStream);
      GramsNext(w + ps[..j - 1], ps[j - 1], subStream);
    }
  }

  /** A whole datagram after whole ones: none is current, and it is the last of the completed. */
  lemma CurrentOfWhole(w: seq<Piece>, subStream: nat, parts: seq<seq<Byte>>)
    requires 0 < |parts| && Current(w, subStream) == []
    ensures Current(w + Split(subStream, parts), subStream) == []
    ensures Grams(w + Split(subStream, parts), subStream) == Grams(w, subStream) + [Concat(parts)]
  {
    hide Current, Grams, Open, Payloads, Concat;
    var ps, n := Split(subStream, parts), |parts| - 1;
    CurrentOfPart(w, subStream, parts, n);
    var front := w + ps[..n];
    assert w + ps == front + [ps[n]];
    CurrentNext(front, ps[n], subStream);
    GramsNext(front, ps[n], subStream);
    assert ps[..n] + [ps[n]] == ps[..n + 1];
    PayloadsOfSplit(subStream, parts, n + 1);
    assert parts[..n + 1] == parts;
  }

  function Totals(datagrams: seq<seq<seq<Byte>>>): seq<seq<Byte>> {
    var n := |datagrams|;
    if n == 0 then [] else Totals(datagrams[..n - 1]) + [Concat(datagrams[n - 1])]
  }

  /** The completed datagrams of a whole sub-stream are exactly those its sender cut up. */
  lemma {:induction false} GramsOfSplitAll(cfg: Config, subStream: nat, datagrams: seq<seq<seq<Byte>>>)
    requires AllSendable(cfg, datagrams)
    ensures Current(SplitAll(subStream, datagrams), subStream) == []
    ensures Grams(SplitAll(subStream, datagrams), subStream) == Totals(datagrams)
    decreases |datagrams|
  {
    hide Concat, Split, Strip;
    var n := |datagrams|;
    if n > 0 {
      GramsOfSplitAll(cfg, subStream, datagrams[..n - 1]);
      CurrentOfWhole(SplitAll(subStream, datagrams[..n - 1]), subStream, datagrams[n - 1]);
    }
  }

  /** The datagrams of the sub-stream that have been completed. */
  function Ended(hs: seq<Piece>, subStream: nat): nat {
    var n := |hs|;
    if n == 0 then 0
    else
      var s := hs[n - 1].segment;
      Ended(hs[..n - 1], subStream) + (if s.subStream == subStream && s.last then 1 else 0)
  }

  lemma {:induction false} EndedIsGrams(hs: seq<Piece>, subStream: nat)
    ensures Ended(hs, subStream) == |Grams(hs, subStream)|
    decreases |hs|
  {
    hide Carried;
    if |hs| > 0 {
      EndedIsGrams(hs[..|hs| - 1], subStream);
    }
  }

  lemma {:induction false} TotalsCount(datagrams: seq<seq<seq<Byte>>>)
    ensures |Totals(datagrams)| == |datagrams|
    decreases |datagrams|
  {
    hide Concat;
    if |datagrams| > 0 {
      TotalsCount(datagrams[..|datagrams| - 1]);
    }
  }

  /** The n-th last piece that a sender emits completes its n-th datagram. */
  lemma {:induction false} CarriedBySender(cfg: Config, subStream: nat, datagrams: seq<seq<seq<Byte>>>,
                                           hs: seq<Piece>, p: Piece)
    requires AllSendable(cfg, datagrams) && hs + [p] <= SplitAll(subStream, datagrams) && p.segment.last
    ensures var n := |Grams(hs, subStream)|;
            && n < |datagrams| && Payloads(Current(hs, subStream) + [p]) == Concat(datagrams[n])
    decreases |datagrams|
  {
    hide Concat, Strip, Current, Payloads, Grams;
    var n := |datagrams| - 1;
    var w := SplitAll(subStream, datagrams[..n]);
    if |hs| < |w| {
      assert hs + [p] <= w;
      CarriedBySender(cfg, subStream, datagrams[..n], hs, p);
    } else {
      var parts, j := datagrams[n], |hs| - |w|;
      var ps := Split(subStream, parts);
      PrefixAt(w, ps, hs, p);
      GramsOfSplitAll(cfg, subStream, datagrams[..n]);
      TotalsCount(datagrams[..n]);
      CurrentOfPart(w, subStream, parts, j);
      assert ps[..j] + [ps[j]] == ps[..j + 1];
      PayloadsOfSplit(subStream, parts, j + 1);
      assert parts[..j + 1] == parts;
    }
  }

  /** However the senders are interleaved, the n-th last piece of a sub-stream completes its sender's n-th datagram. */
  lemma CarriedIsSent(cfg: Config, hs: seq<Piece>, p: Piece, sent: nat -> seq<seq<seq<Byte>>>)
    requires Interleaves(hs + [p], sent) && p.segment.last && AllSendable(cfg, sent(p.segment.subStream))
    ensures var (s, n) := (p.segment.subStream, Ended(hs, p.segment.subStream));
            && n < |sent(s)| && Carried(hs, p) == Concat(sent(s)[n])
  {
    hide SplitAll, AllSendable, Current, Grams, Only, Concat, Ended, Payloads;
    var sid := p.segment.subStream;
    TailNext(hs, p, sid);
    assert Only(hs + [p], sid) <= SplitAll(sid, sent(sid));
    CarriedBySender(cfg, sid, sent(sid), Only(hs, sid), p);
    OnlyMatters(hs, sid);
    EndedIsGrams(hs, sid);
  }

  /** Each piece a sender emits is the next of its datagram. */
  lemma {:induction false} SplitAllInOrder(cfg: Config, subStream: nat, datagrams: seq<seq<seq<Byte>>>,
                                           hs: seq<Piece>, p: Piece)
    requires AllSendable(cfg, datagrams)
    requires hs + [p] <= SplitAll(subStream, datagrams)
    ensures InOrder(cfg, hs, p)
    decreases |datagrams|
  {
    hide Concat, Strip, Current, Payloads;
    var n := |datagrams|;
    var w := SplitAll(subStream, datagrams[..n - 1]);
    if |hs| < |w| {
      assert hs + [p] <= w;
      SplitAllInOrder(cfg, subStream, datagrams[..n - 1], hs, p);
    } else {
      var parts, j := datagrams[n - 1], |hs| - |w|;
      var ps := Split(subStream, parts);
      PrefixAt(w, ps, hs, p);
      GramsOfSplitAll(cfg, subStream, datagrams[..n - 1]);
      CurrentOfPart(w, subStream, parts, j);
      assert ps[..j] + [ps[j]] == ps[..j + 1];
      PayloadsOfSplit(subStream, parts, j + 1);
      ConcatPrefix(parts, j + 1);
      assert j + 1 == |parts| ==> parts[..j + 1] == parts;
    }
  }

  lemma PrefixAt(w: seq<Piece>, ps: seq<Piece>, hs: seq<Piece>, p: Piece)
    requires hs + [p] <= w + ps && |w| <= |hs|
    ensures var j := |hs| - |w|; j < |ps| && hs == w + ps[..j] && p == ps[j]
  {
    var j := |hs| - |w|;
    assert (hs + [p])[|hs|] == (w + ps)[|hs|];
    assert hs == (w + ps)[..|hs|];
  }

  /** Each sub-stream's pieces so far are a prefix of what its sender emits. */
  ghost predicate Interleaves(hs: seq<Piece>, sent: nat -> seq<seq<seq<Byte>>>) {
    forall subStream: nat :: Only(hs, subStream) <= SplitAll(subStream, sent(subStream))
  }

  ghost predicate AllHaveRoom(hs: seq<Piece>) {
    forall i :: 0 <= i < |hs| ==> HasRoom(hs[..i], hs[i])
  }

  /** However the senders are interleaved, every piece arrives in order. */
  lemma InterleavedInOrder(cfg: Config, hs: seq<Piece>, p: Piece, sent: nat -> seq<seq<seq<Byte>>>)
    requires Interleaves(hs + [p], sent) && AllSendable(cfg, sent(p.segment.subStream))
    ensures Interleaves(hs, sent) && InOrder(cfg, hs, p)
  {
    hide SplitAll, AllSendable, InOrder, Current, Grams, Only;
    var sid := p.segment.subStream;
    forall s: nat
      ensures Only(hs, s) <= SplitAll(s, sent(s))
    {
      TailNext(hs, p, s);
      assert Only(hs + [p], s) <= SplitAll(s, sent(s));
    }
    TailNext(hs, p, sid);
    SplitAllInOrder(cfg, sid, sent(sid), Only(hs, sid), p);
    OnlyMatters(hs, sid);
    SameCurrentSameOrder(cfg, hs, Only(hs, sid), p);
  }

  lemma SameCurrentSameOrder(cfg: Config, hs: seq<Piece>, gs: seq<Piece>, p: Piece)
    requires Current(hs, p.segment.subStream) == Current(gs, p.segment.subStream)
    ensures InOrder(cfg, hs, p) <==> InOrder(cfg, gs, p)
  {}

  /** A payload followed by its check, most significant byte first, is delivered as the payload. */
  lemma CheckedIsDelivered(cfg: Config, payload: seq<Byte>)
    requires cfg.checkCrc
    ensures Strip(cfg, payload + WordBytes(Register(ONES, BitsOf(payload)))) == Some(payload)
  {
    hide Register, WordBytes;
    var check := WordBytes(Register(ONES, BitsOf(payload)));
    AppendedCheckAccepted(payload, check);
    assert (payload + check)[..|payload|] == payload;
  }
}
