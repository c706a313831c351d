/** Where completion falls short: datagrams without a byte, and payloads too short for a check. */
module AlpCompletion {
  import opened Crc32
  import CrcComputation
  import opened AlpHeaders
  import opened Sequences
  import opened AlpReassembly
  import opened AlpDemultiplexer

  // ---------- Which datagrams are released ----------

  /** Some context is active for the sub-stream. */
  predicate IsServed(cs: seq<Context>, subStream: nat) {
    exists k :: 0 <= k < |cs| && Holds(cs[k], subStream)
  }

  /** Only context k can hold the sub-stream. */
  lemma ServedAt(cs: seq<Context>, k: nat, c: Context, subStream: nat)
    requires k < |cs| && forall j :: 0 <= j < |cs| && j != k ==> !Holds(cs[j], subStream)
    ensures IsServed(cs[k := c], subStream) <==> Holds(c, subStream)
  {
    if Holds(c, subStream) {
      assert Holds(cs[k := c][k], subStream);
    }
  }

  /**
    A last piece that continues its run leaves the context active exactly when it is in turn and nothing was
    carried.
   */
  lemma ContinueReleases(cfg: Config, cs: seq<Context>, k: nat, p: Piece, c: Context)
    requires k < |cs| && p.segment.last && c.active && c.subStream == p.segment.subStream
    requires forall j :: 0 <= j < |cs| && j != k ==> !Holds(cs[j], p.segment.subStream)
    ensures var (after, e) := Continue(cfg, cs[k := c], k, p);
            && (IsServed(after, p.segment.subStream) <==>
                p.segment.sequence == c.expected && c.buffer == [] && p.payload == [])
            && (IsServed(after, p.segment.subStream) ==> e == Quiet)
  {
    hide Strip, IsServed;
    var next := Context(true, c.subStream, c.expected + 1, c.buffer + p.payload);
    assert cs[k := c][k := Released(c)] == cs[k := Released(c)];
    assert cs[k := c][k := next] == cs[k := next];
    assert cs[k := next][k := Released(next)] == cs[k := Released(next)];
    ServedAt(cs, k, next, p.segment.subStream);
    ServedAt(cs, k, Released(c), p.segment.subStream);
  }

  /** Before a piece: it carries no byte, and it starts a run with a context to be had or is next of an empty one. */
  predicate EndsEmpty(cs: seq<Context>, p: Piece) {
    && p.payload == []
    && if p.segment.sequence == 0 then Slot(cs, p.segment.subStream) < |cs|
       else
         var k := Find(cs, p.segment.subStream, 0);
         k < |cs| && cs[k].expected == p.segment.sequence && cs[k].buffer == []
  }

  /**
    After a piece flagged last its sub-stream still holds a context exactly when the piece carries no byte, and
    the contexts before it had one to be taken, for a first segment, or an empty one waiting for just this number.
   */
  lemma LastReleasesExactly(cfg: Config, cs: seq<Context>, p: Piece)
    requires Distinct(cs) && p.segment.last
    ensures var (after, e) := HandlePiece(cfg, cs, p);
            && (IsServed(after, p.segment.subStream) <==> EndsEmpty(cs, p))
            && (EndsEmpty(cs, p) ==> e == Quiet)
  {
    hide Continue, IsServed;
    var sid := p.segment.subStream;
    var k := Find(cs, sid, 0);
    NotServed(cs, sid);
    if k < |cs| {
      OnlyHolder(cs, k, sid);
    }
    if p.segment.sequence == 0 {
      if Slot(cs, sid) < |cs| {
        ContinueReleases(cfg, cs, Slot(cs, sid), p, Context(true, sid, 0, []));
      }
    } else if k < |cs| {
      assert cs[k := cs[k]] == cs;
      ContinueReleases(cfg, cs, k, p, cs[k]);
    }
  }

  /** In terms of everything received: such a piece ends a run that has carried no byte. */
  lemma EmptyRunStays(cfg: Config, hs: seq<Piece>, cs: seq<Context>, p: Piece)
    requires Tracks(cfg, hs, cs) && p.segment.last && IsServed(HandlePiece(cfg, cs, p).0, p.segment.subStream)
    ensures Payloads(Tail(hs + [p], p.segment.subStream)) == []
  {
    hide Tail, Payloads, HandlePiece, IsServed;
    var sid := p.segment.subStream;
    LastReleasesExactly(cfg, cs, p);
    TailNext(hs, p, sid);
    PayloadsOfNothing();
    PayloadsNext([], p);
    assert [] + [p] == [p];
    if p.segment.sequence > 0 {
      assert TracksAt(cfg, hs, cs[Find(cs, sid, 0)]);
      PayloadsNext(Tail(hs, sid), p);
    }
  }

  lemma NotServed(cs: seq<Context>, subStream: nat)
    ensures IsServed(cs, subStream) <==> Find(cs, subStream, 0) < |cs|
  {}

  // ---------- Sixteen empty datagrams ----------

  /** A whole datagram of no bytes, in one segment. */
  function EmptyGram(subStream: nat): Piece {
    Piece(Segment(0, true, subStream), [])
  }

  /** The context that it leaves behind. */
  function Stuck(subStream: nat): Context {
    Context(true, subStream, 1, [])
  }

  /** The contexts after the pieces, one by one. */
  ghost function Handled(cfg: Config, cs: seq<Context>, ps: seq<Piece>): seq<Context> {
    var n := |ps|;
    if n == 0 then cs else HandlePiece(cfg, Handled(cfg, cs, ps[..n - 1]), ps[n - 1]).0
  }

  /** The empty datagram is not delivered and keeps its context, whatever the configuration. */
  lemma EmptyGramStays(cfg: Config, cs: seq<Context>, subStream: nat)
    requires Slot(cs, subStream) < |cs|
    ensures HandlePiece(cfg, cs, EmptyGram(subStream)) == (cs[Slot(cs, subStream) := Stuck(subStream)], Quiet)
  {
    hide Slot;
    var k := Slot(cs, subStream);
    var c := Context(true, subStream, 0, []);
    assert c.buffer + EmptyGram(subStream).payload == [];
    assert cs[k := c][k := Stuck(subStream)] == cs[k := Stuck(subStream)];
  }

  function Empties(subStreams: seq<nat>): (ps: seq<Piece>)
    ensures |ps| == |subStreams|
  {
    seq(|subStreams|, i requires 0 <= i < |subStreams| => EmptyGram(subStreams[i]))
  }

  ghost predicate AllDifferent(subStreams: seq<nat>) {
    forall i, j :: 0 <= i < j < |subStreams| ==> subStreams[i] != subStreams[j]
  }

  /** From contexts that are all free, each empty datagram takes the next one for good. */
  lemma {:induction false} EmptiesFill(cfg: Config, cs: seq<Context>, subStreams: seq<nat>)
    requires AllDifferent(subStreams) && |subStreams| <= |cs| && forall k :: 0 <= k < |cs| ==> !cs[k].active
    ensures var after := Handled(cfg, cs, Empties(subStreams));
            && |after| == |cs|
            && (forall k :: 0 <= k < |subStreams| ==> after[k] == Stuck(subStreams[k]))
            && (forall k :: |subStreams| <= k < |cs| ==> after[k] == cs[k])
    decreases |subStreams|
  {
    hide HandlePiece;
    var n := |subStreams|;
    if n > 0 {
      var front, s := subStreams[..n - 1], subStreams[n - 1];
      EmptiesFill(cfg, cs, front);
      assert Empties(subStreams)[..n - 1] == Empties(front);
      var before := Handled(cfg, cs, Empties(front));
      assert before[n - 1] == cs[n - 1];
      EmptyGramStays(cfg, before, s);
    }
  }

  /** Contexts that all serve other sub-streams refuse every piece of this one. */
  lemma FullRefuses(cfg: Config, cs: seq<Context>, p: Piece)
    requires forall k :: 0 <= k < |cs| ==> cs[k].active && cs[k].subStream != p.segment.subStream
    ensures HandlePiece(cfg, cs, p) == (cs, Failed)
  {
    hide Continue;
  }

  lemma {:induction false} FullStaysFull(cfg: Config, cs: seq<Context>, ps: seq<Piece>)
    requires forall k, i :: 0 <= k < |cs| && 0 <= i < |ps| ==> cs[k].subStream != ps[i].segment.subStream
    requires forall k :: 0 <= k < |cs| ==> cs[k].active
    ensures Handled(cfg, cs, ps) == cs
    decreases |ps|
  {
    hide HandlePiece;
    if |ps| > 0 {
      FullStaysFull(cfg, cs, ps[..|ps| - 1]);
      FullRefuses(cfg, cs, ps[|ps| - 1]);
    }
  }

  lemma {:induction false} HandledParts(cfg: Config, cs: seq<Context>, a: seq<Piece>, b: seq<Piece>)
    ensures Handled(cfg, cs, a + b) == Handled(cfg, Handled(cfg, cs, a), b)
    decreases |b|
  {
    hide HandlePiece;
    if |b| == 0 {
      assert a + b == a;
    } else {
      assert (a + b)[..|a + b| - 1] == a + b[..|b| - 1];
      HandledParts(cfg, cs, a, b[..|b| - 1]);
    }
  }

  /**
    Once sixteen sub-streams have each sent one empty datagram, complete and flagged last, every later piece
    of any other sub-stream fails, however many there are.
   */
  lemma SixteenEmptiesBlock(cfg: Config, cs: seq<Context>, subStreams: seq<nat>, later: seq<Piece>, p: Piece)
    requires |cs| == 16 && forall k :: 0 <= k < |cs| ==> !cs[k].active
    requires |subStreams| == 16 && AllDifferent(subStreams)
    requires forall i :: 0 <= i < |later| ==> later[i].segment.subStream !in subStreams
    requires p.segment.subStream !in subStreams
    ensures var before := Handled(cfg, cs, Empties(subStreams) + later);
            HandlePiece(cfg, before, p) == (before, Failed)
  {
    hide HandlePiece, Handled;
    EmptiesFill(cfg, cs, subStreams);
    HandledParts(cfg, cs, Empties(subStreams), later);
    var full := Handled(cfg, cs, Empties(subStreams));
    forall k | 0 <= k < |full|
      ensures full[k].active && full[k].subStream in subStreams
    {
      assert full[k] == Stuck(subStreams[k]);
    }
    FullStaysFull(cfg, full, later);
    FullRefuses(cfg, full, p);
  }

  // ---------- Which payloads are checked ----------

  /** A delivery whose payload ended in the check of the rest. */
  ghost predicate Checked(payload: seq<Byte>, data: seq<Byte>) {
    |payload| == |data| + 4 && CrcComputation.Accepts(payload) && payload[..|data|] == data
  }

  /**
    With checking on, what is accepted was checked exactly when it has four bytes or more; otherwise it stays
    whole.
   */
  lemma StripChecksExactly(cfg: Config, payload: seq<Byte>, data: seq<Byte>)
    requires cfg.checkCrc && Strip(cfg, payload) == Some(data)
    ensures Checked(payload, data) <==> |payload| >= 4
    ensures data == payload <==> |payload| < 4
  {}

  /** No payload of n bytes is delivered without passing its check. */
  ghost predicate Enforced(cfg: Config, n: nat) {
    forall payload: seq<Byte> :: |payload| == n && Direct(cfg, payload).Delivered? ==>
      Checked(payload, Direct(cfg, payload).data)
  }

  /**
    With checking on, the check is enforced for the payloads of one packet exactly when they are empty or have
    four bytes.
   */
  lemma EnforcedExactly(cfg: Config, n: nat)
    requires cfg.checkCrc && cfg.toIp
    ensures Enforced(cfg, n) <==> n == 0 || n >= 4
  {
    if n == 0 || n >= 4 {
      forall payload: seq<Byte> | |payload| == n && Direct(cfg, payload).Delivered?
        ensures Checked(payload, Direct(cfg, payload).data)
      {
        StripChecksExactly(cfg, payload, Direct(cfg, payload).data);
      }
    } else {
      var zeros: seq<Byte> := seq(n, _ => 0);
      assert Direct(cfg, zeros) == Delivered(zeros);
    }
  }

  /** Three bytes, no check at all, delivered. */
  lemma ThreeBytesPass(cfg: Config)
    requires cfg.checkCrc && cfg.toIp
    ensures Direct(cfg, [1, 2, 3]) == Delivered([1, 2, 3])
    ensures !CrcComputation.Accepts([1, 2, 3])
  {}

  /** The same for segmented datagrams: what a run delivers was checked exactly when it carried four bytes or more. */
  lemma RunChecksExactly(cfg: Config, hs: seq<Piece>, cs: seq<Context>, p: Piece)
    requires cfg.checkCrc && Tracks(cfg, hs, cs) && HandlePiece(cfg, cs, p).1.Delivered?
    ensures var carried := Payloads(Tail(hs + [p], p.segment.subStream));
            var data := HandlePiece(cfg, cs, p).1.data;
            && (Checked(carried, data) <==> |carried| >= 4)
            && (data == carried <==> |carried| < 4)
  {
    hide HandlePiece, Tracks, Tail, Payloads;
    PieceIsSound(cfg, hs, cs, p);
    var carried := Payloads(Tail(hs + [p], p.segment.subStream));
    StripChecksExactly(cfg, carried, HandlePiece(cfg, cs, p).1.data);
  }
}
