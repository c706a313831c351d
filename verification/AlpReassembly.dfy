/** Reassembly of segmented datagrams in sixteen contexts. */
module AlpReassembly {
  import opened Crc32
  import CrcComputation
  import opened AlpHeaders
  import opened Sequences

  const MAX_CONTEXTS: nat := 16

  /** The sizes and checks configured, and which callbacks are registered. */
  datatype Config = Config(maxDatagramSize: nat, checkCrc: bool, toIp: bool, toSignaling: bool, toTs: bool)

  datatype Context = Context(active: bool, subStream: nat, expected: nat, buffer: seq<Byte>)

  /** One segment of a datagram, as received. */
  datatype Piece = Piece(segment: Segment, payload: seq<Byte>)

  /** What handling a piece leads to. */
  datatype Event = Quiet | Failed | BadCrc | Delivered(data: seq<Byte>)

  // ---------- Contexts ----------

  predicate Holds(c: Context, subStream: nat) {
    c.active && c.subStream == subStream
  }

  /** The first context from i on that holds the sub-stream; the number of contexts when none does. */
  function Find(cs: seq<Context>, subStream: nat, i: nat): (k: nat)
    requires i <= |cs|
    ensures i <= k <= |cs|
    ensures k < |cs| ==> Holds(cs[k], subStream)
    ensures forall j :: i <= j < k ==> !Holds(cs[j], subStream)
    decreases |cs| - i
  {
    if i == |cs| || Holds(cs[i], subStream) then i else Find(cs, subStream, i + 1)
  }

  function FirstFree(cs: seq<Context>, i: nat): (k: nat)
    requires i <= |cs|
    ensures i <= k <= |cs|
    ensures k < |cs| ==> !cs[k].active
    ensures forall j :: i <= j < k ==> cs[j].active
    decreases |cs| - i
  {
    if i == |cs| || !cs[i].active then i else FirstFree(cs, i + 1)
  }

  function Released(c: Context): (r: Context)
    ensures !r.active && r.buffer == [] && r.expected == 0 && r.subStream == c.subStream
  {
    Context(false, c.subStream, 0, [])
  }

  /** The context for a first segment: the sub-stream's own, else a free one, else none. */
  function Slot(cs: seq<Context>, subStream: nat): (k: nat)
    ensures k <= |cs|
    ensures k < |cs| ==>
              if exists j :: 0 <= j < |cs| && Holds(cs[j], subStream) then Holds(cs[k], subStream) else !cs[k].active
    ensures k == |cs| <==> forall j :: 0 <= j < |cs| ==> cs[j].active && cs[j].subStream != subStream
  {
    var k := Find(cs, subStream, 0);
    if k < |cs| then k else FirstFree(cs, 0)
  }

  // ---------- Handling one piece ----------

  /** The datagram without its check; None when the check fails. Fewer than four bytes carry no check. */
  ghost function Strip(cfg: Config, data: seq<Byte>): Option<seq<Byte>> {
    if cfg.checkCrc && |data| >= 4 then
      if CrcComputation.Accepts(data) then Some(data[..|data| - 4]) else None
    else Some(data)
  }

  ghost function Complete(cfg: Config, cs: seq<Context>, k: nat): (seq<Context>, Event)
    requires k < |cs|
  {
    var c := cs[k];
    if |c.buffer| == 0 then (cs, Quiet)
    else
      var released := cs[k := Released(c)];
      match Strip(cfg, c.buffer)
      case None => (released, BadCrc)
      case Some(d) => (released, if cfg.toIp && |d| > 0 then Delivered(d) else Quiet)
  }

  ghost function Continue(cfg: Config, cs: seq<Context>, k: nat, p: Piece): (seq<Context>, Event)
    requires k < |cs|
  {
    var c := cs[k];
    if p.segment.sequence != c.expected || |c.buffer| + |p.payload| > cfg.maxDatagramSize then
      (cs[k := Released(c)], Failed)
    else
      var cs' := cs[k := c.(buffer := c.buffer + p.payload, expected := c.expected + 1)];
      if p.segment.last then Complete(cfg, cs', k) else (cs', Quiet)
  }

  ghost function HandlePiece(cfg: Config, cs: seq<Context>, p: Piece): (seq<Context>, Event) {
    var sid := p.segment.subStream;
    if p.segment.sequence == 0 then
      var k := Slot(cs, sid);
      if k == |cs| then (cs, Failed) else Continue(cfg, cs[k := Context(true, sid, 0, [])], k, p)
    else
      var k := Find(cs, sid, 0);
      if k == |cs| then (cs, Failed) else Continue(cfg, cs, k, p)
  }

  // ---------- Runs of one sub-stream ----------

  function Payloads(ps: seq<Piece>): seq<Byte> {
    if |ps| == 0 then [] else Payloads(ps[..|ps| - 1]) + ps[|ps| - 1].payload
  }

  /** The pieces of one sub-stream. */
  function Only(hs: seq<Piece>, subStream: nat): seq<Piece> {
    var n := |hs|;
    if n == 0 then []
    else Only(hs[..n - 1], subStream) + (if hs[n - 1].segment.subStream == subStream then [hs[n - 1]] else [])
  }

  /** The sub-stream's pieces since its latest first segment, as long as they are numbered 0, 1, 2 and so on. */
  function Tail(hs: seq<Piece>, subStream: nat): seq<Piece> {
    var n := |hs|;
    if n == 0 then []
    else
      var t, p := Tail(hs[..n - 1], subStream), hs[n - 1];
      if p.segment.subStream != subStream then t
      else if p.segment.sequence == 0 then [p]
      else if |t| > 0 && p.segment.sequence == |t| then t + [p]
      else []
  }

  lemma TailNext(hs: seq<Piece>, p: Piece, subStream: nat)
    ensures Tail(hs + [p], subStream) ==
            if p.segment.subStream != subStream then Tail(hs, subStream)
            else if p.segment.sequence == 0 then [p]
            else if |Tail(hs, subStream)| > 0 && p.segment.sequence == |Tail(hs, subStream)|
              then Tail(hs, subStream) + [p]
            else []
    ensures Only(hs + [p], subStream) == Only(hs, subStream) + (if p.segment.subStream == subStream then [p] else [])
  {
    assert (hs + [p])[..|hs|] == hs;
  }

  lemma PayloadsNext(ps: seq<Piece>, p: Piece)
    ensures Payloads(ps + [p]) == Payloads(ps) + p.payload
  {
    assert (ps + [p])[..|ps|] == ps;
  }

  ghost predicate IsRun(t: seq<Piece>, subStream: nat) {
    forall j :: 0 <= j < |t| ==> t[j].segment.sequence == j && t[j].segment.subStream == subStream
  }

  predicate IsSuffix(t: seq<Piece>, s: seq<Piece>) {
    |t| <= |s| && t == s[|s| - |t|..]
  }

  lemma SuffixNext(t: seq<Piece>, s: seq<Piece>, p: Piece)
    requires IsSuffix(t, s)
    ensures IsSuffix(t + [p], s + [p]) && IsSuffix([p], s + [p]) && IsSuffix([], s + [p])
  {}

  /** A tail is a run: consecutive numbers from 0, and no other piece of the sub-stream in between. */
  lemma {:induction false} TailIsRun(hs: seq<Piece>, subStream: nat)
    ensures IsRun(Tail(hs, subStream), subStream) && IsSuffix(Tail(hs, subStream), Only(hs, subStream))
    decreases |hs|
  {
    hide Tail, Only, IsSuffix;
    if |hs| == 0 {
      TailOfNothing(hs, subStream);
    } else {
      var front, p := hs[..|hs| - 1], hs[|hs| - 1];
      TailIsRun(front, subStream);
      assert hs == front + [p];
      TailNext(front, p, subStream);
      SuffixNext(Tail(front, subStream), Only(front, subStream), p);
      assert Only(front, subStream) + [] == Only(front, subStream);
    }
  }

  lemma TailOfNothing(hs: seq<Piece>, subStream: nat)
    requires |hs| == 0
    ensures Tail(hs, subStream) == [] && IsSuffix(Tail(hs, subStream), Only(hs, subStream))
  {}

  ghost predicate Distinct(cs: seq<Context>) {
    forall i, j :: 0 <= i < j < |cs| && cs[i].active && cs[j].active ==> cs[i].subStream != cs[j].subStream
  }

  ghost predicate TracksAt(cfg: Config, hs: seq<Piece>, c: Context) {
    c.active ==>
      var t := Tail(hs, c.subStream);
      |t| > 0 && c.expected == |t| && c.buffer == Payloads(t) && |c.buffer| <= cfg.maxDatagramSize
  }

  /** Active contexts serve distinct sub-streams and hold exactly the payloads of their runs, within the size limit. */
  ghost predicate Tracks(cfg: Config, hs: seq<Piece>, cs: seq<Context>) {
    && |cs| == MAX_CONTEXTS
    && Distinct(cs)
    && forall k :: 0 <= k < |cs| ==> TracksAt(cfg, hs, cs[k])
  }

  lemma OnlyHolder(cs: seq<Context>, k: nat, subStream: nat)
    requires Distinct(cs) && k < |cs| && Holds(cs[k], subStream)
    ensures forall j :: 0 <= j < |cs| && j != k ==> !Holds(cs[j], subStream)
  {}

  /** Putting a context for a sub-stream that no other context holds keeps everything else. */
  lemma TracksUpdate(cfg: Config, hs: seq<Piece>, p: Piece, cs: seq<Context>, k: nat, c: Context)
    requires Tracks(cfg, hs, cs) && k < |cs|
    requires forall j :: 0 <= j < |cs| && j != k ==> !Holds(cs[j], p.segment.subStream)
    requires c.active ==> c.subStream == p.segment.subStream
    requires TracksAt(cfg, hs + [p], c)
    ensures Tracks(cfg, hs + [p], cs[k := c])
  {
    var sid := p.segment.subStream;
    var after := cs[k := c];
    forall j | 0 <= j < |after|
      ensures TracksAt(cfg, hs + [p], after[j])
    {
      if j != k && cs[j].active {
        assert TracksAt(cfg, hs, cs[j]);
        TailNext(hs, p, cs[j].subStream);
      }
    }
  }

  ghost predicate SoundEvent(cfg: Config, hs: seq<Piece>, p: Piece, e: Event) {
    e.Delivered? ==>
      && p.segment.last
      && var t := Tail(hs + [p], p.segment.subStream);
      && |t| > 0 && t[|t| - 1] == p
      && Strip(cfg, Payloads(t)) == Some(e.data) && |e.data| > 0
  }

  lemma CompleteIsSound(cfg: Config, hs: seq<Piece>, cs: seq<Context>, k: nat, p: Piece, t: seq<Piece>)
    requires Tracks(cfg, hs, cs) && k < |cs| && p.segment.last
    requires forall j :: 0 <= j < |cs| && j != k ==> !Holds(cs[j], p.segment.subStream)
    requires Tail(hs + [p], p.segment.subStream) == t + [p] && |Payloads(t + [p])| <= cfg.maxDatagramSize
    ensures var c := Context(true, p.segment.subStream, |t| + 1, Payloads(t + [p]));
            var (cs', e) := Complete(cfg, cs[k := c], k);
            Tracks(cfg, hs + [p], cs') && SoundEvent(cfg, hs, p, e)
  {
    hide Tracks, Tail, Payloads, Strip;
    var c := Context(true, p.segment.subStream, |t| + 1, Payloads(t + [p]));
    assert cs[k := c][k := Released(c)] == cs[k := Released(c)];
    TracksUpdate(cfg, hs, p, cs, k, c);
    TracksUpdate(cfg, hs, p, cs, k, Released(c));
  }

  lemma ContinueIsSound(cfg: Config, hs: seq<Piece>, cs: seq<Context>, k: nat, p: Piece, t: seq<Piece>)
    requires Tracks(cfg, hs, cs) && k < |cs|
    requires forall j :: 0 <= j < |cs| && j != k ==> !Holds(cs[j], p.segment.subStream)
    requires t == if p.segment.sequence == 0 then [] else Tail(hs, p.segment.subStream)
    requires p.segment.sequence > 0 ==> |t| > 0
    ensures var c := Context(true, p.segment.subStream, |t|, Payloads(t));
            var (cs', e) := Continue(cfg, cs[k := c], k, p);
            Tracks(cfg, hs + [p], cs') && SoundEvent(cfg, hs, p, e)
  {
    hide Tracks, Tail, Payloads, Complete;
    var sid := p.segment.subStream;
    var c := Context(true, sid, |t|, Payloads(t));
    var next := Context(true, sid, |t| + 1, Payloads(t) + p.payload);
    TailNext(hs, p, sid);
    PayloadsNext(t, p);
    assert cs[k := c][k := Released(c)] == cs[k := Released(c)];
    assert cs[k := c][k := next] == cs[k := next];
    TracksUpdate(cfg, hs, p, cs, k, Released(c));
    if p.segment.sequence == |t| && |next.buffer| <= cfg.maxDatagramSize {
      assert Tail(hs + [p], sid) == t + [p];
      if p.segment.last {
        CompleteIsSound(cfg, hs, cs, k, p, t);
      } else {
        TracksUpdate(cfg, hs, p, cs, k, next);
      }
    }
  }

  /** A piece that finds no context changes none. */
  lemma RefusedIsSound(cfg: Config, hs: seq<Piece>, cs: seq<Context>, p: Piece)
    requires Tracks(cfg, hs, cs)
    requires forall j :: 0 <= j < |cs| ==> !Holds(cs[j], p.segment.subStream)
    ensures Tracks(cfg, hs + [p], cs)
  {
    hide Tail;
    forall j | 0 <= j < |cs|
      ensures TracksAt(cfg, hs + [p], cs[j])
    {
      TailNext(hs, p, cs[j].subStream);
      assert TracksAt(cfg, hs, cs[j]);
    }
  }

  /**
    One piece keeps the contexts on track, and what is delivered is a completed run of its sub-stream,
    ended by a piece flagged last, with its check verified and removed.
   */
  lemma PieceIsSound(cfg: Config, hs: seq<Piece>, cs: seq<Context>, p: Piece)
    requires Tracks(cfg, hs, cs)
    ensures var (cs', e) := HandlePiece(cfg, cs, p);
            Tracks(cfg, hs + [p], cs') && SoundEvent(cfg, hs, p, e)
  {
    hide Tail, Payloads, Continue;
    var sid := p.segment.subStream;
    var k := Find(cs, sid, 0);
    if k < |cs| {
      OnlyHolder(cs, k, sid);
      assert TracksAt(cfg, hs, cs[k]);
      if p.segment.sequence > 0 {
        var t := Tail(hs, sid);
        assert cs[k := Context(true, sid, |t|, Payloads(t))] == cs;
        ContinueIsSound(cfg, hs, cs, k, p, t);
      }
    } else {
      RefusedIsSound(cfg, hs, cs, p);
    }
    if p.segment.sequence == 0 && Slot(cs, sid) < |cs| {
      PayloadsOfNothing();
      ContinueIsSound(cfg, hs, cs, Slot(cs, sid), p, []);
    }
  }

  lemma PayloadsOfNothing()
    ensures Payloads([]) == []
  {}
}
