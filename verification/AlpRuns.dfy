/** Whole runs of the demultiplexer: soundness on arbitrary bytes, and the round trip of what senders encode. */
module AlpRuns {
  import opened Crc32
  import opened AlpHeaders
  import opened Sequences
  import opened AlpStreams
  import opened AlpReassembly
  import opened AlpRoundTrip
  import opened AlpDemultiplexer

  predicate IsIp(item: Item) {
    item.Packet? && (item.header.kind.Ipv4? || item.header.kind.Compressed?)
  }

  predicate IsPiece(item: Item) {
    IsIp(item) && item.header.form.Segmented?
  }

  function PieceOf(item: Item): Piece
    requires IsPiece(item)
  {
    Piece(item.header.form.segment, item.payload)
  }

  /** The segments of datagrams among the items. */
  function Pieces(items: seq<Item>): seq<Piece> {
    var n := |items|;
    if n == 0 then []
    else Pieces(items[..n - 1]) + (if IsPiece(items[n - 1]) then [PieceOf(items[n - 1])] else [])
  }

  lemma PiecesNext(items: seq<Item>, item: Item)
    ensures Pieces(items + [item]) == Pieces(items) + (if IsPiece(item) then [PieceOf(item)] else [])
  {
    assert (items + [item])[..|items|] == items;
  }

  ghost predicate Fresh(st: State) {
    && |st.contexts| == MAX_CONTEXTS
    && (forall k :: 0 <= k < |st.contexts| ==> !st.contexts[k].active)
    && st.stats == NO_STATS && st.output == []
  }

  // ---------- Counting ----------

  function One(b: bool): nat {
    if b then 1 else 0
  }

  predicate IsOf(item: Item, kind: Kind) {
    item.Packet? && item.header.kind == kind
  }

  /** The packets of a kind among the items. */
  function CountOf(items: seq<Item>, kind: Kind): nat {
    var n := |items|;
    if n == 0 then 0 else CountOf(items[..n - 1], kind) + One(IsOf(items[n - 1], kind))
  }

  /** From s to t one item was counted. */
  ghost predicate Counted(s: Stats, t: Stats, item: Item) {
    && t.headerErrors == s.headerErrors + One(!item.Packet?)
    && t.packetsReceived == s.packetsReceived + One(item.Packet?)
    && t.ipv4Packets == s.ipv4Packets + One(IsOf(item, Ipv4)) + One(IsOf(item, Compressed))
    && t.signalingPackets == s.signalingPackets + One(IsOf(item, Signaling))
    && t.tsPackets == s.tsPackets + One(IsOf(item, Mpeg2Ts))
    && t.extensionPackets == s.extensionPackets + One(IsOf(item, Extension))
    && t.fragmentsReceived == s.fragmentsReceived + One(IsPiece(item))
  }

  lemma ItemIsCounted(cfg: Config, plp: nat, st: State, item: Item)
    ensures Counted(st.stats, HandleItem(cfg, plp, st, item).stats, item)
  {
    hide HandlePiece, Direct, TsChunks;
  }

  /** Every item is counted once: header errors are the skipped bytes, the rest are packets of one of four sorts. */
  lemma {:induction false} CountsAreExact(cfg: Config, plp: nat, st: State, items: seq<Item>)
    ensures var (s, t) := (st.stats, Run(cfg, plp, st, items).stats);
            && t.headerErrors == s.headerErrors + Skips(items)
            && t.packetsReceived == s.packetsReceived + Packets(items)
            && t.ipv4Packets == s.ipv4Packets + CountOf(items, Ipv4) + CountOf(items, Compressed)
            && t.signalingPackets == s.signalingPackets + CountOf(items, Signaling)
            && t.tsPackets == s.tsPackets + CountOf(items, Mpeg2Ts)
            && t.extensionPackets == s.extensionPackets + CountOf(items, Extension)
            && t.fragmentsReceived == s.fragmentsReceived + |Pieces(items)|
    decreases |items|
  {
    hide HandleItem, IsPiece, Skips, IsOf;
    if |items| == 0 {
      SkipsOfNothing(items);
    } else {
      var front, item := items[..|items| - 1], items[|items| - 1];
      CountsAreExact(cfg, plp, st, front);
      ItemIsCounted(cfg, plp, Run(cfg, plp, st, front), item);
      assert items == front + [item];
      SkipsNext(front, item);
    }
  }

  /** The datagrams among the deliveries. */
  function IpCount(output: seq<Delivery>): nat {
    var n := |output|;
    if n == 0 then 0 else IpCount(output[..n - 1]) + One(output[n - 1].Ip?)
  }

  lemma {:induction false} IpCountConcat(a: seq<Delivery>, b: seq<Delivery>)
    ensures IpCount(a + b) == IpCount(a) + IpCount(b)
    decreases |b|
  {
    if |b| == 0 {
      assert a + b == a;
    } else {
      var n := |b| - 1;
      assert (a + b)[..|a| + n] == a + b[..n];
      IpCountConcat(a, b[..n]);
    }
  }

  lemma {:induction false} NoIpCount(output: seq<Delivery>)
    requires forall i :: 0 <= i < |output| ==> !output[i].Ip?
    ensures IpCount(output) == 0
    decreases |output|
  {
    if |output| > 0 {
      NoIpCount(output[..|output| - 1]);
    }
  }

  /** From st to after as many datagrams were counted as delivered. */
  ghost predicate CountsDatagrams(st: State, after: State) {
    after.stats.datagramsReassembled - st.stats.datagramsReassembled == IpCount(after.output) - IpCount(st.output)
  }

  lemma ApplyCounts(st: State, plp: nat, cs: seq<Context>, e: Event)
    ensures CountsDatagrams(st, Apply(st, plp, cs, e))
  {
    if e.Delivered? {
      assert (st.output + [Ip(plp, e.data)])[..|st.output|] == st.output;
    }
  }

  lemma OthersCount(st: State, stats: Stats, more: seq<Delivery>)
    requires stats.datagramsReassembled == st.stats.datagramsReassembled
    requires forall i :: 0 <= i < |more| ==> !more[i].Ip?
    ensures CountsDatagrams(st, State(st.contexts, stats, st.output + more))
  {
    IpCountConcat(st.output, more);
    NoIpCount(more);
  }

  lemma IpCounts(cfg: Config, plp: nat, st: State, h: Header, payload: seq<Byte>)
    ensures CountsDatagrams(st, HandleIp(cfg, plp, st, h, payload))
  {
    hide HandlePiece, Direct, Apply, IpCount;
    var st1 := st.(stats := st.stats.(ipv4Packets := st.stats.ipv4Packets + 1));
    if h.form.Segmented? {
      var st2 := st1.(stats := st1.stats.(fragmentsReceived := st1.stats.fragmentsReceived + 1));
      var (cs, e) := HandlePiece(cfg, st.contexts, Piece(h.form.segment, payload));
      ApplyCounts(st2, plp, cs, e);
    } else {
      ApplyCounts(st1, plp, st.contexts, Direct(cfg, payload));
    }
  }

  lemma StepCountsDatagrams(cfg: Config, plp: nat, st: State, item: Item)
    ensures CountsDatagrams(st, HandleItem(cfg, plp, st, item))
  {
    hide HandleIp, TsChunks, IpCount;
    if item.Packet? {
      var payload := item.payload;
      match item.header.kind
      case Ipv4 => IpCounts(cfg, plp, st, item.header, payload);
      case Compressed => IpCounts(cfg, plp, st, item.header, payload);
      case Signaling =>
        OthersCount(st, HandleSignaling(cfg, plp, st, payload).stats,
                    if cfg.toSignaling && |payload| > 0 then [Signal(plp, payload)] else []);
      case Mpeg2Ts =>
        TsOnly(plp, payload);
        OthersCount(st, HandleTs(cfg, plp, st, payload).stats, if cfg.toTs then TsChunks(plp, payload) else []);
      case Extension =>
    }
  }

  /** What became of an item that carries a datagram or a segment of one. */
  ghost function EventOf(cfg: Config, st: State, item: Item): Event
    requires IsIp(item)
  {
    if IsPiece(item) then HandlePiece(cfg, st.contexts, PieceOf(item)).1 else Direct(cfg, item.payload)
  }

  /** Each failed segment is one reassembly error, each failed check one CRC error, and nothing else is either. */
  lemma ErrorsAreCounted(cfg: Config, plp: nat, st: State, item: Item)
    ensures var (s, t) := (st.stats, HandleItem(cfg, plp, st, item).stats);
            && t.reassemblyErrors == s.reassemblyErrors + One(IsIp(item) && EventOf(cfg, st, item).Failed?)
            && t.crcErrors == s.crcErrors + One(IsIp(item) && EventOf(cfg, st, item).BadCrc?)
  {
    hide HandlePiece, Direct, TsChunks;
  }

  /** Every datagram delivered is counted as reassembled, and nothing else is. */
  lemma {:induction false} DatagramsAreCounted(cfg: Config, plp: nat, st: State, items: seq<Item>)
    ensures var after := Run(cfg, plp, st, items);
            after.stats.datagramsReassembled - st.stats.datagramsReassembled ==
            IpCount(after.output) - IpCount(st.output)
    decreases |items|
  {
    hide HandleItem, IpCount;
    if |items| > 0 {
      DatagramsAreCounted(cfg, plp, st, items[..|items| - 1]);
      StepCountsDatagrams(cfg, plp, Run(cfg, plp, st, items[..|items| - 1]), items[|items| - 1]);
    }
  }

  lemma SkipsOfNothing(items: seq<Item>)
    requires |items| == 0
    ensures Skips(items) == 0
  {}

  lemma {:induction false} SkipsNext(items: seq<Item>, item: Item)
    ensures Skips(items + [item]) == Skips(items) + One(!item.Packet?)
    decreases |items|
  {
    if |items| == 0 {
      assert items + [item] == [item];
      SkipsOfNothing([item][1..]);
    } else {
      assert (items + [item])[1..] == items[1..] + [item];
      SkipsNext(items[1..], item);
    }
  }

  /**
    One call on a buffer: the bytes of the packets found, the header errors counted and the bytes kept
    add up to the bytes of the buffer.
   */
  lemma BytesAreConserved(cfg: Config, plp: nat, st: State, buffer: seq<Byte>)
    ensures var s := Scan(buffer);
            var after := Run(cfg, plp, st, s.items);
            PacketBytes(s.items) + (after.stats.headerErrors - st.stats.headerErrors) + |s.rest| == |buffer|
  {
    hide Run, Scan, Skips, PacketBytes;
    NothingIsLost(buffer);
    CountsAreExact(cfg, plp, st, Scan(buffer).items);
  }

  /** The same over any number of calls: all bytes fed are those of packets, skipped ones, and those kept at the end. */
  lemma CallsConserveBytes(cfg: Config, plp: nat, st: State, chunks: seq<seq<Byte>>)
    ensures var (after, rest) := Calls(cfg, plp, st, chunks);
            var items := ScanChunks(chunks).items;
            && BytesOf(items) + rest == Concat(chunks)
            && PacketBytes(items) + (after.stats.headerErrors - st.stats.headerErrors) + |rest| == |Concat(chunks)|
            && after.stats.packetsReceived == st.stats.packetsReceived + Packets(items)
  {
    hide Run, Scan, ScanChunks, Skips, PacketBytes, BytesOf, Packets, Calls, Concat;
    NothingIsLostInCalls(chunks);
    CallsAreOneRun(cfg, plp, st, chunks);
    CountsAreExact(cfg, plp, st, ScanChunks(chunks).items);
  }

  // ---------- Soundness ----------

  /** Why a datagram was delivered when an item was handled. */
  ghost predicate Explains(cfg: Config, before: seq<Item>, item: Item, data: seq<Byte>) {
    && IsIp(item)
    && if IsPiece(item) then SoundEvent(cfg, Pieces(before), PieceOf(item), Delivered(data))
       else |item.payload| > 0 && Strip(cfg, item.payload) == Some(data)
  }

  /** Every datagram delivered has its reason among the items. */
  ghost predicate AllExplained(cfg: Config, items: seq<Item>, output: seq<Delivery>) {
    forall i :: 0 <= i < |output| && output[i].Ip? ==> Explained(cfg, items, output[i].data)
  }

  ghost predicate Explained(cfg: Config, items: seq<Item>, data: seq<Byte>) {
    exists n :: 0 <= n < |items| && Explains(cfg, items[..n], items[n], data)
  }

  lemma ExplainedLater(cfg: Config, items: seq<Item>, item: Item, data: seq<Byte>)
    requires Explained(cfg, items, data) || Explains(cfg, items, item, data)
    ensures Explained(cfg, items + [item], data)
  {
    var all := items + [item];
    if Explained(cfg, items, data) {
      var n :| 0 <= n < |items| && Explains(cfg, items[..n], items[n], data);
      assert all[..n] == items[..n] && all[n] == items[n];
    } else {
      assert all[..|items|] == items && all[|items|] == item;
    }
  }

  lemma TsOnly(plp: nat, payload: seq<Byte>)
    ensures forall i :: 0 <= i < |TsChunks(plp, payload)| ==> TsChunks(plp, payload)[i].Ts?
    decreases |payload|
  {
    if |payload| >= TS_PACKET_SIZE {
      TsOnly(plp, payload[TS_PACKET_SIZE..]);
    }
  }

  /** The datagrams a step delivers: one for an event, none for anything else. */
  lemma StepDelivers(cfg: Config, plp: nat, st: State, item: Item)
    ensures var after := HandleItem(cfg, plp, st, item);
            && st.output <= after.output
            && forall i :: |st.output| <= i < |after.output| && after.output[i].Ip? ==>
              IsIp(item) &&
              (if IsPiece(item) then HandlePiece(cfg, st.contexts, PieceOf(item)).1 == Delivered(after.output[i].data)
               else Direct(cfg, item.payload) == Delivered(after.output[i].data))
  {
    hide HandlePiece, Direct, TsChunks;
    if item.Packet? {
      TsOnly(plp, item.payload);
    }
  }

  lemma StepContexts(cfg: Config, plp: nat, st: State, item: Item)
    ensures HandleItem(cfg, plp, st, item).contexts ==
            if IsPiece(item) then HandlePiece(cfg, st.contexts, PieceOf(item)).0 else st.contexts
  {
    hide HandlePiece, Direct, TsChunks;
  }

  lemma DirectIsStripped(cfg: Config, payload: seq<Byte>)
    requires Direct(cfg, payload).Delivered?
    ensures |payload| > 0 && Strip(cfg, payload) == Some(Direct(cfg, payload).data)
  {
    hide Strip;
  }

  /**
    On arbitrary bytes, from a fresh demultiplexer: the contexts track their runs, and every datagram delivered
    is a checked payload of one packet or of one complete run of segments.
   */
  lemma {:induction false} RunIsSound(cfg: Config, plp: nat, st: State, items: seq<Item>)
    requires Fresh(st)
    ensures var after := Run(cfg, plp, st, items);
            Tracks(cfg, Pieces(items), after.contexts) && AllExplained(cfg, items, after.output)
  {
    hide Tail, HandlePiece, HandleItem, Direct, Explains, Explained, Strip, Payloads;
    if |items| > 0 {
      var front, item := items[..|items| - 1], items[|items| - 1];
      assert items == front + [item];
      RunIsSound(cfg, plp, st, front);
      var s := Run(cfg, plp, st, front);
      var after := HandleItem(cfg, plp, s, item);
      PiecesNext(front, item);
      StepContexts(cfg, plp, s, item);
      StepDelivers(cfg, plp, s, item);
      if IsPiece(item) {
        PieceIsSound(cfg, Pieces(front), s.contexts, PieceOf(item));
      } else {
        assert Pieces(front) + [] == Pieces(front);
      }
      forall i | 0 <= i < |after.output| && after.output[i].Ip?
        ensures Explained(cfg, items, after.output[i].data)
      {
        if i < |s.output| {
          assert after.output[i] == s.output[i];
        } else {
          StepExplains(cfg, front, s, item, after.output[i].data);
        }
        ExplainedLater(cfg, front, item, after.output[i].data);
      }
    }
  }

  lemma StepExplains(cfg: Config, front: seq<Item>, s: State, item: Item, data: seq<Byte>)
    requires Tracks(cfg, Pieces(front), s.contexts) && IsIp(item)
    requires if IsPiece(item) then HandlePiece(cfg, s.contexts, PieceOf(item)).1 == Delivered(data)
             else Direct(cfg, item.payload) == Delivered(data)
    ensures Explains(cfg, front, item, data)
  {
    hide Tracks, HandlePiece, Direct, SoundEvent;
    if IsPiece(item) {
      PieceIsSound(cfg, Pieces(front), s.contexts, PieceOf(item));
    } else {
      DirectIsStripped(cfg, item.payload);
    }
  }

  // ---------- Round trip ----------

  ghost function DeliveryOf(plp: nat, e: Event): seq<Delivery> {
    if e.Delivered? then [Ip(plp, e.data)] else []
  }

  /** What an item delivers that is not a segment: its own payload. */
  ghost function OwnDelivery(cfg: Config, plp: nat, item: Item): seq<Delivery> {
    match item
    case Skipped(_) => []
    case Packet(h, _, payload) =>
      match h.kind
      case Signaling => if cfg.toSignaling && |payload| > 0 then [Signal(plp, payload)] else []
      case Mpeg2Ts => if cfg.toTs then TsChunks(plp, payload) else []
      case Extension => []
      case _ => DeliveryOf(plp, Direct(cfg, payload))
  }

  /** What the pieces received so far mean an item to deliver. */
  ghost function Intended(cfg: Config, plp: nat, before: seq<Item>, item: Item): seq<Delivery> {
    if IsPiece(item) then DeliveryOf(plp, Expected(cfg, Pieces(before), PieceOf(item))) else OwnDelivery(cfg, plp, item)
  }

  ghost function AllIntended(cfg: Config, plp: nat, items: seq<Item>): seq<Delivery> {
    var n := |items|;
    if n == 0 then []
    else AllIntended(cfg, plp, items[..n - 1]) + Intended(cfg, plp, items[..n - 1], items[n - 1])
  }

  /** Every piece is the next of its datagram and finds room. */
  ghost predicate Orderly(cfg: Config, hs: seq<Piece>) {
    forall i :: 0 <= i < |hs| ==> InOrder(cfg, hs[..i], hs[i]) && HasRoom(hs[..i], hs[i])
  }

  lemma OrderlyLast(cfg: Config, hs: seq<Piece>, p: Piece)
    requires Orderly(cfg, hs + [p])
    ensures Orderly(cfg, hs) && InOrder(cfg, hs, p) && HasRoom(hs, p)
  {
    hide InOrder, HasRoom;
    var all := hs + [p];
    assert all[..|hs|] == hs && all[|hs|] == p;
    forall i | 0 <= i < |hs|
      ensures InOrder(cfg, hs[..i], hs[i]) && HasRoom(hs[..i], hs[i])
    {
      assert all[..i] == hs[..i] && all[i] == hs[i];
    }
  }

  /** An item whose piece is handled as expected adds what was intended and no reassembly error. */
  lemma StepAsIntended(cfg: Config, plp: nat, st: State, before: seq<Item>, item: Item)
    requires IsPiece(item) ==>
      HandlePiece(cfg, st.contexts, PieceOf(item)).1 == Expected(cfg, Pieces(before), PieceOf(item))
    ensures var after := HandleItem(cfg, plp, st, item);
            && after.output == st.output + Intended(cfg, plp, before, item)
            && after.stats.reassemblyErrors == st.stats.reassemblyErrors
  {
    hide HandlePiece, Strip, Carried, TsChunks, Pieces;
  }

  /**
    A fresh demultiplexer that receives orderly pieces delivers exactly what was intended, in order, without an
    error.
   */
  lemma {:induction false} RunAsIntended(cfg: Config, plp: nat, st: State, items: seq<Item>)
    requires Fresh(st) && Orderly(cfg, Pieces(items))
    ensures var after := Run(cfg, plp, st, items);
            && Mirrors(Pieces(items), after.contexts)
            && after.output == AllIntended(cfg, plp, items)
            && after.stats.reassemblyErrors == 0
    decreases |items|
  {
    hide HandleItem, HandlePiece, Intended, Orderly, InOrder, HasRoom, Current, Expected;
    if |items| == 0 {
    } else {
      var front, item := items[..|items| - 1], items[|items| - 1];
      assert items == front + [item];
      PiecesNext(front, item);
      assert Pieces(front) + [] == Pieces(front);
      if IsPiece(item) {
        OrderlyLast(cfg, Pieces(front), PieceOf(item));
      }
      RunAsIntended(cfg, plp, st, front);
      var s := Run(cfg, plp, st, front);
      if IsPiece(item) {
        PieceMirrors(cfg, Pieces(front), s.contexts, PieceOf(item));
      }
      StepContexts(cfg, plp, s, item);
      StepAsIntended(cfg, plp, s, front, item);
    }
  }

  /** Pieces that interleave sendable datagrams, at most sixteen open at a time, are orderly. */
  lemma {:induction false} InterleavedIsOrderly(cfg: Config, hs: seq<Piece>, sent: nat -> seq<seq<seq<Byte>>>)
    requires Interleaves(hs, sent) && AllHaveRoom(hs)
    requires forall subStream: nat :: AllSendable(cfg, sent(subStream))
    ensures Orderly(cfg, hs)
    decreases |hs|
  {
    hide Interleaves, AllSendable, InOrder, HasRoom;
    if |hs| > 0 {
      var front, p := hs[..|hs| - 1], hs[|hs| - 1];
      assert hs == front + [p];
      InterleavedInOrder(cfg, front, p, sent);
      forall i | 0 <= i < |front|
        ensures HasRoom(front[..i], front[i])
      {
        assert hs[..i] == front[..i] && hs[i] == front[i];
      }
      InterleavedIsOrderly(cfg, front, sent);
      forall i | 0 <= i < |hs|
        ensures InOrder(cfg, hs[..i], hs[i]) && HasRoom(hs[..i], hs[i])
      {
        if i < |front| {
          assert hs[..i] == front[..i] && hs[i] == front[i];
        }
      }
    }
  }

  // ---------- What the senders' datagrams deliver ----------

  /** A datagram without its check; one that consists of nothing else delivers nothing. */
  ghost function OfDatagram(cfg: Config, plp: nat, datagram: seq<Byte>): seq<Delivery> {
    match Strip(cfg, datagram)
    case None => []
    case Some(d) => if cfg.toIp && |d| > 0 then [Ip(plp, d)] else []
  }

  /** The n-th last piece of a sub-stream delivers the n-th datagram of its sender. */
  ghost function OfPiece(cfg: Config, plp: nat, sent: nat -> seq<seq<seq<Byte>>>, before: seq<Piece>,
                         p: Piece): seq<Delivery> {
    var s, n := p.segment.subStream, Ended(before, p.segment.subStream);
    if p.segment.last && n < |sent(s)| then OfDatagram(cfg, plp, Concat(sent(s)[n])) else []
  }

  /** The senders' datagrams, each where its last piece stands, among the payloads of the other packets. */
  ghost function SentOutput(cfg: Config, plp: nat, sent: nat -> seq<seq<seq<Byte>>>, items: seq<Item>): seq<Delivery> {
    var n := |items|;
    if n == 0 then []
    else
      var front, item := items[..n - 1], items[n - 1];
      SentOutput(cfg, plp, sent, front) +
      (if IsPiece(item) then OfPiece(cfg, plp, sent, Pieces(front), PieceOf(item)) else OwnDelivery(cfg, plp, item))
  }

  lemma PieceDeliversSent(cfg: Config, plp: nat, sent: nat -> seq<seq<seq<Byte>>>, hs: seq<Piece>, p: Piece)
    requires Interleaves(hs + [p], sent) && AllSendable(cfg, sent(p.segment.subStream))
    ensures DeliveryOf(plp, Expected(cfg, hs, p)) == OfPiece(cfg, plp, sent, hs, p)
  {
    hide Interleaves, AllSendable, Carried, Ended, Concat, Strip;
    if p.segment.last {
      CarriedIsSent(cfg, hs, p, sent);
    }
  }

  lemma InterleavesFront(hs: seq<Piece>, p: Piece, sent: nat -> seq<seq<seq<Byte>>>)
    requires Interleaves(hs + [p], sent)
    ensures Interleaves(hs, sent)
  {
    hide SplitAll, Only;
    forall s: nat
      ensures Only(hs, s) <= SplitAll(s, sent(s))
    {
      TailNext(hs, p, s);
      assert Only(hs + [p], s) <= SplitAll(s, sent(s));
    }
  }

  /** What the pieces intend is what the senders sent. */
  lemma {:induction false} IntendedIsSent(cfg: Config, plp: nat, sent: nat -> seq<seq<seq<Byte>>>, items: seq<Item>)
    requires Interleaves(Pieces(items), sent) && forall subStream: nat :: AllSendable(cfg, sent(subStream))
    ensures AllIntended(cfg, plp, items) == SentOutput(cfg, plp, sent, items)
    decreases |items|
  {
    hide Interleaves, AllSendable, Expected, OfPiece, OwnDelivery, DeliveryOf, Pieces;
    if |items| > 0 {
      var front, item := items[..|items| - 1], items[|items| - 1];
      assert items == front + [item];
      PiecesNext(front, item);
      if IsPiece(item) {
        PieceDeliversSent(cfg, plp, sent, Pieces(front), PieceOf(item));
        InterleavesFront(Pieces(front), PieceOf(item), sent);
      } else {
        assert Pieces(front) + [] == Pieces(front);
      }
      IntendedIsSent(cfg, plp, sent, front);
    }
  }

  lemma {:induction false} OutputOfPrefix(cfg: Config, plp: nat, sent: nat -> seq<seq<seq<Byte>>>, items: seq<Item>,
                                          i: nat)
    requires i <= |items|
    ensures SentOutput(cfg, plp, sent, items[..i]) <= SentOutput(cfg, plp, sent, items)
    decreases |items|
  {
    hide OfPiece, OwnDelivery, Pieces;
    if i == |items| {
      assert items[..i] == items;
    } else {
      var front := items[..|items| - 1];
      assert front[..i] == items[..i];
      OutputOfPrefix(cfg, plp, sent, front, i);
    }
  }

  lemma {:induction false} RunsCompose(cfg: Config, plp: nat, st: State, a: seq<Item>, b: seq<Item>)
    ensures Run(cfg, plp, Run(cfg, plp, st, a), b) == Run(cfg, plp, st, a + b)
    decreases |b|
  {
    hide HandleItem;
    if |b| == 0 {
      assert a + b == a;
    } else {
      assert (a + b)[..|a + b| - 1] == a + b[..|b| - 1];
      RunsCompose(cfg, plp, st, a, b[..|b| - 1]);
    }
  }

  /** The state and the buffered bytes after one call per chunk, each as AlpDemux.Process leaves them. */
  ghost function Calls(cfg: Config, plp: nat, st: State, chunks: seq<seq<Byte>>): (State, seq<Byte>) {
    var n := |chunks|;
    if n == 0 then (st, [])
    else
      var (before, rest) := Calls(cfg, plp, st, chunks[..n - 1]);
      var s := Scan(rest + chunks[n - 1]);
      (Run(cfg, plp, before, s.items), s.rest)
  }

  lemma {:induction false} CallsAreOneRun(cfg: Config, plp: nat, st: State, chunks: seq<seq<Byte>>)
    ensures var s := ScanChunks(chunks);
            Calls(cfg, plp, st, chunks) == (Run(cfg, plp, st, s.items), s.rest)
    decreases |chunks|
  {
    hide HandleItem, Scan;
    if |chunks| > 0 {
      var front := ScanChunks(chunks[..|chunks| - 1]);
      var s := Scan(front.rest + chunks[|chunks| - 1]);
      CallsAreOneRun(cfg, plp, st, chunks[..|chunks| - 1]);
      RunsCompose(cfg, plp, st, front.items, s.items);
    }
  }

  ghost predicate AllValid(ps: seq<Sent>) {
    forall i :: 0 <= i < |ps| ==> ValidSent(ps[i])
  }

  /**
    Divided anywhere but inside an extended header after its first byte, a stream of encoded packets is scanned
    whole.
   */
  lemma StreamArrives(ps: seq<Sent>, chunks: seq<seq<Byte>>)
    requires AllValid(ps) && Concat(chunks) == EncodeAll(ps)
    requires forall i :: 0 <= i < |chunks| ==> !InsideHeader(ps, |Concat(chunks[..i])|)
    ensures ScanChunks(chunks) == Scanned(AllReceived(ps), [])
  {
    hide Scan, ScanChunks, Cuts, InsideHeader;
    var items := AllReceived(ps);
    assert EncodeAll(ps) + [] == EncodeAll(ps);
    ScanOfEncoded(ps, []);
    ScanOfNothing();
    assert items + [] == items;
    forall i | 0 <= i < |chunks|
      ensures !Cuts(Concat(chunks[..i]))
    {
      ConcatPrefix(chunks, i);
      WhereDivisionsCut(ps, |Concat(chunks[..i])|);
    }
    ChunkingIsInvisible(chunks);
  }

  /**
    Encoded packets of interleaved senders of non-empty datagrams, at most sixteen open at a time,
    cut into calls anywhere but inside an extended header after its first byte.
   */
  ghost predicate Transmission(cfg: Config, ps: seq<Sent>, chunks: seq<seq<Byte>>, sent: nat -> seq<seq<seq<Byte>>>) {
    && AllValid(ps) && Concat(chunks) == EncodeAll(ps)
    && (forall i :: 0 <= i < |chunks| ==> !InsideHeader(ps, |Concat(chunks[..i])|))
    && Interleaves(Pieces(AllReceived(ps)), sent) && AllHaveRoom(Pieces(AllReceived(ps)))
    && forall subStream: nat :: AllSendable(cfg, sent(subStream))
  }

  /**
    A transmission reaches a fresh demultiplexer without a header error or a reassembly error, leaves nothing
    buffered, and delivers exactly the senders' datagrams, in order of completion.
   */
  lemma RoundTrip(cfg: Config, plp: nat, st: State, ps: seq<Sent>, chunks: seq<seq<Byte>>,
                  sent: nat -> seq<seq<seq<Byte>>>)
    requires Fresh(st) && Transmission(cfg, ps, chunks, sent)
    ensures var (after, rest) := Calls(cfg, plp, st, chunks);
            && rest == []
            && after.output == SentOutput(cfg, plp, sent, AllReceived(ps)) == AllIntended(cfg, plp, AllReceived(ps))
            && after.stats.headerErrors == 0 && after.stats.reassemblyErrors == 0
            && after.stats.packetsReceived == |ps|
  {
    hide Run, AllIntended, Scan, ScanChunks, Interleaves, AllHaveRoom, AllSendable, Pieces, InsideHeader, Calls,
      Concat, EncodeAll, SentOutput;
    var items := AllReceived(ps);
    StreamArrives(ps, chunks);
    InterleavedIsOrderly(cfg, Pieces(items), sent);
    RunAsIntended(cfg, plp, st, items);
    IntendedIsSent(cfg, plp, sent, items);
    CountsAreExact(cfg, plp, st, items);
    AllArePackets(items);
    CallsAreOneRun(cfg, plp, st, chunks);
  }

  /**
    Where the n-th last piece of a sub-stream stands, the output holds its sender's n-th datagram without its
    check.
   */
  lemma DatagramArrives(cfg: Config, plp: nat, st: State, ps: seq<Sent>, chunks: seq<seq<Byte>>,
                        sent: nat -> seq<seq<seq<Byte>>>, i: nat, d: seq<Byte>)
    requires Fresh(st) && Transmission(cfg, ps, chunks, sent) && cfg.toIp
    requires i < |ps| && IsPiece(Received(ps[i])) && PieceOf(Received(ps[i])).segment.last
    ensures var s := PieceOf(Received(ps[i])).segment.subStream;
            var before := AllReceived(ps)[..i];
            var (n, place) := (Ended(Pieces(before), s), |SentOutput(cfg, plp, sent, before)|);
            var output := Calls(cfg, plp, st, chunks).0.output;
            && n < |sent(s)|
            && (Strip(cfg, Concat(sent(s)[n])) == Some(d) && |d| > 0 ==>
                place < |output| && output[place] == Ip(plp, d))
  {
    hide AllIntended, AllHaveRoom, AllSendable, Pieces, InsideHeader, Calls, Concat, EncodeAll, Strip, Ended,
      Interleaves, SentOutput, IsPiece;
    RoundTrip(cfg, plp, st, ps, chunks, sent);
    StandsAt(cfg, plp, sent, AllReceived(ps), i, d);
  }

  lemma StandsAt(cfg: Config, plp: nat, sent: nat -> seq<seq<seq<Byte>>>, items: seq<Item>, i: nat, d: seq<Byte>)
    requires Interleaves(Pieces(items), sent) && forall subStream: nat :: AllSendable(cfg, sent(subStream))
    requires i < |items| && IsPiece(items[i]) && PieceOf(items[i]).segment.last && cfg.toIp
    ensures var s := PieceOf(items[i]).segment.subStream;
            var (n, place) := (Ended(Pieces(items[..i]), s), |SentOutput(cfg, plp, sent, items[..i])|);
            var output := SentOutput(cfg, plp, sent, items);
            && n < |sent(s)|
            && (Strip(cfg, Concat(sent(s)[n])) == Some(d) && |d| > 0 ==>
                place < |output| && output[place] == Ip(plp, d))
  {
    hide AllSendable, Pieces, Concat, Strip, Ended, Interleaves, SentOutput, IsPiece, Carried;
    var before := items[..i];
    assert items[..i + 1] == before + [items[i]];
    OutputOfPrefix(cfg, plp, sent, items, i + 1);
    OutputNext(cfg, plp, sent, before, items[i]);
    PiecesNext(before, items[i]);
    InterleavesPrefix(items, i + 1, sent);
    CarriedIsSent(cfg, Pieces(before), PieceOf(items[i]), sent);
  }

  lemma OutputNext(cfg: Config, plp: nat, sent: nat -> seq<seq<seq<Byte>>>, front: seq<Item>, item: Item)
    ensures SentOutput(cfg, plp, sent, front + [item]) == SentOutput(cfg, plp, sent, front) +
            (if IsPiece(item) then OfPiece(cfg, plp, sent, Pieces(front), PieceOf(item))
              else OwnDelivery(cfg, plp, item))
  {
    assert (front + [item])[..|front|] == front;
  }

  lemma {:induction false} InterleavesPrefix(items: seq<Item>, i: nat, sent: nat -> seq<seq<seq<Byte>>>)
    requires i <= |items| && Interleaves(Pieces(items), sent)
    ensures Interleaves(Pieces(items[..i]), sent)
    decreases |items|
  {
    hide Interleaves, Pieces;
    if i == |items| {
      assert items[..i] == items;
    } else {
      var front, item := items[..|items| - 1], items[|items| - 1];
      assert items == front + [item] && front[..i] == items[..i];
      PiecesNext(front, item);
      if IsPiece(item) {
        InterleavesFront(Pieces(front), PieceOf(item), sent);
      } else {
        assert Pieces(front) + [] == Pieces(front);
      }
      InterleavesPrefix(front, i, sent);
    }
  }

  lemma {:induction false} AllArePackets(items: seq<Item>)
    requires forall i :: 0 <= i < |items| ==> items[i].Packet?
    ensures Skips(items) == 0 && Packets(items) == |items|
    decreases |items|
  {
    if |items| == 0 {
      SkipsOfNothing(items);
    } else {
      var front, item := items[..|items| - 1], items[|items| - 1];
      assert items == front + [item];
      AllArePackets(front);
      SkipsNext(front, item);
    }
  }

  // ---------- What one sub-stream gets back ----------

  /** The datagrams that the pieces of one sub-stream deliver, in order. */
  ghost function DeliveredOn(cfg: Config, hs: seq<Piece>, subStream: nat): seq<seq<Byte>> {
    var n := |hs|;
    if n == 0 then []
    else
      var e := Expected(cfg, hs[..n - 1], hs[n - 1]);
      DeliveredOn(cfg, hs[..n - 1], subStream) +
      (if hs[n - 1].segment.subStream == subStream && e.Delivered? then [e.data] else [])
  }

  /** The datagrams without their checks; one that consists of nothing else delivers nothing. */
  ghost function Stripped(cfg: Config, grams: seq<seq<Byte>>): seq<seq<Byte>> {
    var n := |grams|;
    if n == 0 then []
    else
      Stripped(cfg, grams[..n - 1]) +
      (match Strip(cfg, grams[n - 1])
       case None => []
       case Some(d) => if |d| > 0 then [d] else [])
  }

  lemma {:induction false} DeliveredAreGrams(cfg: Config, hs: seq<Piece>, subStream: nat)
    requires cfg.toIp
    ensures DeliveredOn(cfg, hs, subStream) == Stripped(cfg, Grams(hs, subStream))
    decreases |hs|
  {
    hide Strip, Carried, Grams;
    if |hs| == 0 {
      NoGrams(hs, subStream);
    } else {
      var front, p := hs[..|hs| - 1], hs[|hs| - 1];
      assert hs == front + [p];
      DeliveredAreGrams(cfg, front, subStream);
      GramsNext(front, p, subStream);
      var g := Grams(front, subStream);
      assert (g + [Carried(front, p)])[..|g|] == g && g + [] == g;
    }
  }

  lemma NoGrams(hs: seq<Piece>, subStream: nat)
    requires |hs| == 0
    ensures Grams(hs, subStream) == []
  {}

  // ---------- The deliveries of one sub-stream in the output ----------

  /** The sub-stream that each delivery comes from; None for a packet that is not a segment. */
  ghost function Origins(cfg: Config, plp: nat, items: seq<Item>): (origins: seq<Option<nat>>)
    ensures |origins| == |AllIntended(cfg, plp, items)|
  {
    var n := |items|;
    if n == 0 then []
    else
      var front, item := items[..n - 1], items[n - 1];
      Origins(cfg, plp, front) +
      seq(|Intended(cfg, plp, front, item)|, _ => OriginOf(item))
  }

  /** The deliveries that come from the sub-stream, in order. */
  function From(output: seq<Delivery>, origins: seq<Option<nat>>, subStream: nat): seq<Delivery>
    requires |origins| == |output|
  {
    var n := |output|;
    if n == 0 then []
    else
      From(output[..n - 1], origins[..n - 1], subStream) +
      (if origins[n - 1] == Some(subStream) then [output[n - 1]] else [])
  }

  function Datagrams(plp: nat, ds: seq<seq<Byte>>): (r: seq<Delivery>)
    ensures |r| == |ds|
  {
    seq(|ds|, i requires 0 <= i < |ds| => Ip(plp, ds[i]))
  }

  lemma {:induction false} FromParts(a: seq<Delivery>, oa: seq<Option<nat>>, b: seq<Delivery>, ob: seq<Option<nat>>,
                                     subStream: nat)
    requires |oa| == |a| && |ob| == |b|
    ensures From(a + b, oa + ob, subStream) == From(a, oa, subStream) + From(b, ob, subStream)
    decreases |b|
  {
    var n := |b|;
    if n == 0 {
      assert a + b == a && oa + ob == oa;
    } else {
      FromParts(a, oa, b[..n - 1], ob[..n - 1], subStream);
      assert (a + b)[..|a + b| - 1] == a + b[..n - 1] && (oa + ob)[..|oa + ob| - 1] == oa + ob[..n - 1];
    }
  }

  /** Deliveries of one origin are all taken or all left. */
  lemma {:induction false} FromSame(a: seq<Delivery>, o: Option<nat>, subStream: nat)
    ensures From(a, seq(|a|, _ => o), subStream) == if o == Some(subStream) then a else []
    decreases |a|
  {
    var n := |a|;
    if n > 0 {
      FromSame(a[..n - 1], o, subStream);
      assert seq(n, _ => o)[..n - 1] == seq(n - 1, _ => o);
      assert a == a[..n - 1] + [a[n - 1]];
    }
  }

  ghost function OriginOf(item: Item): Option<nat> {
    if IsPiece(item) then Some(PieceOf(item).segment.subStream) else None
  }

  lemma OriginsNext(cfg: Config, plp: nat, front: seq<Item>, item: Item)
    ensures var step := Intended(cfg, plp, front, item);
            && AllIntended(cfg, plp, front + [item]) == AllIntended(cfg, plp, front) + step
            && Origins(cfg, plp, front + [item]) == Origins(cfg, plp, front) + seq(|step|, _ => OriginOf(item))
  {
    hide Intended;
    assert (front + [item])[..|front|] == front;
  }

  /** What one item adds to the deliveries of a sub-stream. */
  lemma StepFrom(cfg: Config, plp: nat, front: seq<Item>, item: Item, subStream: nat)
    ensures DeliveredOn(cfg, Pieces(front), subStream) <= DeliveredOn(cfg, Pieces(front + [item]), subStream)
    ensures (if OriginOf(item) == Some(subStream) then Intended(cfg, plp, front, item) else [])
         == Datagrams(plp, DeliveredOn(cfg, Pieces(front + [item]), subStream)
                           [|DeliveredOn(cfg, Pieces(front), subStream)|..])
  {
    hide Expected, OwnDelivery, Pieces, DeliveredOn;
    PiecesNext(front, item);
    if IsPiece(item) {
      DeliveredNext(cfg, Pieces(front), PieceOf(item), subStream);
    } else {
      assert Pieces(front) + [] == Pieces(front);
    }
  }

  lemma DatagramsConcat(plp: nat, a: seq<seq<Byte>>, b: seq<seq<Byte>>)
    requires a <= b
    ensures Datagrams(plp, b) == Datagrams(plp, a) + Datagrams(plp, b[|a|..])
  {}

  /** What the output holds from one sub-stream is what its pieces deliver. */
  lemma {:induction false} FromIsDelivered(cfg: Config, plp: nat, items: seq<Item>, subStream: nat)
    ensures From(AllIntended(cfg, plp, items), Origins(cfg, plp, items), subStream)
         == Datagrams(plp, DeliveredOn(cfg, Pieces(items), subStream))
    decreases |items|
  {
    hide Intended, From, Pieces, DeliveredOn, AllIntended, Origins, OriginOf, Datagrams;
    if |items| == 0 {
      NothingFrom(cfg, plp, items, subStream);
    } else {
      var front, item := items[..|items| - 1], items[|items| - 1];
      assert items == front + [item];
      var step := Intended(cfg, plp, front, item);
      FromIsDelivered(cfg, plp, front, subStream);
      OriginsNext(cfg, plp, front, item);
      FromSame(step, OriginOf(item), subStream);
      FromParts(AllIntended(cfg, plp, front), Origins(cfg, plp, front), step, seq(|step|, _ => OriginOf(item)),
        subStream);
      StepFrom(cfg, plp, front, item, subStream);
      DatagramsConcat(plp, DeliveredOn(cfg, Pieces(front), subStream), DeliveredOn(cfg, Pieces(items), subStream));
    }
  }

  lemma NothingFrom(cfg: Config, plp: nat, items: seq<Item>, subStream: nat)
    requires |items| == 0
    ensures From(AllIntended(cfg, plp, items), Origins(cfg, plp, items), subStream)
         == Datagrams(plp, DeliveredOn(cfg, Pieces(items), subStream))
  {}

  lemma DeliveredNext(cfg: Config, hs: seq<Piece>, p: Piece, subStream: nat)
    ensures DeliveredOn(cfg, hs + [p], subStream) ==
            DeliveredOn(cfg, hs, subStream) +
            (if p.segment.subStream == subStream && Expected(cfg, hs, p).Delivered?
             then [Expected(cfg, hs, p).data] else [])
  {
    assert (hs + [p])[..|hs|] == hs;
  }

  /** Once a sub-stream has been received whole, the output holds from it exactly its sender's datagrams, in order. */
  lemma DatagramsReturned(cfg: Config, plp: nat, st: State, items: seq<Item>, subStream: nat,
                          datagrams: seq<seq<seq<Byte>>>)
    requires Fresh(st) && Orderly(cfg, Pieces(items)) && cfg.toIp && AllSendable(cfg, datagrams)
    requires Only(Pieces(items), subStream) == SplitAll(subStream, datagrams)
    ensures var output := Run(cfg, plp, st, items).output;
            && |Origins(cfg, plp, items)| == |output|
            && From(output, Origins(cfg, plp, items), subStream) == Datagrams(plp, Stripped(cfg, Totals(datagrams)))
  {
    hide SplitAll, Grams, Totals, Stripped, DeliveredOn, AllSendable, Orderly, From, AllIntended, Run, Pieces;
    var hs := Pieces(items);
    RunAsIntended(cfg, plp, st, items);
    FromIsDelivered(cfg, plp, items, subStream);
    DeliveredAreGrams(cfg, hs, subStream);
    OnlyMatters(hs, subStream);
    GramsOfSplitAll(cfg, subStream, datagrams);
  }

  /** In a transmission, a sub-stream whose last piece has arrived has returned exactly its sender's datagrams. */
  lemma SubStreamArrives(cfg: Config, plp: nat, st: State, ps: seq<Sent>, chunks: seq<seq<Byte>>,
                         sent: nat -> seq<seq<seq<Byte>>>, subStream: nat)
    requires Fresh(st) && Transmission(cfg, ps, chunks, sent) && cfg.toIp
    requires Only(Pieces(AllReceived(ps)), subStream) == SplitAll(subStream, sent(subStream))
    ensures var output := Calls(cfg, plp, st, chunks).0.output;
            && |Origins(cfg, plp, AllReceived(ps))| == |output|
            && From(output, Origins(cfg, plp, AllReceived(ps)), subStream)
            == Datagrams(plp, Stripped(cfg, Totals(sent(subStream))))
  {
    hide AllIntended, AllHaveRoom, AllSendable, Pieces, InsideHeader, Calls, Concat, EncodeAll, Interleaves, SentOutput,
      SplitAll, Totals, Stripped, From, Run, Orderly;
    var items := AllReceived(ps);
    RoundTrip(cfg, plp, st, ps, chunks, sent);
    InterleavedIsOrderly(cfg, Pieces(items), sent);
    RunAsIntended(cfg, plp, st, items);
    DatagramsReturned(cfg, plp, st, items, subStream, sent(subStream));
  }
}
