/** The link-layer demultiplexer: its state, its methods, and whole runs of it. */
module AlpDemultiplexer {
  import opened Crc32
  import CrcComputation
  import CrcTable
  import opened AlpHeaders
  import opened Sequences
  import opened AlpStreams
  import opened AlpReassembly

  const TS_PACKET_SIZE: nat := 188

  datatype Stats = Stats(packetsReceived: nat, ipv4Packets: nat, signalingPackets: nat, extensionPackets: nat,
                         tsPackets: nat, fragmentsReceived: nat, datagramsReassembled: nat, reassemblyErrors: nat,
                         crcErrors: nat, headerErrors: nat)

  const NO_STATS := Stats(0, 0, 0, 0, 0, 0, 0, 0, 0, 0)

  /** What a callback was given. */
  datatype Delivery = Ip(plp: nat, data: seq<Byte>) | Signal(plp: nat, data: seq<Byte>) | Ts(plp: nat, data: seq<Byte>)

  datatype State = State(contexts: seq<Context>, stats: Stats, output: seq<Delivery>)

  // ---------- What one item does ----------

  ghost function Apply(st: State, plp: nat, cs: seq<Context>, e: Event): State {
    match e
    case Quiet => st.(contexts := cs)
    case Failed => State(cs, st.stats.(reassemblyErrors := st.stats.reassemblyErrors + 1), st.output)
    case BadCrc => State(cs, st.stats.(crcErrors := st.stats.crcErrors + 1), st.output)
    case Delivered(d) =>
      State(cs, st.stats.(datagramsReassembled := st.stats.datagramsReassembled + 1), st.output + [Ip(plp, d)])
  }

  /** A datagram that came in one packet. */
  ghost function Direct(cfg: Config, payload: seq<Byte>): Event {
    if !cfg.toIp || |payload| == 0 then Quiet
    else match Strip(cfg, payload)
      case None => BadCrc
      case Some(d) => Delivered(d)
  }

  ghost function HandleIp(cfg: Config, plp: nat, st: State, h: Header, payload: seq<Byte>): State {
    var st1 := st.(stats := st.stats.(ipv4Packets := st.stats.ipv4Packets + 1));
    if h.form.Segmented? then
      var st2 := st1.(stats := st1.stats.(fragmentsReceived := st1.stats.fragmentsReceived + 1));
      var (cs, e) := HandlePiece(cfg, st.contexts, Piece(h.form.segment, payload));
      Apply(st2, plp, cs, e)
    else Apply(st1, plp, st.contexts, Direct(cfg, payload))
  }

  ghost function HandleSignaling(cfg: Config, plp: nat, st: State, payload: seq<Byte>): State {
    State(st.contexts, st.stats.(signalingPackets := st.stats.signalingPackets + 1),
          st.output + (if cfg.toSignaling && |payload| > 0 then [Signal(plp, payload)] else []))
  }

  /** The whole transport-stream packets of a payload; a shorter remainder is dropped. */
  function TsChunks(plp: nat, payload: seq<Byte>): seq<Delivery>
    decreases |payload|
  {
    if |payload| < TS_PACKET_SIZE then []
    else [Ts(plp, payload[..TS_PACKET_SIZE])] + TsChunks(plp, payload[TS_PACKET_SIZE..])
  }

  /** The chunks are the payload's 188-byte pieces, in order; fewer than 188 bytes at its end are dropped. */
  lemma {:induction false} TsChunksAre(plp: nat, payload: seq<Byte>, i: nat)
    ensures |TsChunks(plp, payload)| == |payload| / 188
    ensures i < |payload| / 188 ==>
              && 188 * i + 188 <= |payload| && i < |TsChunks(plp, payload)|
              && TsChunks(plp, payload)[i] == Ts(plp, payload[188 * i..188 * i + 188])
    decreases |payload|
  {
    if |payload| >= 188 {
      TsChunksAre(plp, payload[188..], if i == 0 then 0 else i - 1);
    }
  }

  ghost function HandleTs(cfg: Config, plp: nat, st: State, payload: seq<Byte>): State {
    State(st.contexts, st.stats.(tsPackets := st.stats.tsPackets + 1),
          st.output + (if cfg.toTs then TsChunks(plp, payload) else []))
  }

  ghost function HandlePacket(cfg: Config, plp: nat, st: State, h: Header, payload: seq<Byte>): State {
    match h.kind
    case Ipv4 => HandleIp(cfg, plp, st, h, payload)
    case Compressed => HandleIp(cfg, plp, st, h, payload)
    case Signaling => HandleSignaling(cfg, plp, st, payload)
    case Mpeg2Ts => HandleTs(cfg, plp, st, payload)
    case Extension => st.(stats := st.stats.(extensionPackets := st.stats.extensionPackets + 1))
  }

  ghost function HandleItem(cfg: Config, plp: nat, st: State, item: Item): State {
    match item
    case Skipped(_) => st.(stats := st.stats.(headerErrors := st.stats.headerErrors + 1))
    case Packet(h, _, payload) =>
      var st' := HandlePacket(cfg, plp, st, h, payload);
      st'.(stats := st'.stats.(packetsReceived := st'.stats.packetsReceived + 1))
  }

  ghost function Run(cfg: Config, plp: nat, st: State, items: seq<Item>): State {
    var n := |items|;
    if n == 0 then st else HandleItem(cfg, plp, Run(cfg, plp, st, items[..n - 1]), items[n - 1])
  }

  lemma RunNext(cfg: Config, plp: nat, st: State, items: seq<Item>, item: Item)
    ensures Run(cfg, plp, st, items + [item]) == HandleItem(cfg, plp, Run(cfg, plp, st, items), item)
  {
    assert (items + [item])[..|items|] == items;
  }

  function Packets(items: seq<Item>): nat {
    var n := |items|;
    if n == 0 then 0 else Packets(items[..n - 1]) + (if items[n - 1].Packet? then 1 else 0)
  }

  lemma AfterNothing(s: Scanned)
    ensures After([], s) == s
  {}

  lemma AfterStop(items: seq<Item>, rest: seq<Byte>)
    ensures After(items, Scanned([], rest)) == Scanned(items, rest)
  {}

  lemma AfterSnoc(items: seq<Item>, item: Item, s: Scanned)
    ensures After(items, Cons(item, s)) == After(items + [item], s)
    ensures Packets(items + [item]) == Packets(items) + (if item.Packet? then 1 else 0)
  {
    assert items + [item] + s.items == items + ([item] + s.items);
    assert (items + [item])[..|items|] == items;
  }

  lemma RunOfNothing(cfg: Config, plp: nat, st: State)
    ensures Run(cfg, plp, st, []) == st && Packets([]) == 0
  {}

  /** One step of the loop: an invalid header at the offset. */
  lemma SkipHere(cfg: Config, plp: nat, start: State, all: seq<Byte>, items: seq<Item>, offset: nat, st: State)
    requires offset + 2 <= |all| && Scan(all) == After(items, Scan(all[offset..])) && Parse(all[offset..]).None?
    requires st == Run(cfg, plp, start, items)
    ensures var next := items + [Skipped(all[offset..][0])];
            && Scan(all) == After(next, Scan(all[offset + 1..])) && Packets(next) == Packets(items)
            && Run(cfg, plp, start, next) == st.(stats := st.stats.(headerErrors := st.stats.headerErrors + 1))
  {
    hide Parse, Scan, After, Cons, Packets, Run;
    var here := all[offset..];
    ScanSkips(here);
    assert here[1..] == all[offset + 1..];
    AfterSnoc(items, Skipped(here[0]), Scan(here[1..]));
    RunNext(cfg, plp, start, items, Skipped(here[0]));
  }

  /** One step of the loop: a complete packet at the offset. */
  lemma TakeHere(cfg: Config, plp: nat, start: State, all: seq<Byte>, items: seq<Item>, offset: nat, h: Header,
                 st: State)
    requires offset + Total(h) <= |all| && 2 <= |all| - offset
    requires Scan(all) == After(items, Scan(all[offset..])) && Parse(all[offset..]) == Some(h)
    requires st == Run(cfg, plp, start, items)
    ensures var next := items + [FirstPacket(h, all[offset..])];
            var after := HandlePacket(cfg, plp, st, h, all[offset + HeaderBytes(h.form)..offset + Total(h)]);
            && Scan(all) == After(next, Scan(all[offset + Total(h)..])) && Packets(next) == Packets(items) + 1
            && Run(cfg, plp, start, next)
               == after.(stats := after.stats.(packetsReceived := after.stats.packetsReceived + 1))
  {
    hide Parse, Scan, After, Cons, Packets, Run, HandlePacket;
    var here := all[offset..];
    var item := FirstPacket(h, here);
    ScanTakes(here, h);
    assert here[Total(h)..] == all[offset + Total(h)..];
    assert here[HeaderBytes(h.form)..Total(h)] == all[offset + HeaderBytes(h.form)..offset + Total(h)];
    AfterSnoc(items, item, Scan(here[Total(h)..]));
    RunNext(cfg, plp, start, items, item);
  }

  // ---------- Flushing ----------

  predicate IsPending(c: Context) {
    c.active && |c.buffer| > 0
  }

  /** The contexts after the first n have been flushed: an incomplete datagram is dropped, an empty one stays open. */
  function Flushed(cs: seq<Context>, n: nat): (r: seq<Context>)
    requires n <= |cs|
    ensures |r| == |cs|
  {
    if n == 0 then cs
    else
      var before := Flushed(cs, n - 1);
      if IsPending(cs[n - 1]) then before[n - 1 := cs[n - 1].(active := false, buffer := [])] else before
  }

  function Pending(cs: seq<Context>, n: nat): nat
    requires n <= |cs|
  {
    if n == 0 then 0 else Pending(cs, n - 1) + (if IsPending(cs[n - 1]) then 1 else 0)
  }

  lemma {:induction false} PendingIsCount(cs: seq<Context>, n: nat)
    requires n <= |cs|
    ensures Pending(cs, n) == |set k | 0 <= k < n && cs[k].active && |cs[k].buffer| > 0|
  {
    var now := set k | 0 <= k < n && cs[k].active && |cs[k].buffer| > 0;
    if n == 0 {
      assert now == {};
    } else {
      PendingIsCount(cs, n - 1);
      var before := set k | 0 <= k < n - 1 && cs[k].active && |cs[k].buffer| > 0;
      assert now == before + (if IsPending(cs[n - 1]) then {n - 1} else {});
    }
  }

  lemma {:induction false} FlushedAt(cs: seq<Context>, n: nat)
    requires n <= |cs|
    ensures forall k :: 0 <= k < |cs| ==>
              Flushed(cs, n)[k] == if k < n && IsPending(cs[k]) then cs[k].(active := false, buffer := []) else cs[k]
  {
    if n > 0 {
      FlushedAt(cs, n - 1);
    }
  }

  // ---------- The demultiplexer ----------

  class AlpDemux {
    const cfg: Config
    const table: seq<Word>
    const reassembly: array<Context>
    var inputBuffer: seq<Byte>
    var stats: Stats
    var output: seq<Delivery>

    ghost predicate Ready() {
      reassembly.Length == MAX_CONTEXTS && CrcComputation.IsTable(table)
    }

    /** Between calls the buffer holds nothing that could be handled. */
    ghost predicate Valid()
      reads this
    {
      Ready() && Scan(inputBuffer) == Scanned([], inputBuffer)
    }

    ghost function Abs(): State
      reads this, reassembly
    {
      State(reassembly[..], stats, output)
    }

    constructor (cfg: Config)
      ensures Valid() && fresh(reassembly) && this.cfg == cfg
      ensures inputBuffer == [] && stats == Stats(0, 0, 0, 0, 0, 0, 0, 0, 0, 0) && output == []
      ensures reassembly.Length == 16 && forall k :: 0 <= k < reassembly.Length ==> !reassembly[k].active
    {
      this.cfg := cfg;
      inputBuffer, stats, output := [], NO_STATS, [];
      reassembly := new Context[MAX_CONTEXTS](_ => Context(false, 0, 0, []));
      table := CrcTable.ConstantTable();
      ScanOfNothing();
    }

    method FindReassemblyContext(subStream: nat) returns (k: nat)
      ensures k == Find(reassembly[..], subStream, 0)
    {
      k := 0;
      while k < reassembly.Length
        invariant k <= reassembly.Length
        invariant Find(reassembly[..], subStream, 0) == Find(reassembly[..], subStream, k)
      {
        if reassembly[k].active && reassembly[k].subStream == subStream {
          return;
        }
        k := k + 1;
      }
    }

    method GetReassemblyContext(subStream: nat) returns (k: nat)
      modifies reassembly
      ensures k == Slot(old(reassembly[..]), subStream)
      ensures k < reassembly.Length ==>
                var c := Context(true, subStream, 0, []);
                reassembly[..][k := c] == old(reassembly[..])[k := c]
      ensures k == reassembly.Length ==> reassembly[..] == old(reassembly[..])
    {
      k := FindReassemblyContext(subStream);
      if k < reassembly.Length {
        return;
      }
      k := 0;
      while k < reassembly.Length
        invariant k <= reassembly.Length
        invariant reassembly[..] == old(reassembly[..])
        invariant FirstFree(reassembly[..], 0) == FirstFree(reassembly[..], k)
      {
        if !reassembly[k].active {
          reassembly[k] := Context(true, subStream, 0, []);
          return;
        }
        k := k + 1;
      }
    }

    method ReleaseReassemblyContext(k: nat)
      requires k < reassembly.Length
      modifies reassembly
      ensures reassembly[..] == old(reassembly[..])[k := Released(old(reassembly[k]))]
    {
      reassembly[k] := reassembly[k].(active := false, buffer := [], expected := 0);
    }

    method CompleteReassembly(plp: nat, k: nat)
      requires Ready() && k < reassembly.Length
      modifies this`stats, this`output, reassembly
      ensures var (cs, e) := Complete(cfg, old(reassembly[..]), k); Abs() == Apply(old(Abs()), plp, cs, e)
    {
      hide CrcComputation.Accepts;
      var data := reassembly[k].buffer;
      if |data| == 0 {
        return;
      }
      if cfg.checkCrc && |data| >= 4 {
        var ok := CrcComputation.VerifyCrc(table, data);
        if !ok {
          stats := stats.(crcErrors := stats.crcErrors + 1);
          ReleaseReassemblyContext(k);
          return;
        }
        data := data[..|data| - 4];
      }
      if cfg.toIp && |data| > 0 {
        output := output + [Ip(plp, data)];
        stats := stats.(datagramsReassembled := stats.datagramsReassembled + 1);
      }
      ReleaseReassemblyContext(k);
    }

    method AppendPiece(plp: nat, k: nat, p: Piece)
      requires Ready() && k < reassembly.Length
      modifies this`stats, this`output, reassembly
      ensures var (cs, e) := Continue(cfg, old(reassembly[..]), k, p); Abs() == Apply(old(Abs()), plp, cs, e)
    {
      hide Complete, CrcComputation.IsTable;
      var c := reassembly[k];
      ghost var before := reassembly[..];
      if p.segment.sequence != c.expected || |c.buffer| + |p.payload| > cfg.maxDatagramSize {
        stats := stats.(reassemblyErrors := stats.reassemblyErrors + 1);
        ReleaseReassemblyContext(k);
        return;
      }
      reassembly[k] := c.(buffer := c.buffer + p.payload, expected := c.expected + 1);
      assert reassembly[..] == before[k := c.(buffer := c.buffer + p.payload, expected := c.expected + 1)];
      if p.segment.last {
        CompleteReassembly(plp, k);
      }
    }

    method HandleSegment(plp: nat, segment: Segment, payload: seq<Byte>)
      requires Ready()
      modifies this`stats, this`output, reassembly
      ensures var (cs, e) := HandlePiece(cfg, old(reassembly[..]), Piece(segment, payload));
              Abs() == Apply(old(Abs()), plp, cs, e)
    {
      hide Continue, Find, FirstFree;
      var k: nat;
      ghost var before := reassembly[..];
      if segment.sequence == 0 {
        k := GetReassemblyContext(segment.subStream);
        if k == reassembly.Length {
          stats := stats.(reassemblyErrors := stats.reassemblyErrors + 1);
          return;
        }
        reassembly[k] := Context(true, segment.subStream, 0, []);
        assert reassembly[..] == before[k := Context(true, segment.subStream, 0, [])];
      } else {
        k := FindReassemblyContext(segment.subStream);
        if k == reassembly.Length {
          stats := stats.(reassemblyErrors := stats.reassemblyErrors + 1);
          return;
        }
      }
      AppendPiece(plp, k, Piece(segment, payload));
    }

    method HandleIpv4Packet(plp: nat, h: Header, payload: seq<Byte>)
      requires Ready()
      modifies this`stats, this`output, reassembly
      ensures Abs() == HandleIp(cfg, plp, old(Abs()), h, payload)
    {
      hide CrcComputation.Accepts, HandlePiece;
      stats := stats.(ipv4Packets := stats.ipv4Packets + 1);
      if h.form.Segmented? {
        stats := stats.(fragmentsReceived := stats.fragmentsReceived + 1);
        HandleSegment(plp, h.form.segment, payload);
      } else if cfg.toIp && |payload| > 0 {
        var length := |payload|;
        if cfg.checkCrc && length >= 4 {
          var ok := CrcComputation.VerifyCrc(table, payload);
          if !ok {
            stats := stats.(crcErrors := stats.crcErrors + 1);
            return;
          }
          length := length - 4;
        }
        assert payload[..|payload|] == payload;
        output := output + [Ip(plp, payload[..length])];
        stats := stats.(datagramsReassembled := stats.datagramsReassembled + 1);
      }
    }

    method HandleSignalingPacket(plp: nat, payload: seq<Byte>)
      modifies this`stats, this`output
      ensures Abs() == HandleSignaling(cfg, plp, old(Abs()), payload)
    {
      stats := stats.(signalingPackets := stats.signalingPackets + 1);
      if cfg.toSignaling && |payload| > 0 {
        output := output + [Signal(plp, payload)];
      }
    }

    method HandleTsPacket(plp: nat, payload: seq<Byte>)
      modifies this`stats, this`output
      ensures Abs() == HandleTs(cfg, plp, old(Abs()), payload)
    {
      stats := stats.(tsPackets := stats.tsPackets + 1);
      if cfg.toTs && |payload| >= TS_PACKET_SIZE {
        var offset := 0;
        assert payload[0..] == payload;
        while offset + TS_PACKET_SIZE <= |payload|
          invariant offset <= |payload|
          invariant stats == old(stats).(tsPackets := old(stats).tsPackets + 1)
          invariant old(output) + TsChunks(plp, payload) == output + TsChunks(plp, payload[offset..])
        {
          var chunk := payload[offset..offset + TS_PACKET_SIZE];
          assert payload[offset..][..TS_PACKET_SIZE] == chunk;
          assert payload[offset..][TS_PACKET_SIZE..] == payload[offset + TS_PACKET_SIZE..];
          output := output + [Ts(plp, chunk)];
          offset := offset + TS_PACKET_SIZE;
        }
      }
    }

    method ProcessPacket(plp: nat, h: Header, payload: seq<Byte>)
      requires Ready()
      modifies this`stats, this`output, reassembly
      ensures Abs() == HandlePacket(cfg, plp, old(Abs()), h, payload)
    {
      hide HandleIp, HandleSignaling, HandleTs;
      match h.kind {
        case Ipv4 => HandleIpv4Packet(plp, h, payload);
        case Compressed => HandleIpv4Packet(plp, h, payload);
        case Signaling => HandleSignalingPacket(plp, payload);
        case Mpeg2Ts => HandleTsPacket(plp, payload);
        case Extension => stats := stats.(extensionPackets := stats.extensionPackets + 1);
      }
    }

    /** One call: the buffered rest and the new bytes are scanned, every item found is handled, the rest is kept. */
    method Process(plp: nat, data: seq<Byte>) returns (parsed: nat)
      requires Valid()
      modifies this, reassembly
      ensures Valid()
      ensures var s := Scan(old(inputBuffer) + data);
              inputBuffer == s.rest && Abs() == Run(cfg, plp, old(Abs()), s.items) && parsed == Packets(s.items)
    {
      hide Parse, Scan, HandlePacket, HandleItem, FirstPacket, CrcComputation.IsTable, After, Cons, Packets, Run;
      parsed := 0;
      assert old(inputBuffer) + [] == old(inputBuffer);
      RunOfNothing(cfg, plp, Abs());
      if |data| == 0 {
        return;
      }
      inputBuffer := inputBuffer + data;
      ghost var all, start := inputBuffer, Abs();
      ghost var items: seq<Item> := [];
      var offset := 0;
      AfterNothing(Scan(all));
      assert all[0..] == all;
      while offset < |inputBuffer|
        invariant inputBuffer == all && offset <= |all|
        invariant Scan(all) == After(items, Scan(all[offset..]))
        invariant Abs() == Run(cfg, plp, start, items)
        invariant parsed == Packets(items)
      {
        ghost var here := all[offset..];
        if |inputBuffer| - offset < 2 {
          break;
        }
        var parse := Parse(inputBuffer[offset..]);
        if parse.None? {
          SkipHere(cfg, plp, start, all, items, offset, Abs());
          stats := stats.(headerErrors := stats.headerErrors + 1);
          items := items + [Skipped(here[0])];
          offset := offset + 1;
        } else {
          var h := parse.value;
          var total := HeaderBytes(h.form) + h.length;
          if offset + total > |inputBuffer| {
            break;
          }
          var payload := inputBuffer[offset + HeaderBytes(h.form)..offset + total];
          TakeHere(cfg, plp, start, all, items, offset, h, Abs());
          ProcessPacket(plp, h, payload);
          parsed := parsed + 1;
          stats := stats.(packetsReceived := stats.packetsReceived + 1);
          items := items + [FirstPacket(h, here)];
          offset := offset + total;
        }
      }
      ScanStops(all[offset..]);
      AfterStop(items, all[offset..]);
      RestIsStable(all);
      inputBuffer := inputBuffer[offset..];
    }

    method Flush()
      requires Valid()
      modifies this, reassembly
      ensures Valid() && inputBuffer == [] && output == old(output)
      ensures reassembly[..] == Flushed(old(reassembly[..]), MAX_CONTEXTS)
      ensures stats == old(stats).(reassemblyErrors := old(stats).reassemblyErrors +
              Pending(old(reassembly[..]), MAX_CONTEXTS))
      ensures forall k :: 0 <= k < reassembly.Length ==>
                reassembly[k] == if old(reassembly[k]).active && |old(reassembly[k]).buffer| > 0
                                 then old(reassembly[k]).(active := false, buffer := []) else old(reassembly[k])
      ensures var cs := old(reassembly[..]);
              stats.reassemblyErrors == old(stats.reassemblyErrors) +
                |set k | 0 <= k < |cs| && cs[k].active && |cs[k].buffer| > 0|
    {
      hide CrcComputation.IsTable;
      ghost var before := reassembly[..];
      for k := 0 to reassembly.Length
        invariant inputBuffer == old(inputBuffer) && output == old(output)
        invariant reassembly[..] == Flushed(before, k)
        invariant stats == old(stats).(reassemblyErrors := old(stats).reassemblyErrors + Pending(before, k))
      {
        FlushedAt(before, k);
        if reassembly[k].active && |reassembly[k].buffer| > 0 {
          stats := stats.(reassemblyErrors := stats.reassemblyErrors + 1);
          reassembly[k] := reassembly[k].(active := false, buffer := []);
        }
      }
      inputBuffer := [];
      ScanOfNothing();
      FlushedAt(before, reassembly.Length);
      PendingIsCount(before, reassembly.Length);
      forall k | 0 <= k < reassembly.Length
        ensures reassembly[k] == Flushed(before, reassembly.Length)[k]
      {
        assert reassembly[k] == reassembly[..][k];
      }
    }

    method Reset()
      requires Valid()
      modifies this, reassembly
      ensures Valid() && inputBuffer == [] && output == old(output)
      ensures stats == Stats(0, 0, 0, 0, 0, 0, 0, 0, 0, 0)
      ensures forall k :: 0 <= k < reassembly.Length ==> reassembly[k] == Released(old(reassembly[k]))
    {
      hide CrcComputation.IsTable;
      inputBuffer := [];
      ScanOfNothing();
      for k := 0 to reassembly.Length
        invariant inputBuffer == [] && output == old(output)
        invariant forall j :: 0 <= j < k ==> reassembly[j] == Released(old(reassembly[j]))
        invariant forall j :: k <= j < reassembly.Length ==> reassembly[j] == old(reassembly[j])
      {
        reassembly[k] := reassembly[k].(buffer := [], active := false, expected := 0);
      }
      stats := NO_STATS;
    }
  }
}
