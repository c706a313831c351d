/** The byte stream of link-layer packets: what one pass over a buffer finds, and how calls divide it. */
module AlpStreams {
  import opened Crc32
  import opened AlpHeaders
  import opened Sequences

  /** A byte passed over because no valid header starts there, or a complete packet. */
  datatype Item = Skipped(byte: Byte) | Packet(header: Header, head: seq<Byte>, payload: seq<Byte>)

  datatype Scanned = Scanned(items: seq<Item>, rest: seq<Byte>)

  function Cons(item: Item, s: Scanned): Scanned {
    s.(items := [item] + s.items)
  }

  function After(items: seq<Item>, s: Scanned): Scanned {
    s.(items := items + s.items)
  }

  function Total(h: Header): nat {
    HeaderBytes(h.form) + h.length
  }

  /** The packet at the start of a buffer that holds all of it. */
  function FirstPacket(h: Header, buffer: seq<Byte>): Item
    requires Total(h) <= |buffer|
  {
    var n := HeaderBytes(h.form);
    Packet(h, buffer[..n], buffer[n..Total(h)])
  }

  function Scan(buffer: seq<Byte>): Scanned
    decreases |buffer|
  {
    if |buffer| < 2 then Scanned([], buffer)
    else match Parse(buffer)
      case None => Cons(Skipped(buffer[0]), Scan(buffer[1..]))
      case Some(h) =>
        if Total(h) > |buffer| then Scanned([], buffer)
        else Cons(FirstPacket(h, buffer), Scan(buffer[Total(h)..]))
  }

  // ---------- Every byte is accounted for ----------

  function BytesOf(items: seq<Item>): seq<Byte> {
    if |items| == 0 then []
    else (match items[0]
          case Skipped(b) => [b]
          case Packet(_, head, payload) => head + payload) + BytesOf(items[1..])
  }

  function Skips(items: seq<Item>): nat {
    if |items| == 0 then 0 else (if items[0].Skipped? then 1 else 0) + Skips(items[1..])
  }

  function PacketBytes(items: seq<Item>): nat {
    if |items| == 0 then 0
    else (if items[0].Packet? then Total(items[0].header) else 0) + PacketBytes(items[1..])
  }

  /** A packet item holds a header that parses to it and a payload of its length. */
  ghost predicate WellFormed(item: Item) {
    item.Packet? ==>
      && ValidHeader(item.header) && |item.head| == HeaderBytes(item.header.form)
      && |item.payload| == item.header.length && Parse(item.head) == Some(item.header)
  }

  ghost predicate WellScanned(items: seq<Item>) {
    forall i :: 0 <= i < |items| ==> WellFormed(items[i])
  }

  // The three ways a pass over a buffer begins.

  lemma ScanStops(buffer: seq<Byte>)
    requires |buffer| < 2 || (Parse(buffer).Some? && Total(Parse(buffer).value) > |buffer|)
    ensures Scan(buffer) == Scanned([], buffer)
  {}

  lemma ScanSkips(buffer: seq<Byte>)
    requires |buffer| >= 2 && Parse(buffer).None?
    ensures Scan(buffer) == Cons(Skipped(buffer[0]), Scan(buffer[1..]))
  {}

  lemma ScanTakes(buffer: seq<Byte>, h: Header)
    requires |buffer| >= 2 && Parse(buffer) == Some(h) && Total(h) <= |buffer|
    ensures Scan(buffer) == Cons(FirstPacket(h, buffer), Scan(buffer[Total(h)..]))
  {}

  ghost predicate Accounted(buffer: seq<Byte>, s: Scanned) {
    && BytesOf(s.items) + s.rest == buffer
    && PacketBytes(s.items) + Skips(s.items) + |s.rest| == |buffer|
    && WellScanned(s.items)
  }

  lemma AccountedStop(buffer: seq<Byte>)
    ensures Accounted(buffer, Scanned([], buffer))
  {
    assert [] + buffer == buffer;
  }

  lemma AccountedSkip(b: Byte, rest: seq<Byte>, s: Scanned)
    requires Accounted(rest, s)
    ensures Accounted([b] + rest, Cons(Skipped(b), s))
  {
    ConsTail(Skipped(b), s);
    assert [b] + (BytesOf(s.items) + s.rest) == [b] + BytesOf(s.items) + s.rest;
  }

  lemma AccountedPacket(item: Item, rest: seq<Byte>, s: Scanned)
    requires Accounted(rest, s) && item.Packet? && WellFormed(item)
    ensures Accounted(item.head + item.payload + rest, Cons(item, s))
  {
    hide Parse, ValidHeader;
    ConsTail(item, s);
    var b := item.head + item.payload;
    assert b + (BytesOf(s.items) + s.rest) == b + BytesOf(s.items) + s.rest;
  }

  lemma FirstPacketWellFormed(buffer: seq<Byte>, h: Header)
    requires Parse(buffer) == Some(h) && Total(h) <= |buffer|
    ensures WellFormed(FirstPacket(h, buffer))
  {
    hide Parse, Encode, ValidSpare;
    var n := HeaderBytes(h.form);
    EncodeOfParse(buffer);
    ParseOfEncode(h, SpareOf(buffer), []);
    assert buffer[..n] == Encode(h, SpareOf(buffer)) == Encode(h, SpareOf(buffer)) + [];
  }

  /** The items in order, then the rest, are the buffer; and the counts add up. */
  lemma {:induction false} NothingIsLost(buffer: seq<Byte>)
    ensures Accounted(buffer, Scan(buffer))
    decreases |buffer|
  {
    hide Parse, Scan, Accounted, WellFormed;
    if |buffer| < 2 {
      ScanStops(buffer);
      AccountedStop(buffer);
    } else if Parse(buffer).None? {
      ScanSkips(buffer);
      NothingIsLost(buffer[1..]);
      AccountedSkip(buffer[0], buffer[1..], Scan(buffer[1..]));
      assert buffer == [buffer[0]] + buffer[1..];
    } else if Total(Parse(buffer).value) > |buffer| {
      ScanStops(buffer);
      AccountedStop(buffer);
    } else {
      var h := Parse(buffer).value;
      var n, item := Total(h), FirstPacket(h, buffer);
      ScanTakes(buffer, h);
      NothingIsLost(buffer[n..]);
      FirstPacketWellFormed(buffer, h);
      AccountedPacket(item, buffer[n..], Scan(buffer[n..]));
      assert buffer == item.head + item.payload + buffer[n..];
    }
  }

  lemma ConsTail(item: Item, s: Scanned)
    ensures var c := Cons(item, s); c.items[0] == item && c.items[1..] == s.items && c.rest == s.rest
  {}

  /** A rest is stable: scanning it again finds nothing. */
  lemma {:induction false} RestIsStable(buffer: seq<Byte>)
    ensures Scan(Scan(buffer).rest) == Scanned([], Scan(buffer).rest)
    decreases |buffer|
  {
    hide Parse;
    if |buffer| >= 2 {
      match Parse(buffer)
      case None => RestIsStable(buffer[1..]);
      case Some(h) =>
        if Total(h) <= |buffer| {
          RestIsStable(buffer[Total(h)..]);
        }
    }
  }

  // ---------- Division into calls ----------

  /** The buffer ends inside a header of a valid kind, after its second byte: it reads as invalid. */
  predicate Truncated(buffer: seq<Byte>) {
    && |buffer| >= 2
    && KindOf(buffer[0] / 32).Some?
    && buffer[0] / 16 % 2 == 1
    && (|buffer| < 3 || (buffer[0] / 8 % 2 == 1 && buffer[1] / 128 == 1 && |buffer| < 5))
  }

  /** Scanning the buffer comes to a truncated header. */
  predicate Cuts(buffer: seq<Byte>)
    decreases |buffer|
  {
    Truncated(buffer) ||
    (|buffer| >= 2 &&
     match Parse(buffer)
     case None => Cuts(buffer[1..])
     case Some(h) => Total(h) <= |buffer| && Cuts(buffer[Total(h)..]))
  }

  lemma ParseIsStable(a: seq<Byte>, b: seq<Byte>)
    requires |a| >= 2 && !Truncated(a)
    ensures Parse(a + b) == Parse(a)
  {}

  lemma TruncatedIsInvalid(a: seq<Byte>)
    requires Truncated(a)
    ensures Parse(a) == None
  {}

  lemma TruncatedCompletes(a: seq<Byte>, b: seq<Byte>)
    requires Truncated(a) && |b| >= 8195
    ensures Parse(a + b).Some? && Total(Parse(a + b).value) <= |a + b|
  {
    var d := a + b;
    assert d[0] == a[0] && d[1] == a[1];
    EncodeOfParse(d);
  }

  lemma CutsSkips(buffer: seq<Byte>)
    requires |buffer| >= 2 && Parse(buffer).None?
    ensures Cuts(buffer) <==> Truncated(buffer) || Cuts(buffer[1..])
  {}

  lemma CutsTakes(buffer: seq<Byte>, h: Header)
    requires |buffer| >= 2 && Parse(buffer) == Some(h)
    ensures Cuts(buffer) <==> Total(h) <= |buffer| && Cuts(buffer[Total(h)..])
  {
    hide Parse;
    if Truncated(buffer) {
      TruncatedIsInvalid(buffer);
    }
  }

  lemma CutsShort(buffer: seq<Byte>)
    requires |buffer| < 2
    ensures !Cuts(buffer)
  {}

  lemma TruncatedCuts(buffer: seq<Byte>)
    requires Truncated(buffer)
    ensures Cuts(buffer)
  {}

  lemma TakeFromLonger(a: seq<Byte>, b: seq<Byte>, h: Header)
    requires Total(h) <= |a|
    ensures FirstPacket(h, a + b) == FirstPacket(h, a)
    ensures (a + b)[Total(h)..] == a[Total(h)..] + b
  {}

  /** A division that cuts no header is invisible. */
  lemma {:induction false} DivisionIsInvisible(a: seq<Byte>, b: seq<Byte>)
    requires !Cuts(a)
    ensures Scan(a + b) == After(Scan(a).items, Scan(Scan(a).rest + b))
    decreases |a|
  {
    hide Parse, Truncated, Scan, Cuts, FirstPacket;
    if |a| < 2 {
      ScanStops(a);
    } else {
      if Truncated(a) {
        TruncatedCuts(a);
      }
      ParseIsStable(a, b);
      if Parse(a).None? {
        ScanSkips(a);
        ScanSkips(a + b);
        CutsSkips(a);
        DivisionIsInvisible(a[1..], b);
        assert (a + b)[1..] == a[1..] + b;
        AfterCons(Skipped(a[0]), Scan(a[1..]).items, Scan(Scan(a[1..]).rest + b));
      } else {
        var h := Parse(a).value;
        CutsTakes(a, h);
        if Total(h) > |a| {
          ScanStops(a);
        } else {
          var t := a[Total(h)..];
          TakeFromLonger(a, b, h);
          ScanTakes(a, h);
          ScanTakes(a + b, h);
          DivisionIsInvisible(t, b);
          AfterCons(FirstPacket(h, a), Scan(t).items, Scan(Scan(t).rest + b));
        }
      }
    }
  }

  lemma AfterCons(item: Item, items: seq<Item>, s: Scanned)
    ensures Cons(item, After(items, s)) == After([item] + items, s)
  {
    assert [item] + items + s.items == [item] + (items + s.items);
  }

  /** A division that cuts a header loses a packet for some continuation. */
  lemma {:induction false} CutIsVisible(a: seq<Byte>, b: seq<Byte>)
    requires Cuts(a) && |b| >= 8195
    ensures Scan(a + b) != After(Scan(a).items, Scan(Scan(a).rest + b))
    decreases |a|
  {
    hide Parse, Truncated, Scan, Cuts, FirstPacket;
    var next := Scan(Scan(a).rest + b);
    if |a| < 2 {
      CutsShort(a);
    } else if Truncated(a) {
      TruncatedIsInvalid(a);
      TruncatedCompletes(a, b);
      ScanSkips(a);
      var h := Parse(a + b).value;
      ScanTakes(a + b, h);
      ConsTail(FirstPacket(h, a + b), Scan((a + b)[Total(h)..]));
      AfterCons(Skipped(a[0]), Scan(a[1..]).items, next);
      ConsTail(Skipped(a[0]), After(Scan(a[1..]).items, next));
      FirstIsPacket(h, a + b);
    } else {
      ParseIsStable(a, b);
      if Parse(a).None? {
        ScanSkips(a);
        ScanSkips(a + b);
        CutsSkips(a);
        CutIsVisible(a[1..], b);
        assert (a + b)[1..] == a[1..] + b;
        AfterCons(Skipped(a[0]), Scan(a[1..]).items, next);
        ConsInjective(Skipped(a[0]), Scan(a[1..] + b), After(Scan(a[1..]).items, next));
      } else {
        var h := Parse(a).value;
        CutsTakes(a, h);
        var t, p := a[Total(h)..], FirstPacket(h, a);
        TakeFromLonger(a, b, h);
        ScanTakes(a, h);
        ScanTakes(a + b, h);
        CutIsVisible(t, b);
        AfterCons(p, Scan(t).items, next);
        ConsInjective(p, Scan(t + b), After(Scan(t).items, next));
      }
    }
  }

  lemma FirstIsPacket(h: Header, buffer: seq<Byte>)
    requires Total(h) <= |buffer|
    ensures FirstPacket(h, buffer).Packet?
  {}

  lemma ConsInjective(item: Item, s: Scanned, t: Scanned)
    ensures Cons(item, s) == Cons(item, t) <==> s == t
  {
    assert Cons(item, s).items[1..] == s.items && Cons(item, t).items[1..] == t.items;
  }

  /** One call per chunk, each starting from what the previous one left. */
  function ScanChunks(chunks: seq<seq<Byte>>): Scanned {
    var n := |chunks|;
    if n == 0 then Scanned([], [])
    else
      var before := ScanChunks(chunks[..n - 1]);
      After(before.items, Scan(before.rest + chunks[n - 1]))
  }

  /** What is accounted for stays so when the rest and more bytes are scanned. */
  lemma {:induction false} AccountedAfter(a: seq<Byte>, items: seq<Item>, rest: seq<Byte>, b: seq<Byte>, s: Scanned)
    requires Accounted(a, Scanned(items, rest)) && Accounted(rest + b, s)
    ensures Accounted(a + b, After(items, s))
    decreases |items|
  {
    hide WellFormed, Accounted;
    if |items| == 0 {
      NoItems(a, items, rest);
      assert a == rest && After(items, s) == s;
    } else {
      var item, later := items[0], items[1..];
      var tail := BytesOf(later) + rest;
      FirstBytes(a, items, rest);
      AccountedAfter(tail, later, rest, b, s);
      assert Cons(item, After(later, s)) == After(items, s) by {
        assert [item] + (later + s.items) == items + s.items;
      }
      if item.Skipped? {
        AccountedSkip(item.byte, tail + b, After(later, s));
        assert a + b == [item.byte] + (tail + b);
      } else {
        AccountedPacket(item, tail + b, After(later, s));
        assert a + b == item.head + item.payload + (tail + b);
      }
    }
  }

  lemma NoItems(a: seq<Byte>, items: seq<Item>, rest: seq<Byte>)
    requires Accounted(a, Scanned(items, rest)) && |items| == 0
    ensures a == rest
  {}

  /** The first item, and what is accounted for after it. */
  lemma FirstBytes(a: seq<Byte>, items: seq<Item>, rest: seq<Byte>)
    requires Accounted(a, Scanned(items, rest)) && |items| > 0
    ensures var tail := BytesOf(items[1..]) + rest;
            && Accounted(tail, Scanned(items[1..], rest)) && WellFormed(items[0])
            && a == (match items[0] case Skipped(x) => [x] case Packet(_, head, payload) => head + payload) + tail
  {
    hide Parse, ValidHeader;
    var tail := BytesOf(items[1..]) + rest;
    var first := match items[0] case Skipped(x) => [x] case Packet(_, head, payload) => head + payload;
    assert first + BytesOf(items[1..]) + rest == first + tail;
    assert WellFormed(items[0]);
    forall i | 0 <= i < |items[1..]|
      ensures WellFormed(items[1..][i])
    {
      var j := i + 1;
      assert WellFormed(items[j]);
    }
  }

  /** Over any number of calls no byte is lost: items, in order, and what the last call kept are all bytes fed. */
  lemma {:induction false} NothingIsLostInCalls(chunks: seq<seq<Byte>>)
    ensures Accounted(Concat(chunks), ScanChunks(chunks))
    decreases |chunks|
  {
    hide Scan, Accounted;
    var n := |chunks|;
    if n == 0 {
      AccountedStop([]);
    } else {
      var before := ScanChunks(chunks[..n - 1]);
      NothingIsLostInCalls(chunks[..n - 1]);
      NothingIsLost(before.rest + chunks[n - 1]);
      AccountedAfter(Concat(chunks[..n - 1]), before.items, before.rest, chunks[n - 1],
        Scan(before.rest + chunks[n - 1]));
    }
  }

  lemma {:induction false} ChunkingIsInvisible(chunks: seq<seq<Byte>>)
    requires forall i :: 0 <= i < |chunks| ==> !Cuts(Concat(chunks[..i]))
    ensures ScanChunks(chunks) == Scan(Concat(chunks))
    decreases |chunks|
  {
    hide Scan, Cuts;
    var n := |chunks|;
    if n == 0 {
      ScanOfNothing();
    } else {
      var front := chunks[..n - 1];
      forall i | 0 <= i < |front|
        ensures !Cuts(Concat(front[..i]))
      {
        assert front[..i] == chunks[..i];
      }
      ChunkingIsInvisible(front);
      DivisionIsInvisible(Concat(front), chunks[n - 1]);
    }
  }

  lemma ScanOfNothing()
    ensures Scan([]) == Scanned([], [])
  {}

  // ---------- Streams of encoded packets ----------

  datatype Sent = Sent(header: Header, spare: Spare, payload: seq<Byte>)

  predicate ValidSent(p: Sent) {
    ValidHeader(p.header) && ValidSpare(p.header.form, p.spare) && |p.payload| == p.header.length
  }

  function EncodePacket(p: Sent): (bytes: seq<Byte>)
    requires ValidSent(p)
    ensures |bytes| == Total(p.header)
  {
    Encode(p.header, p.spare) + p.payload
  }

  function EncodeAll(ps: seq<Sent>): seq<Byte>
    requires forall i :: 0 <= i < |ps| ==> ValidSent(ps[i])
  {
    if |ps| == 0 then [] else EncodePacket(ps[0]) + EncodeAll(ps[1..])
  }

  function Received(p: Sent): Item
    requires ValidSent(p)
  {
    Packet(p.header, Encode(p.header, p.spare), p.payload)
  }

  function AllReceived(ps: seq<Sent>): (items: seq<Item>)
    requires forall i :: 0 <= i < |ps| ==> ValidSent(ps[i])
    ensures |items| == |ps|
    ensures forall i :: 0 <= i < |ps| ==> items[i] == Received(ps[i])
  {
    if |ps| == 0 then [] else [Received(ps[0])] + AllReceived(ps[1..])
  }

  lemma FirstOfEncoded(p: Sent, rest: seq<Byte>)
    requires ValidSent(p)
    ensures Parse(EncodePacket(p) + rest) == Some(p.header)
    ensures FirstPacket(p.header, EncodePacket(p) + rest) == Received(p)
    ensures (EncodePacket(p) + rest)[Total(p.header)..] == rest
    ensures !Truncated(EncodePacket(p) + rest)
  {
    hide Parse, Encode;
    var d := EncodePacket(p) + rest;
    assert d == Encode(p.header, p.spare) + (p.payload + rest);
    ParseOfEncode(p.header, p.spare, p.payload + rest);
    if Truncated(d) {
      TruncatedIsInvalid(d);
    }
  }

  /** Scanning encoded packets gives back exactly those packets, then what follows them. */
  lemma {:induction false} ScanOfEncoded(ps: seq<Sent>, tail: seq<Byte>)
    requires forall i :: 0 <= i < |ps| ==> ValidSent(ps[i])
    ensures Scan(EncodeAll(ps) + tail) == After(AllReceived(ps), Scan(tail))
    ensures Cuts(EncodeAll(ps) + tail) <==> Cuts(tail)
    decreases |ps|
  {
    hide Parse, Encode, ValidSent, EncodePacket, Truncated, Received;
    if |ps| == 0 {
      assert EncodeAll(ps) + tail == tail;
      assert After([], Scan(tail)) == Scan(tail);
    } else {
      var rest := EncodeAll(ps[1..]) + tail;
      var d := EncodePacket(ps[0]) + rest;
      assert EncodeAll(ps) + tail == d;
      FirstOfEncoded(ps[0], rest);
      ScanOfEncoded(ps[1..], tail);
      AfterCons(Received(ps[0]), AllReceived(ps[1..]), Scan(tail));
      TotalAtLeastTwo(ps[0].header);
    }
  }

  lemma TotalAtLeastTwo(h: Header)
    ensures Total(h) >= 2
  {}

  /**
    After whole packets and q bytes of another, a division cuts exactly inside an extended header after its first
    byte.
   */
  lemma WhereEncodedCuts(ps: seq<Sent>, p: Sent, q: nat)
    requires (forall i :: 0 <= i < |ps| ==> ValidSent(ps[i])) && ValidSent(p) && q < Total(p.header)
    ensures Cuts(EncodeAll(ps) + EncodePacket(p)[..q]) <==> 2 <= q < HeaderBytes(p.header.form)
  {
    hide EncodeAll, Encode, Parse, Truncated, Cuts, ValidSent;
    var part := EncodePacket(p)[..q];
    ScanOfEncoded(ps, part);
    PartIsTruncated(p, q);
    if q < 2 {
      CutsShort(part);
    } else if Truncated(part) {
      TruncatedCuts(part);
    } else {
      ParseIsStable(part, EncodePacket(p)[q..]);
      assert part + EncodePacket(p)[q..] == EncodePacket(p) + [];
      FirstOfEncoded(p, []);
      CutsTakes(part, p.header);
    }
  }

  /** The first two bytes tell an extended header and a segment header. */
  lemma EncodedFlags(h: Header, s: Spare)
    requires ValidHeader(h) && ValidSpare(h.form, s)
    ensures var e := Encode(h, s);
            && KindOf(e[0] / 32).Some?
            && (e[0] / 16 % 2 == 1 <==> !h.form.Short?)
            && (e[0] / 16 % 2 == 1 && e[0] / 8 % 2 == 1 && e[1] / 128 == 1 <==> h.form.Segmented?)
  {
    hide KindOf, CodeOf, Parse, Encode;
    ParseOfEncode(h, s, []);
    assert Encode(h, s) + [] == Encode(h, s);
    ParsedFields(Encode(h, s));
  }

  lemma PartIsTruncated(p: Sent, q: nat)
    requires ValidSent(p) && q < Total(p.header)
    ensures Truncated(EncodePacket(p)[..q]) <==> 2 <= q < HeaderBytes(p.header.form)
  {
    hide KindOf, CodeOf, Encode, ValidHeader, ValidSpare;
    EncodedFlags(p.header, p.spare);
  }

  /** Byte m of the stream lies inside an extended header, after that header's first byte. */
  predicate InsideHeader(ps: seq<Sent>, m: nat) {
    |ps| > 0 &&
    if m < Total(ps[0].header) then 2 <= m < HeaderBytes(ps[0].header.form)
    else InsideHeader(ps[1..], m - Total(ps[0].header))
  }

  /** A division of a stream of encoded packets cuts a header exactly there. */
  lemma {:induction false} WhereDivisionsCut(ps: seq<Sent>, m: nat)
    requires (forall i :: 0 <= i < |ps| ==> ValidSent(ps[i])) && m <= |EncodeAll(ps)|
    ensures Cuts(EncodeAll(ps)[..m]) <==> InsideHeader(ps, m)
    decreases |ps|
  {
    hide ValidSent, EncodePacket, Cuts;
    if |ps| == 0 {
      CutsShort([]);
    } else {
      var n, rest := Total(ps[0].header), EncodeAll(ps[1..]);
      if m < n {
        WhereEncodedCuts([], ps[0], m);
        assert EncodeAll([]) + EncodePacket(ps[0])[..m] == EncodeAll(ps)[..m];
      } else {
        WhereDivisionsCut(ps[1..], m - n);
        ScanOfEncoded([ps[0]], rest[..m - n]);
        EncodeOne(ps[0]);
        assert EncodeAll(ps)[..m] == EncodePacket(ps[0]) + rest[..m - n];
      }
    }
  }

  lemma EncodeOne(p: Sent)
    requires ValidSent(p)
    ensures EncodeAll([p]) == EncodePacket(p)
  {
    assert [p][1..] == [];
    assert EncodePacket(p) + [] == EncodePacket(p);
  }
}
