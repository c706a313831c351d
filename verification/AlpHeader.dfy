/** Headers of the link-layer protocol: the bit layout and its parser. */
module AlpHeaders {
  import opened Crc32
  import opened Sequences
  import Arithmetic

  datatype Kind = Ipv4 | Compressed | Signaling | Extension | Mpeg2Ts

  datatype Segment = Segment(sequence: nat, last: bool, subStream: nat)

  /**
    The four header forms: two bytes with an 11-bit length; three bytes with a 13-bit length;
    the additional header with a 13-bit length; and the additional header of one segment.
   */
  datatype Form = Short | Long | Additional | Segmented(segment: Segment)

  datatype Header = Header(kind: Kind, form: Form, length: nat)

  function KindOf(code: nat): Option<Kind> {
    match code
    case 0 => Some(Ipv4)
    case 2 => Some(Compressed)
    case 4 => Some(Signaling)
    case 6 => Some(Extension)
    case 7 => Some(Mpeg2Ts)
    case _ => None
  }

  function CodeOf(kind: Kind): nat {
    match kind
    case Ipv4 => 0
    case Compressed => 2
    case Signaling => 4
    case Extension => 6
    case Mpeg2Ts => 7
  }

  function HeaderBytes(form: Form): nat {
    match form
    case Short => 2
    case Long => 3
    case Additional => 3
    case Segmented(_) => 5
  }

  function WithKind(code: nat, form: Form, length: nat): Option<Header> {
    match KindOf(code)
    case None => None
    case Some(kind) => Some(Header(kind, form, length))
  }

  /** AlpDemux::parse_header; None is an invalid header. */
  function Parse(data: seq<Byte>): Option<Header> {
    if |data| < 2 then None
    else
      var b0: int, b1: int := data[0], data[1];
      var code := b0 / 32;
      if b0 / 16 % 2 == 0 then WithKind(code, Short, b0 % 16 * 128 + b1 / 2)
      else if |data| < 3 then None
      else
        var b2: int := data[2];
        if b0 / 8 % 2 == 0 then WithKind(code, Long, b0 % 8 * 1024 + b1 * 4 + b2 / 64)
        else
          var length := b1 % 64 * 128 + b2 / 2;
          if b1 / 128 == 0 then WithKind(code, Additional, length)
          else if |data| < 5 then None
          else
            WithKind(code, Segmented(Segment(data[3] / 8, data[3] / 4 % 2 == 1, data[3] % 4 * 64 + data[4] / 4)),
              length)
  }

  /** The kinds by their first byte, in the short form: five of the eight codes, the other three are reserved. */
  lemma ShortHeaders(b0: Byte, b1: Byte)
    requires b0 / 16 % 2 == 0
    ensures var n := b0 % 16 * 128 + b1 / 2;
            Parse([b0, b1]) ==
            if b0 < 16 then Some(Header(Ipv4, Short, n))
            else if 64 <= b0 < 80 then Some(Header(Compressed, Short, n))
            else if 128 <= b0 < 144 then Some(Header(Signaling, Short, n))
            else if 192 <= b0 < 208 then Some(Header(Extension, Short, n))
            else if 224 <= b0 < 240 then Some(Header(Mpeg2Ts, Short, n))
            else None
  {}

  // ---------- The layout ----------

  predicate ValidHeader(h: Header) {
    match h.form
    case Short => h.length < 2048
    case Long => h.length < 8192
    case Additional => h.length < 8192
    case Segmented(s) => h.length < 8192 && s.sequence < 32 && s.subStream < 256
  }

  /** The bits that carry nothing: the low bits of bytes 0, 2 and 4, and the concatenation flag. */
  datatype Spare = Spare(byte0: nat, concatenation: nat, byte2: nat, byte4: nat)

  predicate ValidSpare(form: Form, s: Spare) {
    match form
    case Short => s.byte0 == 0 && s.concatenation == 0 && s.byte2 < 2 && s.byte4 == 0
    case Long => s.byte0 == 0 && s.concatenation == 0 && s.byte2 < 64 && s.byte4 == 0
    case Additional => s.byte0 < 8 && s.concatenation < 2 && s.byte2 < 2 && s.byte4 == 0
    case Segmented(_) => s.byte0 < 8 && s.concatenation < 2 && s.byte2 < 2 && s.byte4 < 4
  }

  function Encode(h: Header, s: Spare): (bytes: seq<Byte>)
    requires ValidHeader(h) && ValidSpare(h.form, s)
    ensures |bytes| == HeaderBytes(h.form)
  {
    var code, n := CodeOf(h.kind), h.length;
    match h.form
    case Short => [32 * code + n / 128, n % 128 * 2 + s.byte2]
    case Long => [32 * code + 16 + n / 1024, n / 4 % 256, n % 4 * 64 + s.byte2]
    case Additional => [32 * code + 24 + s.byte0, 64 * s.concatenation + n / 128, n % 128 * 2 + s.byte2]
    case Segmented(seg) =>
      [32 * code + 24 + s.byte0, 128 + 64 * s.concatenation + n / 128, n % 128 * 2 + s.byte2,
       seg.sequence * 8 + (if seg.last then 4 else 0) + seg.subStream / 64, seg.subStream % 64 * 4 + s.byte4]
  }

  lemma KindOfCode(kind: Kind)
    ensures KindOf(CodeOf(kind)) == Some(kind) && CodeOf(kind) < 8
  {}

  lemma CodeOfKind(code: nat)
    requires KindOf(code).Some?
    ensures CodeOf(KindOf(code).value) == code
  {}

  lemma ShortFields(c: nat, n: nat, s: nat, b0: nat, b1: nat)
    requires c < 8 && n < 2048 && s < 2 && b0 == 32 * c + n / 128 && b1 == n % 128 * 2 + s
    ensures b0 / 32 == c && b0 / 16 % 2 == 0 && b0 % 16 * 128 + b1 / 2 == n
  {}

  lemma LongParts(n: nat)
    ensures n == n / 1024 * 1024 + n / 4 % 256 * 4 + n % 4
  {
    assert n / 4 / 256 == n / 1024;
  }

  lemma LongBytes(c: nat, p: nat, q: nat, r: nat, s: nat)
    requires c < 8 && p < 8 && q < 256 && r < 4 && s < 64
    ensures var b0, b1, b2 := 32 * c + 16 + p, q, r * 64 + s;
            b0 / 32 == c && b0 / 16 % 2 == 1 && b0 / 8 % 2 == 0 && b0 % 8 == p && b2 / 64 == r
  {}

  lemma LongFields(c: nat, n: nat, s: nat, b0: nat, b1: nat, b2: nat)
    requires c < 8 && n < 8192 && s < 64 && b0 == 32 * c + 16 + n / 1024 && b1 == n / 4 % 256 && b2 == n % 4 * 64 + s
    ensures b0 / 32 == c && b0 / 16 % 2 == 1 && b0 / 8 % 2 == 0 && b0 % 8 * 1024 + b1 * 4 + b2 / 64 == n
  {
    LongParts(n);
    LongBytes(c, n / 1024, n / 4 % 256, n % 4, s);
  }

  lemma AdditionalFields(c: nat, n: nat, s0: nat, flags: nat, s2: nat, b0: nat, b1: nat, b2: nat)
    requires c < 8 && n < 8192 && s0 < 8 && flags < 4 && s2 < 2
    requires b0 == 32 * c + 24 + s0 && b1 == 64 * flags + n / 128 && b2 == n % 128 * 2 + s2
    ensures b0 / 32 == c && b0 / 16 % 2 == 1 && b0 / 8 % 2 == 1
    ensures b1 / 128 == flags / 2 && b1 % 64 * 128 + b2 / 2 == n
  {}

  lemma SegmentFields(q: nat, last: bool, sid: nat, s4: nat, b3: nat, b4: nat)
    requires q < 32 && sid < 256 && s4 < 4
    requires b3 == q * 8 + (if last then 4 else 0) + sid / 64 && b4 == sid % 64 * 4 + s4
    ensures b3 / 8 == q && (b3 / 4 % 2 == 1 <==> last) && b3 % 4 * 64 + b4 / 4 == sid
  {}

  lemma ParseOfShort(h: Header, s: Spare, rest: seq<Byte>)
    requires ValidHeader(h) && ValidSpare(h.form, s) && (h.form.Short? || h.form.Long?)
    ensures Parse(Encode(h, s) + rest) == Some(h)
  {
    hide KindOf, CodeOf;
    KindOfCode(h.kind);
    var c, n, e := CodeOf(h.kind), h.length, Encode(h, s);
    if h.form.Short? {
      ShortFields(c, n, s.byte2, e[0], e[1]);
    } else {
      LongFields(c, n, s.byte2, e[0], e[1], e[2]);
    }
  }

  lemma ParseOfAdditional(h: Header, s: Spare, rest: seq<Byte>)
    requires ValidHeader(h) && ValidSpare(h.form, s) && (h.form.Additional? || h.form.Segmented?)
    ensures Parse(Encode(h, s) + rest) == Some(h)
  {
    hide KindOf, CodeOf;
    KindOfCode(h.kind);
    var c, n, e := CodeOf(h.kind), h.length, Encode(h, s);
    if h.form.Additional? {
      AdditionalFields(c, n, s.byte0, s.concatenation, s.byte2, e[0], e[1], e[2]);
    } else {
      var seg := h.form.segment;
      AdditionalFields(c, n, s.byte0, 2 + s.concatenation, s.byte2, e[0], e[1], e[2]);
      SegmentFields(seg.sequence, seg.last, seg.subStream, s.byte4, e[3], e[4]);
    }
  }

  /** Whatever follows the header and whatever its spare bits hold, the parser reads it back. */
  lemma ParseOfEncode(h: Header, s: Spare, rest: seq<Byte>)
    requires ValidHeader(h) && ValidSpare(h.form, s)
    ensures Parse(Encode(h, s) + rest) == Some(h)
  {
    hide Parse, Encode;
    if h.form.Short? || h.form.Long? {
      ParseOfShort(h, s, rest);
    } else {
      ParseOfAdditional(h, s, rest);
    }
  }

  lemma Nibbles(b: nat)
    requires b < 256
    ensures b / 16 % 2 == 0 ==> b == 32 * (b / 32) + b % 16
    ensures b / 16 % 2 == 1 && b / 8 % 2 == 0 ==> b == 32 * (b / 32) + 16 + b % 8
    ensures b / 16 % 2 == 1 && b / 8 % 2 == 1 ==> b == 32 * (b / 32) + 24 + b % 8
  {}

  lemma ShortLayout(b0: nat, b1: nat, n: nat)
    requires b0 < 256 && b1 < 256 && b0 / 16 % 2 == 0 && n == b0 % 16 * 128 + b1 / 2
    ensures n < 2048 && b0 == 32 * (b0 / 32) + n / 128 && b1 == n % 128 * 2 + b1 % 2
  {
    Nibbles(b0);
    Arithmetic.DivModUnique(n, 128, b0 % 16, b1 / 2);
  }

  lemma LongLayout(b0: nat, b1: nat, b2: nat, n: nat)
    requires b0 < 256 && b1 < 256 && b2 < 256 && b0 / 16 % 2 == 1 && b0 / 8 % 2 == 0
    requires n == b0 % 8 * 1024 + b1 * 4 + b2 / 64
    ensures n < 8192 && b0 == 32 * (b0 / 32) + 16 + n / 1024 && b1 == n / 4 % 256 && b2 == n % 4 * 64 + b2 % 64
  {
    Nibbles(b0);
    var p, r := b0 % 8, b2 / 64;
    Arithmetic.DivModUnique(n, 1024, p, b1 * 4 + r);
    Arithmetic.DivModUnique(n, 4, 256 * p + b1, r);
    Arithmetic.DivModUnique(256 * p + b1, 256, p, b1);
  }

  lemma FlagBits(b: nat)
    requires b < 256
    ensures b == 128 * (b / 128) + 64 * (b / 64 % 2) + b % 64
  {}

  lemma AdditionalLayout(b0: nat, b1: nat, b2: nat, n: nat)
    requires b0 < 256 && b1 < 256 && b2 < 256 && b0 / 16 % 2 == 1 && b0 / 8 % 2 == 1
    requires n == b1 % 64 * 128 + b2 / 2
    ensures n < 8192 && b0 == 32 * (b0 / 32) + 24 + b0 % 8
    ensures b1 == 128 * (b1 / 128) + 64 * (b1 / 64 % 2) + n / 128 && b2 == n % 128 * 2 + b2 % 2
  {
    Nibbles(b0);
    FlagBits(b1);
    Arithmetic.DivModUnique(n, 128, b1 % 64, b2 / 2);
  }

  lemma SegmentLayout(b3: nat, b4: nat, sid: nat)
    requires b3 < 256 && b4 < 256 && sid == b3 % 4 * 64 + b4 / 4
    ensures b3 / 8 < 32 && sid < 256
    ensures b3 == b3 / 8 * 8 + (if b3 / 4 % 2 == 1 then 4 else 0) + sid / 64 && b4 == sid % 64 * 4 + b4 % 4
  {
    Arithmetic.DivModUnique(sid, 64, b3 % 4, b4 / 4);
  }

  /** The bits of an accepted header that carry nothing. */
  function SpareOf(data: seq<Byte>): (s: Spare)
    requires Parse(data).Some?
    ensures ValidSpare(Parse(data).value.form, s)
  {
    match Parse(data).value.form
    case Short => Spare(0, 0, data[1] % 2, 0)
    case Long => Spare(0, 0, data[2] % 64, 0)
    case Additional => Spare(data[0] % 8, data[1] / 64 % 2, data[2] % 2, 0)
    case Segmented(_) => Spare(data[0] % 8, data[1] / 64 % 2, data[2] % 2, data[4] % 4)
  }

  /** The fields of a header of each form, as numbers. */
  predicate Fields(h: Header, b0: nat, b1: nat, b2: nat, b3: nat, b4: nat) {
    match h.form
    case Short => b0 / 16 % 2 == 0 && h.length == b0 % 16 * 128 + b1 / 2
    case Long => b0 / 16 % 2 == 1 && b0 / 8 % 2 == 0 && h.length == b0 % 8 * 1024 + b1 * 4 + b2 / 64
    case Additional =>
      b0 / 16 % 2 == 1 && b0 / 8 % 2 == 1 && h.length == b1 % 64 * 128 + b2 / 2 && b1 / 128 == 0
    case Segmented(s) =>
      && b0 / 16 % 2 == 1 && b0 / 8 % 2 == 1 && h.length == b1 % 64 * 128 + b2 / 2 && b1 / 128 == 1
      && s == Segment(b3 / 8, b3 / 4 % 2 == 1, b3 % 4 * 64 + b4 / 4)
  }

  function Padded(data: seq<Byte>, i: nat): nat {
    if i < |data| then data[i] else 0
  }

  lemma ParsedFields(data: seq<Byte>)
    requires Parse(data).Some?
    ensures var h := Parse(data).value;
            && KindOf(data[0] / 32) == Some(h.kind) && HeaderBytes(h.form) <= |data|
            && Fields(h, data[0], data[1], Padded(data, 2), Padded(data, 3), Padded(data, 4))
  {
    hide KindOf;
    HighBit(data[1]);
  }

  lemma HighBit(b: Byte)
    ensures b / 128 == 0 || b / 128 == 1
  {}

  /** Where the fields stand in the header's bytes, read as big-endian numbers. */
  lemma FieldPositions(data: seq<Byte>)
    requires Parse(data).Some?
    ensures var h := Parse(data).value;
            var b0: int, b1: int, b2: int := data[0], data[1], Padded(data, 2);
            match h.form
            case Short => h.length == (b0 * 256 + b1) / 2 % 2048
            case Long => h.length == (b0 * 65536 + b1 * 256 + b2) / 64 % 8192
            case Additional => h.length == (b1 * 256 + b2) / 2 % 8192
            case Segmented(s) =>
              var v := Padded(data, 3) * 256 + Padded(data, 4);
              && h.length == (b1 * 256 + b2) / 2 % 8192
              && s == Segment(v / 2048, v / 1024 % 2 == 1, v / 4 % 256)
  {
    hide Parse, KindOf;
    ParsedFields(data);
    var h, b0, b1, b2 := Parse(data).value, data[0], data[1], Padded(data, 2);
    match h.form
    case Short => ShortPosition(b0, b1);
    case Long => LongPosition(b0, b1, b2);
    case Additional => AdditionalPosition(b1, b2);
    case Segmented(_) =>
      AdditionalPosition(b1, b2);
      SegmentPosition(Padded(data, 3), Padded(data, 4));
  }

  lemma ShortPosition(b0: nat, b1: nat)
    requires b0 < 256 && b1 < 256
    ensures b0 % 16 * 128 + b1 / 2 == (b0 * 256 + b1) / 2 % 2048
  {
    Arithmetic.DivModUnique(b0 * 128 + b1 / 2, 2048, b0 / 16, b0 % 16 * 128 + b1 / 2);
  }

  lemma LongPosition(b0: nat, b1: nat, b2: nat)
    requires b0 < 256 && b1 < 256 && b2 < 256
    ensures b0 % 8 * 1024 + b1 * 4 + b2 / 64 == (b0 * 65536 + b1 * 256 + b2) / 64 % 8192
  {
    var v := b0 * 1024 + b1 * 4 + b2 / 64;
    Arithmetic.DivModUnique(b0 * 65536 + b1 * 256 + b2, 64, v, b2 % 64);
    Arithmetic.DivModUnique(v, 8192, b0 / 8, b0 % 8 * 1024 + b1 * 4 + b2 / 64);
  }

  lemma AdditionalPosition(b1: nat, b2: nat)
    requires b1 < 256 && b2 < 256
    ensures b1 % 64 * 128 + b2 / 2 == (b1 * 256 + b2) / 2 % 8192
  {
    Arithmetic.DivModUnique(b1 * 128 + b2 / 2, 8192, b1 / 64, b1 % 64 * 128 + b2 / 2);
  }

  lemma SegmentPosition(b3: nat, b4: nat)
    requires b3 < 256 && b4 < 256
    ensures var v := b3 * 256 + b4;
            b3 / 8 == v / 2048 && b3 / 4 % 2 == v / 1024 % 2 && b3 % 4 * 64 + b4 / 4 == v / 4 % 256
  {
    var v := b3 * 256 + b4;
    Arithmetic.DivModUnique(v, 2048, b3 / 8, b3 % 8 * 256 + b4);
    Arithmetic.DivModUnique(v, 1024, b3 / 4, b3 % 4 * 256 + b4);
    Arithmetic.DivModUnique(v, 4, b3 * 64 + b4 / 4, b4 % 4);
    Arithmetic.DivModUnique(b3 * 64 + b4 / 4, 256, b3 / 4, b3 % 4 * 64 + b4 / 4);
  }

  ghost predicate Recovered(data: seq<Byte>)
    requires Parse(data).Some?
  {
    var h := Parse(data).value;
    ValidHeader(h) && Encode(h, SpareOf(data)) <= data
  }

  lemma RecoverShort(data: seq<Byte>)
    requires Parse(data).Some? && Parse(data).value.form.Short?
    ensures Recovered(data)
  {
    hide KindOf, CodeOf, Parse;
    ParsedFields(data);
    CodeOfKind(data[0] / 32);
    ShortLayout(data[0], data[1], Parse(data).value.length);
  }

  lemma RecoverLong(data: seq<Byte>)
    requires Parse(data).Some? && Parse(data).value.form.Long?
    ensures Recovered(data)
  {
    hide KindOf, CodeOf, Parse;
    ParsedFields(data);
    CodeOfKind(data[0] / 32);
    LongLayout(data[0], data[1], data[2], Parse(data).value.length);
  }

  lemma RecoverAdditional(data: seq<Byte>)
    requires Parse(data).Some? && Parse(data).value.form.Additional?
    ensures Recovered(data)
  {
    hide KindOf, CodeOf, Parse;
    ParsedFields(data);
    CodeOfKind(data[0] / 32);
    AdditionalLayout(data[0], data[1], data[2], Parse(data).value.length);
  }

  lemma RecoverSegmented(data: seq<Byte>)
    requires Parse(data).Some? && Parse(data).value.form.Segmented?
    ensures Recovered(data)
  {
    hide KindOf, CodeOf, Parse;
    ParsedFields(data);
    CodeOfKind(data[0] / 32);
    var h := Parse(data).value;
    AdditionalLayout(data[0], data[1], data[2], h.length);
    SegmentLayout(data[3], data[4], h.form.segment.subStream);
  }

  /** What the parser accepts is the layout of what it returns. */
  lemma EncodeOfParse(data: seq<Byte>)
    requires Parse(data).Some?
    ensures var h := Parse(data).value; ValidHeader(h) && Encode(h, SpareOf(data)) <= data
  {
    hide Parse;
    match Parse(data).value.form
    case Short => RecoverShort(data);
    case Long => RecoverLong(data);
    case Additional => RecoverAdditional(data);
    case Segmented(_) => RecoverSegmented(data);
  }
}
