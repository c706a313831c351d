/** The CRC-32 code: bytes as bits, the lookup table, and the computations of the two decoders. */
module CrcComputation {
  import opened BitReversal
  import opened Crc32
  import opened Sequences

  // ---------- Numbers and their bits ----------

  function Digits(k: nat, n: nat): (w: seq<bool>)
    ensures |w| == k
  {
    if k == 0 then [] else Digits(k - 1, n / 2) + [n % 2 == 1]
  }

  function Value(w: seq<bool>): nat {
    if |w| == 0 then 0 else 2 * Value(w[..|w| - 1]) + (if w[|w| - 1] then 1 else 0)
  }

  /** n >> s. */
  function ShiftRight(n: nat, s: nat): nat
    decreases s
  {
    if s == 0 then n else ShiftRight(n / 2, s - 1)
  }

  lemma ValueNext(w: seq<bool>, b: bool)
    ensures Value(w + [b]) == 2 * Value(w) + (if b then 1 else 0)
  {
    assert (w + [b])[..|w|] == w;
  }

  lemma {:induction false} DigitsOfValue(w: seq<bool>)
    ensures Digits(|w|, Value(w)) == w
    ensures Value(w) < Pow2(|w|)
    decreases |w|
  {
    if |w| > 0 {
      DigitsOfValue(w[..|w| - 1]);
    }
  }

  lemma {:induction false} ValueOfDigits(k: nat, n: nat)
    requires n < Pow2(k)
    ensures Value(Digits(k, n)) == n
  {
    if k > 0 {
      ValueOfDigits(k - 1, n / 2);
      ValueNext(Digits(k - 1, n / 2), n % 2 == 1);
    }
  }

  lemma ValueInjective(a: seq<bool>, b: seq<bool>)
    requires |a| == |b|
    ensures Value(a) == Value(b) <==> a == b
  {
    DigitsOfValue(a);
    DigitsOfValue(b);
  }

  lemma Doubled(x: nat, p: nat)
    ensures x * (2 * p) == 2 * (x * p)
  {}

  lemma {:induction false} ValueConcat(a: seq<bool>, b: seq<bool>)
    ensures Value(a + b) == Value(a) * Pow2(|b|) + Value(b)
    decreases |b|
  {
    if |b| == 0 {
      assert a + b == a;
    } else {
      var t, c := b[..|b| - 1], b[|b| - 1];
      assert a + b == a + t + [c] && b == t + [c];
      ValueConcat(a, t);
      ValueNext(a + t, c);
      ValueNext(t, c);
      hide Value;
      Doubled(Value(a), Pow2(|t|));
    }
  }

  lemma {:induction false} DigitAt(k: nat, n: nat, i: nat)
    requires i < k
    ensures Digits(k, n)[i] <==> ShiftRight(n, k - 1 - i) % 2 == 1
    decreases k
  {
    if i < k - 1 {
      DigitAt(k - 1, n / 2, i);
    }
  }

  // ---------- Bytes ----------

  function Bits(b: Byte): (w: seq<bool>)
    ensures |w| == 8
  {
    Digits(8, b)
  }

  function BitsOf(data: seq<Byte>): (w: seq<bool>)
    ensures |w| == 8 * |data|
  {
    if |data| == 0 then [] else BitsOf(data[..|data| - 1]) + Bits(data[|data| - 1])
  }

  lemma Pow2Of8()
    ensures Pow2(8) == 256
  {
    assert Pow2(4) == 16;
  }

  lemma BitsInjective(a: Byte, b: Byte)
    requires Bits(a) == Bits(b)
    ensures a == b
  {
    Pow2Of8();
    ValueOfDigits(8, a);
    ValueOfDigits(8, b);
  }

  lemma BitsOfNext(data: seq<Byte>, b: Byte)
    ensures BitsOf(data + [b]) == BitsOf(data) + Bits(b)
  {
    assert (data + [b])[..|data|] == data;
  }

  lemma {:induction false} BitsOfConcat(a: seq<Byte>, b: seq<Byte>)
    ensures BitsOf(a + b) == BitsOf(a) + BitsOf(b)
    decreases |b|
  {
    hide Bits;
    if |b| == 0 {
      assert a + b == a;
    } else {
      var t, c := b[..|b| - 1], b[|b| - 1];
      assert a + b == a + t + [c] && b == t + [c];
      BitsOfNext(a + t, c);
      BitsOfNext(t, c);
      BitsOfConcat(a, t);
    }
  }

  lemma {:induction false} BitsOfAt(data: seq<Byte>, i: nat)
    requires i < 8 * |data|
    ensures BitsOf(data)[i] == Bits(data[i / 8])[i % 8]
    decreases |data|
  {
    hide Bits;
    var n := |data| - 1;
    if i < 8 * n {
      BitsOfAt(data[..n], i);
    }
  }

  /** The byte with the given bits. */
  function ByteOf(w: seq<bool>): (b: Byte)
    requires |w| == 8
    ensures Bits(b) == w
  {
    DigitsOfValue(w);
    Pow2Of8();
    Value(w)
  }

  // ---------- The table ----------

  /** The check of one byte: the byte at the top of the register, shifted out. */
  function Entry(b: Byte): Word {
    TimesN(Bits(b) + Zeros(24), 8)
  }

  ghost predicate IsTable(table: seq<Word>) {
    |table| == 256 && forall b: Byte :: table[b] == Entry(b)
  }

  method TableEntry(i: Byte) returns (crc: Word)
    ensures crc == Entry(i)
  {
    hide Xor, ShiftLeft, Bits;
    crc := Bits(i) + Zeros(24);
    for j := 0 to 8
      invariant TimesN(crc, 8 - j) == Entry(i)
    {
      crc := if crc[0] then Xor(ShiftLeft(crc, 1), POLY) else ShiftLeft(crc, 1);
    }
  }

  method InitCrc32Table(table: array<Word>)
    requires table.Length == 256
    modifies table
    ensures IsTable(table[..])
  {
    hide Entry;
    for i := 0 to 256
      invariant forall b: Byte :: b < i ==> table[b] == Entry(b)
    {
      table[i] := TableEntry(i);
    }
  }

  /** One lookup advances the register by the eight bits of a byte. */
  lemma LookupIsEightSteps(r: Word, b: Byte)
    ensures Xor(ShiftLeft(r, 8), Entry(ByteOf(Xor(r[..8], Bits(b))))) == Register(r, Bits(b))
  {
    hide Register, TimesN, Times;
    var index := Xor(r[..8], Bits(b));
    var high, low := index + Zeros(24), Zeros(8) + r[8..];
    assert Entry(ByteOf(index)) == TimesN(high, 8);
    hide Entry, Bits, ByteOf;
    RegisterLeading(r, Bits(b));
    assert Xor(r, Bits(b) + Zeros(24)) == Xor(high, low);
    TimesNLinear(high, low, 8);
    LeadingZeros(8, r[8..]);
    XorComm(TimesN(high, 8), ShiftLeft(r, 8));
  }

  lemma RegisterNextByte(r: Word, data: seq<Byte>, i: nat)
    requires i < |data|
    ensures Register(r, BitsOf(data[..i + 1])) == Register(Register(r, BitsOf(data[..i])), Bits(data[i]))
  {
    hide Register, Bits;
    assert data[..i + 1] == data[..i] + [data[i]];
    BitsOfNext(data[..i], data[i]);
    RegisterConcat(r, BitsOf(data[..i]), Bits(data[i]));
  }

  /** AlpDemux::compute_crc32. */
  method ComputeCrc32(table: seq<Word>, data: seq<Byte>) returns (crc: Word)
    requires IsTable(table)
    ensures crc == Register(ONES, BitsOf(data))
  {
    hide Register, Entry, Bits, Xor, ShiftLeft, ByteOf;
    crc := ONES;
    assert data[..0] == [];
    RegisterEmpty(ONES, []);
    for i := 0 to |data|
      invariant crc == Register(ONES, BitsOf(data[..i]))
    {
      var index := Xor(crc[..8], Bits(data[i]));
      LookupIsEightSteps(crc, data[i]);
      RegisterNextByte(ONES, data, i);
      crc := Xor(ShiftLeft(crc, 8), table[ByteOf(index)]);
    }
    assert data[..|data|] == data;
  }

  // ---------- Verification over a packet ----------

  /** The last four bytes are the check of the bytes before them. */
  ghost predicate Accepts(data: seq<Byte>) {
    |data| >= 4 && Register(ONES, BitsOf(data[..|data| - 4])) == BitsOf(data[|data| - 4..])
  }

  lemma FourBytes(d: seq<Byte>)
    requires |d| == 4
    ensures Value(BitsOf(d)) == (d[0] as int) * 0x1000000 + (d[1] as int) * 0x10000 + (d[2] as int) * 0x100 + d[3]
  {
    hide Value, Bits;
    Pow2Of8();
    NextByteValue(d[..0], d[0]);
    NextByteValue(d[..1], d[1]);
    NextByteValue(d[..2], d[2]);
    NextByteValue(d[..3], d[3]);
    assert d[..0] + [d[0]] == d[..1] && d[..1] + [d[1]] == d[..2] && d[..2] + [d[2]] == d[..3] && d[..3] + [d[3]] == d;
    assert Value([]) == 0 by {
      DigitsOfValue([]);
    }
  }

  lemma NextByteValue(d: seq<Byte>, b: Byte)
    ensures Value(BitsOf(d + [b])) == 256 * Value(BitsOf(d)) + b
  {
    hide Value, Digits;
    BitsOfNext(d, b);
    ValueConcat(BitsOf(d), Bits(b));
    Pow2Of8();
    ValueOfDigits(8, b);
  }

  method VerifyCrc(table: seq<Word>, data: seq<Byte>) returns (ok: bool)
    requires IsTable(table)
    ensures ok <==> Accepts(data)
  {
    var n := |data|;
    if n < 4 {
      return false;
    }
    var computed := ComputeCrc32(table, data[..n - 4]);
    var transmitted := (data[n - 4] as int) * 0x1000000 + (data[n - 3] as int) * 0x10000
      + (data[n - 2] as int) * 0x100 + data[n - 1];
    FourBytes(data[n - 4..]);
    ValueInjective(computed, BitsOf(data[n - 4..]));
    ok := Value(computed) == transmitted;
  }

  lemma AcceptsIsZeroResidue(data: seq<Byte>)
    requires |data| >= 4
    ensures Accepts(data) <==> Register(ONES, BitsOf(data)) == ZERO
  {
    hide Register;
    var n := |data| - 4;
    assert data[..n] + data[n..] == data;
    BitsOfConcat(data[..n], data[n..]);
    ResidueIsZero(ONES, BitsOf(data[..n]), BitsOf(data[n..]));
  }

  // ---------- Where the register starts ----------

  lemma {:induction false} BitsOfFull(n: nat)
    ensures BitsOf(seq(n, _ => 255)) == Ones(8 * n)
  {
    var d: seq<Byte> := seq(n, _ => 255);
    if n > 0 {
      BitsOfFull(n - 1);
      assert d[..n - 1] == seq(n - 1, _ => 255);
      FullByte();
    }
  }

  lemma FullByte()
    ensures Bits(255) == Ones(8)
  {
    DigitsOfOnes(8);
    Pow2Of8();
  }

  lemma {:induction false} DigitsOfOnes(k: nat)
    ensures Digits(k, Pow2(k) - 1) == Ones(k)
  {
    if k > 0 {
      DigitsOfOnes(k - 1);
      assert (Pow2(k) - 1) / 2 == Pow2(k - 1) - 1;
    }
  }

  /** Before any message the register is all ones: of the packets of four bytes only FF FF FF FF is accepted. */
  lemma EmptyMessageAccepted(data: seq<Byte>)
    requires |data| == 4
    ensures Accepts(data) <==> data == [255, 255, 255, 255]
  {
    hide Bits, BitsOf;
    var full: seq<Byte> := seq(4, _ => 255);
    assert full == [255, 255, 255, 255];
    assert data[..0] == [] && data[0..] == data && BitsOf([]) == [];
    RegisterEmpty(ONES, []);
    BitsOfFull(4);
    assert Ones(32) == Register(ONES, []);
    if BitsOf(data) == BitsOf(full) {
      BitsOfInjective(data, full);
    }
  }

  lemma {:induction false} BitsOfNull(n: nat)
    ensures BitsOf(seq(n, _ => 0)) == Zeros(8 * n)
  {
    var d: seq<Byte> := seq(n, _ => 0);
    if n > 0 {
      BitsOfNull(n - 1);
      assert d[..n - 1] == seq(n - 1, _ => 0);
      NullByte(8);
      ZerosAdd(8 * (n - 1), 8);
    }
  }

  lemma {:induction false} NullByte(k: nat)
    ensures Digits(k, 0) == Zeros(k)
  {
    if k > 0 {
      NullByte(k - 1);
    }
  }

  lemma {:induction false} RegisterOfZeros(r: Word, n: nat)
    ensures Register(r, Zeros(n)) == TimesN(r, n)
    decreases n
  {
    hide Times;
    if n > 0 {
      assert Zeros(n)[1..] == Zeros(n - 1) && Zeros(n)[0] == false;
      assert [false] + Zeros(31) == ZERO;
      XorUnits(r);
      RegisterOfZeros(Times(r), n - 1);
    }
  }

  lemma OnesIsNotZero()
    ensures ONES != ZERO
  {
    assert ONES[0] && !ZERO[0];
  }

  /** No packet of zero bytes is accepted, however long: the register never gets back to zero. */
  lemma ZerosNeverAccepted(n: nat)
    ensures !Accepts(seq(n, _ => 0))
  {
    hide Register, Times, TimesN;
    var d: seq<Byte> := seq(n, _ => 0);
    if n >= 4 {
      AcceptsIsZeroResidue(d);
      BitsOfNull(n);
      RegisterOfZeros(ONES, 8 * n);
      TimesNZero(8 * n);
      OnesIsNotZero();
      if TimesN(ONES, 8 * n) == ZERO {
        TimesNInjective(ONES, ZERO, 8 * n);
      }
    }
  }

  /** A word as four bytes, most significant first. */
  function WordBytes(w: Word): (d: seq<Byte>)
    ensures |d| == 4
  {
    [ByteOf(w[..8]), ByteOf(w[8..16]), ByteOf(w[16..24]), ByteOf(w[24..])]
  }

  lemma WordBytesBits(w: Word)
    ensures BitsOf(WordBytes(w)) == w
  {
    hide Bits, ByteOf;
    var d := WordBytes(w);
    assert BitsOf(d[..0]) == [];
    assert d[..0] + [d[0]] == d[..1] && d[..1] + [d[1]] == d[..2] && d[..2] + [d[2]] == d[..3] && d[..3] + [d[3]] == d;
    BitsOfNext(d[..0], d[0]);
    BitsOfNext(d[..1], d[1]);
    BitsOfNext(d[..2], d[2]);
    BitsOfNext(d[..3], d[3]);
    assert w == w[..8] + w[8..16] + w[16..24] + w[24..];
  }

  lemma {:induction false} BitsOfInjective(a: seq<Byte>, b: seq<Byte>)
    requires |a| == |b| && BitsOf(a) == BitsOf(b)
    ensures a == b
  {
    hide Bits;
    if |a| > 0 {
      var n := |a| - 1;
      assert BitsOf(a)[..8 * n] == BitsOf(a[..n]) && BitsOf(b)[..8 * n] == BitsOf(b[..n]);
      assert BitsOf(a)[8 * n..] == Bits(a[n]) && BitsOf(b)[8 * n..] == Bits(b[n]);
      BitsOfInjective(a[..n], b[..n]);
      BitsInjective(a[n], b[n]);
    }
  }

  lemma BitsOfDistinct(a: seq<Byte>, b: seq<Byte>)
    requires |a| == |b| && a != b
    ensures BitsOf(a) != BitsOf(b)
  {
    if BitsOf(a) == BitsOf(b) {
      BitsOfInjective(a, b);
    }
  }

  /** Exactly one four-byte trailer is accepted after a message: its check, most significant byte first. */
  lemma AppendedCheckAccepted(message: seq<Byte>, trailer: seq<Byte>)
    requires |trailer| == 4
    ensures Accepts(message + trailer) <==> trailer == WordBytes(Register(ONES, BitsOf(message)))
  {
    hide Register, WordBytes;
    var c := Register(ONES, BitsOf(message));
    var data := message + trailer;
    assert data[..|data| - 4] == message && data[|data| - 4..] == trailer;
    WordBytesBits(c);
    if BitsOf(trailer) == c {
      BitsOfInjective(trailer, WordBytes(c));
    }
  }

  /** An accepted packet whose damage lies within 32 consecutive bits, check included, is never accepted. */
  lemma BurstRejected(sent: seq<Byte>, received: seq<Byte>, a: nat)
    requires Accepts(sent) && |received| == |sent| && received != sent
    requires AgreeOutside(BitsOf(sent), BitsOf(received), a)
    ensures !Accepts(received)
  {
    hide Register, BitsOf, AgreeOutside;
    AcceptsIsZeroResidue(sent);
    AcceptsIsZeroResidue(received);
    BitsOfDistinct(sent, received);
    WindowDetected(ONES, BitsOf(sent), BitsOf(received), a);
  }

  // ---------- The signalling decoder's check ----------

  /** L1Decoder::extract_bits: n bits from a bit offset, as a number. */
  method ExtractBits(data: seq<Byte>, offset: nat, n: nat) returns (result: nat)
    requires offset + n <= 8 * |data| && n <= 32
    ensures result == Value(BitsOf(data)[offset..offset + n])
  {
    hide Value, Bits, BitsOf;
    result := 0;
    ghost var all := BitsOf(data);
    EmptyValue(all, offset);
    for i := 0 to n
      invariant result == Value(all[offset..offset + i]) * Pow2(n - i)
    {
      var pos := offset + i;
      var byteIndex, bitIndex := pos / 8, 7 - pos % 8;
      BitsOfAt(data, pos);
      BitAt(data[byteIndex], pos % 8);
      ExtractStep(all, offset, i, n);
      // The bit n - 1 - i of the result is still clear, so or-ing it in adds it.
      if ShiftRight(data[byteIndex], bitIndex) % 2 == 1 {
        result := result + Pow2(n - 1 - i);
      }
    }
    assert Pow2(0) == 1;
  }

  lemma EmptyValue(w: seq<bool>, offset: nat)
    requires offset <= |w|
    ensures Value(w[offset..offset]) == 0
  {}

  lemma BitAt(b: Byte, i: nat)
    requires i < 8
    ensures Bits(b)[i] <==> ShiftRight(b, 7 - i) % 2 == 1
  {
    DigitAt(8, b, i);
  }

  lemma ExtractStep(w: seq<bool>, offset: nat, i: nat, n: nat)
    requires offset + n <= |w| && i < n
    ensures Value(w[offset..offset + i + 1]) * Pow2(n - (i + 1))
         == Value(w[offset..offset + i]) * Pow2(n - i) + (if w[offset + i] then Pow2(n - 1 - i) else 0)
  {
    hide Value;
    var v, p := Value(w[offset..offset + i]), Pow2(n - 1 - i);
    assert w[offset..offset + i + 1] == w[offset..offset + i] + [w[offset + i]];
    ValueNext(w[offset..offset + i], w[offset + i]);
    Doubled(v, p);
    assert (2 * v + 1) * p == 2 * (v * p) + p && (2 * v) * p == 2 * (v * p);
  }

  /** The message of the signalling check: its bits, filled up with zeros to a whole byte. */
  function Filled(w: seq<bool>): (f: seq<bool>)
    ensures |f| % 8 == 0
  {
    w + Zeros((8 - |w| % 8) % 8)
  }

  /** Clearing the low s bits of a byte by shifting right and back left. */
  lemma {:induction false} ClearLow(k: nat, n: nat, s: nat)
    requires s <= k
    ensures Digits(k, ShiftRight(n, s) * Pow2(s)) == Digits(k, n)[..k - s] + Zeros(s)
    decreases s
  {
    if s == 0 {
      assert Digits(k, n)[..k] + Zeros(0) == Digits(k, n);
    } else {
      var x, p := ShiftRight(n / 2, s - 1), Pow2(s - 1);
      Doubled(x, p);
      ClearLow(k - 1, n / 2, s - 1);
      assert Zeros(s) == Zeros(s - 1) + [false];
    }
  }

  lemma {:induction false} ShiftFits(n: nat, s: nat, k: nat)
    requires n < Pow2(k) && s <= k
    ensures ShiftRight(n, s) * Pow2(s) < Pow2(k)
    decreases s
  {
    if s > 0 {
      ShiftFits(n / 2, s - 1, k - 1);
      Doubled(ShiftRight(n / 2, s - 1), Pow2(s - 1));
    }
  }

  /** L1Decoder::compute_crc32: whole bytes, then the leading bits of one more, then the complement. */
  method ComputeCrc32OfBits(table: seq<Word>, data: seq<Byte>, numBits: nat) returns (crc: Word)
    requires IsTable(table) && numBits <= 8 * |data|
    ensures crc == Xor(Register(ONES, Filled(BitsOf(data)[..numBits])), ONES)
  {
    hide Register, Entry, Bits, Xor, ShiftLeft, ByteOf, Value, BitsOf, ShiftRight, Pow2;
    var numBytes, remaining := numBits / 8, numBits % 8;
    crc := ComputeCrc32(table, data[..numBytes]);
    ghost var all := BitsOf(data);
    PrefixBits(data, numBytes);
    if remaining > 0 {
      var s := 8 - remaining;
      Pow2Of8();
      ShiftFits(data[numBytes], s, 8);
      var byte: Byte := ShiftRight(data[numBytes], s) * Pow2(s);
      LastByte(data, numBytes, remaining, byte);
      FilledIs(all, numBytes, remaining);
      RegisterConcat(ONES, all[..8 * numBytes], Bits(byte));
      var index := Xor(crc[..8], Bits(byte));
      LookupIsEightSteps(crc, byte);
      crc := Xor(ShiftLeft(crc, 8), table[ByteOf(index)]);
    } else {
      FilledWhole(all, numBytes);
    }
    crc := Xor(crc, ONES);
  }

  lemma FilledIs(w: seq<bool>, n: nat, r: nat)
    requires 8 * n + r <= |w| && 0 < r < 8
    ensures Filled(w[..8 * n + r]) == w[..8 * n] + (w[8 * n..8 * n + r] + Zeros(8 - r))
  {}

  lemma FilledWhole(w: seq<bool>, n: nat)
    requires 8 * n <= |w|
    ensures Filled(w[..8 * n]) == w[..8 * n]
  {}

  lemma PrefixBits(data: seq<Byte>, n: nat)
    requires n <= |data|
    ensures BitsOf(data)[..8 * n] == BitsOf(data[..n])
  {
    assert data == data[..n] + data[n..];
    BitsOfConcat(data[..n], data[n..]);
  }

  lemma LastByte(data: seq<Byte>, n: nat, r: nat, byte: Byte)
    requires n < |data| && 0 < r < 8 && byte == ShiftRight(data[n], 8 - r) * Pow2(8 - r)
    ensures Bits(byte) == BitsOf(data)[8 * n..8 * n + r] + Zeros(8 - r)
  {
    hide Digits, ShiftRight, Pow2, BitsOf;
    ClearLow(8, data[n], 8 - r);
    PrefixBits(data, n);
    PrefixBits(data, n + 1);
    assert data[..n + 1] == data[..n] + [data[n]];
    BitsOfNext(data[..n], data[n]);
    SliceAfter(BitsOf(data), 8 * n, Bits(data[n]), r);
  }

  lemma SliceAfter(w: seq<bool>, k: nat, b: seq<bool>, r: nat)
    requires k + |b| <= |w| && w[..k + |b|] == w[..k] + b && r <= |b|
    ensures w[k..k + r] == b[..r]
  {
    var p := w[..k + |b|];
    assert p[k..] == b;
    forall i | 0 <= i < r
      ensures w[k..k + r][i] == p[k..][i]
    {}
  }

  /** The bits after the message are the complemented check of the filled-up message. */
  ghost predicate SignallingAccepts(w: seq<bool>) {
    |w| >= 32 && w[|w| - 32..] == Xor(Register(ONES, Filled(w[..|w| - 32])), ONES)
  }

  /** L1Decoder::validate_crc. */
  method ValidateCrc(checkCrc: bool, table: seq<Word>, data: seq<Byte>, numBits: nat) returns (ok: bool)
    requires IsTable(table) && numBits <= 8 * |data|
    ensures ok <==> !checkCrc || SignallingAccepts(BitsOf(data)[..numBits])
  {
    hide Register, Xor, BitsOf, Value, Filled;
    if !checkCrc {
      return true;
    }
    if numBits < 32 {
      return false;
    }
    ghost var w := BitsOf(data)[..numBits];
    var dataBits := numBits - 32;
    assert w[..dataBits] == BitsOf(data)[..dataBits] && w[dataBits..] == BitsOf(data)[dataBits..numBits];
    var computed := ComputeCrc32OfBits(table, data, dataBits);
    var transmitted := ExtractBits(data, dataBits, 32);
    ValueInjective(computed, w[dataBits..]);
    ok := Value(computed) == transmitted;
  }

  /** Acceptance is one fixed residue of the filled-up message followed by the check. */
  lemma SignallingResidue(w: seq<bool>)
    requires |w| >= 32
    ensures SignallingAccepts(w) <==>
            Register(ONES, Filled(w[..|w| - 32]) + w[|w| - 32..]) == TimesN(ONES, 32)
  {
    hide Xor, Times, Register, TimesN, Filled;
    var message, check := Filled(w[..|w| - 32]), w[|w| - 32..];
    var c := Register(ONES, message);
    RegisterConcat(ONES, message, check);
    RegisterLeading(c, check);
    assert check + Zeros(0) == check;
    if Register(ONES, message + check) == TimesN(ONES, 32) {
      TimesNInjective(Xor(c, check), ONES, 32);
    }
    XorAssoc(c, c, ONES);
    XorAssoc(c, c, check);
    XorUnits(c);
    XorUnits(ONES);
    XorUnits(check);
  }

  /** Before any message the complemented check is zero: 32 bits alone are accepted when they are all zero, only. */
  lemma EmptySignallingAccepted(w: seq<bool>)
    requires |w| == 32
    ensures SignallingAccepts(w) <==> w == Zeros(32)
  {
    assert w[..0] == [] && w[0..] == w;
    assert Filled([]) == [];
    RegisterEmpty(ONES, []);
    assert Xor(ONES, ONES) == Zeros(32);
  }
}
