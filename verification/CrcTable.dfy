/** The 256 constants of the link-layer decoder's lookup table, and that they are the checks of all bytes. */
module CrcTable {
  import opened Crc32
  import opened CrcComputation
  import opened Sequences
  import opened BitReversal

  // ---------- The constants, eight to a row ----------

  function Row0(): (row: seq<bv32>)
    ensures |row| == 8
  {
    [0x00000000, 0x04C11DB7, 0x09823B6E, 0x0D4326D9, 0x130476DC, 0x17C56B6B, 0x1A864DB2, 0x1E475005]
  }

  function Row1(): (row: seq<bv32>)
    ensures |row| == 8
  {
    [0x2608EDB8, 0x22C9F00F, 0x2F8AD6D6, 0x2B4BCB61, 0x350C9B64, 0x31CD86D3, 0x3C8EA00A, 0x384FBDBD]
  }

  function Row2(): (row: seq<bv32>)
    ensures |row| == 8
  {
    [0x4C11DB70, 0x48D0C6C7, 0x4593E01E, 0x4152FDA9, 0x5F15ADAC, 0x5BD4B01B, 0x569796C2, 0x52568B75]
  }

  function Row3(): (row: seq<bv32>)
    ensures |row| == 8
  {
    [0x6A1936C8, 0x6ED82B7F, 0x639B0DA6, 0x675A1011, 0x791D4014, 0x7DDC5DA3, 0x709F7B7A, 0x745E66CD]
  }

  function Row4(): (row: seq<bv32>)
    ensures |row| == 8
  {
    [0x9823B6E0, 0x9CE2AB57, 0x91A18D8E, 0x95609039, 0x8B27C03C, 0x8FE6DD8B, 0x82A5FB52, 0x8664E6E5]
  }

  function Row5(): (row: seq<bv32>)
    ensures |row| == 8
  {
    [0xBE2B5B58, 0xBAEA46EF, 0xB7A96036, 0xB3687D81, 0xAD2F2D84, 0xA9EE3033, 0xA4AD16EA, 0xA06C0B5D]
  }

  function Row6(): (row: seq<bv32>)
    ensures |row| == 8
  {
    [0xD4326D90, 0xD0F37027, 0xDDB056FE, 0xD9714B49, 0xC7361B4C, 0xC3F706FB, 0xCEB42022, 0xCA753D95]
  }

  function Row7(): (row: seq<bv32>)
    ensures |row| == 8
  {
    [0xF23A8028, 0xF6FB9D9F, 0xFBB8BB46, 0xFF79A6F1, 0xE13EF6F4, 0xE5FFEB43, 0xE8BCCD9A, 0xEC7DD02D]
  }

  function Row8(): (row: seq<bv32>)
    ensures |row| == 8
  {
    [0x34867077, 0x30476DC0, 0x3D044B19, 0x39C556AE, 0x278206AB, 0x23431B1C, 0x2E003DC5, 0x2AC12072]
  }

  function Row9(): (row: seq<bv32>)
    ensures |row| == 8
  {
    [0x128E9DCF, 0x164F8078, 0x1B0CA6A1, 0x1FCDBB16, 0x018AEB13, 0x054BF6A4, 0x0808D07D, 0x0CC9CDCA]
  }

  function Row10(): (row: seq<bv32>)
    ensures |row| == 8
  {
    [0x7897AB07, 0x7C56B6B0, 0x71159069, 0x75D48DDE, 0x6B93DDDB, 0x6F52C06C, 0x6211E6B5, 0x66D0FB02]
  }

  function Row11(): (row: seq<bv32>)
    ensures |row| == 8
  {
    [0x5E9F46BF, 0x5A5E5B08, 0x571D7DD1, 0x53DC6066, 0x4D9B3063, 0x495A2DD4, 0x44190B0D, 0x40D816BA]
  }

  function Row12(): (row: seq<bv32>)
    ensures |row| == 8
  {
    [0xACA5C697, 0xA864DB20, 0xA527FDF9, 0xA1E6E04E, 0xBFA1B04B, 0xBB60ADFC, 0xB6238B25, 0xB2E29692]
  }

  function Row13(): (row: seq<bv32>)
    ensures |row| == 8
  {
    [0x8AAD2B2F, 0x8E6C3698, 0x832F1041, 0x87EE0DF6, 0x99A95DF3, 0x9D684044, 0x902B669D, 0x94EA7B2A]
  }

  function Row14(): (row: seq<bv32>)
    ensures |row| == 8
  {
    [0xE0B41DE7, 0xE4750050, 0xE9362689, 0xEDF73B3E, 0xF3B06B3B, 0xF771768C, 0xFA325055, 0xFEF34DE2]
  }

  function Row15(): (row: seq<bv32>)
    ensures |row| == 8
  {
    [0xC6BCF05F, 0xC27DEDE8, 0xCF3ECB31, 0xCBFFD686, 0xD5B88683, 0xD1799B34, 0xDC3ABDED, 0xD8FBA05A]
  }

  function Row16(): (row: seq<bv32>)
    ensures |row| == 8
  {
    [0x690CE0EE, 0x6DCDFD59, 0x608EDB80, 0x644FC637, 0x7A089632, 0x7EC98B85, 0x738AAD5C, 0x774BB0EB]
  }

  function Row17(): (row: seq<bv32>)
    ensures |row| == 8
  {
    [0x4F040D56, 0x4BC510E1, 0x46863638, 0x42472B8F, 0x5C007B8A, 0x58C1663D, 0x558240E4, 0x51435D53]
  }

  function Row18(): (row: seq<bv32>)
    ensures |row| == 8
  {
    [0x251D3B9E, 0x21DC2629, 0x2C9F00F0, 0x285E1D47, 0x36194D42, 0x32D850F5, 0x3F9B762C, 0x3B5A6B9B]
  }

  function Row19(): (row: seq<bv32>)
    ensures |row| == 8
  {
    [0x0315D626, 0x07D4CB91, 0x0A97ED48, 0x0E56F0FF, 0x1011A0FA, 0x14D0BD4D, 0x19939B94, 0x1D528623]
  }

  function Row20(): (row: seq<bv32>)
    ensures |row| == 8
  {
    [0xF12F560E, 0xF5EE4BB9, 0xF8AD6D60, 0xFC6C70D7, 0xE22B20D2, 0xE6EA3D65, 0xEBA91BBC, 0xEF68060B]
  }

  function Row21(): (row: seq<bv32>)
    ensures |row| == 8
  {
    [0xD727BBB6, 0xD3E6A601, 0xDEA580D8, 0xDA649D6F, 0xC423CD6A, 0xC0E2D0DD, 0xCDA1F604, 0xC960EBB3]
  }

  function Row22(): (row: seq<bv32>)
    ensures |row| == 8
  {
    [0xBD3E8D7E, 0xB9FF90C9, 0xB4BCB610, 0xB07DABA7, 0xAE3AFBA2, 0xAAFBE615, 0xA7B8C0CC, 0xA379DD7B]
  }

  function Row23(): (row: seq<bv32>)
    ensures |row| == 8
  {
    [0x9B3660C6, 0x9FF77D71, 0x92B45BA8, 0x9675461F, 0x8832161A, 0x8CF30BAD, 0x81B02D74, 0x857130C3]
  }

  function Row24(): (row: seq<bv32>)
    ensures |row| == 8
  {
    [0x5D8A9099, 0x594B8D2E, 0x5408ABF7, 0x50C9B640, 0x4E8EE645, 0x4A4FFBF2, 0x470CDD2B, 0x43CDC09C]
  }

  function Row25(): (row: seq<bv32>)
    ensures |row| == 8
  {
    [0x7B827D21, 0x7F436096, 0x7200464F, 0x76C15BF8, 0x68860BFD, 0x6C47164A, 0x61043093, 0x65C52D24]
  }

  function Row26(): (row: seq<bv32>)
    ensures |row| == 8
  {
    [0x119B4BE9, 0x155A565E, 0x18197087, 0x1CD86D30, 0x029F3D35, 0x065E2082, 0x0B1D065B, 0x0FDC1BEC]
  }

  function Row27(): (row: seq<bv32>)
    ensures |row| == 8
  {
    [0x3793A651, 0x3352BBE6, 0x3E119D3F, 0x3AD08088, 0x2497D08D, 0x2056CD3A, 0x2D15EBE3, 0x29D4F654]
  }

  function Row28(): (row: seq<bv32>)
    ensures |row| == 8
  {
    [0xC5A92679, 0xC1683BCE, 0xCC2B1D17, 0xC8EA00A0, 0xD6AD50A5, 0xD26C4D12, 0xDF2F6BCB, 0xDBEE767C]
  }

  function Row29(): (row: seq<bv32>)
    ensures |row| == 8
  {
    [0xE3A1CBC1, 0xE760D676, 0xEA23F0AF, 0xEEE2ED18, 0xF0A5BD1D, 0xF464A0AA, 0xF9278673, 0xFDE69BC4]
  }

  function Row30(): (row: seq<bv32>)
    ensures |row| == 8
  {
    [0x89B8FD09, 0x8D79E0BE, 0x803AC667, 0x84FBDBD0, 0x9ABC8BD5, 0x9E7D9662, 0x933EB0BB, 0x97FFAD0C]
  }

  function Row31(): (row: seq<bv32>)
    ensures |row| == 8
  {
    [0xAFB010B1, 0xAB710D06, 0xA6322BDF, 0xA2F33668, 0xBCB4666D, 0xB8757BDA, 0xB5365D03, 0xB1F740B4]
  }

  // ---------- Words as machine words ----------

  datatype Word32 = Word32(v: bv32)

  predicate Has(x: Word32, m: Word32) {
    x.v & m.v != 0
  }

  /** Bit k of a machine word, counted from the most significant. */
  function MaskAt(k: nat): Word32 {
    if k == 0 then Word32(0x80000000) else Half(MaskAt(k - 1))
  }

  function Half(m: Word32): Word32 {
    Word32(m.v >> 1)
  }

  /** The bits of a machine word, most significant first. */
  function BitsOfWord(x: Word32): (w: Word) {
    seq(32, k requires 0 <= k < 32 => Has(x, MaskAt(k)))
  }

  /** One step of the table's builder. */
  function Step(x: Word32): Word32 {
    if Has(x, Word32(0x80000000)) then XorWord(ShiftWord(x), POLY_WORD) else ShiftWord(x)
  }

  function ShiftWord(x: Word32): Word32 {
    Word32(x.v << 1)
  }

  function XorWord(x: Word32, y: Word32): Word32 {
    Word32(x.v ^ y.v)
  }

  predicate OneBit(m: Word32) {
    m.v & (m.v - 1) == 0
  }

  lemma HalfOfOneBit(m: Word32)
    requires OneBit(m)
    ensures OneBit(Half(m))
  {}

  lemma {:induction false} MaskIsOneBit(k: nat)
    ensures OneBit(MaskAt(k))
  {
    hide OneBit, Half;
    if k == 0 {
      TopIsOneBit();
    } else {
      MaskIsOneBit(k - 1);
      HalfOfOneBit(MaskAt(k - 1));
    }
  }

  lemma TopIsOneBit()
    ensures OneBit(Word32(0x80000000))
  {}

  lemma XorBit(x: Word32, y: Word32, m: Word32)
    requires OneBit(m)
    ensures Has(XorWord(x, y), m) <==> Has(x, m) != Has(y, m)
  {}

  lemma ShiftBit(x: Word32, m: Word32)
    ensures Has(ShiftWord(x), m) <==> Has(x, Half(m))
  {}

  lemma XorBits(x: Word32, y: Word32)
    ensures BitsOfWord(XorWord(x, y)) == Xor(BitsOfWord(x), BitsOfWord(y))
  {
    hide Has, XorWord, OneBit, MaskAt;
    forall k | 0 <= k < 32
      ensures BitsOfWord(XorWord(x, y))[k] == Xor(BitsOfWord(x), BitsOfWord(y))[k]
    {
      MaskIsOneBit(k);
      XorBit(x, y, MaskAt(k));
    }
  }

  function FourHalves(m: Word32): Word32 {
    Half(Half(Half(Half(m))))
  }

  lemma FourHalvesOf()
    ensures FourHalves(Word32(0x80000000)) == Word32(0x08000000) && FourHalves(Word32(0x08000000)) == Word32(0x00800000)
    ensures FourHalves(Word32(0x00800000)) == Word32(0x00080000) && FourHalves(Word32(0x00080000)) == Word32(0x00008000)
    ensures FourHalves(Word32(0x00008000)) == Word32(0x00000800) && FourHalves(Word32(0x00000800)) == Word32(0x00000080)
    ensures FourHalves(Word32(0x00000080)) == Word32(0x00000008) && FourHalves(Word32(0x00000008)) == Word32(0)
  {}

  lemma MaskJump(k: nat)
    ensures MaskAt(k + 4) == FourHalves(MaskAt(k))
  {
    hide Half;
    MaskNext(k);
    MaskNext(k + 1);
    MaskNext(k + 2);
    MaskNext(k + 3);
  }

  lemma MaskNext(k: nat)
    ensures MaskAt(k + 1) == Half(MaskAt(k))
  {
    hide Half;
  }

  lemma Masks()
    ensures MaskAt(0) == Word32(0x80000000) && MaskAt(4) == Word32(0x08000000) && MaskAt(8) == Word32(0x00800000)
    ensures MaskAt(12) == Word32(0x00080000) && MaskAt(16) == Word32(0x00008000) && MaskAt(20) == Word32(0x00000800)
    ensures MaskAt(24) == Word32(0x00000080) && MaskAt(28) == Word32(0x00000008) && MaskAt(32) == Word32(0)
  {
    hide MaskAt, FourHalves;
    MaskStart();
    FourHalvesOf();
    MaskJump(0);
    MaskJump(4);
    MaskJump(8);
    MaskJump(12);
    MaskJump(16);
    MaskJump(20);
    MaskJump(24);
    MaskJump(28);
  }

  lemma MaskStart()
    ensures MaskAt(0) == Word32(0x80000000)
  {}

  lemma HasNothing(x: Word32)
    ensures !Has(x, Word32(0))
  {}

  lemma ShiftBits(x: Word32)
    ensures BitsOfWord(ShiftWord(x)) == ShiftLeft(BitsOfWord(x), 1)
  {
    hide Has, ShiftWord, MaskAt, Half;
    Masks();
    HasNothing(x);
    forall k | 0 <= k < 32
      ensures BitsOfWord(ShiftWord(x))[k] == ShiftLeft(BitsOfWord(x), 1)[k]
    {
      MaskNext(k);
      ShiftBit(x, MaskAt(k));
    }
  }

  /** Four bits in a row, read with the mask of the first and its halves. */
  ghost predicate Nibble(x: Word32, m: Word32, bits: seq<bool>) {
    |bits| == 4 && bits == [Has(x, m), Has(x, Half(m)), Has(x, Half(Half(m))), Has(x, Half(Half(Half(m))))]
  }

  lemma NibbleAt(x: Word32, k: nat, bits: seq<bool>)
    requires k + 4 <= 32 && Nibble(x, MaskAt(k), bits)
    ensures BitsOfWord(x)[k..k + 4] == bits
  {
    hide Has, Half, MaskAt;
    MaskNext(k);
    MaskNext(k + 1);
    MaskNext(k + 2);
    var w := BitsOfWord(x);
    assert w[k..k + 4] == [w[k], w[k + 1], w[k + 2], w[k + 3]];
  }

  const POLY_WORD: Word32 := Word32(0x04C11DB7)

  lemma PolyNibbles()
    ensures Nibble(POLY_WORD, Word32(0x80000000), [false, false, false, false])
    ensures Nibble(POLY_WORD, Word32(0x08000000), [false, true, false, false])
    ensures Nibble(POLY_WORD, Word32(0x00800000), [true, true, false, false])
    ensures Nibble(POLY_WORD, Word32(0x00080000), [false, false, false, true])
    ensures Nibble(POLY_WORD, Word32(0x00008000), [false, false, false, true])
    ensures Nibble(POLY_WORD, Word32(0x00000800), [true, true, false, true])
    ensures Nibble(POLY_WORD, Word32(0x00000080), [true, false, true, true])
    ensures Nibble(POLY_WORD, Word32(0x00000008), [false, true, true, true])
  {}

  lemma PolyBits()
    ensures BitsOfWord(POLY_WORD) == POLY
  {
    hide Nibble, MaskAt, BitsOfWord;
    Masks();
    PolyNibbles();
    NibbleAt(POLY_WORD, 0, [false, false, false, false]);
    NibbleAt(POLY_WORD, 4, [false, true, false, false]);
    NibbleAt(POLY_WORD, 8, [true, true, false, false]);
    NibbleAt(POLY_WORD, 12, [false, false, false, true]);
    NibbleAt(POLY_WORD, 16, [false, false, false, true]);
    NibbleAt(POLY_WORD, 20, [true, true, false, true]);
    NibbleAt(POLY_WORD, 24, [true, false, true, true]);
    NibbleAt(POLY_WORD, 28, [false, true, true, true]);
    IsPoly(BitsOfWord(POLY_WORD));
  }

  lemma IsPoly(w: Word)
    requires w[0..4] == [false, false, false, false]
    requires w[4..8] == [false, true, false, false]
    requires w[8..12] == [true, true, false, false]
    requires w[12..16] == [false, false, false, true]
    requires w[16..20] == [false, false, false, true]
    requires w[20..24] == [true, true, false, true]
    requires w[24..28] == [true, false, true, true]
    requires w[28..32] == [false, true, true, true]
    ensures w == POLY
  {
    assert forall i :: 0 <= i < 4 ==> w[0..4][i] == w[0 + i];
    assert forall i :: 0 <= i < 4 ==> w[4..8][i] == w[4 + i];
    assert forall i :: 0 <= i < 4 ==> w[8..12][i] == w[8 + i];
    assert forall i :: 0 <= i < 4 ==> w[12..16][i] == w[12 + i];
    assert forall i :: 0 <= i < 4 ==> w[16..20][i] == w[16 + i];
    assert forall i :: 0 <= i < 4 ==> w[20..24][i] == w[20 + i];
    assert forall i :: 0 <= i < 4 ==> w[24..28][i] == w[24 + i];
    assert forall i :: 0 <= i < 4 ==> w[28..32][i] == w[28 + i];
  }

  lemma StepBits(x: Word32)
    ensures BitsOfWord(Step(x)) == Times(BitsOfWord(x))
  {
    hide Xor, ShiftLeft, Has, XorWord, ShiftWord, MaskAt;
    ShiftBits(x);
    PolyBits();
    XorBits(ShiftWord(x), POLY_WORD);
    MaskStart();
    assert BitsOfWord(x)[0] == Has(x, MaskAt(0));
  }

  // ---------- The constants are the checks ----------

  /** The constant for 2 b, or for 2 b + 1, from that for b. */
  function Child(x: Word32, odd: bool): Word32 {
    if odd then XorWord(Step(x), POLY_WORD) else Step(x)
  }

  lemma ChildBits(x: Word32, odd: bool)
    ensures BitsOfWord(Child(x, odd)) == Xor(Times(BitsOfWord(x)), if odd then POLY else ZERO)
  {
    hide Xor, Times, XorWord, Step, BitsOfWord;
    StepBits(x);
    PolyBits();
    XorBits(Step(x), POLY_WORD);
    XorUnits(Times(BitsOfWord(x)));
  }

  /** A bit below the register's top byte is worth the generator after eight steps. */
  lemma LowestBit()
    ensures TimesN(Zeros(7) + [true] + Zeros(24), 8) == POLY
  {
    hide Xor;
    var w := [true] + Zeros(24);
    assert Zeros(7) + [true] + Zeros(24) == Zeros(7) + w;
    LeadingZeros(7, w);
    TimesNNext(Zeros(7) + w, 7);
    ZerosAdd(24, 7);
    assert w + Zeros(7) == [true] + Zeros(31);
    assert ShiftLeft([true] + Zeros(31), 1) == ZERO by {
      ZerosAdd(31, 1);
    }
    XorUnits(POLY);
  }

  lemma ByteParts(b: Byte)
    ensures Bits(b) == Digits(7, b / 2) + [b % 2 == 1]
    ensures Bits(b / 2) == [false] + Digits(7, b / 2)
  {
    TopDigit(7, b / 2);
  }

  lemma {:induction false} TopDigit(k: nat, n: nat)
    requires n < Pow2(k)
    ensures Digits(k + 1, n) == [false] + Digits(k, n)
  {
    if k > 0 {
      TopDigit(k - 1, n / 2);
    }
  }

  /** Of the checks too, each is the child of that for half its byte. */
  lemma EntryChild(b: Byte)
    ensures Entry(b) == Xor(Times(Entry(b / 2)), if b % 2 == 1 then POLY else ZERO)
  {
    hide Times, Bits, Digits;
    var half, odd := Digits(7, b / 2), b % 2 == 1;
    ByteParts(b);
    var high, low := half + [false] + Zeros(24), Zeros(7) + [odd] + Zeros(24);
    assert Bits(b) + Zeros(24) == Xor(high, low);
    TimesNLinear(high, low, 8);
    var r := Bits(b / 2) + Zeros(24);
    assert r == [false] + (half + Zeros(24));
    TimesNoCarry(half + Zeros(24));
    ZerosAdd(24, 1);
    assert high == half + Zeros(24) + [false];
    TimesNFirst(r, 8);
    TimesNNext(r, 8);
    LowestBit();
    if !odd {
      assert low == ZERO;
      TimesNZero(8);
    }
  }

  /** Each constant of the row is the child of one of four, from place i of the other row on. */
  ghost predicate Follows(row: seq<bv32>, other: seq<bv32>, i: nat) {
    && |row| == |other| == 8 && i <= 4
    && Word32(row[0]) == Child(Word32(other[i]), false)
    && Word32(row[1]) == Child(Word32(other[i]), true)
    && Word32(row[2]) == Child(Word32(other[i + 1]), false)
    && Word32(row[3]) == Child(Word32(other[i + 1]), true)
    && Word32(row[4]) == Child(Word32(other[i + 2]), false)
    && Word32(row[5]) == Child(Word32(other[i + 2]), true)
    && Word32(row[6]) == Child(Word32(other[i + 3]), false)
    && Word32(row[7]) == Child(Word32(other[i + 3]), true)
  }

  lemma FollowsAt(row: seq<bv32>, other: seq<bv32>, i: nat, c: nat)
    requires Follows(row, other, i) && c < 8
    ensures |row| == 8 && i + c / 2 < |other| && Word32(row[c]) == Child(Word32(other[i + c / 2]), c % 2 == 1)
  {
    hide Child;
  }

  lemma Follow0()
    ensures Follows(Row0(), Row0(), 0)
  {}

  lemma Follow1()
    ensures Follows(Row1(), Row0(), 4)
  {}

  lemma Follow2()
    ensures Follows(Row2(), Row1(), 0)
  {}

  lemma Follow3()
    ensures Follows(Row3(), Row1(), 4)
  {}

  lemma Follow4()
    ensures Follows(Row4(), Row2(), 0)
  {}

  lemma Follow5()
    ensures Follows(Row5(), Row2(), 4)
  {}

  lemma Follow6()
    ensures Follows(Row6(), Row3(), 0)
  {}

  lemma Follow7()
    ensures Follows(Row7(), Row3(), 4)
  {}

  lemma Follow8()
    ensures Follows(Row8(), Row4(), 0)
  {}

  lemma Follow9()
    ensures Follows(Row9(), Row4(), 4)
  {}

  lemma Follow10()
    ensures Follows(Row10(), Row5(), 0)
  {}

  lemma Follow11()
    ensures Follows(Row11(), Row5(), 4)
  {}

  lemma Follow12()
    ensures Follows(Row12(), Row6(), 0)
  {}

  lemma Follow13()
    ensures Follows(Row13(), Row6(), 4)
  {}

  lemma Follow14()
    ensures Follows(Row14(), Row7(), 0)
  {}

  lemma Follow15()
    ensures Follows(Row15(), Row7(), 4)
  {}

  lemma Follow16()
    ensures Follows(Row16(), Row8(), 0)
  {}

  lemma Follow17()
    ensures Follows(Row17(), Row8(), 4)
  {}

  lemma Follow18()
    ensures Follows(Row18(), Row9(), 0)
  {}

  lemma Follow19()
    ensures Follows(Row19(), Row9(), 4)
  {}

  lemma Follow20()
    ensures Follows(Row20(), Row10(), 0)
  {}

  lemma Follow21()
    ensures Follows(Row21(), Row10(), 4)
  {}

  lemma Follow22()
    ensures Follows(Row22(), Row11(), 0)
  {}

  lemma Follow23()
    ensures Follows(Row23(), Row11(), 4)
  {}

  lemma Follow24()
    ensures Follows(Row24(), Row12(), 0)
  {}

  lemma Follow25()
    ensures Follows(Row25(), Row12(), 4)
  {}

  lemma Follow26()
    ensures Follows(Row26(), Row13(), 0)
  {}

  lemma Follow27()
    ensures Follows(Row27(), Row13(), 4)
  {}

  lemma Follow28()
    ensures Follows(Row28(), Row14(), 0)
  {}

  lemma Follow29()
    ensures Follows(Row29(), Row14(), 4)
  {}

  lemma Follow30()
    ensures Follows(Row30(), Row15(), 0)
  {}

  lemma Follow31()
    ensures Follows(Row31(), Row15(), 4)
  {}

  function Row(r: nat): (row: seq<bv32>)
    ensures |row| == 8
  {
    if r == 0 then Row0() else if r == 1 then Row1() else if r == 2 then Row2() else if r == 3 then Row3() else if
    r == 4 then Row4() else if r == 5 then Row5() else if r == 6 then Row6() else if r == 7 then Row7() else if r
    == 8 then Row8() else if r == 9 then Row9() else if r == 10 then Row10() else if r == 11 then Row11() else if
    r == 12 then Row12() else if r == 13 then Row13() else if r == 14 then Row14() else if r == 15 then Row15()
    else if r == 16 then Row16() else if r == 17 then Row17() else if r == 18 then Row18() else if r == 19 then
    Row19() else if r == 20 then Row20() else if r == 21 then Row21() else if r == 22 then Row22() else if r == 23
    then Row23() else if r == 24 then Row24() else if r == 25 then Row25() else if r == 26 then Row26() else if r
    == 27 then Row27() else if r == 28 then Row28() else if r == 29 then Row29() else if r == 30 then Row30() else
    Row31()
  }

  /** Every row follows the one that holds the constants of its halves. */
  lemma RowFollows(r: nat)
    requires r < 32
    ensures Follows(Row(r), Row(r / 2), 4 * (r % 2))
  {
    hide Follows;
    Follow0();
    Follow1();
    Follow2();
    Follow3();
    Follow4();
    Follow5();
    Follow6();
    Follow7();
    Follow8();
    Follow9();
    Follow10();
    Follow11();
    Follow12();
    Follow13();
    Follow14();
    Follow15();
    Follow16();
    Follow17();
    Follow18();
    Follow19();
    Follow20();
    Follow21();
    Follow22();
    Follow23();
    Follow24();
    Follow25();
    Follow26();
    Follow27();
    Follow28();
    Follow29();
    Follow30();
    Follow31();
  }

  /** The constant that the table holds for a byte. */
  function Constant(b: Byte): Word32 {
    Word32(Row(b / 8)[b % 8])
  }

  lemma ConstantIsChild(b: Byte)
    ensures Constant(b) == Child(Constant(b / 2), b % 2 == 1)
  {
    hide Row, Child, Follows;
    var r, c := b / 8, b % 8;
    RowFollows(r);
    FollowsAt(Row(r), Row(r / 2), 4 * (r % 2), c);
    assert b / 2 / 8 == r / 2 && b / 2 % 8 == 4 * (r % 2) + c / 2 && b % 2 == c % 2;
  }

  /** Every constant is the check of its byte. */
  lemma {:induction false} ConstantIsEntry(b: Byte)
    ensures BitsOfWord(Constant(b)) == Entry(b)
  {
    hide Constant, Entry, Child, BitsOfWord, Times, Xor;
    EntryChild(b);
    ConstantIsChild(b);
    ChildBits(Constant(b / 2), b % 2 == 1);
    if b == 0 {
      FirstConstant();
    } else {
      ConstantIsEntry(b / 2);
    }
  }

  lemma FirstConstant()
    ensures BitsOfWord(Constant(0)) == Entry(0)
  {
    hide BitsOfWord;
    ByteParts(0);
    NullByte(8);
    TimesNZero(8);
    assert Bits(0) + Zeros(24) == ZERO;
    ZeroBits();
  }

  lemma ZeroBits()
    ensures BitsOfWord(Word32(0)) == ZERO
  {
    hide MaskAt;
    forall k | 0 <= k < 32
      ensures !Has(Word32(0), MaskAt(k))
    {
      NothingHas(MaskAt(k));
    }
  }

  lemma NothingHas(m: Word32)
    ensures !Has(Word32(0), m)
  {}

  /** The whole table, as the lookups use it. */
  function ConstantTable(): (table: seq<Word>)
    ensures IsTable(table)
  {
    hide Constant, Entry, BitsOfWord;
    ConstantsAreEntries();
    seq(256, b requires 0 <= b < 256 => BitsOfWord(Constant(b)))
  }

  lemma ConstantsAreEntries()
    ensures forall b: Byte :: BitsOfWord(Constant(b)) == Entry(b)
  {
    forall b: Byte
      ensures BitsOfWord(Constant(b)) == Entry(b)
    {
      ConstantIsEntry(b);
    }
  }
}
