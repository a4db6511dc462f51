/** The CRC of src/util.c: its bitwise loops compute the table-driven CRC of RFC 1952, CRCs stream,
    and a changed word never goes unnoticed. */
module Crc32 {
  import opened ShiftRegister

  const POLYNOMIAL: bv32 := 0xEDB8_8320

  function Shift(r: bv32): bv32 {
    Xor(Halve(r), Feedback(r))
  }

  function Feedback(r: bv32): bv32 {
    if LowBitSet(r) then POLYNOMIAL else 0
  }

  // ---------- Section 8 of RFC 1952 ----------

  /** make_crc_table: `k` rounds of the inner loop. */
  function TableRounds(c: bv32, k: nat): bv32
    decreases k, c
  {
    if k == 0 then c
    else TableRounds(TableRound(c), k - 1)
  }

  function TableRound(c: bv32): bv32 {
    if LowBitSet(c) then Xor(POLYNOMIAL, Halve(c)) else Halve(c)
  }

  predicate LowBitSet(c: bv32) {
    c & 1 == 1
  }

  function TableEntry(n: bv8): bv32 {
    TableRounds(n as bv32, 8)
  }

  /** One round of the loop of update_crc. */
  function TableStep(c: bv32, b: bv8): bv32 {
    Xor(TableEntry(LowByte(Xor(c, Wide(b)))), Lower(c))
  }

  function LowByte(w: bv32): bv8 {
    (w & 0xFF) as bv8
  }

  /** The little-endian word of four bytes. */
  function Join(b0: bv8, b1: bv8, b2: bv8, b3: bv8): bv32 {
    (b0 as bv32) | ((b1 as bv32) << 8) | ((b2 as bv32) << 16) | ((b3 as bv32) << 24)
  }

  function Wide(b: bv8): bv32 {
    b as bv32
  }

  function UpdateCrc(crc: bv32, s: seq<bv8>): bv32 {
    Conditioned(Not, TableStep, crc, s)
  }

  function Not(x: bv32): bv32 {
    !x
  }

  // ---------- The bitwise register ----------

  function Xor(x: bv32, y: bv32): bv32 {
    x ^ y
  }

  ghost const WORDS: Register<bv32> := Register(Xor, Shift)

  ghost function ByteStep(r: bv32, b: bv8): bv32 {
    WORDS.Shifts(Xor(r, Wide(b)), 8)
  }

  lemma WordsAssociative()
    ensures WORDS.Associative()
  {
    forall a, b, c ensures WORDS.xor(WORDS.xor(a, b), c) == WORDS.xor(a, WORDS.xor(b, c)) {
      XorAssociates(a, b, c);
    }
  }

  lemma WordsCancelRight()
    ensures WORDS.CancelsRight()
  {
    forall a, b ensures WORDS.xor(WORDS.xor(a, b), b) == a {
      XorCancels(a, b);
    }
  }

  lemma WordsCancelLeft()
    ensures WORDS.CancelsLeft()
  {
    forall a, b ensures WORDS.xor(a, WORDS.xor(a, b)) == b {
      XorCancels(a, b);
    }
  }

  lemma WordsLinear()
    ensures WORDS.Linear()
  {
    forall a, b ensures WORDS.shift(WORDS.xor(a, b)) == WORDS.xor(WORDS.shift(a), WORDS.shift(b)) {
      ShiftXor(a, b);
    }
  }

  lemma WordsInjective()
    ensures WORDS.Injective()
  {
    forall a, b | WORDS.shift(a) == WORDS.shift(b) ensures a == b {
      ShiftInjective(a, b);
    }
  }

  lemma XorAssociates(a: bv32, b: bv32, c: bv32)
    ensures Xor(Xor(a, b), c) == Xor(a, Xor(b, c))
  {
  }

  lemma XorCancels(a: bv32, b: bv32)
    ensures Xor(Xor(a, b), b) == a && Xor(a, Xor(a, b)) == b
  {
  }

  lemma XorCommutes(a: bv32, b: bv32)
    ensures Xor(a, b) == Xor(b, a)
  {
  }

  lemma XorInterchange(a: bv32, b: bv32, c: bv32, d: bv32)
    ensures Xor(Xor(a, b), Xor(c, d)) == Xor(Xor(a, c), Xor(b, d))
  {
    XorAssociates(a, b, Xor(c, d));
    XorAssociates(b, c, d);
    XorCommutes(b, c);
    XorAssociates(c, b, d);
    XorAssociates(a, c, Xor(b, d));
  }

  lemma HalveXor(x: bv32, y: bv32)
    ensures Halve(Xor(x, y)) == Xor(Halve(x), Halve(y))
  {
  }

  lemma ShiftXor(x: bv32, y: bv32)
    ensures Shift(Xor(x, y)) == Xor(Shift(x), Shift(y))
  {
    HalveXor(x, y);
    FeedbackXor(x, y);
    XorInterchange(Halve(x), Halve(y), Feedback(x), Feedback(y));
  }

  lemma FeedbackXor(x: bv32, y: bv32)
    ensures Feedback(Xor(x, y)) == Xor(Feedback(x), Feedback(y))
  {
    assert (x ^ y) & 1 == (x & 1) ^ (y & 1);
    LowBit(x);
    LowBit(y);
  }

  lemma LowBit(x: bv32)
    ensures x & 1 == 0 || x & 1 == 1
  {
  }

  /** The top bit of a shifted register tells which branch was taken, so nothing is lost. */
  lemma ShiftInjective(x: bv32, y: bv32)
    requires Shift(x) == Shift(y)
    ensures x == y
  {
  }

  // ---------- One byte: eight shifts == one table step ----------

  // Word operations are named functions, so that equal arguments make equal terms without a
  // bit-level search.

  function Raise(w: bv32): bv32 {
    w << 8
  }

  function Lower(w: bv32): bv32 {
    w >> 8
  }

  function Halve(w: bv32): bv32 {
    w >> 1
  }

  predicate Even(w: bv32) {
    w & 1 == 0
  }

  predicate TopByteClear(w: bv32) {
    w & 0xFF00_0000 == 0
  }

  /** A register whose low bit is clear just moves down. */
  lemma EvenShift(r: bv32)
    requires Even(r)
    ensures WORDS.shift(r) == Halve(r)
  {
  }

  function Double(w: bv32): bv32 {
    w << 1
  }

  /** One shift undoes Double, while the bits of `mask`, the top one included, are clear. */
  lemma DoubleShifts(w: bv32, mask: bv32)
    requires w & mask == 0 && mask & 0x8000_0000 != 0
    ensures WORDS.shift(Double(w)) == w && Double(w) & (mask << 1) == 0
  {
    DoubleIsEven(w);
    MaskMoves(w, mask);
    EvenShift(Double(w));
  }

  lemma DoubleIsEven(w: bv32)
    ensures Even(Double(w))
    ensures w & 0x8000_0000 == 0 ==> Halve(Double(w)) == w
  {
  }

  lemma MaskMoves(w: bv32, mask: bv32)
    requires w & mask == 0
    ensures Double(w) & (mask << 1) == 0
    ensures mask & 0x8000_0000 != 0 ==> w & 0x8000_0000 == 0
  {
    assert Double(w) & (mask << 1) == (w & mask) << 1;
  }

  lemma RaiseDoubles(w: bv32)
    ensures Raise(w) == Double(Double(Double(Double(Double(Double(Double(Double(w))))))))
  {
  }

  /** Eight shifts undo Raise. */
  lemma RaiseShifts(w: bv32)
    requires TopByteClear(w)
    ensures WORDS.Shifts(Raise(w), 8) == w
  {
    RaiseDoubles(w);
    var r7 := Double(w);
    DoubleShifts(w, 0xFF00_0000);
    var r6 := Double(r7);
    DoubleShifts(r7, 0xFE00_0000);
    var r5 := Double(r6);
    DoubleShifts(r6, 0xFC00_0000);
    var r4 := Double(r5);
    DoubleShifts(r5, 0xF800_0000);
    var r3 := Double(r4);
    DoubleShifts(r4, 0xF000_0000);
    var r2 := Double(r3);
    DoubleShifts(r3, 0xE000_0000);
    var r1 := Double(r2);
    DoubleShifts(r2, 0xC000_0000);
    var r0 := Double(r1);
    DoubleShifts(r1, 0x8000_0000);
    WORDS.EightShifts(r0, r1, r2, r3, r4, r5, r6, r7, w);
  }

  lemma RoundIsShift(c: bv32)
    ensures TableRound(c) == Shift(c)
  {
    XorCommutes(POLYNOMIAL, Halve(c));
    XorZero(Halve(c));
  }

  lemma XorZero(x: bv32)
    ensures Xor(x, 0) == x
  {
  }

  lemma {:induction false} TableRoundsAreShifts(c: bv32, k: nat)
    ensures TableRounds(c, k) == WORDS.Shifts(c, k)
    decreases k
  {
    if k > 0 {
      RoundIsShift(c);
      TableRoundsAreShifts(Shift(c), k - 1);
      WORDS.ShiftFirst(c, k - 1);
    }
  }

  lemma SplitWord(x: bv32)
    ensures x == Xor(Wide(LowByte(x)), Raise(Lower(x))) && TopByteClear(Lower(x))
  {
  }

  /** Eight shifts split into a table entry for the low byte and a move of the rest. */
  lemma ShiftsByTable(x: bv32)
    ensures WORDS.Shifts(x, 8) == Xor(TableEntry(LowByte(x)), Lower(x))
  {
    SplitWord(x);
    TableRoundsAreShifts(Wide(LowByte(x)), 8);
    RaiseShifts(Lower(x));
    ShiftsOfSplitWord(x, Wide(LowByte(x)), Raise(Lower(x)), TableEntry(LowByte(x)), Lower(x));
  }

  lemma ShiftsOfSplitWord(x: bv32, low: bv32, high: bv32, entry: bv32, moved: bv32)
    requires x == Xor(low, high) && WORDS.Shifts(low, 8) == entry && WORDS.Shifts(high, 8) == moved
    ensures WORDS.Shifts(x, 8) == Xor(entry, moved)
  {
    WordsLinear();
    WORDS.SplitShifts(x, low, high, entry, moved);
  }

  lemma ByteShiftsOut(c: bv32, b: bv8)
    ensures Lower(Xor(c, Wide(b))) == Lower(c)
  {
  }

  lemma StepsAgree(c: bv32, b: bv8)
    ensures ByteStep(c, b) == TableStep(c, b)
  {
    ShiftsByTable(Xor(c, Wide(b)));
    ByteShiftsOut(c, b);
  }

  /** The bitwise register and the table register agree on every byte sequence. */
  lemma FoldsAgree(r: bv32, s: seq<bv8>)
    ensures Fold(ByteStep, r, s) == Fold(TableStep, r, s)
  {
    forall c, b ensures ByteStep(c, b) == TableStep(c, b) {
      StepsAgree(c, b);
    }
    FoldCongruent(ByteStep, TableStep, r, s);
  }

  // ---------- The loops ----------

  /** util_crc32. */
  method ComputeCrc32(crc: bv32, buf: seq<bv8>) returns (result: bv32)
    ensures result == UpdateCrc(crc, buf)
  {
    var r := Not(crc);
    var i := 0;
    while i < |buf|
      invariant 0 <= i <= |buf|
      invariant r == Fold(ByteStep, Not(crc), buf[..i])
    {
      FoldSnoc(ByteStep, Not(crc), buf, i);
      r := ShiftByte(Xor(r, Wide(buf[i])));
      i := i + 1;
    }
    assert buf[..i] == buf;
    FoldsAgree(Not(crc), buf);
    result := Not(r);
  }

  /** The inner loop of util_crc32. */
  method ShiftByte(start: bv32) returns (r: bv32)
    ensures r == WORDS.Shifts(start, 8)
  {
    r := start;
    var j := 0;
    while j < 8
      invariant 0 <= j <= 8
      invariant r == WORDS.Shifts(start, j)
    {
      BranchFreeShift(r);
      r := (r >> 1) ^ (POLYNOMIAL & (0 - (r & 1)));
      j := j + 1;
    }
  }

  /** The branch-free form of the conditional xor. */
  lemma BranchFreeShift(r: bv32)
    ensures (r >> 1) ^ (POLYNOMIAL & (0 - (r & 1))) == Shift(r)
  {
    LowBit(r);
  }

  // ---------- Streaming ----------

  /** A CRC continued over a second buffer is the CRC of the concatenation. */
  lemma UpdateCrcConcat(crc: bv32, a: seq<bv8>, b: seq<bv8>)
    ensures UpdateCrc(UpdateCrc(crc, a), b) == UpdateCrc(crc, a + b)
  {
    DoubleComplement();
    ConditionedConcat(Not, TableStep, crc, a, b);
  }

  lemma UpdateCrcThrice(crc: bv32, a: seq<bv8>, b: seq<bv8>, c: seq<bv8>)
    ensures UpdateCrc(UpdateCrc(UpdateCrc(crc, a), b), c) == UpdateCrc(crc, a + b + c)
  {
    UpdateCrcConcat(crc, a, b);
    UpdateCrcConcat(crc, a + b, c);
  }

  lemma DoubleComplement()
    ensures forall r :: Not(Not(r)) == r
  {
  }

  // ---------- Its value ----------

  /** Thirty-two shifts of a register of ones. */
  lemma OnesShifted()
    ensures WORDS.Shifts(0xFFFF_FFFF, 32) == 0xDEBB_20E3
  {
    WORDS.EightShifts(0xFFFF_FFFF, 0x9247_7CDF, 0xA49B_3D4F, 0xBFF5_1D87, 0xB242_0DE3,
                      0xB499_85D1, 0xB7F4_41C8, 0x5BFA_20E4, 0x2DFD_1072);
    WORDS.EightShifts(0x2DFD_1072, 0x16FE_8839, 0xE6C7_C73C, 0x7363_E39E, 0x39B1_F1CF,
                      0xF160_7BC7, 0x9508_BEC3, 0xA73C_DC41, 0xBE26_ED00);
    WORDS.EightShifts(0xBE26_ED00, 0x5F13_7680, 0x2F89_BB40, 0x17C4_DDA0, 0x0BE2_6ED0,
                      0x05F1_3768, 0x02F8_9BB4, 0x017C_4DDA, 0x00BE_26ED);
    WORDS.EightShifts(0x00BE_26ED, 0xEDE7_9056, 0x76F3_C82B, 0xD6C1_6735, 0x86D8_30BA,
                      0x436C_185D, 0xCC0E_8F0E, 0x6607_4787, 0xDEBB_20E3);
    WORDS.ShiftsCompose(0xFFFF_FFFF, 8, 8);
    WORDS.ShiftsCompose(0xFFFF_FFFF, 16, 8);
    WORDS.ShiftsCompose(0xFFFF_FFFF, 24, 8);
  }

  lemma ComplementCancels(r: bv32)
    ensures Xor(r, Not(r)) == 0xFFFF_FFFF && Not(0) == 0xFFFF_FFFF && Not(0xDEBB_20E3) == 0x2144_DF1C
  {
  }

  /** A sequence followed by its own CRC, least significant byte first, has the residue that the CRC is
      known by. */
  lemma Residue(s: seq<bv8>, b0: bv8, b1: bv8, b2: bv8, b3: bv8)
    requires Join(b0, b1, b2, b3) == UpdateCrc(0, s)
    ensures UpdateCrc(0, s + [b0, b1, b2, b3]) == 0x2144_DF1C
  {
    var r := Fold(ByteStep, Not(0), s);
    ComplementCancels(r);
    FoldsAgree(Not(0), s);
    FoldsAgree(Not(0), s + [b0, b1, b2, b3]);
    FoldConcat(ByteStep, Not(0), s, [b0, b1, b2, b3]);
    FeedWord(r, b0, b1, b2, b3);
    OnesShifted();
  }

  lemma NextByte(s: seq<bv8>, t: seq<bv8>, r: bv32, b: bv8, next: bv32)
    requires Fold(TableStep, 0xFFFF_FFFF, s) == r && TableStep(r, b) == next && t == s + [b]
    ensures Fold(TableStep, 0xFFFF_FFFF, t) == next
  {
    FoldConcat(TableStep, 0xFFFF_FFFF, s, [b]);
    assert Fold(TableStep, r, [b]) == TableStep(Fold(TableStep, r, []), b);
  }

  lemma Digits123()
    ensures Fold(TableStep, 0xFFFF_FFFF, [0x31, 0x32, 0x33]) == 0x77B7_9C2D
  {
    NextByte([], [0x31], 0xFFFF_FFFF, 0x31, 0x7C23_1048);
    NextByte([0x31], [0x31, 0x32], 0x7C23_1048, 0x32, 0xB0AC_BB32);
    NextByte([0x31, 0x32], [0x31, 0x32, 0x33], 0xB0AC_BB32, 0x33, 0x77B7_9C2D);
  }

  lemma Digits456()
    requires Fold(TableStep, 0xFFFF_FFFF, [0x31, 0x32, 0x33]) == 0x77B7_9C2D
    ensures Fold(TableStep, 0xFFFF_FFFF, [0x31, 0x32, 0x33, 0x34, 0x35, 0x36]) == 0xF68D_2C9E
  {
    NextByte([0x31, 0x32, 0x33], [0x31, 0x32, 0x33, 0x34], 0x77B7_9C2D, 0x34, 0x641C_1F5C);
    NextByte([0x31, 0x32, 0x33, 0x34], [0x31, 0x32, 0x33, 0x34, 0x35], 0x641C_1F5C, 0x35, 0x340A_C5E3);
    NextByte([0x31, 0x32, 0x33, 0x34, 0x35], [0x31, 0x32, 0x33, 0x34, 0x35, 0x36], 0x340A_C5E3, 0x36, 0xF68D_2C9E);
  }

  lemma Digits789()
    requires Fold(TableStep, 0xFFFF_FFFF, [0x31, 0x32, 0x33, 0x34, 0x35, 0x36]) == 0xF68D_2C9E
    ensures Fold(TableStep, 0xFFFF_FFFF, [0x31, 0x32, 0x33, 0x34, 0x35, 0x36, 0x37, 0x38, 0x39]) == 0x340B_C6D9
  {
    NextByte([0x31, 0x32, 0x33, 0x34, 0x35, 0x36], [0x31, 0x32, 0x33, 0x34, 0x35, 0x36, 0x37], 0xF68D_2C9E, 0x37, 0xAFFC_9660);
    NextByte([0x31, 0x32, 0x33, 0x34, 0x35, 0x36, 0x37], [0x31, 0x32, 0x33, 0x34, 0x35, 0x36, 0x37, 0x38], 0xAFFC_9660, 0x38, 0x651F_2550);
    NextByte([0x31, 0x32, 0x33, 0x34, 0x35, 0x36, 0x37, 0x38],
              [0x31, 0x32, 0x33, 0x34, 0x35, 0x36, 0x37, 0x38, 0x39], 0x651F_2550, 0x39, 0x340B_C6D9);
  }

  /** The value that CRC-32 is checked by: that of the nine digits. */
  lemma CheckValue()
    ensures UpdateCrc(0, [0x31, 0x32, 0x33, 0x34, 0x35, 0x36, 0x37, 0x38, 0x39]) == 0xCBF4_3926
  {
    Digits123();
    Digits456();
    Digits789();
    assert Not(0) == 0xFFFF_FFFF && Not(0x340B_C6D9) == 0xCBF4_3926;
  }

  // ---------- Error detection ----------

  /** The four window bytes act on the register as the one word they form. */
  lemma FeedWord(r: bv32, b0: bv8, b1: bv8, b2: bv8, b3: bv8)
    ensures Fold(ByteStep, r, [b0, b1, b2, b3]) == WORDS.Shifts(Xor(r, Join(b0, b1, b2, b3)), 32)
  {
    FoldFour(ByteStep, r, b0, b1, b2, b3);
    FourBytes(r, b0, b1, b2, b3);
  }

  lemma FourBytes(r: bv32, b0: bv8, b1: bv8, b2: bv8, b3: bv8)
    ensures ByteStep(ByteStep(ByteStep(ByteStep(r, b0), b1), b2), b3)
         == WORDS.Shifts(Xor(r, Join(b0, b1, b2, b3)), 32)
  {
    var up3, up2, up1 := Up(b0, b1, b2, b3);
    FourSteps(r, b0, b1, b2, b3, up1, up2, up3);
  }

  /** The values that eight shifts turn into the pending part of the word. */
  lemma Up(b0: bv8, b1: bv8, b2: bv8, b3: bv8) returns (up3: bv32, up2: bv32, up1: bv32)
    ensures WORDS.Shifts(up3, 8) == Wide(b3)
    ensures WORDS.Shifts(up2, 8) == Xor(Wide(b2), up3)
    ensures WORDS.Shifts(up1, 8) == Xor(Wide(b1), up2)
    ensures Xor(Wide(b0), up1) == Join(b0, b1, b2, b3)
  {
    WindowTops(b1, b2, b3);
    up3 := Raise(Wide(b3));
    RaiseShifts(Wide(b3));
    up2 := Raise(Xor(Wide(b2), up3));
    RaiseShifts(Xor(Wide(b2), up3));
    up1 := Raise(Xor(Wide(b1), up2));
    RaiseShifts(Xor(Wide(b1), up2));
    JoinByXor(b0, b1, b2, b3);
  }

  lemma WindowTops(b1: bv8, b2: bv8, b3: bv8)
    ensures TopByteClear(Wide(b3)) && TopByteClear(Xor(Wide(b2), Raise(Wide(b3))))
    ensures TopByteClear(Xor(Wide(b1), Raise(Xor(Wide(b2), Raise(Wide(b3))))))
  {
  }

  lemma FourSteps(r: bv32, b0: bv8, b1: bv8, b2: bv8, b3: bv8, up1: bv32, up2: bv32, up3: bv32)
    requires WORDS.Shifts(up3, 8) == Wide(b3)
    requires WORDS.Shifts(up2, 8) == Xor(Wide(b2), up3)
    requires WORDS.Shifts(up1, 8) == Xor(Wide(b1), up2)
    ensures ByteStep(ByteStep(ByteStep(ByteStep(r, b0), b1), b2), b3)
         == WORDS.Shifts(Xor(r, Xor(Wide(b0), up1)), 32)
  {
    WordsLinear();
    WordsAssociative();
    WORDS.FourSymbols(r, Wide(b0), Wide(b1), Wide(b2), Wide(b3), up1, up2, up3);
  }

  lemma JoinByXor(b0: bv8, b1: bv8, b2: bv8, b3: bv8)
    ensures Xor(Wide(b0), Raise(Xor(Wide(b1), Raise(Xor(Wide(b2), Raise(Wide(b3))))))) == Join(b0, b1, b2, b3)
  {
  }

  lemma SplitAroundWindow(r: bv32, s: seq<bv8>, p: nat)
    requires p + 4 <= |s|
    ensures Fold(ByteStep, r, s)
         == Fold(ByteStep, WORDS.Shifts(Xor(Fold(ByteStep, r, s[..p]), Join(s[p], s[p + 1], s[p + 2], s[p + 3])), 32), s[p + 4..])
  {
    FoldThree(ByteStep, r, s, p);
    FeedWord(Fold(ByteStep, r, s[..p]), s[p], s[p + 1], s[p + 2], s[p + 3]);
  }

  lemma ByteStepInjective(x: bv32, y: bv32, b: bv8)
    requires ByteStep(x, b) == ByteStep(y, b)
    ensures x == y
  {
    WordsCancelRight();
    WordsInjective();
    WORDS.StepInjective(x, y, Wide(b), 8);
  }

  lemma FeedInjective(x: bv32, y: bv32, s: seq<bv8>)
    requires Fold(ByteStep, x, s) == Fold(ByteStep, y, s)
    ensures x == y
  {
    forall u, v, b | ByteStep(u, b) == ByteStep(v, b) ensures u == v {
      ByteStepInjective(u, v, b);
    }
    FoldInjective(ByteStep, x, y, s);
  }

  ghost predicate DifferOnlyIn(a: seq<bv8>, b: seq<bv8>, lo: nat, hi: nat) {
    && |a| == |b|
    && forall i :: 0 <= i < |a| && !(lo <= i < hi) ==> a[i] == b[i]
  }

  lemma JoinSplits(b0: bv8, b1: bv8, b2: bv8, b3: bv8)
    ensures var w := Join(b0, b1, b2, b3);
      LowByte(w) == b0 && LowByte(w >> 8) == b1 && LowByte(w >> 16) == b2 && LowByte(w >> 24) == b3
  {
  }

  /** Registers fed with equal bytes around different words end up different. */
  lemma WindowDecides(r: bv32, a: seq<bv8>, b: seq<bv8>, p: nat)
    requires p + 4 <= |a| && DifferOnlyIn(a, b, p, p + 4)
    requires Fold(ByteStep, r, a) == Fold(ByteStep, r, b)
    ensures a == b
  {
    SplitAroundWindow(r, a, p);
    SplitAroundWindow(r, b, p);
    SameAround(a, b, p);
    var c := Fold(ByteStep, r, a[..p]);
    var x, y := Join(a[p], a[p + 1], a[p + 2], a[p + 3]), Join(b[p], b[p + 1], b[p + 2], b[p + 3]);
    FeedInjective(WORDS.Shifts(Xor(c, x), 32), WORDS.Shifts(Xor(c, y), 32), a[p + 4..]);
    WordsDecide(c, x, y);
    SameWindow(a, b, p);
  }

  lemma SameAround(a: seq<bv8>, b: seq<bv8>, p: nat)
    requires p + 4 <= |a| && DifferOnlyIn(a, b, p, p + 4)
    ensures a[..p] == b[..p] && a[p + 4..] == b[p + 4..]
  {
  }

  lemma JoinInjective(a0: bv8, a1: bv8, a2: bv8, a3: bv8, b0: bv8, b1: bv8, b2: bv8, b3: bv8)
    requires Join(a0, a1, a2, a3) == Join(b0, b1, b2, b3)
    ensures a0 == b0 && a1 == b1 && a2 == b2 && a3 == b3
  {
    JoinSplits(a0, a1, a2, a3);
    JoinSplits(b0, b1, b2, b3);
  }

  lemma SameWindow(a: seq<bv8>, b: seq<bv8>, p: nat)
    requires p + 4 <= |a| && DifferOnlyIn(a, b, p, p + 4)
    requires Join(a[p], a[p + 1], a[p + 2], a[p + 3]) == Join(b[p], b[p + 1], b[p + 2], b[p + 3])
    ensures a == b
  {
    JoinInjective(a[p], a[p + 1], a[p + 2], a[p + 3], b[p], b[p + 1], b[p + 2], b[p + 3]);
    EqualAt(a, b, p);
  }

  lemma EqualAt(a: seq<bv8>, b: seq<bv8>, p: nat)
    requires p + 4 <= |a| && DifferOnlyIn(a, b, p, p + 4)
    requires a[p] == b[p] && a[p + 1] == b[p + 1] && a[p + 2] == b[p + 2] && a[p + 3] == b[p + 3]
    ensures a == b
  {
  }

  lemma WordsDecide(r: bv32, x: bv32, y: bv32)
    requires WORDS.Shifts(Xor(r, x), 32) == WORDS.Shifts(Xor(r, y), 32)
    ensures x == y
  {
    WordsCancelLeft();
    WordsInjective();
    WORDS.WordInjective(r, x, y, 32);
  }

  /** Every change confined to four consecutive bytes changes the CRC. */
  lemma BurstDetected(crc: bv32, a: seq<bv8>, b: seq<bv8>, p: nat)
    requires p + 4 <= |a| && a != b && DifferOnlyIn(a, b, p, p + 4)
    ensures UpdateCrc(crc, a) != UpdateCrc(crc, b)
  {
    if UpdateCrc(crc, a) == UpdateCrc(crc, b) {
      DoubleComplement();
      ConditionedEqual(Not, TableStep, crc, a, b);
      FoldsAgree(Not(crc), a);
      FoldsAgree(Not(crc), b);
      WindowDecides(Not(crc), a, b, p);
    }
  }
}
