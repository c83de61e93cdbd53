/**
 Division of bit strings by the polynomial of the checksums, the highest bit of a byte first, and
 the proof that the table computes the remainder.
 */
module CrcDivision {
  import opened CrcTables

  /** The sum of polynomials. */
  function Add(a: Word, b: Word): Word {
    a ^ b
  }

  function Double(c: Word): Word {
    c << 1
  }

  predicate Top(c: Word) {
    c >> 31 == 1
  }

  /** The divisor without its highest term, to be subtracted when that term is shifted out. */
  function Carry(top: bool): Word {
    if top then 0x04c1_1db7 else 0
  }

  /** One step of the long division: take the next bit in, and subtract the divisor if it fits. */
  function TakeIn(c: Word, bit: bool): Word {
    (Double(c) | if bit then 1 else 0) ^ Carry(Top(c))
  }

  function TakeBits(c: Word, b7: bool, b6: bool, b5: bool, b4: bool, b3: bool, b2: bool, b1: bool, b0: bool): Word {
    TakeIn(TakeIn(TakeIn(TakeIn(TakeIn(TakeIn(TakeIn(TakeIn(c, b7), b6), b5), b4), b3), b2), b1), b0)
  }

  /** The bits of a byte, from the highest. */
  function TakeByte(c: Word, b: Octet): Word {
    TakeBits(c, b & 0x80 != 0, b & 0x40 != 0, b & 0x20 != 0, b & 0x10 != 0,
             b & 0x08 != 0, b & 0x04 != 0, b & 0x02 != 0, b & 0x01 != 0)
  }

  /** Long division: what remains of the bytes behind the remainder c of what came before them. */
  function Divide(c: Word, bytes: seq<Octet>): Word {
    if bytes == [] then c else TakeByte(Divide(c, bytes[..|bytes| - 1]), bytes[|bytes| - 1])
  }

  /** The remainder of a message times x to the 32, that is with 32 zero bits behind it. */
  function Remainder(c: Word, message: seq<Octet>): Word {
    Divide(c, message + [0, 0, 0, 0])
  }

  /** The step of crc.c. */
  function Step(c: Word, b: Octet): Word {
    Add(ShiftByte(c), Table(Index(c, b)))
  }

  function ShiftByte(c: Word): Word {
    c << 8
  }

  function Index(c: Word, b: Octet): Octet {
    Highest(c) ^ b
  }

  function Highest(c: Word): Octet {
    (c >> 24) as bv8
  }

  function Feed(c: Word, bytes: seq<Octet>): Word {
    if bytes == [] then c else Step(Feed(c, bytes[..|bytes| - 1]), bytes[|bytes| - 1])
  }

  // ----- Multiplication by x, which is linear

  function Times(c: Word): Word {
    Double(c) ^ Carry(Top(c))
  }

  function Times8(c: Word): Word {
    Times(Times(Times(Times(Times(Times(Times(Times(c))))))))
  }

  lemma AddSymmetric(a: Word, b: Word)
    ensures Add(a, b) == Add(b, a)
  {
  }

  lemma AddAssociative(a: Word, b: Word, c: Word)
    ensures Add(Add(a, b), c) == Add(a, Add(b, c))
  {
  }

  lemma TopAdd(a: Word, b: Word)
    ensures Top(Add(a, b)) == (Top(a) != Top(b))
  {
  }

  lemma DoubleAdd(a: Word, b: Word)
    ensures Double(Add(a, b)) == Add(Double(a), Double(b))
  {
  }

  lemma CarryAdd(p: bool, q: bool)
    ensures Carry(p != q) == Add(Carry(p), Carry(q))
  {
  }

  lemma Exchange(a: Word, b: Word, p: Word, q: Word)
    ensures Add(Add(a, b), Add(p, q)) == Add(Add(a, p), Add(b, q))
  {
    hide Add;
    AddAssociative(a, b, Add(p, q));
    AddAssociative(b, p, q);
    AddSymmetric(b, p);
    AddAssociative(p, b, q);
    AddAssociative(a, p, Add(b, q));
  }

  lemma TimesIsSum(c: Word)
    ensures Times(c) == Add(Double(c), Carry(Top(c)))
  {
    hide Double, Top, Carry;
  }

  lemma TimesLinear(a: Word, b: Word)
    ensures Times(Add(a, b)) == Add(Times(a), Times(b))
  {
    hide Add, Double, Top, Carry, Times;
    TimesIsSum(a);
    TimesIsSum(b);
    TimesIsSum(Add(a, b));
    TopAdd(a, b);
    DoubleAdd(a, b);
    CarryAdd(Top(a), Top(b));
    Exchange(Double(a), Double(b), Carry(Top(a)), Carry(Top(b)));
  }

  lemma Times8Linear(a: Word, b: Word)
    ensures Times8(Add(a, b)) == Add(Times8(a), Times8(b))
  {
    hide Add, Times;
    var a1, b1 := Times(a), Times(b);
    var a2, b2 := Times(a1), Times(b1);
    var a3, b3 := Times(a2), Times(b2);
    var a4, b4 := Times(a3), Times(b3);
    var a5, b5 := Times(a4), Times(b4);
    var a6, b6 := Times(a5), Times(b5);
    TimesLinear(a, b);
    TimesLinear(a1, b1);
    TimesLinear(a2, b2);
    TimesLinear(a3, b3);
    TimesLinear(a4, b4);
    TimesLinear(a5, b5);
    TimesLinear(a6, b6);
    TimesLinear(Times(a6), Times(b6));
  }

  // ----- The table

  /** A byte in the highest position, times x to the 8. */
  function Lifted(i: Octet): Word {
    Times8(High(i))
  }

  function High(i: Octet): Word {
    (i as bv32) << 24
  }

  lemma RowLifts0(low: Octet)
    requires low <= 0x0f
    ensures Row0(low) == Lifted(0x00 | low)
  {
    match low
    case 0x0 => case 0x1 => case 0x2 => case 0x3 => case 0x4 => case 0x5 => case 0x6 => case 0x7 =>
    case 0x8 => case 0x9 => case 0xa => case 0xb => case 0xc => case 0xd => case 0xe => case _ =>
  }

  lemma RowLifts1(low: Octet)
    requires low <= 0x0f
    ensures Row1(low) == Lifted(0x10 | low)
  {
    if low < 0x08 {
    }
  }

  lemma RowLifts2(low: Octet)
    requires low <= 0x0f
    ensures Row2(low) == Lifted(0x20 | low)
  {
    if low < 0x08 {
    }
  }

  lemma RowLifts3(low: Octet)
    requires low <= 0x0f
    ensures Row3(low) == Lifted(0x30 | low)
  {
    if low < 0x08 {
    }
  }

  lemma RowLifts4(low: Octet)
    requires low <= 0x0f
    ensures Row4(low) == Lifted(0x40 | low)
  {
    if low < 0x08 {
    }
  }

  lemma RowLifts5(low: Octet)
    requires low <= 0x0f
    ensures Row5(low) == Lifted(0x50 | low)
  {
    if low < 0x08 {
    }
  }

  lemma RowLifts6(low: Octet)
    requires low <= 0x0f
    ensures Row6(low) == Lifted(0x60 | low)
  {
    if low < 0x08 {
    }
  }

  lemma RowLifts7(low: Octet)
    requires low <= 0x0f
    ensures Row7(low) == Lifted(0x70 | low)
  {
    if low < 0x08 {
    }
  }

  lemma RowLifts8(low: Octet)
    requires low <= 0x0f
    ensures Row8(low) == Lifted(0x80 | low)
  {
    if low < 0x08 {
    }
  }

  lemma RowLifts9(low: Octet)
    requires low <= 0x0f
    ensures Row9(low) == Lifted(0x90 | low)
  {
    if low < 0x08 {
    }
  }

  lemma RowLiftsA(low: Octet)
    requires low <= 0x0f
    ensures RowA(low) == Lifted(0xa0 | low)
  {
    if low < 0x08 {
    }
  }

  lemma RowLiftsB(low: Octet)
    requires low <= 0x0f
    ensures RowB(low) == Lifted(0xb0 | low)
  {
    if low < 0x08 {
    }
  }

  lemma RowLiftsC(low: Octet)
    requires low <= 0x0f
    ensures RowC(low) == Lifted(0xc0 | low)
  {
    if low < 0x08 {
    }
  }

  lemma RowLiftsD(low: Octet)
    requires low <= 0x0f
    ensures RowD(low) == Lifted(0xd0 | low)
  {
    if low < 0x08 {
    }
  }

  lemma RowLiftsE(low: Octet)
    requires low <= 0x0f
    ensures RowE(low) == Lifted(0xe0 | low)
  {
    if low < 0x08 {
    }
  }

  lemma RowLiftsF(low: Octet)
    requires low <= 0x0f
    ensures RowF(low) == Lifted(0xf0 | low)
  {
    if low < 0x08 {
    }
  }

  lemma Nibbles(i: Octet)
    ensures i == (i >> 4 << 4) | (i & 0x0f)
  {
  }

  lemma LowNibble(i: Octet)
    ensures i & 0x0f <= 0x0f && i >> 4 <= 0x0f
  {
  }

  lemma LowerTableLifts(i: Octet)
    requires i < 0x80
    ensures LowerTable(i) == Lifted(i)
  {
    hide Lifted, Row0, Row1, Row2, Row3, Row4, Row5, Row6, Row7;
    Nibbles(i);
    LowNibble(i);
    var low := i & 0x0f;
    match i >> 4
    case 0x0 => RowLifts0(low);
    case 0x1 => RowLifts1(low);
    case 0x2 => RowLifts2(low);
    case 0x3 => RowLifts3(low);
    case 0x4 => RowLifts4(low);
    case 0x5 => RowLifts5(low);
    case 0x6 => RowLifts6(low);
    case _ => RowLifts7(low);
  }

  lemma UpperTableLifts(i: Octet)
    requires i >= 0x80
    ensures UpperTable(i) == Lifted(i)
  {
    hide Lifted, Row8, Row9, RowA, RowB, RowC, RowD, RowE, RowF;
    Nibbles(i);
    LowNibble(i);
    var low := i & 0x0f;
    match i >> 4
    case 0x8 => RowLifts8(low);
    case 0x9 => RowLifts9(low);
    case 0xa => RowLiftsA(low);
    case 0xb => RowLiftsB(low);
    case 0xc => RowLiftsC(low);
    case 0xd => RowLiftsD(low);
    case 0xe => RowLiftsE(low);
    case _ => RowLiftsF(low);
  }

  /** The 256 entries of the table are the remainders of the 256 highest bytes. */
  lemma TableLifts(i: Octet)
    ensures Table(i) == Lifted(i)
  {
    hide Lifted, LowerTable, UpperTable;
    if i < 0x80 {
      LowerTableLifts(i);
    } else {
      UpperTableLifts(i);
    }
  }

  // ----- One step

  function Low(c: Word): Word {
    c & 0x00ff_ffff
  }

  lemma LowShifts(c: Word)
    ensures Times8(Low(c)) == ShiftByte(c)
  {
  }

  lemma HighAdd(a: Octet, b: Octet)
    ensures High(a ^ b) == Add(High(a), High(b))
  {
  }

  lemma HighLow(c: Word)
    ensures Add(High(Highest(c)), Low(c)) == c
  {
  }

  lemma SplitWord(c: Word, b: Octet)
    ensures Add(High(Index(c, b)), Low(c)) == Add(c, High(b))
  {
    hide Add, High, Low, Highest;
    HighAdd(Highest(c), b);
    AddAssociative(High(Highest(c)), High(b), Low(c));
    AddSymmetric(High(b), Low(c));
    AddAssociative(High(Highest(c)), Low(c), High(b));
    HighLow(c);
  }

  /** Feeding a byte is adding it at the top and multiplying by x to the 8. */
  lemma StepIsProduct(c: Word, b: Octet)
    ensures Step(c, b) == Times8(Add(c, High(b)))
  {
    hide Add, Times8, High, Low, Index, ShiftByte, Table;
    SplitWord(c, b);
    Times8Linear(High(Index(c, b)), Low(c));
    TableLifts(Index(c, b));
    LowShifts(c);
    AddSymmetric(ShiftByte(c), Table(Index(c, b)));
  }

  // ----- One byte of long division

  function Bit(bit: bool): Word {
    if bit then 1 else 0
  }

  lemma TakeInIsSum(c: Word, bit: bool)
    ensures TakeIn(c, bit) == Add(Times(c), Bit(bit))
  {
  }

  lemma TakeInSplits(a: Word, c: Word, bit: bool)
    ensures TakeIn(Add(a, c), bit) == Add(Times(a), TakeIn(c, bit))
  {
    hide Add, Times, TakeIn, Bit;
    TakeInIsSum(Add(a, c), bit);
    TakeInIsSum(c, bit);
    TimesLinear(a, c);
    AddAssociative(Times(a), Times(c), Bit(bit));
  }

  lemma TakeBitsSplits(a: Word, c: Word, b7: bool, b6: bool, b5: bool, b4: bool, b3: bool, b2: bool, b1: bool, b0: bool)
    ensures TakeBits(Add(a, c), b7, b6, b5, b4, b3, b2, b1, b0)
         == Add(Times8(a), TakeBits(c, b7, b6, b5, b4, b3, b2, b1, b0))
  {
    hide Add, Times, TakeIn;
    var a1, c1 := Times(a), TakeIn(c, b7);
    var a2, c2 := Times(a1), TakeIn(c1, b6);
    var a3, c3 := Times(a2), TakeIn(c2, b5);
    var a4, c4 := Times(a3), TakeIn(c3, b4);
    var a5, c5 := Times(a4), TakeIn(c4, b3);
    var a6, c6 := Times(a5), TakeIn(c5, b2);
    TakeInSplits(a, c, b7);
    TakeInSplits(a1, c1, b6);
    TakeInSplits(a2, c2, b5);
    TakeInSplits(a3, c3, b4);
    TakeInSplits(a4, c4, b3);
    TakeInSplits(a5, c5, b2);
    TakeInSplits(a6, c6, b1);
    TakeInSplits(Times(a6), TakeIn(c6, b1), b0);
  }

  lemma TakeByteSplits(a: Word, c: Word, b: Octet)
    ensures TakeByte(Add(a, c), b) == Add(Times8(a), TakeByte(c, b))
  {
    hide Add, Times8, TakeBits;
    TakeBitsSplits(a, c, b & 0x80 != 0, b & 0x40 != 0, b & 0x20 != 0, b & 0x10 != 0,
                   b & 0x08 != 0, b & 0x04 != 0, b & 0x02 != 0, b & 0x01 != 0);
  }

  function Lowest(b: Octet): Word {
    b as bv32
  }

  lemma FirstByte(b: Octet)
    ensures TakeByte(0, b) == Lowest(b)
  {
  }

  lemma AddZero(a: Word)
    ensures Add(a, 0) == a
  {
  }

  lemma TakeByteIsSum(c: Word, b: Octet)
    ensures TakeByte(c, b) == Add(Times8(c), Lowest(b))
  {
    hide Add, Times8, TakeByte, Lowest;
    AddZero(c);
    TakeByteSplits(c, 0, b);
    FirstByte(b);
  }

  // ----- Whole messages

  function Times32(c: Word): Word {
    Times8(Times8(Times8(Times8(c))))
  }

  lemma Times32Linear(a: Word, b: Word)
    ensures Times32(Add(a, b)) == Add(Times32(a), Times32(b))
  {
    hide Add, Times8;
    Times8Linear(a, b);
    Times8Linear(Times8(a), Times8(b));
    Times8Linear(Times8(Times8(a)), Times8(Times8(b)));
    Times8Linear(Times8(Times8(Times8(a))), Times8(Times8(Times8(b))));
  }

  lemma LowestIsLow(b: Octet)
    ensures Low(Lowest(b)) == Lowest(b)
  {
  }

  lemma NextIsLow(b: Octet)
    ensures Low(ShiftByte(Lowest(b))) == ShiftByte(Lowest(b))
  {
  }

  lemma ThirdIsLow(b: Octet)
    ensures Low(ShiftByte(ShiftByte(Lowest(b)))) == ShiftByte(ShiftByte(Lowest(b)))
  {
  }

  lemma FourthIsHigh(b: Octet)
    ensures ShiftByte(ShiftByte(ShiftByte(Lowest(b)))) == High(b)
  {
  }

  /** A byte rises to the top without a carry. */
  lemma LowestRises(b: Octet)
    ensures Times8(Times8(Times8(Lowest(b)))) == High(b)
  {
    hide Times8, Lowest, Low, High, ShiftByte;
    var w := Lowest(b);
    LowestIsLow(b);
    NextIsLow(b);
    ThirdIsLow(b);
    FourthIsHigh(b);
    LowShifts(w);
    LowShifts(ShiftByte(w));
    LowShifts(ShiftByte(ShiftByte(w)));
  }

  /** Feeding a byte is 32 bits ahead of the long division. */
  lemma StepAhead(c: Word, b: Octet)
    ensures Step(Times32(c), b) == Times32(TakeByte(c, b))
  {
    hide Add, Times8, High, Step, TakeByte, Lowest;
    StepIsProduct(Times32(c), b);
    Times8Linear(Times32(c), High(b));
    TakeByteIsSum(c, b);
    Times32Linear(Times8(c), Lowest(b));
    LowestRises(b);
  }

  lemma {:induction false} FeedAhead(c: Word, bytes: seq<Octet>)
    ensures Feed(Times32(c), bytes) == Times32(Divide(c, bytes))
  {
    hide Times32, Step, TakeByte;
    if bytes != [] {
      FeedAhead(c, bytes[..|bytes| - 1]);
      StepAhead(Divide(c, bytes[..|bytes| - 1]), bytes[|bytes| - 1]);
    }
  }

  lemma ZeroByte(c: Word)
    ensures TakeByte(c, 0) == Times8(c)
  {
    hide Add, Times8, TakeByte;
    TakeByteIsSum(c, 0);
    AddZero(Times8(c));
  }

  lemma ZeroBehind(c: Word, bytes: seq<Octet>)
    ensures Divide(c, bytes + [0]) == Times8(Divide(c, bytes))
  {
    hide Times8, TakeByte;
    assert (bytes + [0])[..|bytes|] == bytes;
    ZeroByte(Divide(c, bytes));
  }

  lemma ZeroBytes(c: Word, bytes: seq<Octet>)
    ensures Remainder(c, bytes) == Times32(Divide(c, bytes))
  {
    hide Times8, Divide;
    ZeroBehind(c, bytes);
    ZeroBehind(c, bytes + [0]);
    ZeroBehind(c, bytes + [0] + [0]);
    ZeroBehind(c, bytes + [0] + [0] + [0]);
    assert bytes + [0] + [0] + [0] + [0] == bytes + [0, 0, 0, 0];
  }

  /** The table algorithm computes the remainder of the division, bit by bit, by the polynomial. */
  lemma FeedIsRemainder(c: Word, bytes: seq<Octet>)
    ensures Feed(Times32(c), bytes) == Remainder(c, bytes)
  {
    hide Times32;
    FeedAhead(c, bytes);
    ZeroBytes(c, bytes);
  }

  lemma {:induction false} FeedConcat(c: Word, a: seq<Octet>, b: seq<Octet>)
    ensures Feed(c, a + b) == Feed(Feed(c, a), b)
    decreases |b|
  {
    hide Step;
    if b == [] {
      assert a + b == a;
    } else {
      FeedConcat(c, a, b[..|b| - 1]);
      assert (a + b)[..|a + b| - 1] == a + b[..|b| - 1];
    }
  }
}
