/** The reflected form of crc32.c, in which the lowest bit of a byte comes first, as the mirror image of the other. */
module CrcMirror {
  import opened CrcTables
  import opened CrcDivision

  function MirrorByte(b: Octet): Octet {
    var c := ((b & 0x55) << 1) | ((b >> 1) & 0x55);
    var d := ((c & 0x33) << 2) | ((c >> 2) & 0x33);
    (d << 4) | (d >> 4)
  }

  /** The bits of a word in reverse order. */
  function Mirror(w: Word): Word {
    var c := ((w & 0x5555_5555) << 1) | ((w >> 1) & 0x5555_5555);
    var d := ((c & 0x3333_3333) << 2) | ((c >> 2) & 0x3333_3333);
    var e := ((d & 0x0f0f_0f0f) << 4) | ((d >> 4) & 0x0f0f_0f0f);
    var f := ((e & 0x00ff_00ff) << 8) | ((e >> 8) & 0x00ff_00ff);
    (f << 16) | (f >> 16)
  }

  /** The step of crc32.c. */
  function MirrorStep(c: Word, b: Octet): Word {
    Add(Unshift(c), MirrorTable(MirrorIndex(c, b)))
  }

  function Unshift(c: Word): Word {
    c >> 8
  }

  function MirrorIndex(c: Word, b: Octet): Octet {
    ((c ^ (b as bv32)) & 0xff) as bv8
  }

  function MirrorFeed(c: Word, bytes: seq<Octet>): Word {
    if bytes == [] then c else MirrorStep(MirrorFeed(c, bytes[..|bytes| - 1]), bytes[|bytes| - 1])
  }

  /** Every byte with its lowest bit first. */
  function LowestFirst(bytes: seq<Octet>): seq<Octet> {
    seq(|bytes|, i requires 0 <= i < |bytes| => MirrorByte(bytes[i]))
  }

  // ----- The mirror image of multiplication by x

  function Halve(c: Word): Word {
    c >> 1
  }

  predicate Odd(c: Word) {
    c & 1 == 1
  }

  function MirrorCarry(odd: bool): Word {
    if odd then 0xedb8_8320 else 0
  }

  function MirrorTimes(c: Word): Word {
    Halve(c) ^ MirrorCarry(Odd(c))
  }

  function MirrorTimes8(c: Word): Word {
    MirrorTimes(MirrorTimes(MirrorTimes(MirrorTimes(MirrorTimes(MirrorTimes(MirrorTimes(MirrorTimes(c))))))))
  }

  lemma Equal(a: Word, b: Word)
    requires Add(a, b) == 0
    ensures a == b
  {
  }

  lemma MirrorTwice(w: Word)
    ensures Mirror(Mirror(w)) == w
  {
  }

  lemma MirrorAdd(a: Word, b: Word)
    ensures Mirror(Add(a, b)) == Add(Mirror(a), Mirror(b))
  {
  }

  lemma UnshiftDifference(c: Word)
    ensures Add(Mirror(Unshift(c)), ShiftByte(Mirror(c))) == 0
  {
  }

  lemma HalveDifference(c: Word)
    ensures Add(Mirror(Halve(c)), Double(Mirror(c))) == 0
  {
  }

  lemma MirrorOdd(c: Word)
    ensures Odd(c) == Top(Mirror(c))
  {
  }

  lemma MirrorCarries(odd: bool)
    ensures Mirror(MirrorCarry(odd)) == Carry(odd)
  {
  }

  lemma MirrorIndexes(c: Word, b: Octet)
    ensures MirrorByte(MirrorIndex(c, b)) == Index(Mirror(c), MirrorByte(b))
  {
  }

  lemma MirrorLowest(i: Octet)
    ensures Mirror(Lowest(i)) == High(MirrorByte(i))
  {
  }

  lemma MirrorTimesIsSum(c: Word)
    ensures MirrorTimes(c) == Add(Halve(c), MirrorCarry(Odd(c)))
  {
    hide Halve, Odd, MirrorCarry;
  }

  lemma TimesInMirror(c: Word)
    ensures Mirror(MirrorTimes(c)) == Times(Mirror(c))
  {
    hide Add, Mirror, MirrorTimes, Times, Halve, Odd, MirrorCarry, Double, Carry, Top;
    MirrorTimesIsSum(c);
    TimesIsSum(Mirror(c));
    MirrorAdd(Halve(c), MirrorCarry(Odd(c)));
    HalveDifference(c);
    Equal(Mirror(Halve(c)), Double(Mirror(c)));
    MirrorOdd(c);
    MirrorCarries(Odd(c));
  }

  lemma Times8InMirror(c: Word)
    ensures Mirror(MirrorTimes8(c)) == Times8(Mirror(c))
  {
    hide Mirror, MirrorTimes, Times;
    var c1 := MirrorTimes(c);
    var c2 := MirrorTimes(c1);
    var c3 := MirrorTimes(c2);
    var c4 := MirrorTimes(c3);
    var c5 := MirrorTimes(c4);
    var c6 := MirrorTimes(c5);
    TimesInMirror(c);
    TimesInMirror(c1);
    TimesInMirror(c2);
    TimesInMirror(c3);
    TimesInMirror(c4);
    TimesInMirror(c5);
    TimesInMirror(c6);
    TimesInMirror(MirrorTimes(c6));
  }

  // ----- The table

  function MirrorLifted(i: Octet): Word {
    MirrorTimes8(Lowest(i))
  }

  lemma MirrorRowLifts0(low: Octet)
    requires low <= 0x0f
    ensures MirrorRow0(low) == MirrorLifted(0x00 | low)
  {
    match low
    case 0x0 => case 0x1 => case 0x2 => case 0x3 => case 0x4 => case 0x5 => case 0x6 => case 0x7 =>
    case 0x8 => case 0x9 => case 0xa => case 0xb => case 0xc => case 0xd => case 0xe => case _ =>
  }

  lemma MirrorRowLifts1(low: Octet)
    requires low <= 0x0f
    ensures MirrorRow1(low) == MirrorLifted(0x10 | low)
  {
    if low < 0x08 {
    }
  }

  lemma MirrorRowLifts2(low: Octet)
    requires low <= 0x0f
    ensures MirrorRow2(low) == MirrorLifted(0x20 | low)
  {
    if low < 0x08 {
    }
  }

  lemma MirrorRowLifts3(low: Octet)
    requires low <= 0x0f
    ensures MirrorRow3(low) == MirrorLifted(0x30 | low)
  {
    if low < 0x08 {
    }
  }

  lemma MirrorRowLifts4(low: Octet)
    requires low <= 0x0f
    ensures MirrorRow4(low) == MirrorLifted(0x40 | low)
  {
    if low < 0x08 {
    }
  }

  lemma MirrorRowLifts5(low: Octet)
    requires low <= 0x0f
    ensures MirrorRow5(low) == MirrorLifted(0x50 | low)
  {
    if low < 0x08 {
    }
  }

  lemma MirrorRowLifts6(low: Octet)
    requires low <= 0x0f
    ensures MirrorRow6(low) == MirrorLifted(0x60 | low)
  {
    if low < 0x08 {
    }
  }

  lemma MirrorRowLifts7(low: Octet)
    requires low <= 0x0f
    ensures MirrorRow7(low) == MirrorLifted(0x70 | low)
  {
    if low < 0x08 {
    }
  }

  lemma MirrorRowLifts8(low: Octet)
    requires low <= 0x0f
    ensures MirrorRow8(low) == MirrorLifted(0x80 | low)
  {
    if low < 0x08 {
    }
  }

  lemma MirrorRowLifts9(low: Octet)
    requires low <= 0x0f
    ensures MirrorRow9(low) == MirrorLifted(0x90 | low)
  {
    if low < 0x08 {
    }
  }

  lemma MirrorRowLiftsA(low: Octet)
    requires low <= 0x0f
    ensures MirrorRowA(low) == MirrorLifted(0xa0 | low)
  {
    if low < 0x08 {
    }
  }

  lemma MirrorRowLiftsB(low: Octet)
    requires low <= 0x0f
    ensures MirrorRowB(low) == MirrorLifted(0xb0 | low)
  {
    if low < 0x08 {
    }
  }

  lemma MirrorRowLiftsC(low: Octet)
    requires low <= 0x0f
    ensures MirrorRowC(low) == MirrorLifted(0xc0 | low)
  {
    if low < 0x08 {
    }
  }

  lemma MirrorRowLiftsD(low: Octet)
    requires low <= 0x0f
    ensures MirrorRowD(low) == MirrorLifted(0xd0 | low)
  {
    if low < 0x08 {
    }
  }

  lemma MirrorRowLiftsE(low: Octet)
    requires low <= 0x0f
    ensures MirrorRowE(low) == MirrorLifted(0xe0 | low)
  {
    if low < 0x08 {
    }
  }

  lemma MirrorRowLiftsF(low: Octet)
    requires low <= 0x0f
    ensures MirrorRowF(low) == MirrorLifted(0xf0 | low)
  {
    if low < 0x08 {
    }
  }

  lemma LowerMirrorTableLifts(i: Octet)
    requires i < 0x80
    ensures LowerMirrorTable(i) == MirrorLifted(i)
  {
    hide MirrorLifted, MirrorRow0, MirrorRow1, MirrorRow2, MirrorRow3, MirrorRow4, MirrorRow5, MirrorRow6, MirrorRow7;
    Nibbles(i);
    LowNibble(i);
    var low := i & 0x0f;
    match i >> 4
    case 0x0 => MirrorRowLifts0(low);
    case 0x1 => MirrorRowLifts1(low);
    case 0x2 => MirrorRowLifts2(low);
    case 0x3 => MirrorRowLifts3(low);
    case 0x4 => MirrorRowLifts4(low);
    case 0x5 => MirrorRowLifts5(low);
    case 0x6 => MirrorRowLifts6(low);
    case _ => MirrorRowLifts7(low);
  }

  lemma UpperMirrorTableLifts(i: Octet)
    requires i >= 0x80
    ensures UpperMirrorTable(i) == MirrorLifted(i)
  {
    hide MirrorLifted, MirrorRow8, MirrorRow9, MirrorRowA, MirrorRowB, MirrorRowC, MirrorRowD, MirrorRowE, MirrorRowF;
    Nibbles(i);
    LowNibble(i);
    var low := i & 0x0f;
    match i >> 4
    case 0x8 => MirrorRowLifts8(low);
    case 0x9 => MirrorRowLifts9(low);
    case 0xa => MirrorRowLiftsA(low);
    case 0xb => MirrorRowLiftsB(low);
    case 0xc => MirrorRowLiftsC(low);
    case 0xd => MirrorRowLiftsD(low);
    case 0xe => MirrorRowLiftsE(low);
    case _ => MirrorRowLiftsF(low);
  }

  lemma MirrorTableLifts(i: Octet)
    ensures MirrorTable(i) == MirrorLifted(i)
  {
    hide MirrorLifted, LowerMirrorTable, UpperMirrorTable;
    if i < 0x80 {
      LowerMirrorTableLifts(i);
    } else {
      UpperMirrorTableLifts(i);
    }
  }

  /** The two tables are mirror images. */
  lemma TablesMirror(i: Octet)
    ensures Mirror(MirrorTable(i)) == Table(MirrorByte(i))
  {
    hide Mirror, MirrorTable, Table, MirrorTimes8, Times8, Lowest, High, MirrorByte;
    MirrorTableLifts(i);
    TableLifts(MirrorByte(i));
    Times8InMirror(Lowest(i));
    MirrorLowest(i);
  }

  // ----- Whole messages

  lemma StepsMirror(c: Word, b: Octet)
    ensures Mirror(MirrorStep(c, b)) == Step(Mirror(c), MirrorByte(b))
  {
    hide Add, Mirror, MirrorTable, Table, Unshift, ShiftByte, MirrorIndex, Index, MirrorByte;
    MirrorAdd(Unshift(c), MirrorTable(MirrorIndex(c, b)));
    UnshiftDifference(c);
    Equal(Mirror(Unshift(c)), ShiftByte(Mirror(c)));
    TablesMirror(MirrorIndex(c, b));
    MirrorIndexes(c, b);
  }

  lemma {:induction false} FeedsMirror(c: Word, bytes: seq<Octet>)
    ensures Mirror(MirrorFeed(c, bytes)) == Feed(Mirror(c), LowestFirst(bytes))
  {
    hide Mirror, MirrorStep, Step, MirrorByte;
    if bytes != [] {
      var front, last := bytes[..|bytes| - 1], bytes[|bytes| - 1];
      FeedsMirror(c, front);
      StepsMirror(MirrorFeed(c, front), last);
      assert LowestFirst(bytes)[..|bytes| - 1] == LowestFirst(front);
    }
  }

  lemma {:induction false} MirrorFeedConcat(c: Word, a: seq<Octet>, b: seq<Octet>)
    ensures MirrorFeed(c, a + b) == MirrorFeed(MirrorFeed(c, a), b)
    decreases |b|
  {
    hide MirrorStep;
    if b == [] {
      assert a + b == a;
    } else {
      MirrorFeedConcat(c, a, b[..|b| - 1]);
      assert (a + b)[..|a + b| - 1] == a + b[..|b| - 1];
    }
  }

  const ONES: Word := 0xffff_ffff
  /** The remainder that is all ones 32 bits later. */
  const BEFORE_ONES: Word := 0x46af_6449

  lemma MirrorOnes()
    ensures Mirror(ONES) == ONES
  {
  }

  lemma OnesLater()
    ensures Times32(BEFORE_ONES) == ONES
  {
  }

  /**
   Started from all ones, the reflected table algorithm computes the mirror image of the remainder
   of the division, bit by bit, by the same polynomial.
   */
  lemma MirrorFeedIsRemainder(bytes: seq<Octet>)
    ensures MirrorFeed(ONES, bytes) == Mirror(Remainder(BEFORE_ONES, LowestFirst(bytes)))
  {
    hide Mirror, Times32, Feed, MirrorFeed, Remainder, ONES, BEFORE_ONES;
    FeedsMirror(ONES, bytes);
    MirrorOnes();
    OnesLater();
    FeedIsRemainder(BEFORE_ONES, LowestFirst(bytes));
    MirrorTwice(MirrorFeed(ONES, bytes));
  }

  // ----- The form of section 8 of RFC 1952: the first 32 bits of the message complemented

  function Complemented(bytes: seq<Octet>): seq<Octet> {
    seq(|bytes|, i requires 0 <= i < |bytes| => if i < 4 then !bytes[i] else bytes[i])
  }

  lemma LowestComplement(b: Octet)
    ensures Lowest(!b) == Add(Lowest(b), 0xff)
  {
  }

  lemma MirrorByteComplement(b: Octet)
    ensures MirrorByte(!b) == !MirrorByte(b)
  {
  }

  lemma AddSelf(a: Word)
    ensures Add(a, a) == 0
  {
  }

  /** A difference of remainders, behind a byte and its complement. */
  function Apart(e: Word): Word {
    Add(Times8(e), 0xff)
  }

  lemma ComplementStep(e: Word, c: Word, b: Octet)
    ensures TakeByte(Add(e, c), b) == Add(Apart(e), TakeByte(c, !b))
  {
    hide Add, Times8, TakeByte, Lowest;
    TakeByteIsSum(Add(e, c), b);
    TakeByteIsSum(c, !b);
    Times8Linear(e, c);
    LowestComplement(b);
    var l: Word, f: Word := Lowest(b), 0xff;
    AddSymmetric(l, f);
    Exchange(Times8(e), f, Times8(c), Add(f, l));
    AddAssociative(f, f, l);
    AddSelf(f);
    AddSymmetric(0, l);
    AddZero(l);
  }

  lemma ApartLiterals()
    ensures Apart(0x46af6449) == 0x8164743a
    ensures Apart(0x8164743a) == 0x09b9c7a6
    ensures Apart(0x09b9c7a6) == 0x9b0e56f0
    ensures Apart(0x9b0e56f0) == 0x00000000
  {
  }

  function ApartAfter(k: nat): Word {
    if k == 0 then BEFORE_ONES else if k <= 4 then Apart(ApartAfter(k - 1)) else 0
  }

  lemma ApartFour()
    ensures ApartAfter(4) == 0
  {
    hide Apart;
    ApartLiterals();
    assert ApartAfter(1) == Apart(ApartAfter(0)) && ApartAfter(2) == Apart(ApartAfter(1));
    assert ApartAfter(3) == Apart(ApartAfter(2)) && ApartAfter(4) == Apart(ApartAfter(3));
  }

  lemma {:induction false} DividesComplemented(m: seq<Octet>)
    ensures Divide(BEFORE_ONES, m) == Add(ApartAfter(|m|), Divide(0, Complemented(m)))
  {
    hide Add, Apart, TakeByte, BEFORE_ONES;
    if m == [] {
      AddZero(BEFORE_ONES);
    } else {
      var front, last := m[..|m| - 1], m[|m| - 1];
      DividesComplemented(front);
      var d := Divide(0, Complemented(front));
      assert Complemented(m)[..|m| - 1] == Complemented(front);
      if |m| <= 4 {
        ComplementStep(ApartAfter(|m| - 1), d, last);
      } else {
        ApartFour();
        SumWithZero(d);
        SumWithZero(Divide(0, Complemented(m)));
      }
    }
  }

  lemma SumWithZero(a: Word)
    ensures Add(0, a) == a
  {
  }

  /**
   For at least four bytes the reflected checksum is the mirrored remainder, from zero, of the message
   with its first 32 bits complemented.
   */
  lemma FirstBitsComplemented(bytes: seq<Octet>)
    requires |bytes| >= 4
    ensures MirrorFeed(ONES, bytes) == Mirror(Remainder(0, LowestFirst(Complemented(bytes))))
  {
    hide Add, Mirror, MirrorFeed, Divide, MirrorByte, ApartAfter, ONES, BEFORE_ONES;
    MirrorFeedIsRemainder(bytes);
    var zeros: seq<Octet> := [0, 0, 0, 0];
    var m := LowestFirst(bytes) + zeros;
    DividesComplemented(m);
    assert ApartAfter(|m|) == 0 by {
      ApartLate(|m|);
    }
    SumWithZero(Divide(0, Complemented(m)));
    forall i | 0 <= i < |bytes| ensures Complemented(m)[i] == LowestFirst(Complemented(bytes))[i] {
      MirrorByteComplement(bytes[i]);
    }
    assert Complemented(m) == LowestFirst(Complemented(bytes)) + zeros;
  }

  lemma ApartLate(k: nat)
    requires k >= 4
    ensures ApartAfter(k) == 0
  {
    ApartFour();
  }
}
