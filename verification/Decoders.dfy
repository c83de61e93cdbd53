/**
 The two decoders of the repository. `zread` of gzip runs the decoding loop from the first code
 on; `zread` of compress takes the first code as a character without looking at it.
 */
module Decoders {
  import opened Bits
  import opened Basics
  import opened CodeBuffer
  import opened CodeStream
  import opened LzwTable
  import opened LzwDecoder
  import opened LzwEncoder
  import opened LzwFile
  import opened LzwWriter

  /** The first code of an accepted file. */
  function FirstCode(file: seq<Byte>): Option<nat> {
    match Opening(file)
    case None => None
    case Some(d) => d.GetCode().1
  }

  /** What compress relies on: the first code, if there is one, is a character. */
  predicate StartsWithChar(file: seq<Byte>) {
    FirstCode(file).Some? ==> FirstCode(file).value < 256
  }

  /** The first code is a CLEAR. */
  predicate StartsWithClear(file: seq<Byte>) {
    FirstCode(file) == Some(CLEAR) && Opening(file).value.block
  }

  /** The state of compress after it delivered its first character. */
  function FirstTaken(d: Decoder, c: Byte): (e: Decoder)
    requires d.Valid()
    ensures e.Valid()
  {
    d.(last := Some(c), finchar := c)
  }

  /**
   The state of compress after it took a CLEAR for a character. Nothing was ever stored in the slot
   of that code, so it stands for two zero bytes.
   */
  function ClearTaken(d: Decoder): (e: Decoder)
    requires d.Valid() && d.block
    ensures e.Valid()
  {
    PowersOfTwo();
    Pow2Monotone(12, d.maxbits);
    d.(table := Table(256, [Entry(0, 0)]), last := Some(CLEAR), finchar := 0)
  }

  /** What the decoder of compress delivers for a file. */
  function ZopenDecompressed(file: seq<Byte>): Outcome
    requires StartsWithChar(file) || StartsWithClear(file)
  {
    match Opening(file)
    case None => Outcome([], false)
    case Some(d) =>
      var (e, c) := d.GetCode();
      match c
      case None => Outcome([], true)
      case Some(code) =>
        if code < 256 then After([code], Inflate(FirstTaken(e, code))) else After([0], Inflate(ClearTaken(e)))
  }

  /** The decoders deliver the same bytes, or the same rejection, on every file whose first code is a character. */
  lemma DecodersAgree(file: seq<Byte>)
    requires StartsWithChar(file)
    ensures ZopenDecompressed(file) == Decompressed(file)
  {
    match Opening(file) {
      case None =>
      case Some(d) =>
        var (e, c) := d.GetCode();
        if c.Some? {
          var code := c.value;
          assert e.Decoded(code) == [code];
          assert e.Delivered(code) == FirstTaken(e, code);
        }
    }
  }

  // ----- What callers can see

  /** A number of bytes to read. */
  type Size = n: int | n > 0 witness 1

  /** What the calls of a run of reads return, up to the first that fails. */
  function Answers(o: Outcome, sizes: seq<Size>): seq<Option<seq<Byte>>>
    decreases |sizes|
  {
    if sizes == [] then []
    else if Answer(o, sizes[0]).None? then [None]
    else [Answer(o, sizes[0])] + Answers(Left(o, sizes[0]), sizes[1..])
  }

  /** Every run of reads returns the same. */
  ghost predicate SameAnswers(a: Outcome, b: Outcome) {
    forall sizes :: Answers(a, sizes) == Answers(b, sizes)
  }

  /** All that callers can see: the last byte before a break is lost with the call that meets the break. */
  function Visible(o: Outcome): Outcome {
    if o.ok || o.bytes == [] then o else Outcome(o.bytes[..|o.bytes| - 1], false)
  }

  lemma {:induction false} VisibleAnswers(a: Outcome, b: Outcome, sizes: seq<Size>)
    requires Visible(a) == Visible(b)
    ensures Answers(a, sizes) == Answers(b, sizes)
    decreases |sizes|
  {
    if sizes != [] {
      SameAnswer(a, b, sizes[0]);
      if Answer(a, sizes[0]).Some? {
        VisibleAnswers(Left(a, sizes[0]), Left(b, sizes[0]), sizes[1..]);
      }
    }
  }

  lemma SameAnswer(a: Outcome, b: Outcome, n: Size)
    requires Visible(a) == Visible(b)
    ensures Answer(a, n) == Answer(b, n)
    ensures Answer(a, n).Some? ==> Visible(Left(a, n)) == Visible(Left(b, n))
  {
    if !a.ok {
      var v := Visible(a).bytes;
      if |a.bytes| > n {
        assert a.bytes[..n] == v[..n] && b.bytes[..n] == v[..n];
        assert a.bytes[n..][..|a.bytes| - n - 1] == v[n..] && b.bytes[n..][..|b.bytes| - n - 1] == v[n..];
      }
    }
  }

  lemma FirstAnswer(a: Outcome, b: Outcome)
    requires SameAnswers(a, b)
    ensures Answer(a, 1) == Answer(b, 1)
    ensures Answer(a, 1).Some? ==> SameAnswers(Left(a, 1), Left(b, 1))
  {
    var one: seq<Size> := [1];
    assert Answers(a, one) == Answers(b, one);
    AnswersStep(a, one);
    AnswersStep(b, one);
    if Answer(a, 1).Some? {
      forall sizes: seq<Size> ensures Answers(Left(a, 1), sizes) == Answers(Left(b, 1), sizes) {
        var more := one + sizes;
        assert more[1..] == sizes;
        assert Answers(a, more) == Answers(b, more);
        AnswersStep(a, more);
        AnswersStep(b, more);
      }
    }
  }

  lemma AnswersStep(o: Outcome, sizes: seq<Size>)
    requires sizes != []
    ensures Answers(o, sizes) != [] && Answers(o, sizes)[0] == Answer(o, sizes[0])
    ensures Answer(o, sizes[0]).Some? ==> Answers(o, sizes)[1..] == Answers(Left(o, sizes[0]), sizes[1..])
  {
  }

  /** Reads of one byte show all that can be seen. */
  lemma {:induction false} AnswersVisible(a: Outcome, b: Outcome)
    requires SameAnswers(a, b)
    ensures Visible(a) == Visible(b)
    decreases |a.bytes|
  {
    FirstAnswer(a, b);
    if Answer(a, 1).Some? && a.bytes != [] {
      hide Answers;
      assert Answer(a, 1).value == [a.bytes[0]] && |Answer(b, 1).value| == 1;
      AnswersVisible(Left(a, 1), Left(b, 1));
      VisibleStep(a);
      VisibleStep(b);
    }
  }

  lemma VisibleStep(o: Outcome)
    requires o.bytes != [] && Answer(o, 1).Some?
    ensures Visible(o) == After([o.bytes[0]], Visible(Left(o, 1)))
  {
    assert o.bytes == [o.bytes[0]] + o.bytes[1..];
  }

  /** Two outcomes look the same to every caller exactly if the same of them is visible. */
  lemma SameToCallers(a: Outcome, b: Outcome)
    ensures SameAnswers(a, b) <==> Visible(a) == Visible(b)
  {
    if SameAnswers(a, b) {
      AnswersVisible(a, b);
    }
    if Visible(a) == Visible(b) {
      forall sizes ensures Answers(a, sizes) == Answers(b, sizes) {
        VisibleAnswers(a, b, sizes);
      }
    }
  }

  // ----- Files whose first code is neither a character nor CLEAR

  predicate StartsOddly(file: seq<Byte>) {
    !StartsWithChar(file) && !StartsWithClear(file)
  }

  /** The byte that compress stores for the first code. */
  function OddByte(file: seq<Byte>): Byte
    requires StartsOddly(file)
  {
    ToByte(FirstCode(file).value)
  }

  /** The state of compress behind the first code, except for oldcode, which is that code. */
  function OddTaken(file: seq<Byte>): (d: Decoder)
    requires StartsOddly(file)
    ensures d.Valid() && d.last.None? && d.table == Table(Base(d.block), [])
  {
    Opening(file).value.GetCode().0.(finchar := OddByte(file))
  }

  /** The string of a second code; nothing is stored for oldcode, so it stands for two zero bytes. */
  function OddString(code: nat, b: Byte): (s: seq<Byte>)
    ensures s != []
  {
    if code < 256 then [code] else [0, 0, b]
  }

  /**
   What compress may deliver. Behind an accepted second code the source determines no more: an entry
   can then be its own prefix.
   */
  ghost predicate MayDeliver(file: seq<Byte>, o: Outcome)
    requires StartsOddly(file)
  {
    var b := OddByte(file);
    var (g, c) := OddTaken(file).GetCode();
    match c
    case None => o == Outcome([b], true)
    case Some(code) =>
      if code == CLEAR && g.block then o == After([b], Inflate(g.Cleared()))
      else if code > g.table.Free() then o == Outcome([b], false)
      else [b] + OddString(code, b) <= o.bytes
  }

  /** Behind any number of CLEARs there is a code that the decoder refuses. */
  function Refused(d: Decoder): bool
    requires d.Valid()
    decreases Fuel(d.rd)
  {
    GetCodeProgress(d);
    var (e, c) := d.GetCode();
    match c
    case None => false
    case Some(code) => if code == CLEAR && d.block then Refused(e.Cleared()) else e.Rejects(code)
  }

  lemma {:induction false} RefusedDeliversNothing(d: Decoder)
    requires d.Valid()
    ensures Inflate(d) == Outcome([], false) <==> Refused(d)
    decreases Fuel(d.rd)
  {
    PowersOfTwo();
    Pow2Monotone(12, d.maxbits);
    hide Pow2, MaxCode, NextCode, Reader.Valid;
    GetCodeProgress(d);
    var (e, c) := d.GetCode();
    if c.Some? && c.value == CLEAR && d.block {
      RefusedDeliversNothing(e.Cleared());
    }
  }

  /** The code behind the first one is refused by compress, perhaps behind CLEARs. */
  predicate RefusedNext(file: seq<Byte>)
    requires StartsOddly(file)
  {
    var (g, c) := OddTaken(file).GetCode();
    c.Some? && if c.value == CLEAR && g.block then Refused(g.Cleared()) else c.value > g.table.Free()
  }

  /** gzip refuses the first code. */
  lemma OddRefused(file: seq<Byte>)
    requires StartsOddly(file)
    ensures Decompressed(file) == Outcome([], false)
  {
  }

  /**
   On a file that starts oddly callers see the same from both decoders, a first call that fails,
   exactly if compress refuses the code behind the first one.
   */
  lemma OddAgreement(file: seq<Byte>, o: Outcome)
    requires StartsOddly(file) && MayDeliver(file, o)
    ensures SameAnswers(o, Decompressed(file)) <==> RefusedNext(file)
  {
    SameToCallers(o, Decompressed(file));
    OddRefused(file);
    hide Inflate, Decompressed, SameAnswers, OddTaken, Decoder.GetCode, Refused, Decoder.Valid, Decoder.Cleared;
    var (g, c) := OddTaken(file).GetCode();
    if c.Some? && c.value == CLEAR && g.block {
      RefusedDeliversNothing(g.Cleared());
    }
  }

  /** What the first call of compress returns if it is asked for one byte. */
  function OddAnswer(file: seq<Byte>): Option<seq<Byte>>
    requires StartsOddly(file)
  {
    var b := OddByte(file);
    var (g, c) := OddTaken(file).GetCode();
    match c
    case None => Some([b])
    case Some(code) =>
      if code == CLEAR && g.block then Answer(After([b], Inflate(g.Cleared())), 1)
      else if code > g.table.Free() then None
      else Some([b])
  }

  /** Whatever compress may deliver, that is what it answers. */
  lemma OddAnswered(file: seq<Byte>, o: Outcome)
    requires StartsOddly(file) && MayDeliver(file, o)
    ensures Answer(o, 1) == OddAnswer(file)
  {
    hide Inflate, OddTaken, Decoder.GetCode, Decoder.Valid, Decoder.Cleared, OddByte;
    var b := OddByte(file);
    var (g, c) := OddTaken(file).GetCode();
    assert [b][..1] == [b];
    if c.Some? && !(c.value == CLEAR && g.block) && c.value <= g.table.Free() {
      assert o.bytes[0] == ([b] + OddString(c.value, b))[0];
      assert o.bytes[..1] == [b];
    }
  }

  /** Already a call for one byte tells the decoders apart, unless the code behind the first one is refused. */
  lemma OneByteTells(file: seq<Byte>)
    requires StartsOddly(file)
    ensures OddAnswer(file) == Answer(Decompressed(file), 1) <==> RefusedNext(file)
  {
    OddRefused(file);
    hide Inflate, Decompressed, OddTaken, Decoder.GetCode, Refused, Decoder.Valid, Decoder.Cleared, OddByte;
    var (g, c) := OddTaken(file).GetCode();
    if c.Some? && c.value == CLEAR && g.block {
      RefusedDeliversNothing(g.Cleared());
    }
  }

  // ----- Examples

  /** A code from the loaded buffer. */
  lemma FromBuffer(d: Decoder)
    requires d.Valid() && d.Switch() == None && d.rd.roffset < d.rd.size
    ensures d.GetCode() == (d.(rd := d.rd.(roffset := d.rd.roffset + d.rd.width), clear := false),
                            Some(ExtractCode(d.rd.gbuf, d.rd.roffset, d.rd.width)))
  {
  }

  /** A code from the next buffer, of nine bits. */
  lemma FromFile(d: Decoder)
    requires d.Valid() && d.rd.rest != []
    requires || d.Switch() == Some(INIT_BITS)
             || (d.Switch() == None && d.rd.roffset >= d.rd.size && d.rd.width == INIT_BITS)
    ensures var n := Min(|d.rd.rest|, INIT_BITS);
            var g := d.rd.rest[..n] + d.rd.gbuf[n..];
            d.GetCode() == (d.(rd := Reader(INIT_BITS, INIT_BITS, 8 * n - 8, g, d.rd.rest[n..]), clear := false),
                            Some(ExtractCode(g, 0, INIT_BITS)))
  {
  }

  lemma AtEnd(d: Decoder)
    requires d.Valid() && d.rd.rest == [] && (d.Switch().Some? || d.rd.roffset >= d.rd.size)
    ensures d.GetCode().1 == None
  {
  }

  lemma NoSwitch(d: Decoder)
    requires d.Valid() && !d.clear && d.rd.width == INIT_BITS && d.table.Free() <= 511
    ensures d.Switch() == None
  {
    PowersOfTwo();
  }

  /** The codes of nine bits in the first three bytes of a buffer. */
  lemma TwoCodes(g: Buffer, x: nat, y: nat)
    requires x < 512 && y < 512
    requires g[0] == x % 256 && g[1] == x / 256 + 2 * (y % 128) && g[2] == y / 128
    ensures ExtractCode(g, 0, INIT_BITS) == x && ExtractCode(g, INIT_BITS, INIT_BITS) == y
  {
    hide JoinBytes;
    NineBits(g[0], g[1]);
    NineBitsOn(g[1], g[2]);
  }

  lemma NineBits(b0: Byte, b1: Byte)
    ensures JoinBytes(b0, b1, 0, 0, INIT_BITS) == b0 + 256 * (b1 % 2)
  {
    PowersOfTwo();
    assert Low(b1, 1) == b1 % 2;
    ShlValue(b1 % 2, 8);
  }

  lemma NineBitsOn(b1: Byte, b2: Byte)
    ensures JoinBytes(b1, b2, 0, 1, INIT_BITS) == b1 / 2 + 128 * (b2 % 4)
  {
    assert Pow2(7) == 128;
    assert Low(b2, 2) == b2 % 2 + 2 * Low(b2 / 2, 1) && Low(b2 / 2, 1) == (b2 / 2) % 2;
    assert Low(b2, 2) == b2 % 4 && Shr(b1, 1) == Shr(b1 / 2, 0);
    ShlValue(b2 % 4, 7);
  }

  /** The first code of a file with a header for CLEAR codes and 16 bits. */
  lemma FirstRead(codes: seq<Byte>)
    requires codes != []
    ensures var n := Min(|codes|, INIT_BITS);
            var g := codes[..n] + ZERO_BUFFER[n..];
            var d := Opening(Header(16) + codes);
            && d.Some? && d.value.block
            && d.value.GetCode().1 == Some(ExtractCode(g, 0, INIT_BITS))
            && d.value.GetCode().0 == Decoder(16, true, Table(FIRST, []), None, 0, false,
                                              Reader(INIT_BITS, INIT_BITS, 8 * n - 8, g, codes[n..]))
  {
    OpensHeader(16, codes);
    hide Opening;
    var d := Opening(Header(16) + codes).value;
    NoSwitch(d);
    FromFile(d);
  }

  /** A first CLEAR empties the table of gzip and starts a new buffer; compress goes on in the same one. */
  lemma LeadingClear(file: seq<Byte>)
    requires StartsWithClear(file)
    ensures var e := Opening(file).value.GetCode().0;
            && e.Valid() && e.block && e.Cleared().Valid() && Decompressed(file) == Inflate(e.Cleared())
            && ZopenDecompressed(file) == After([0], Inflate(ClearTaken(e)))
  {
    hide Opening, NextCode, Pow2, MaxCode;
    var d := Opening(file).value;
    assert d.GetCode().1 == Some(CLEAR) && d.block;
  }

  lemma InflatesNothing(d: Decoder)
    requires d.Valid() && d.GetCode().1 == None
    ensures Inflate(d) == Outcome([], true)
  {
    hide Decoder.GetCode;
  }

  lemma InflateRejects(d: Decoder)
    requires d.Valid() && d.GetCode().1.Some?
    requires var (e, c) := d.GetCode(); e.Rejects(c.value) && !(c.value == CLEAR && d.block)
    ensures Inflate(d) == Outcome([], false)
  {
    hide Decoder.GetCode;
  }

  /** A file of a single CLEAR: gzip delivers nothing, compress a zero byte, and callers can tell. */
  lemma LeadingClearDiffers()
    ensures var file := Header(16) + [0, 1];
            && StartsWithClear(file) && Decompressed(file) == Outcome([], true)
            && ZopenDecompressed(file) == Outcome([0], true)
            && !SameAnswers(ZopenDecompressed(file), Decompressed(file))
  {
    var codes: seq<Byte> := [0, 1];
    var file := Header(16) + codes;
    FirstRead(codes);
    TwoCodes(codes + ZERO_BUFFER[2..], 256, 0);
    hide Opening, Decoder.GetCode, Header, ExtractCode, Inflate, Decoder.Valid, SameAnswers;
    hide Decompressed, ZopenDecompressed;
    LeadingClear(file);
    var e := Opening(file).value.GetCode().0;
    AtEnd(e.Cleared());
    AtEnd(ClearTaken(e));
    InflatesNothing(e.Cleared());
    InflatesNothing(ClearTaken(e));
    assert [0] + [] == [0];
    SameToCallers(Outcome([0], true), Outcome([], true));
  }

  /** The first two codes of a buffer, read by a decoder with few entries. */
  lemma SecondRead(d: Decoder, x: nat, y: nat)
    requires d.Valid() && !d.clear && d.table.Free() <= 511 && x < 512 && y < 512
    requires d.rd.width == d.rd.roffset == INIT_BITS < d.rd.size
    requires var g := d.rd.gbuf; g[0] == x % 256 && g[1] == x / 256 + 2 * (y % 128) && g[2] == y / 128
    ensures d.GetCode() == (d.(rd := d.rd.(roffset := 2 * INIT_BITS)), Some(y))
  {
    NoSwitch(d);
    FromBuffer(d);
    TwoCodes(d.rd.gbuf, x, y);
  }

  /** The codes CLEAR and 300 in one buffer and 0 and 300 in the next. */
  const CLEAR_AND_BACK: seq<Byte> := [0x00, 0x59, 0x02, 0, 0, 0, 0, 0, 0, 0x00, 0x58, 0x02]

  /** A file that starts with CLEAR and on which the decoders agree nevertheless: a zero byte, and a break. */
  lemma LeadingClearAgrees()
    ensures var file := Header(16) + CLEAR_AND_BACK;
            && StartsWithClear(file) && Decompressed(file) == Outcome([0], false)
            && ZopenDecompressed(file) == Outcome([0], false)
  {
    var codes, file := CLEAR_AND_BACK, Header(16) + CLEAR_AND_BACK;
    FirstRead(codes);
    var g := codes[..9] + ZERO_BUFFER[9..];
    TwoCodes(g, 256, 300);
    hide Opening, Decoder.GetCode, Header, ExtractCode, Inflate, Decompressed, ZopenDecompressed;
    LeadingClear(file);
    var e := Opening(file).value.GetCode().0;
    SecondRead(ClearTaken(e), 256, 300);
    InflateRejects(ClearTaken(e));
    ZeroThenBad(e.Cleared());
  }

  lemma ZeroThenBad(d: Decoder)
    requires d.Valid() && d.block && d.clear && d.last.None? && d.table == Table(FIRST, [])
    requires d.rd.rest == [0x00, 0x58, 0x02]
    ensures Inflate(d) == Outcome([0], false)
  {
    FromFile(d);
    var e := d.GetCode().0;
    TwoCodes(e.rd.gbuf, 0, 300);
    var f := e.Delivered(0);
    SecondRead(f, 0, 300);
    hide Decoder.GetCode, ExtractCode;
    InflateRejects(f);
    assert e.Decoded(0) == [0];
    assert [0] + [] == [0];
  }

  /** On the codes 257 and 257 the entry that compress defines has its own code, 257, as prefix. */
  lemma OwnPrefix()
    ensures var file := Header(16) + [0x01, 0x03, 0x02];
            && StartsOddly(file) && FirstCode(file) == Some(257)
            && OddTaken(file).GetCode().1 == Some(OddTaken(file).table.Free()) == Some(257)
  {
    var codes: seq<Byte> := [0x01, 0x03, 0x02];
    var file := Header(16) + codes;
    FirstRead(codes);
    var g := codes + ZERO_BUFFER[3..];
    TwoCodes(g, 257, 257);
    hide Opening, Decoder.GetCode, Header, ExtractCode;
    SecondRead(OddTaken(file), 257, 257);
  }

  /** Files written by the compressor start with a character, so both decoders give the input back. */
  lemma BothRoundTrip(maxbits: nat, data: seq<Byte>)
    requires 12 <= maxbits <= BITS && data != []
    ensures StartsWithChar(FileOf(maxbits, data))
    ensures ZopenDecompressed(FileOf(maxbits, data)) == Outcome(data, true)
    ensures Decompressed(FileOf(maxbits, data)) == Outcome(data, true)
  {
    hide Decompressed, FileOf, Compressed, ZopenDecompressed, Opening;
    FileRoundTrip(maxbits, data);
    var clears := FileIsCompressed(maxbits, data);
    FirstCodeIsFirstByte(maxbits, data, clears);
    DecodersAgree(FileOf(maxbits, data));
  }
}
