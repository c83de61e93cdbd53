/**
 Files in the format of pack: header, leaf counts, symbols, and the canonical codes of a message
 packed into bytes. Unpacking such a file gives the message back.
 */
module PackRoundTrip {
  import opened Bits
  import opened Basics
  import opened HuffmanTree
  import opened PackedFile
  import opened Unpacker

  /** The number written by some bits, most significant first. */
  function Value(bits: seq<bool>): nat {
    if bits == [] then 0 else 2 * Value(bits[..|bits| - 1]) + BitValue(bits[|bits| - 1])
  }

  lemma {:induction false} ValueBits(bits: seq<bool>, j: nat)
    requires j < |bits|
    ensures Bit(Value(bits), j) == bits[|bits| - 1 - j]
    decreases |bits|
  {
    var v, init := Value(bits), bits[..|bits| - 1];
    assert v / 2 == Value(init) && v % 2 == BitValue(bits[|bits| - 1]);
    if j > 0 {
      ValueBits(init, j - 1);
    }
  }

  lemma {:induction false} ValueFits(bits: seq<bool>)
    ensures Value(bits) < Pow2(|bits|)
  {
    if bits != [] {
      ValueFits(bits[..|bits| - 1]);
    }
  }

  lemma {:induction false} TailOfValue(bits: seq<bool>, b: Byte, n: nat)
    requires n <= |bits| <= 8 && b == Value(bits)
    ensures TailBits(b, n) == bits[|bits| - n..]
    decreases n
  {
    if n != 0 {
      ValueBits(bits, n - 1);
      TailOfValue(bits, b, n - 1);
    }
  }

  function Zeros(n: nat): seq<bool> {
    seq(n, i => false)
  }

  /** How many bits fill up the last byte. */
  function PadOf(bits: seq<bool>): nat {
    (8 - |bits| % 8) % 8
  }

  /** Whole bytes from bits whose number is a multiple of eight. */
  function ToBytes(bits: seq<bool>): seq<Byte>
    requires |bits| % 8 == 0
    decreases |bits|
  {
    if bits == [] then [] else
      ByteValue(bits[..8]);
      [Value(bits[..8])] + ToBytes(bits[8..])
  }

  lemma ByteValue(bits: seq<bool>)
    requires |bits| == 8
    ensures Value(bits) < 256
  {
    ValueFits(bits);
    PowersOfTwo();
  }

  lemma {:induction false} BitsOfToBytes(bits: seq<bool>)
    requires |bits| % 8 == 0
    ensures BitsOf(ToBytes(bits)) == bits
    decreases |bits|
  {
    hide TailBits;
    if bits != [] {
      ByteValue(bits[..8]);
      TailOfValue(bits[..8], Value(bits[..8]), 8);
      BitsOfToBytes(bits[8..]);
      assert ToBytes(bits)[1..] == ToBytes(bits[8..]);
      assert bits == bits[..8] + bits[8..];
    }
  }

  /** A header as pack writes it. */
  datatype Layout = Layout(sizeBytes: seq<Byte>, raw: seq<Byte>, symbols: seq<Byte>) {
    predicate Valid() {
      && |sizeBytes| == 4
      && 1 <= |raw| <= MAX_LEVEL
      && |symbols| == SumOf(raw) + 1 <= 256
    }

    function Head(past: Byte): Header
      requires Valid()
    {
      Header(BigEndian(sizeBytes), CountsOf(raw), symbols + [past])
    }

    function File(data: seq<Byte>): seq<Byte>
      requires Valid()
    {
      [0x1f, 0x1e] + sizeBytes + [|raw|] + (raw + (symbols + data))
    }
  }

  lemma Parses(l: Layout, data: seq<Byte>, past: Byte)
    requires l.Valid()
    ensures Parse(l.File(data), past) == Some(Parsed(l.Head(past), data))
  {
    hide SumOf, CountsOf, BigEndian;
    var file := l.File(data);
    var body := l.raw + (l.symbols + data);
    var n, m := |l.raw|, |l.symbols|;
    assert file[2..6] == l.sizeBytes && file[6] == n && file[7..] == body;
    assert body[..n] == l.raw && body[n..n + m] == l.symbols && body[n + m..] == data;
  }

  lemma HeadValid(l: Layout, past: Byte)
    requires l.Valid()
    ensures l.Head(past).Valid()
  {
    hide Parse, Layout.File;
    Parses(l, [], past);
    ParsedIsValid(l.File([]), past);
  }

  /** The data of a packed message: its codes, filled up with zero bits. */
  function Data(h: Header, message: seq<nat>): seq<Byte>
    requires h.Valid() && Within(message, |h.symbols|)
  {
    var bits := Encode(h, message);
    PadFills(|bits|);
    ToBytes(bits + Zeros(PadOf(bits)))
  }

  lemma PadFills(n: nat)
    ensures (n + (8 - n % 8) % 8) % 8 == 0
  {
  }

  /** A size as the four bytes of the header. */
  function SizeBytes(n: nat): seq<Byte>
    requires n < 0x1_0000_0000
  {
    [n / 16777216, n / 65536 % 256, n / 256 % 256, n % 256]
  }

  lemma SizeOfBytes(n: nat)
    requires n < 0x1_0000_0000
    ensures |SizeBytes(n)| == 4 && BigEndian(SizeBytes(n)) == n
  {
    FourBytes(SizeBytes(n));
    hide BigEndian;
    DivideTwice(n, 256);
    DivideTwice(n, 65536);
  }

  lemma DivideTwice(n: nat, m: nat)
    requires m == 256 || m == 65536
    ensures n / (256 * m) == n / m / 256
  {
  }

  /**
   For every full tree, every symbol table and every message over it that is short enough for its
   size to be stored in four bytes, unpacking the packed file gives the message.
   */
  lemma UnpacksPacked(raw: seq<Byte>, symbols: seq<Byte>, message: seq<nat>, past: Byte)
    requires 1 <= |raw| <= 24 && |symbols| == SumOf(raw) + 1 <= 256 && IsFull(CountsOf(raw))
    requires |message| < 0x1_0000_0000 && Within(message, |symbols|)
    ensures var l := Layout(SizeBytes(|message|), raw, symbols);
            && l.Valid() && l.Head(past).Valid()
            && Unpacking(l.File(Data(l.Head(past), message)), past) == Unpacked(Spelled(l.Head(past), message))
  {
    hide *;
    var l := Layout(SizeBytes(|message|), raw, symbols);
    SizeOfBytes(|message|);
    LayoutValid(l);
    HeadValid(l, past);
    LaidOutUnpacks(l, message, past);
  }

  lemma LayoutValid(l: Layout)
    requires |l.sizeBytes| == 4 && 1 <= |l.raw| <= 24 && |l.symbols| == SumOf(l.raw) + 1 <= 256
    ensures l.Valid()
  {
  }

  lemma LaidOutUnpacks(l: Layout, message: seq<nat>, past: Byte)
    requires l.Valid() && l.Head(past).Valid() && IsFull(CountsOf(l.raw))
    requires BigEndian(l.sizeBytes) == |message| && Within(message, |l.symbols|)
    ensures Unpacking(l.File(Data(l.Head(past), message)), past) == Unpacked(Spelled(l.Head(past), message))
  {
    hide Decode, Encode, Spelled, IsFull, CountsOf, Parse, BigEndian, ToBytes, BitsOf;
    var h := l.Head(past);
    var bits := Encode(h, message);
    PadFills(|bits|);
    Parses(l, Data(h, message), past);
    BitsOfToBytes(bits + Zeros(PadOf(bits)));
    MessageDecodes(h, [], message, Zeros(PadOf(bits)));
  }

  lemma {:induction false} DecodedSize(h: Header, level: nat, code: nat, out: seq<Byte>, bits: seq<bool>)
    requires h.Valid() && Reached(h, level, code)
    ensures var r := Decode(h, level, code, out, bits); r.Unpacked? ==> |r.bytes| == h.size
    decreases |bits|
  {
    hide FirstSlot;
    if bits != [] {
      var n := 2 * code + BitValue(bits[0]);
      if n >= Inner(h.counts, level) {
        var index := n - Inner(h.counts, level);
        if index <= h.counts[level] {
          LeafInTable(h, level, n);
          DecodedSize(h, 0, 0, out + [h.symbols[FirstSlot(h.counts, level) + index]], bits[1..]);
        }
      } else {
        DecodedSize(h, level + 1, n, out, bits[1..]);
      }
    }
  }

  /** Whatever a file unpacks to has the length that its header announces. */
  lemma SizeAnnounced(file: seq<Byte>, past: Byte)
    ensures var r := Unpacking(file, past);
            r.Unpacked? ==>
              && |file| >= 7
              && |r.bytes| == file[2] as int * 16777216 + file[3] as int * 65536 + file[4] as int * 256 + file[5]
  {
    hide Parse, Decode;
    match Parse(file, past) {
      case None =>
      case Some(p) =>
        ParsedIsValid(file, past);
        DecodedSize(p.header, 0, 0, [], BitsOf(p.data));
    }
  }

  /** Symbols of level 0 that a header without nodes there still makes the decoder put out: one for each zero bit. */
  lemma {:induction false} ZerosDecode(h: Header, out: seq<Byte>, n: nat)
    requires h.Valid() && h.counts == [0, 0, 2] && |h.symbols| == 2
    ensures Decode(h, 0, 0, out, Zeros(n)) == AtEof(h, out + seq(n, i => h.symbols[0]))
    decreases n
  {
    assert Inner(h.counts, 2) == 0 && Inner(h.counts, 1) == 1 && Inner(h.counts, 0) == 0;
    if n == 0 {
      assert out + seq(0, i => h.symbols[0]) == out;
    } else {
      assert Zeros(n)[1..] == Zeros(n - 1);
      ZerosDecode(h, out + [h.symbols[0]], n - 1);
      assert out + [h.symbols[0]] + seq(n - 1, i => h.symbols[0]) == out + seq(n, i => h.symbols[0]);
    }
  }

  /**
   A header of three levels that announces one symbol, in the last: level 0 has no node at all, and
   yet eight zero bits unpack to that symbol eight times.
   */
  lemma NoNodeYetSymbols(past: Byte)
    ensures var l := Layout([0, 0, 0, 8], [0, 0, 0], ['A' as Byte]);
            && l.Valid() && CountsOf(l.raw) == [0, 0, 2] && Total(CountsOf(l.raw), 0) == 0
            && !InRange(CountsOf(l.raw), [false])
            && Unpacking(l.File([0]), past) == Unpacked(seq(8, i => 'A' as Byte))
  {
    var l := Layout([0, 0, 0, 8], [0, 0, 0], ['A' as Byte]);
    assert SumOf([0, 0, 0]) == 0 by {
      assert [0, 0, 0][..2] == [0, 0] && [0, 0][..1] == [0] && [0][..0] == [];
    }
    FourBytes(l.sizeBytes);
    var counts := CountsOf(l.raw);
    assert counts == [0, 0, 2];
    assert Inner(counts, 2) == 0 && Inner(counts, 1) == 1 && Inner(counts, 0) == 0;
    Parses(l, [0], past);
    ParsedIsValid(l.File([0]), past);
    ZeroByteBits();
    ZerosDecode(l.Head(past), [], 8);
    assert [] + seq(8, i => 'A' as Byte) == seq(8, i => 'A' as Byte);
  }

  lemma ZeroByteBits()
    ensures BitsOf([0]) == Zeros(8)
  {
  }

  lemma UnpacksTo(file: seq<Byte>, past: Byte, h: Header, data: seq<Byte>)
    requires Parse(file, past) == Some(Parsed(h, data))
    ensures h.Valid() && Unpacking(file, past) == Decode(h, 0, 0, [], BitsOf(data))
  {
    hide Parse, Decode, BitsOf;
    ParsedIsValid(file, past);
  }

  /** A whole file: A has the code 1 and B the code 00, and 01 ends the block. */
  lemma SmallFile(past: Byte)
    ensures Unpacking([0x1f, 0x1e, 0, 0, 0, 3, 2, 1, 0, 65, 66, 0x94], past) == Unpacked([65, 66, 65])
  {
    hide Parse, Decode, BitsOf, Unpacking, Header.Valid;
    var h := Header(3, [1, 2], [65, 66, past]);
    SmallParses(past);
    UnpacksTo([0x1f, 0x1e, 0, 0, 0, 3, 2, 1, 0, 65, 66, 0x94], past, h, [0x94]);
    SmallBits();
    SmallDecodes(h);
  }

  lemma SmallParses(past: Byte)
    ensures Parse([0x1f, 0x1e, 0, 0, 0, 3, 2, 1, 0, 65, 66, 0x94], past) ==
            Some(Parsed(Header(3, [1, 2], [65, 66, past]), [0x94]))
  {
    hide Parse;
    var l := Layout([0, 0, 0, 3], [1, 0], [65, 66]);
    assert SumOf(l.raw) == 1 by {
      assert [1, 0][..1] == [1] && [1][..0] == [];
    }
    FourBytes(l.sizeBytes);
    assert CountsOf(l.raw) == [1, 2];
    Parses(l, [0x94], past);
    assert l.Head(past) == Header(3, [1, 2], [65, 66, past]);
    assert l.File([0x94]) == [0x1f, 0x1e, 0, 0, 0, 3, 2, 1, 0, 65, 66, 0x94];
  }

  lemma SmallBits()
    ensures BitsOf([0x94]) == [true, false, false, true, false, true, false, false]
  {
    assert BitsOf([0x94]) == TailBits(0x94, 8) + BitsOf([]);
  }

  lemma SmallDecodes(h: Header)
    requires h.Valid() && h.counts == [1, 2] && h.size == 3 && h.symbols[..2] == [65, 66]
    ensures Decode(h, 0, 0, [], [true, false, false, true, false, true, false, false]) == Unpacked([65, 66, 65])
  {
    assert Inner(h.counts, 1) == 0 && Inner(h.counts, 0) == 1;
    assert FirstSlot(h.counts, 0) == 0 && FirstSlot(h.counts, 1) == 1 && FirstSlot(h.counts, 2) == 3;
    assert h.symbols[0] == h.symbols[..2][0] == 65 && h.symbols[1] == h.symbols[..2][1] == 66;
    var bits := [true, false, false, true, false, true, false, false];
    assert Decode(h, 0, 0, [65, 66, 65], bits[4..]) == Unpacked([65, 66, 65]);
    assert Decode(h, 0, 0, [65, 66], bits[3..]) == Decode(h, 0, 0, [65, 66] + [65], bits[3..][1..]);
    assert Decode(h, 0, 0, [65], bits[1..]) == Decode(h, 1, 0, [65], bits[1..][1..]);
  }
}
