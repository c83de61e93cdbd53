/**
 Whole compressed files: the three header bytes and the code stream behind them, and the theorem
 that decompressing a compressed file gives back the input.
 */
module LzwFile {
  import opened Bits
  import opened Basics
  import opened CodeBuffer
  import opened CodeStream
  import opened LzwTable
  import opened LzwDecoder
  import opened LzwEncoder
  import opened LzwRoundTrip

  const MAGIC: seq<Byte> := [0x1f, 0x9d]
  const BLOCK_MASK: nat := 0x80

  /** A zeroed buffer, as calloc leaves it. */
  const ZERO_BUFFER: Buffer := [0, 0, 0, 0, 0, 0, 0, 0, 0, 0, 0, 0, 0, 0, 0, 0]

  function Header(maxbits: nat): (h: seq<Byte>)
    requires 1 <= maxbits <= BITS
  {
    MAGIC + [maxbits + BLOCK_MASK]
  }

  /** The packer once the header is written. */
  function NewPacker(maxbits: nat): (p: Packer)
    requires 1 <= maxbits <= BITS
    ensures p.Valid()
  {
    Packer(INIT_BITS, 0, ZERO_BUFFER, Header(maxbits))
  }

  /** The file for an input, given the decisions to clear a full table; an empty input writes nothing at all. */
  function Compressed(maxbits: nat, data: seq<Byte>, clears: seq<bool>): seq<Byte>
    requires 1 <= maxbits <= BITS && |data| == |clears|
  {
    if data == [] then [] else
      Finish(PutAll(NewPacker(maxbits), Script(Started(maxbits, data[0]), data[1..], clears[1..])))
  }

  /** The decoder's state once it accepted a header, or None when it refuses it. */
  function Opening(file: seq<Byte>): (d: Option<Decoder>)
    ensures d.Some? ==> d.value.Valid()
  {
    if |file| < 3 || file[..2] != MAGIC then None else
      var maxbits, block := file[2] % 32, file[2] >= BLOCK_MASK;
      if maxbits > BITS || maxbits < 12 then None else
        PowersOfTwo();
        Pow2Monotone(12, maxbits);
        Some(Decoder(maxbits, block, Table(Base(block), []), None, 0, false, Opened(ZERO_BUFFER, file[3..])))
  }

  /** The headers that are accepted, and what they say. */
  lemma OpensExactly(file: seq<Byte>)
    ensures Opening(file).Some? <==> |file| >= 3 && file[0] == 31 && file[1] == 157 && 12 <= file[2] % 32 <= 16
    ensures Opening(file).Some? ==>
              && Opening(file).value.maxbits == file[2] % 32
              && (Opening(file).value.block <==> file[2] >= 128)
  {
    assert |file| >= 3 ==> file[..2] == [file[0], file[1]];
  }

  /** What the decoder of gzip delivers for a file. */
  function Decompressed(file: seq<Byte>): Outcome {
    match Opening(file)
    case None => Outcome([], false)
    case Some(d) => Inflate(d)
  }

  lemma CompressedShape(maxbits: nat, data: seq<Byte>, clears: seq<bool>)
    requires 1 <= maxbits <= BITS && |data| == |clears| && data != []
    ensures var es := Script(Started(maxbits, data[0]), data[1..], clears[1..]);
            Compressed(maxbits, data, clears) == Header(maxbits) + Ahead(NewPacker(maxbits), es)
  {
    AheadIsWritten(NewPacker(maxbits), Script(Started(maxbits, data[0]), data[1..], clears[1..]));
  }

  lemma OpensHeader(maxbits: nat, codes: seq<Byte>)
    requires 1 <= maxbits <= BITS
    ensures Opening(Header(maxbits) + codes) ==
            if maxbits < 12 then None
            else Some(Decoder(maxbits, true, Table(FIRST, []), None, 0, false, Opened(ZERO_BUFFER, codes)))
  {
    var file := Header(maxbits) + codes;
    assert file[..2] == MAGIC && file[2] == maxbits + BLOCK_MASK && file[3..] == codes;
  }

  lemma OpensInLockstep(k: Coder, d: Decoder, es: seq<Emit>)
    requires 12 <= k.maxbits <= BITS && k.ent < 256 && k == Started(k.maxbits, k.ent)
    requires AllCarried(k.width, es)
    requires d == Decoder(k.maxbits, true, Table(FIRST, []), None, 0, false,
                          Opened(ZERO_BUFFER, Ahead(NewPacker(k.maxbits), es)))
    ensures Lockstep(k, d, NewPacker(k.maxbits), es)
  {
    PowersOfTwo();
    Pow2Monotone(12, k.maxbits);
  }

  lemma AcceptedRoundTrip(maxbits: nat, data: seq<Byte>, clears: seq<bool>)
    requires 12 <= maxbits <= BITS && |data| == |clears| && data != []
    ensures Decompressed(Compressed(maxbits, data, clears)) == Outcome(data, true)
  {
    hide Inflate, Lockstep, Opening, Compressed, Script, Ahead, AllCarried, Pow2, PutAll, Header;
    var k := Started(maxbits, data[0]);
    var es := Script(k, data[1..], clears[1..]);
    CompressedShape(maxbits, data, clears);
    OpensHeader(maxbits, Ahead(NewPacker(maxbits), es));
    var d := Opening(Compressed(maxbits, data, clears)).value;
    OpensInLockstep(k, d, es);
    InflatesScript(k, d, NewPacker(maxbits), data[1..], clears[1..]);
    assert [data[0]] + data[1..] == data;
  }

  /**
   For every input, every width bound and every choice of CLEAR points: decompression gives the
   input back exactly when there was input and the decoder accepts the width bound.
   */
  lemma RoundTrip(maxbits: nat, data: seq<Byte>, clears: seq<bool>)
    requires 1 <= maxbits <= BITS && |data| == |clears|
    ensures Decompressed(Compressed(maxbits, data, clears)) == Outcome(data, true) <==> data != [] && maxbits >= 12
  {
    hide Inflate, Lockstep, Script, Ahead, AllCarried, Pow2, PutAll;
    if data != [] {
      if maxbits >= 12 {
        AcceptedRoundTrip(maxbits, data, clears);
      } else {
        CompressedShape(maxbits, data, clears);
        OpensHeader(maxbits, Ahead(NewPacker(maxbits), Script(Started(maxbits, data[0]), data[1..], clears[1..])));
      }
    }
  }

  lemma FirstEmission(k: Coder, data: seq<Byte>, clears: seq<bool>)
    requires k.Valid() && k.table.entries == [] && |data| == |clears|
    ensures Script(k, data, clears) != [] && Script(k, data, clears)[0] == k.Out()
  {
  }

  /** The first code of a compressed file is its first byte. */
  lemma FirstCodeIsFirstByte(maxbits: nat, data: seq<Byte>, clears: seq<bool>)
    requires 12 <= maxbits <= BITS && |data| == |clears| && data != []
    ensures var d := Opening(Compressed(maxbits, data, clears));
            d.Some? && d.value.GetCode().1 == Some(data[0])
  {
    hide Opening, Compressed, Script, Ahead, AllCarried, Pow2, PutAll, Header;
    var k := Started(maxbits, data[0]);
    var es := Script(k, data[1..], clears[1..]);
    CompressedShape(maxbits, data, clears);
    OpensHeader(maxbits, Ahead(NewPacker(maxbits), es));
    var d := Opening(Compressed(maxbits, data, clears)).value;
    OpensInLockstep(k, d, es);
    FirstEmission(k, data[1..], clears[1..]);
    ReadsMatched(k, d, NewPacker(maxbits), es);
  }
}
