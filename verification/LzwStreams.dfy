/**
 Whole runs of the two programs: write an input in any pieces, read the file back in any pieces.
 What comes out depends on the bytes alone, not on the pieces.
 */
module LzwStreams {
  import opened Bits
  import opened Basics
  import opened CodeBuffer
  import opened CodeStream
  import opened LzwDecoder
  import opened LzwFile
  import opened LzwWriter
  import opened Decoders
  import opened Pieces
  import Compressor
  import Decompressor

  /** Compress the pieces one `zwrite` after the other; the file depends on their concatenation only. */
  method CompressPieces(bits: nat, pieces: seq<seq<Byte>>) returns (file: seq<Byte>)
    requires bits <= BITS
    ensures file == FileOf(if bits == 0 then BITS else bits, Flat(pieces))
  {
    var z := new Compressor.Compressor(bits);
    assert pieces[..0] == [];
    for i := 0 to |pieces|
      invariant z.Valid() && z.input == Flat(pieces[..i])
      invariant fresh(z) && fresh(z.buf) && fresh(z.table) && fresh(z.table.htab) && fresh(z.table.codetab)
    {
      var n := z.ZWrite(pieces[i]);
      FlatStep(pieces, i);
    }
    assert pieces[..|pieces|] == pieces;
    z.ZClose();
    file := z.file;
  }

  /** The n bytes after the first s of a string, cut at its end. */
  lemma NextPiece(all: seq<Byte>, s: nat, n: nat)
    ensures var k, m := Min(s, |all|), Min(s + n, |all|);
            var rest := all[k..];
            && all[..k] + rest[..Min(n, |rest|)] == all[..m]
            && rest[Min(n, |rest|)..] == all[m..]
            && Min(n, |rest|) == m - k
  {
  }

  /**
   Read a file with one `zread` per size, until a call fails or delivers nothing. The bytes
   delivered are the first ones of what the file decompresses to, however they are cut, and
   whether the first of them were handed over in a buffer.
   */
  method ReadPieces(kind: Decompressor.Kind, pre: seq<Byte>, file: seq<Byte>, sizes: seq<nat>)
    returns (out: seq<Byte>, ok: bool)
    requires Decompressor.Determined(kind, pre + file)
    requires forall n <- sizes :: n > 0
    ensures var t := Decompressor.Delivers(kind, pre + file);
            && (ok <==> sizes == [] || t.ok || |t.bytes| > Sum(sizes))
            && (ok ==> out == t.bytes[..Min(Sum(sizes), |t.bytes|)])
            && out <= t.bytes
  {
    hide Decompressor.Delivers, Decompressor.Determined;
    hide Decompressor.Decompressor.Valid, Decompressor.Decompressor.Pending;
    ghost var total := Decompressor.Delivers(kind, pre + file);
    var z := new Decompressor.Decompressor(kind, pre, file);
    out, ok := [], true;
    assert sizes[..0] == [] && sizes[..|sizes|] == sizes;
    for i := 0 to |sizes|
      invariant z.Valid() && !z.spent && ok
      invariant fresh(z) && fresh(z.gbuf) && fresh(z.tabPrefix) && fresh(z.tabSuffix) && fresh(z.stack)
      invariant out == total.bytes[..Min(Sum(sizes[..i]), |total.bytes|)]
      invariant z.Pending() == Outcome(total.bytes[|out|..], total.ok)
      invariant i > 0 ==> total.ok || |total.bytes| > Sum(sizes[..i])
    {
      SumStep(sizes, i);
      ghost var rest := z.Pending();
      assert sizes[i] in sizes;
      var r := z.ZRead(sizes[i]);
      assert r.Some? && r.value != [] ==>
        && !z.spent && z.Valid() && r.value == rest.bytes[..Min(sizes[i], |rest.bytes|)]
        && z.Pending() == Outcome(rest.bytes[Min(sizes[i], |rest.bytes|)..], rest.ok)
        && (rest.ok || |rest.bytes| > sizes[i]);
      assert r == Some([]) ==> rest.ok && rest.bytes == [];
      if r.None? {
        ok := false;
        SumPrefix(sizes, i + 1);
        return;
      }
      NextPiece(total.bytes, Sum(sizes[..i]), sizes[i]);
      if r.value == [] {
        assert |total.bytes[|out|..]| == 0;
        SumPrefix(sizes, i + 1);
        assert total.bytes == total.bytes[..|out|];
        return;
      }
      out := out + r.value;
    }
  }

  /** Compress in any pieces, decompress with either decoder in any pieces: the input comes back. */
  method ThereAndBack(bits: nat, pieces: seq<seq<Byte>>, kind: Decompressor.Kind, sizes: seq<nat>)
    returns (out: seq<Byte>)
    requires (bits == 0 || 12 <= bits <= BITS) && Flat(pieces) != []
    requires (forall n <- sizes :: n > 0) && Sum(sizes) >= |Flat(pieces)|
    ensures out == Flat(pieces)
  {
    hide Decompressed, ZopenDecompressed, FileOf, StartsWithChar;
    var file := CompressPieces(bits, pieces);
    BothRoundTrip(if bits == 0 then BITS else bits, Flat(pieces));
    assert [] + file == file;
    var ok;
    out, ok := ReadPieces(kind, [], file, sizes);
  }

  /**
   Ask both decoders for one byte of a file whose first code is neither a character nor CLEAR: gzip
   fails, and compress fails too exactly if it refuses the next code.
   */
  method ReadOneWithBoth(file: seq<Byte>) returns (compress: Option<seq<Byte>>, gzip: Option<seq<Byte>>)
    requires StartsOddly(file)
    ensures gzip == None && (compress == gzip <==> RefusedNext(file))
  {
    hide Decompressed, StartsOddly, OddAnswer, RefusedNext;
    assert [] + file == file;
    var z := new Decompressor.Decompressor(Decompressor.Compress, [], file);
    compress := z.ReadOneOddly();
    var g := new Decompressor.Decompressor(Decompressor.Gzip, [], file);
    gzip := g.ZRead(1);
    OddRefused(file);
    OneByteTells(file);
  }
}
