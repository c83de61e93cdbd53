/**
 The compressor with its own decision to clear the table, as a function of the bytes consumed:
 every 10000 bytes after the table filled up, it is cleared unless the compression ratio grew.
 */
module LzwWriter {
  import opened Bits
  import opened Basics
  import opened Arithmetic
  import opened CodeBuffer
  import opened CodeStream
  import opened LzwTable
  import opened LzwDecoder
  import opened LzwEncoder
  import opened LzwFile

  const CHECK_GAP: nat := 10000

  /** The whole state of the writer; the length of the packer's file is bytes_out. */
  datatype Writer = Writer(coder: Coder, pk: Packer, inCount: nat, checkpoint: nat, ratio: nat) {
    ghost predicate Valid() {
      coder.Valid() && pk.Valid() && pk.width == coder.width && |pk.file| > 0
    }
  }

  /** The compression ratio of `cl_block`, with eight fractional bits while they fit. */
  function Rate(inCount: nat, bytesOut: nat): nat
    requires bytesOut > 0
  {
    if inCount > 0x007fffff then
      var r := Shr(bytesOut, 8);
      if r == 0 then 0x7fffffff else inCount / r
    else
      Shl(inCount, 8) / bytesOut
  }

  /** The ratio is the number of bytes in for 256 bytes out, rounded down: it grows as the file gets smaller. */
  lemma RateBounds(inCount: nat, bytesOut: nat)
    requires bytesOut > 0
    ensures var r := Rate(inCount, bytesOut);
            if inCount < 0x800000 then r * bytesOut <= 256 * inCount < (r + 1) * bytesOut
            else if bytesOut < 256 then r == 0x7fffffff
            else r * (bytesOut / 256) <= inCount < (r + 1) * (bytesOut / 256)
  {
    PowersOfTwo();
    ShlValue(inCount, 8);
    SplitValue(bytesOut, 8);
    hide Shl, Shr, Low, Pow2;
    if inCount < 0x800000 {
      DivideBounds(256 * inCount, bytesOut);
    } else if bytesOut >= 256 {
      assert Shr(bytesOut, 8) == bytesOut / 256;
      DivideBounds(inCount, bytesOut / 256);
    }
  }

  /** A byte that extends no known string, with the table full and the next check due: `cl_block` is called. */
  predicate Checks(w: Writer, c: Byte) {
    && Lookup(w.coder.table.entries, Entry(w.coder.ent, c)).None?
    && w.coder.table.Free() >= Pow2(w.coder.maxbits)
    && w.inCount + 1 >= w.checkpoint
  }

  function RateAt(w: Writer): nat
    requires w.Valid()
  {
    Rate(w.inCount + 1, |Put(w.pk, w.coder.Out()).file|)
  }

  /** One byte through `zwrite`. */
  function WriteByte(w: Writer, c: Byte): (v: Writer)
    requires w.Valid()
    ensures v.Valid()
  {
    var clear := Checks(w, c) && RateAt(w) <= w.ratio;
    var r := Step(w.coder, c, clear);
    PutAllWidth(w.pk, r.emits);
    Writer(r.next, PutAll(w.pk, r.emits), w.inCount + 1,
           if Checks(w, c) then w.inCount + 1 + CHECK_GAP else w.checkpoint,
           if !Checks(w, c) then w.ratio else if clear then 0 else RateAt(w))
  }

  lemma WriteByteHit(w: Writer, c: Byte, k: nat)
    requires w.Valid() && Lookup(w.coder.table.entries, Entry(w.coder.ent, c)) == Some(k)
    ensures WriteByte(w, c) == w.(coder := w.coder.(ent := FIRST + k), inCount := w.inCount + 1)
  {
  }

  lemma WriteByteMiss(w: Writer, c: Byte)
    requires w.Valid() && Lookup(w.coder.table.entries, Entry(w.coder.ent, c)).None?
    ensures var sent, next, n := Put(w.pk, w.coder.Out()), w.coder.Restarted(c), w.inCount + 1;
            && sent.Valid()
            && WriteByte(w, c) ==
               if !Checks(w, c) then Writer(next, sent, n, w.checkpoint, w.ratio)
               else if RateAt(w) > w.ratio then Writer(next, sent, n, n + 10000, RateAt(w))
               else Writer(next.Cleared(), Put(sent, CLEAR_OUT), n, n + 10000, 0)
  {
    var sent := Put(w.pk, w.coder.Out());
    assert PutAll(w.pk, [w.coder.Out()]) == sent;
    if Checks(w, c) && RateAt(w) <= w.ratio {
      var es := [w.coder.Out(), CLEAR_OUT];
      assert es[1..] == [CLEAR_OUT];
      assert PutAll(sent, [CLEAR_OUT]) == Put(sent, CLEAR_OUT);
    }
  }

  /** Bytes in and bytes out as `cl_block` compares them: in bytes, or in units of 256 when there are many. */
  function Compared(w: Writer): (int, int)
    requires w.Valid()
  {
    var n, out := w.inCount + 1, |Put(w.pk, w.coder.Out()).file|;
    if n < 0x800000 then (256 * n, out) else (n, out / 256)
  }

  /**
   At a check, with anything out to compare, a CLEAR goes out exactly if the bytes in are less than the
   next higher ratio asks for; else the ratio is replaced by the larger one reached.
   */
  lemma ClearsExactly(w: Writer, c: Byte)
    requires w.Valid() && Checks(w, c) && Compared(w).1 > 0
    ensures var (n, out) := Compared(w);
            var v, next := WriteByte(w, c), w.coder.Restarted(c);
            && v.checkpoint == w.inCount + 1 + 10000
            && if n < (w.ratio + 1) * out then
                 v.coder == next.Cleared() && v.pk == Put(Put(w.pk, w.coder.Out()), CLEAR_OUT) && v.ratio == 0
               else
                 && v.coder == next && v.pk == Put(w.pk, w.coder.Out())
                 && v.ratio > w.ratio && v.ratio * out <= n < (v.ratio + 1) * out
  {
    hide Rate, Put, Coder.Valid, Coder.Restarted, Coder.Out, Coder.Cleared, WriteByte, Packer.Valid, Lookup;
    WriteByteMiss(w, c);
    var r := RateAt(w);
    var (n, out) := Compared(w);
    RateBounds(w.inCount + 1, |Put(w.pk, w.coder.Out()).file|);
    if r <= w.ratio {
      MulMonotone(r + 1, w.ratio + 1, out);
    } else {
      MulMonotone(w.ratio + 1, r, out);
    }
  }

  lemma {:induction false} PutAllWidth(p: Packer, es: seq<Emit>)
    requires p.Valid() && AllCarried(p.width, es)
    ensures PutAll(p, es).width == WidthAfter(p.width, es)
    ensures |PutAll(p, es).file| >= |p.file|
    decreases |es|
  {
    if es != [] {
      PutAllWidth(Put(p, es[0]), es[1..]);
    }
  }

  function WriteAll(w: Writer, data: seq<Byte>): (v: Writer)
    requires w.Valid()
    ensures v.Valid()
    decreases |data|
  {
    if data == [] then w else WriteAll(WriteByte(w, data[0]), data[1..])
  }

  /** The state after the header and the first byte. */
  function Begun(maxbits: nat, first: Byte): (w: Writer)
    requires 1 <= maxbits <= BITS
    ensures w.Valid()
  {
    Writer(Started(maxbits, first), NewPacker(maxbits), 1, CHECK_GAP, 0)
  }

  function Closed(w: Writer): seq<Byte>
    requires w.Valid()
  {
    Finish(Put(w.pk, w.coder.Out()))
  }

  /** The file that compressing the input leaves behind. */
  function FileOf(maxbits: nat, data: seq<Byte>): seq<Byte>
    requires 1 <= maxbits <= BITS
  {
    if data == [] then [] else Closed(WriteAll(Begun(maxbits, data[0]), data[1..]))
  }

  lemma {:induction false} PutAllConcat(p: Packer, es: seq<Emit>, fs: seq<Emit>)
    requires p.Valid() && AllCarried(p.width, es) && AllCarried(PutAll(p, es).width, fs)
    ensures AllCarried(p.width, es + fs) && PutAll(p, es + fs) == PutAll(PutAll(p, es), fs)
    decreases |es|
  {
    if es == [] {
      assert es + fs == fs;
    } else {
      assert (es + fs)[1..] == es[1..] + fs;
      PutAllConcat(Put(p, es[0]), es[1..], fs);
    }
  }

  /** The writer's own clearing is one choice of CLEAR points. */
  lemma {:induction false} WriterFollowsScript(w: Writer, data: seq<Byte>) returns (clears: seq<bool>)
    requires w.Valid()
    ensures |clears| == |data|
    ensures Closed(WriteAll(w, data)) == Finish(PutAll(w.pk, Script(w.coder, data, clears)))
    decreases |data|
  {
    hide Step, Coder.Out;
    if data == [] {
      clears := [];
      assert PutAll(w.pk, [w.coder.Out()]) == Put(w.pk, w.coder.Out());
    } else {
      var clear := Checks(w, data[0]) && RateAt(w) <= w.ratio;
      var v, r := WriteByte(w, data[0]), Step(w.coder, data[0], clear);
      var rest := WriterFollowsScript(v, data[1..]);
      clears := [clear] + rest;
      assert clears[1..] == rest;
      PutAllConcat(w.pk, r.emits, Script(r.next, data[1..], rest));
    }
  }

  /** The compressor's file is the compressed file of one choice of CLEAR points. */
  lemma FileIsCompressed(maxbits: nat, data: seq<Byte>) returns (clears: seq<bool>)
    requires 1 <= maxbits <= BITS
    ensures |clears| == |data| && FileOf(maxbits, data) == Compressed(maxbits, data, clears)
  {
    hide WriteAll, Script;
    if data == [] {
      clears := [];
    } else {
      var rest := WriterFollowsScript(Begun(maxbits, data[0]), data[1..]);
      clears := [false] + rest;
      assert clears[1..] == rest;
    }
  }

  /** The compressor's file decompresses to its input exactly when there was input and maxbits is at least 12. */
  lemma FileRoundTrip(maxbits: nat, data: seq<Byte>)
    requires 1 <= maxbits <= BITS
    ensures Decompressed(FileOf(maxbits, data)) == Outcome(data, true) <==> data != [] && maxbits >= 12
  {
    hide Decompressed, FileOf, Compressed;
    var clears := FileIsCompressed(maxbits, data);
    RoundTrip(maxbits, data, clears);
  }

  lemma {:induction false} WriteAllAppend(w: Writer, data: seq<Byte>, c: Byte)
    requires w.Valid()
    ensures WriteAll(w, data + [c]) == WriteByte(WriteAll(w, data), c)
    decreases |data|
  {
    hide WriteByte;
    if data == [] {
      assert data + [c] == [c];
      assert WriteAll(w, [c]) == WriteAll(WriteByte(w, c), [c][1..]);
    } else {
      assert (data + [c])[1..] == data[1..] + [c];
      WriteAllAppend(WriteByte(w, data[0]), data[1..], c);
    }
  }
}
