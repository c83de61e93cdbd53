/** The compressing side of zopen: `zwrite`, `output`, `cl_block` and `zclose` over their mutable state. */
module Compressor {
  import opened Bits
  import opened Basics
  import opened CodeBuffer
  import opened CodeStream
  import opened LzwTable
  import opened LzwEncoder
  import opened LzwFile
  import opened LzwWriter
  import CodeTable

  /** Put an n-bit code at bit offset off, byte by byte: the stores of `output`. */
  method StoreCode(buf: array<Byte>, off: nat, n: nat, code: nat)
    requires buf.Length == BITS && LegalWidth(n) && off + n <= 8 * n
    modifies buf
    ensures buf[..] == PutCode(old(buf[..]), off, n, code)
  {
    var bp, r := off / 8, off % 8;
    var ocode, bits := code, n;
    buf[bp] := FirstByte(buf[bp], ocode, r);
    bp, bits, ocode := bp + 1, bits - (8 - r), Shr(ocode, 8 - r);
    if bits >= 8 {
      buf[bp] := ToByte(ocode);
      bp, ocode, bits := bp + 1, Shr(ocode, 8), bits - 8;
    }
    if bits != 0 {
      buf[bp] := ToByte(ocode);
    }
  }

  /** The ratio computed by `cl_block`. */
  method CurrentRate(inCount: nat, bytesOut: nat) returns (rat: nat)
    requires bytesOut > 0
    ensures rat == Rate(inCount, bytesOut)
  {
    if inCount > 0x007fffff {
      rat := Shr(bytesOut, 8);
      if rat == 0 {
        rat := 0x7fffffff;
      } else {
        rat := inCount / rat;
      }
    } else {
      rat := Shl(inCount, 8) / bytesOut;
    }
  }

  class Compressor {
    const maxbits: nat
    const buf: array<Byte>
    const table: CodeTable.HashTable
    var started: bool
    var nBits: nat
    var maxcode: nat
    var freeEnt: nat
    var clearFlg: bool
    var ratio: nat
    var checkpoint: nat
    var offset: nat
    var inCount: nat
    var bytesOut: nat
    var ent: nat
    /** The bytes of the output file. */
    var file: seq<Byte>
    /** All bytes consumed so far. */
    ghost var input: seq<Byte>

    /** The fields of `output`. */
    ghost predicate Packs()
      reads this, buf
    {
      && 1 <= maxbits <= BITS && buf.Length == BITS
      && LegalWidth(nBits) && IsSlot(offset, nBits)
      && maxcode == MaxCode(nBits, maxbits)
      && bytesOut == |file|
    }

    ghost function Packing(): Packer
      requires Packs()
      reads this, buf
    {
      Packer(nBits, offset, buf[..], file)
    }

    /** The width change that `output` is about to make. */
    ghost function Pending(): Option<nat>
      reads this
    {
      if clearFlg then Some(INIT_BITS) else Widen(nBits, maxbits, freeEnt)
    }

    /** The state once the first byte is in: everything the writer has is a function of the fields. */
    ghost predicate Ready()
      reads this, buf, table, table.htab, table.codetab
    {
      && Packs() && !clearFlg
      && table.Valid() && table.maxbits == maxbits
      && freeEnt == FIRST + |table.entries|
      && View().Valid()
    }

    ghost function Dictionary(): Coder
      reads this, table
    {
      Coder(maxbits, ent, Table(FIRST, table.entries), nBits)
    }

    ghost function View(): Writer
      requires Packs()
      reads this, buf, table
    {
      Writer(Dictionary(), Packing(), inCount, checkpoint, ratio)
    }

    /** The state is the one that the bytes consumed lead to, however they were cut into calls. */
    ghost predicate Valid()
      reads this, buf, table, table.htab, table.codetab
    {
      && 1 <= maxbits <= BITS && buf.Length == BITS
      && table.Valid() && table.maxbits == maxbits
      && if started then
           && Ready() && input != []
           && View() == WriteAll(Begun(maxbits, input[0]), input[1..])
         else
           && input == [] && file == [] && !clearFlg
           && buf[..] == ZERO_BUFFER && offset == 0
    }

    /** `zopen` for writing; bits is 0 for the default. */
    constructor (bits: nat)
      requires bits <= BITS
      ensures Valid() && input == [] && maxbits == if bits == 0 then BITS else bits
      ensures fresh(buf) && fresh(table) && fresh(table.htab) && fresh(table.codetab)
    {
      var m := if bits == 0 then BITS else bits;
      maxbits := m;
      buf := new Byte[BITS](i => 0);
      table := new CodeTable.HashTable(m);
      started, nBits, maxcode, freeEnt, clearFlg := false, 0, 0, 0, false;
      ratio, checkpoint, offset, inCount, bytesOut, ent := 0, CHECK_GAP, 0, 1, 0, 0;
      file, input := [], [];
    }

    /** Reset the width after a CLEAR, or move to the next one. */
    method ChangeWidth()
      requires 1 <= maxbits <= BITS && LegalWidth(nBits)
      requires maxcode == MaxCode(nBits, maxbits)
      requires freeEnt > maxcode || clearFlg
      modifies this`nBits, this`maxcode, this`clearFlg
      ensures Some(nBits) == old(Pending()) && maxcode == MaxCode(nBits, maxbits) && !clearFlg
    {
      if clearFlg {
        nBits := INIT_BITS;
        maxcode := Pow2(nBits) - 1;
        clearFlg := false;
      } else {
        nBits := nBits + 1;
        if nBits == maxbits {
          maxcode := Pow2(maxbits);
        } else {
          maxcode := Pow2(nBits) - 1;
        }
      }
    }

    /** Store a code, write the buffer when it is full or the width changes; at -1 write what is left. */
    method Output(ocode: int)
      requires Packs()
      requires ocode >= 0 && Pending().Some? ==> LegalWidth(Pending().value)
      modifies this`offset, this`nBits, this`maxcode, this`clearFlg, this`bytesOut, this`file, buf
      ensures Packs()
      ensures ocode >= 0 ==> Packing() == Put(old(Packing()), Emit(ocode, old(Pending()))) && !clearFlg
      ensures ocode < 0 ==> file == Finish(old(Packing())) && offset == 0
      ensures ocode < 0 ==> nBits == old(nBits) && clearFlg == old(clearFlg) && buf[..] == old(buf[..])
    {
      hide PutCode, MaxCode;
      if ocode >= 0 {
        StoreCode(buf, offset, nBits, ocode);
        offset := offset + nBits;
        if offset == 8 * nBits {
          bytesOut := bytesOut + nBits;
          file := file + buf[..nBits];
          offset := 0;
        }
        if freeEnt > maxcode || clearFlg {
          if offset > 0 {
            file := file + buf[..nBits];
            bytesOut := bytesOut + nBits;
          }
          offset := 0;
          ChangeWidth();
        }
      } else {
        if offset > 0 {
          offset := (offset + 7) / 8;
          file := file + buf[..offset];
          bytesOut := bytesOut + offset;
        }
        offset := 0;
      }
    }

    /** Clear the table unless the compression ratio has grown since the last check. */
    method ClBlock()
      requires Packs() && !clearFlg && bytesOut > 0
      requires table.Valid()
      modifies this`checkpoint, this`ratio, this`freeEnt, this`offset, this`nBits, this`maxcode, this`clearFlg,
               this`bytesOut, this`file, buf, table, table.htab
      ensures Packs() && !clearFlg && table.Valid()
      ensures checkpoint == inCount + 10000
      ensures var rat := Rate(inCount, old(bytesOut));
              if rat > old(ratio) then
                && ratio == rat && freeEnt == old(freeEnt) && table.entries == old(table.entries)
                && Packing() == old(Packing())
              else
                && ratio == 0 && freeEnt == FIRST && table.entries == []
                && Packing() == Put(old(Packing()), CLEAR_OUT)
    {
      hide Put, Pow2, Rate, CodeTable.HashTable.Valid;
      checkpoint := inCount + CHECK_GAP;
      var rat := CurrentRate(inCount, bytesOut);
      if rat > ratio {
        ratio := rat;
      } else {
        ratio := 0;
        table.Clear();
        freeEnt := FIRST;
        clearFlg := true;
        Output(CLEAR);
      }
    }

    /** What stays true while a byte is being taken. */
    ghost predicate Working()
      reads this, buf, table, table.htab, table.codetab
    {
      && Packs() && !clearFlg && bytesOut > 0
      && table.Valid() && table.maxbits == maxbits
      && freeEnt == FIRST + |table.entries|
      && Dictionary().Valid()
    }

    /** Send the code of the matched string, start a new string at c, and add the entry or consider a clear. */
    method Restart(c: Byte, i: nat, ghost j: nat)
      requires Working()
      requires table.Answers(Entry(ent, c), i, j) && Entry(ent, c) !in table.entries
      modifies this, buf, table, table.htab, table.codetab
      ensures Working()
      ensures started == old(started) && input == old(input) && inCount == old(inCount)
      ensures var sent, next := Put(old(Packing()), old(Dictionary()).Out()), old(Dictionary()).Restarted(c);
              if old(freeEnt) < Pow2(maxbits) || inCount < old(checkpoint) then
                && Packing() == sent && Dictionary() == next
                && checkpoint == old(checkpoint) && ratio == old(ratio)
              else
                && checkpoint == inCount + CHECK_GAP
                && var rat := Rate(inCount, |sent.file|);
                   if rat > old(ratio) then
                     Packing() == sent && Dictionary() == next && ratio == rat
                   else
                     Packing() == Put(sent, CLEAR_OUT) && Dictionary() == next.Cleared() && ratio == 0
    {
      hide Put, CodeTable.HashTable.Valid, CodeTable.HashTable.Answers, Pow2, Rate;
      ghost var k := Dictionary();
      assert Carries(nBits, k.Out());
      assert k.Restarted(c).Valid();
      assert ent < freeEnt;
      Pow2Monotone(maxbits, BITS);
      var prefix := ent;
      Output(ent);
      ent := c;
      if freeEnt < Pow2(maxbits) {
        table.Insert(i, prefix, c, freeEnt, j);
        freeEnt := freeEnt + 1;
      } else if inCount >= checkpoint {
        ClBlock();
        assert k.Restarted(c).Cleared().Valid();
        assert bytesOut == |Packing().file| > 0;
        assert Dictionary() == k.Restarted(c) || Dictionary() == k.Restarted(c).Cleared();
      }
    }

    /** A byte that extends the match to a known string. */
    method TakeKnown(c: Byte, i: nat, ghost j: nat)
      requires Ready() && ent < Pow2(BITS)
      requires table.Answers(Entry(ent, c), i, j) && Entry(ent, c) in table.entries
      modifies this`inCount, this`ent
      ensures Ready() && View() == WriteByte(old(View()), c)
    {
      hide Put, Rate, Lookup, WriteByte, Coder.Restarted, Coder.Out, Coder.Valid, Pow2;
      WriteByteHit(View(), c, table.codetab[i] - FIRST);
      inCount := inCount + 1;
      ent := table.codetab[i];
    }

    /** A byte that ends the match. */
    method TakeNew(c: Byte, i: nat, ghost j: nat)
      requires Ready() && ent < Pow2(BITS)
      requires table.Answers(Entry(ent, c), i, j) && Entry(ent, c) !in table.entries
      modifies this, buf, table, table.htab, table.codetab
      ensures Ready() && View() == WriteByte(old(View()), c)
      ensures started == old(started) && input == old(input)
    {
      hide Put, Rate, WriteByte, CodeTable.HashTable.Valid, Coder.Restarted, Coder.Out, Coder.Valid, Pow2;
      WriteByteMiss(View(), c);
      inCount := inCount + 1;
      Restart(c, i, j);
    }

    lemma EntFits()
      requires Ready()
      ensures Packs() && table.Valid() && table.Shape() && table.maxbits == maxbits
      ensures ent < Pow2(BITS) && (table.entries != [] ==> ent < Pow2(maxbits))
    {
      Pow2Monotone(nBits, BITS);
    }

    /** One turn of the loop of `zwrite`. */
    method Take(c: Byte)
      requires Ready()
      modifies this, buf, table, table.htab, table.codetab
      ensures Ready() && View() == WriteByte(old(View()), c)
      ensures started == old(started) && input == old(input)
    {
      hide Ready, WriteByte, CodeTable.HashTable.Valid, CodeTable.HashTable.Answers, Pow2;
      EntFits();
      var i, found, j := table.Find(ent, c);
      if found {
        TakeKnown(c, i, j);
      } else {
        TakeNew(c, i, j);
      }
    }

    /** Write the header and set the writer's fields. */
    method Reset(c: Byte)
      requires 1 <= maxbits <= BITS && buf.Length == BITS && buf[..] == ZERO_BUFFER
      modifies this
      ensures Packs() && Packing() == NewPacker(maxbits) && !clearFlg
      ensures inCount == 1 && checkpoint == CHECK_GAP && ratio == 0 && freeEnt == FIRST && ent == c
      ensures started && input == [c]
    {
      hide Packs, NewPacker;
      started := true;
      ratio, inCount, checkpoint := 0, 1, CHECK_GAP;
      freeEnt := FIRST;
      ent := c;
      input := [c];
      ResetPacker();
    }

    /** Write the header and set the fields of `output`. */
    method ResetPacker()
      requires 1 <= maxbits <= BITS && buf.Length == BITS && buf[..] == ZERO_BUFFER
      modifies this`file, this`offset, this`bytesOut, this`clearFlg, this`nBits, this`maxcode
      ensures Packs() && Packing() == NewPacker(maxbits) && !clearFlg
    {
      hide Pow2;
      file := Header(maxbits);
      assert |file| == 3;
      hide Header;
      offset, bytesOut, clearFlg := 0, 3, false;
      nBits := INIT_BITS;
      maxcode := Pow2(nBits) - 1;
    }

    /** The first byte of the stream. */
    method Begin(c: Byte)
      requires 1 <= maxbits <= BITS && buf.Length == BITS && buf[..] == ZERO_BUFFER
      requires table.Valid() && table.maxbits == maxbits
      modifies this, table, table.htab
      ensures Ready() && View() == Begun(maxbits, c)
      ensures started && input == [c]
    {
      hide CodeTable.HashTable.Valid, Writer.Valid, Coder.Valid, Packs;
      Reset(c);
      table.Clear();
      assert View() == Begun(maxbits, c);
    }

    method TakeFirst(c: Byte)
      requires Valid() && !started
      modifies this, table, table.htab
      ensures Valid() && started && input == [c] == old(input) + [c]
    {
      hide CodeTable.HashTable.Valid, Begun, WriteByte, Ready;
      Begin(c);
      EntFits();
      assert input[1..] == [];
    }

    /** Take one more byte of the input. */
    method TakeNext(c: Byte)
      requires Valid() && started
      modifies this, buf, table, table.htab, table.codetab
      ensures Valid() && started && input == old(input) + [c]
    {
      hide WriteByte, CodeTable.HashTable.Valid, WriteAll, Begun;
      WriteAllAppend(Begun(maxbits, input[0]), input[1..], c);
      Take(c);
      input := input + [c];
      assert input[1..] == old(input)[1..] + [c];
    }

    /** Compress some more bytes. */
    method ZWrite(data: seq<Byte>) returns (n: nat)
      requires Valid()
      modifies this, buf, table, table.htab, table.codetab
      ensures Valid() && input == old(input) + data && n == |data|
    {
      hide Valid;
      n := |data|;
      if n == 0 {
        return;
      }
      var i := 0;
      if !started {
        TakeFirst(data[0]);
        i := 1;
      }
      while i < n
        invariant i <= n && Valid() && started
        invariant input == old(input) + data[..i]
      {
        TakeNext(data[i]);
        i := i + 1;
      }
    }

    /** Send the last code and the rest of the buffer. A stream never written to leaves an empty file. */
    method ZClose()
      requires Valid()
      modifies this, buf
      ensures file == FileOf(maxbits, old(input))
    {
      if started {
        assert Carries(nBits, Dictionary().Out());
        Output(ent);
        Output(-1);
      }
    }
  }
}
