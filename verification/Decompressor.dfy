/**
 `zread` and `getcode` over their mutable state, for both decoders: compress (zopen.c) takes its
 first code as a character, gzip (zuncompress.c) checks it and may be handed the first bytes of
 the file in a separate buffer.
 */
module Decompressor {
  import opened Bits
  import opened Basics
  import opened CodeBuffer
  import opened CodeStream
  import opened LzwTable
  import opened LzwDecoder
  import opened LzwFile
  import opened Decoders

  datatype Kind = Compress | Gzip

  datatype State = Start | Middle | Eof

  /** What reading a code came to. */
  datatype Turn = Ended | Cleared | Rejected | Stacked

  /** Room for the longest string that a table of 16-bit codes can hold. */
  const STACK_SIZE: nat := 0x10000 - 255

  /** Load the code at bit offset off: the body of `getcode` behind the refill. */
  method LoadCode(gbuf: array<Byte>, off: nat, n: nat) returns (gcode: nat)
    requires gbuf.Length == BITS && LegalWidth(n) && off + n <= 8 * n
    ensures gcode == ExtractCode(gbuf[..], off, n)
  {
    var bp, r, bits := off / 8, off % 8, n;
    gcode := Shr(gbuf[bp], r);
    bp, bits, r := bp + 1, bits - (8 - r), 8 - r;
    if bits >= 8 {
      gcode := gcode + Shl(gbuf[bp], r);
      bp, r, bits := bp + 1, r + 8, bits - 8;
    }
    gcode := gcode + Shl(Low(if bits == 0 then 0 else gbuf[bp], bits), r);
  }

  /** Files for which the source determines all that is delivered: for compress, if the first code is no other. */
  predicate Determined(kind: Kind, file: seq<Byte>) {
    kind == Compress ==> StartsWithChar(file) || StartsWithClear(file)
  }

  function Delivers(kind: Kind, file: seq<Byte>): Outcome
    requires Determined(kind, file)
  {
    if kind == Gzip then Decompressed(file) else ZopenDecompressed(file)
  }

  /** A buffer with some bytes stored from an index on. */
  ghost function Pasted(g: seq<Byte>, s: seq<Byte>, at: nat): (r: seq<Byte>)
    requires at + |s| <= |g|
    ensures |r| == |g|
  {
    g[..at] + s + g[at + |s|..]
  }

  /** Two reads, one behind the other, are one read. */
  lemma Filled(pre: seq<Byte>, file: seq<Byte>, g: seq<Byte>, n: nat)
    requires n <= |g|
    ensures var i := Min(|pre|, n);
            var got := Min(|file|, n - i);
            var size := got + i;
            && size == Min(|pre + file|, n)
            && Pasted(Pasted(g, pre[..i], 0), file[..got], i) == (pre + file)[..size] + g[size..]
            && pre[i..] + file[got..] == (pre + file)[size..]
  {
    var i := Min(|pre|, n);
    var got := Min(|file|, n - i);
    assert got > 0 ==> i == |pre|;
    assert (pre + file)[..got + i] == pre[..i] + file[..got];
  }

  lemma ByteOfCode(code: nat)
    requires code < 256
    ensures ToByte(code) == code
  {
    PowersOfTwo();
    LowOfSmall(code, 8);
  }

  lemma AnyFinchar(d: Decoder, b: Byte)
    requires d.Valid()
    ensures d.(finchar := b).Valid() && d.(last := None, finchar := b).Valid() && d.(last := None).Valid()
  {
  }

  /** Reading a code does not depend on the last one. */
  lemma LastUnread(d: Decoder)
    requires d.Valid()
    ensures var e := d.(last := None);
            e.Valid() && e.GetCode().1 == d.GetCode().1 && d.GetCode().0 == e.GetCode().0.(last := d.last)
  {
    hide NextCode, MaxCode, Pow2;
  }

  class Decompressor {
    const kind: Kind
    const gbuf: array<Byte>
    const tabPrefix: array<nat>
    const tabSuffix: array<Byte>
    const stack: array<Byte>
    var state: State
    var maxbits: nat
    var block: bool
    var nBits: nat
    var maxcode: nat
    var freeEnt: nat
    var clearFlg: bool
    var roffset: nat
    var size: int
    var stackp: nat
    var finchar: Byte
    var oldcode: int
    var incode: nat
    /** Bytes handed over already read, and the unread rest of the file. */
    var pre: seq<Byte>
    var file: seq<Byte>
    /** The entries of the tables and the code of the first. */
    ghost var entries: seq<Entry>
    ghost var base: nat
    /** The stream broke, or held no code at all for compress: `zread` must not be called again. */
    ghost var spent: bool

    ghost predicate Arrays() {
      && gbuf.Length == BITS && tabPrefix.Length == 0x10000 && tabSuffix.Length == 0x10000
      && stack.Length == STACK_SIZE
      && gbuf != tabSuffix && gbuf != stack && tabSuffix != stack
    }

    /** The loaded buffer and the unread bytes. */
    ghost function Loads(): Reader
      requires Arrays()
      reads this, gbuf
    {
      Reader(nBits, roffset, size, gbuf[..], pre + file)
    }

    /** The decoder's state as a value. */
    ghost function View(): Decoder
      requires Arrays()
      reads this, gbuf
    {
      Decoder(maxbits, block, Table(base, entries), if oldcode < 0 then None else Some(oldcode),
              finchar, clearFlg, Loads())
    }

    /** The tables hold the entries. */
    ghost predicate Tables()
      requires Arrays()
      reads this`base, this`freeEnt, this`entries, tabPrefix, tabSuffix
    {
      && freeEnt == base + |entries| <= 0x10000 && base >= 256
      && (forall c :: 0 <= c < 256 ==> tabSuffix[c] == c)
      && forall i :: 0 <= i < |entries| ==>
           tabPrefix[base + i] == entries[i].prefix && tabSuffix[base + i] == entries[i].suffix
    }

    /** Nothing was stored for codes above the characters. */
    ghost predicate Zeroed()
      requires Arrays()
      reads tabPrefix, tabSuffix
    {
      forall c :: 256 <= c < 0x10000 ==> tabPrefix[c] == 0 && tabSuffix[c] == 0
    }

    /** The decoder's state except for oldcode, which `getcode` does not look at. */
    ghost function Shape(): Decoder
      requires Arrays()
      reads this, gbuf
    {
      View().(last := None)
    }

    /** Before a call of `getcode`. */
    ghost predicate Loading()
      reads this, gbuf, tabPrefix, tabSuffix
    {
      Arrays() && Tables() && Shape().Valid() && maxcode == MaxCode(nBits, maxbits)
    }

    /** At the head of the decoding loop. */
    ghost predicate Decoding()
      reads this, gbuf, tabPrefix, tabSuffix
    {
      Loading() && View().Valid() && oldcode >= -1
    }

    /** The width change of `getcode`. */
    method ChangeWidth()
      requires Loading()
      modifies this`nBits, this`maxcode, this`clearFlg
      ensures nBits == (if old(Shape()).Switch().Some? then old(Shape()).Switch().value else old(nBits))
      ensures maxcode == MaxCode(nBits, maxbits) && !clearFlg
    {
      hide Table.Valid, Reader.Valid;
      assert Shape().Switch().Some? ==> LegalWidth(Shape().Switch().value);
      if freeEnt > maxcode {
        nBits := nBits + 1;
        if nBits == maxbits {
          maxcode := Pow2(maxbits);
        } else {
          maxcode := Pow2(nBits) - 1;
        }
      }
      if clearFlg {
        nBits := INIT_BITS;
        maxcode := Pow2(nBits) - 1;
        clearFlg := false;
      }
    }

    /** Load a new buffer; false at the end of the file. */
    method Reload() returns (more: bool)
      requires Loading()
      requires Shape().Switch().Some? || roffset >= size
      modifies this`nBits, this`maxcode, this`clearFlg, this`roffset, this`size, this`pre, this`file, gbuf
      ensures maxcode == MaxCode(nBits, maxbits) && !clearFlg
      ensures var w := if old(Shape()).Switch().Some? then old(Shape()).Switch().value else old(nBits);
              match Refill(old(Loads()), w)
              case None => !more && Loads() == old(Loads()).(width := w, size := 0)
              case Some(u) => more && Loads() == u
    {
      hide Table.Valid, MaxCode, Pow2;
      ChangeWidth();
      Fill();
      if size <= 0 {
        return false;
      }
      roffset := 0;
      size := 8 * size - (nBits - 1);
      return true;
    }

    /** The next code, in terms of the reader alone. */
    method LoadNext() returns (code: int)
      requires Loading()
      modifies this`nBits, this`maxcode, this`clearFlg, this`roffset, this`size, this`pre, this`file, gbuf
      ensures maxcode == MaxCode(nBits, maxbits) && !clearFlg
      ensures var (u, c) := NextCode(old(Loads()), old(Shape()).Switch());
              Loads() == u && code == if c.None? then -1 else c.value
    {
      ghost var u, switch := Loads(), Shape().Switch();
      assert clearFlg || freeEnt > maxcode <==> switch.Some?;
      assert u.Valid() && NextCode(u, switch).0.Valid();
      hide ExtractCode, Table.Valid, MaxCode, Refill, Pow2, Decoder.Valid, Decoder.Switch, Tables;
      if clearFlg || roffset >= size || freeEnt > maxcode {
        var more := Reload();
        if !more {
          return -1;
        }
      }
      code := LoadCode(gbuf, roffset, nBits);
      roffset := roffset + nBits;
    }

    /** `getcode`, whatever oldcode is. */
    method GetAnyCode() returns (code: int)
      requires Loading()
      modifies this`nBits, this`maxcode, this`clearFlg, this`roffset, this`size, this`pre, this`file, gbuf
      ensures Loading() && Shape() == old(Shape()).GetCode().0
      ensures match old(Shape()).GetCode().1
              case None => code == -1
              case Some(c) => code == c
    {
      ghost var d := Shape();
      assert d.GetCode().0.Valid();
      hide MaxCode, NextCode, Pow2, Decoder.Valid, Decoder.Switch, Tables;
      code := LoadNext();
      assert Shape() == d.GetCode().0;
    }

    /** `getcode`. */
    method GetCode() returns (code: int)
      requires Decoding()
      modifies this`nBits, this`maxcode, this`clearFlg, this`roffset, this`size, this`pre, this`file, gbuf
      ensures Decoding()
      ensures View() == old(View()).GetCode().0
      ensures match old(View()).GetCode().1
              case None => code == -1
              case Some(c) => code == c
    {
      ghost var d := View();
      assert d.GetCode().0.Valid();
      LastUnread(d);
      hide MaxCode, NextCode, Pow2, Decoder.Valid, Decoder.Switch, Tables, Decoder.GetCode;
      code := GetAnyCode();
      assert View() == Shape().(last := d.last);
    }

    /** Store bytes into the buffer from index at on. */
    method CopyIn(s: seq<Byte>, at: nat)
      requires gbuf.Length == BITS && at + |s| <= BITS
      modifies gbuf
      ensures gbuf[..] == Pasted(old(gbuf[..]), s, at)
    {
      for k := 0 to |s|
        invariant gbuf[..] == Pasted(old(gbuf[..]), s[..k], at)
      {
        gbuf[at + k] := s[k];
      }
    }

    /** Read up to nBits bytes into the buffer, from the handed-over bytes first. */
    method Fill()
      requires gbuf.Length == BITS && LegalWidth(nBits)
      modifies this`size, this`pre, this`file, gbuf
      ensures size == Min(|old(pre + file)|, nBits)
      ensures gbuf[..] == old(pre + file)[..size] + old(gbuf[..])[size..]
      ensures pre + file == old(pre + file)[size..]
    {
      ghost var g := gbuf[..];
      var i := Min(|pre|, nBits);
      var got := Min(|file|, nBits - i);
      Filled(pre, file, g, nBits);
      CopyIn(pre[..i], 0);
      CopyIn(file[..got], i);
      pre, file := pre[i..], file[got..];
      size := got + i;
    }

    /** A code the decoder accepts and has a string for. */
    ghost predicate Accepts(code: nat)
      requires Arrays()
      reads this, gbuf
    {
      View().Valid() && !View().Rejects(code) && !(code == CLEAR && block) && code < Pow2(maxbits)
    }

    /** In the middle of delivering the string of incode. */
    ghost predicate Draining()
      reads this, gbuf, tabPrefix, tabSuffix
    {
      && Decoding() && Accepts(incode) && finchar == View().Decoded(incode)[0]
      && stackp <= STACK_SIZE
    }

    /** What is left to deliver: the stack, and then all that the rest of the file decodes to. */
    ghost function Rest(): Outcome
      requires Draining()
      reads this, gbuf, tabPrefix, tabSuffix, stack
    {
      After(Reversed(stack[..stackp]), Inflate(View().Delivered(incode)))
    }

    /** What the tables hold for a code above the characters. */
    lemma EntryAt(t: Table, c: nat)
      requires Arrays() && Tables() && t == Table(base, entries) && t.Valid() && t.Known(c) && c >= 256
      ensures c < 0x10000 && t.Known(tabPrefix[c]) && tabPrefix[c] < c
      ensures t.Expand(c) == t.Expand(tabPrefix[c]) + [tabSuffix[c]]
    {
      var e := t.entries[c - t.base];
      assert tabSuffix[c] == e.suffix && tabPrefix[c] == e.prefix;
    }

    /** Follow the prefixes of a code down to a character, stacking the suffixes. */
    method Unroll(code: nat, ghost t: Table, ghost goal: seq<Byte>)
      requires Arrays() && Tables() && t == Table(base, entries) && t.Valid() && t.Known(code)
      requires stackp <= STACK_SIZE && |goal| <= STACK_SIZE
      requires goal == t.Expand(code) + Reversed(stack[..stackp])
      modifies this`stackp, this`finchar, stack
      ensures 0 < stackp <= STACK_SIZE
      ensures Reversed(stack[..stackp]) == goal && finchar == goal[0]
    {
      hide Table.Valid, Reversed;
      var c: nat := code;
      while c >= 256
        invariant Tables() && t.Known(c) && stackp <= STACK_SIZE
        invariant goal == t.Expand(c) + Reversed(stack[..stackp])
        decreases c
      {
        hide Tables;
        EntryAt(t, c);
        assert |goal| == |t.Expand(c)| + |Reversed(stack[..stackp])|;
        Stack(tabSuffix[c]);
        c := tabPrefix[c];
      }
      assert t.Expand(c) == [c];
      finchar := tabSuffix[c];
      Stack(finchar);
    }

    /** *stackp++ = b */
    method Stack(b: Byte)
      requires Arrays() && stackp < STACK_SIZE
      modifies this`stackp, stack
      ensures stackp == old(stackp) + 1
      ensures Reversed(stack[..stackp]) == [b] + Reversed(old(stack[..stackp]))
    {
      stack[stackp] := b;
      ReversedPush(stack[..stackp], b);
      assert stack[..stackp + 1] == stack[..stackp] + [b];
      stackp := stackp + 1;
    }

    /** The stack has room for every string, so no write to it is out of bounds. */
    lemma StringFits(code: nat)
      requires Decoding() && Accepts(code)
      ensures |View().Decoded(code)| <= STACK_SIZE
    {
      DecodedFits(View(), code);
      Pow2Monotone(maxbits, BITS);
      PowersOfTwo();
    }

    lemma EmptyStack()
      requires Arrays()
      ensures Reversed(stack[..0]) == []
    {
    }

    /** Put the string of a code on the stack, last byte first. */
    method StackString(code: nat)
      requires Decoding() && Accepts(code)
      modifies this`stackp, this`finchar, this`incode, stack
      ensures 0 < stackp <= STACK_SIZE && incode == code
      ensures Reversed(stack[..stackp]) == old(View()).Decoded(code)
      ensures finchar == old(View()).Decoded(code)[0]
    {
      hide Pow2, MaxCode, Reader.Valid, Reversed;
      ghost var goal := View().Decoded(code);
      StringFits(code);
      EmptyStack();
      incode := code;
      stackp := 0;
      if code >= freeEnt {
        Stack(finchar);
        Unroll(oldcode, View().table, goal);
      } else {
        Unroll(code, View().table, goal);
      }
    }

    /** Accept a code: its string is now to be delivered. */
    method Push(code: nat)
      requires Decoding() && Accepts(code)
      modifies this`stackp, this`finchar, this`incode, stack
      ensures Draining() && stackp > 0
      ensures View().rd == old(View()).rd
      ensures Rest() == After(old(View()).Decoded(code), Inflate(old(View()).Delivered(code)))
    {
      hide Pow2, MaxCode, Inflate, Reader.Valid, Reversed, Table.Valid, Decoder.Decoded, Decoder.Delivered;
      FincharSpent(View(), View().Decoded(code)[0], code);
      StackString(code);
      assert View() == old(View()).(finchar := old(View()).Decoded(code)[0]);
    }

    method AddEntry(prefix: nat, suffix: Byte)
      requires Arrays() && Tables() && freeEnt < 0x10000
      modifies this`freeEnt, this`entries, tabPrefix, tabSuffix
      ensures Tables() && entries == old(entries) + [Entry(prefix, suffix)]
    {
      tabPrefix[freeEnt] := prefix;
      tabSuffix[freeEnt] := suffix;
      freeEnt := freeEnt + 1;
      entries := entries + [Entry(prefix, suffix)];
    }

    /** Add the entry that the code just delivered defines, and remember the code. */
    method NewEntry()
      requires Decoding() && Accepts(incode) && finchar == View().Decoded(incode)[0]
      modifies this`freeEnt, this`entries, this`oldcode, tabPrefix, tabSuffix
      ensures Decoding() && View() == old(View()).Delivered(incode)
    {
      PowersOfTwo();
      Pow2Monotone(maxbits, BITS);
      hide Pow2, MaxCode, Reader.Valid, Table.Valid;
      ghost var d := View().Delivered(incode);
      assert d.Valid();
      if freeEnt < Pow2(maxbits) && oldcode != -1 {
        AddEntry(oldcode, finchar);
      }
      oldcode := incode;
      assert View() == d;
    }

    /** A CLEAR code was read. */
    method ClearTable()
      requires Loading() && block
      modifies this`freeEnt, this`entries, this`base, this`oldcode, this`clearFlg, tabPrefix
      ensures Decoding() && View() == old(Shape()).Cleared()
    {
      for c := 0 to 256 {
        tabPrefix[c] := 0;
      }
      clearFlg := true;
      freeEnt := FIRST;
      base, entries := FIRST, [];
      oldcode := -1;
    }

    /** Before the first call: the fields as calloc left them. */
    ghost predicate Unread()
      reads this, gbuf, tabPrefix, tabSuffix
    {
      && Arrays() && Zeroed()
      && gbuf[..] == ZERO_BUFFER && roffset == 0 && size == 0 && !clearFlg && finchar == 0
    }

    ghost predicate Valid()
      reads this, gbuf, tabPrefix, tabSuffix
    {
      match state
      case Start => Unread() && Determined(kind, pre + file)
      case Middle => Draining() && stackp > 0
      case Eof => true
    }

    /** All that further calls will deliver. */
    ghost function Pending(): Outcome
      requires Valid()
      reads this, gbuf, tabPrefix, tabSuffix, stack
    {
      match state
      case Start => Delivers(kind, pre + file)
      case Middle => Rest()
      case Eof => Outcome([], true)
    }

    /** Open a file for reading; the bytes of pre come before those of file. */
    constructor (kind: Kind, pre: seq<Byte>, file: seq<Byte>)
      ensures state == Start && Unread() && !spent && this.kind == kind && this.pre == pre && this.file == file
      ensures Determined(kind, pre + file) ==> Valid() && Pending() == Delivers(kind, pre + file)
      ensures fresh(gbuf) && fresh(tabPrefix) && fresh(tabSuffix) && fresh(stack)
    {
      this.kind, this.pre, this.file := kind, pre, file;
      gbuf := new Byte[BITS](i => 0);
      tabPrefix := new nat[0x10000](i => 0);
      tabSuffix := new Byte[0x10000](i => 0);
      stack := new Byte[STACK_SIZE](i => 0);
      state, maxbits, block, nBits, maxcode, freeEnt := Start, 0, true, 0, 0, 0;
      clearFlg, roffset, size, stackp, finchar, oldcode, incode := false, 0, 0, 0, 0, 0, 0;
      entries, base, spent := [], 0, false;
    }

    /** Up to three bytes, from the handed-over ones first. */
    method TakeHeader() returns (header: seq<Byte>)
      modifies this`pre, this`file
      ensures header == old(pre + file)[..Min(|old(pre + file)|, 3)]
      ensures pre + file == old(pre + file)[|header|..]
    {
      var i := Min(|pre|, 3);
      var got := Min(|file|, 3 - i);
      header := pre[..i] + file[..got];
      pre, file := pre[i..], file[got..];
    }

    /** The characters' entries and an empty table. */
    method InitTables()
      requires Arrays() && Zeroed()
      modifies this`freeEnt, this`entries, this`base, this`oldcode, tabPrefix, tabSuffix
      ensures Tables() && Zeroed() && entries == [] && base == Base(block) && oldcode == -1
    {
      for c := 0 to 256
        invariant (forall b :: 0 <= b < c ==> tabSuffix[b] == b) && Zeroed()
        modifies tabPrefix, tabSuffix
      {
        tabPrefix[c], tabSuffix[c] := 0, c;
      }
      freeEnt := if block then FIRST else 256;
      base, entries := Base(block), [];
      oldcode := -1;
    }

    /** Read and check the header. */
    method CheckHeader() returns (ok: bool)
      modifies this`pre, this`file, this`maxbits, this`block
      ensures ok <==> Opening(old(pre + file)).Some?
      ensures ok ==>
        var rd := Opened(ZERO_BUFFER, pre + file);
        Opening(old(pre + file)) == Some(Decoder(maxbits, block, Table(Base(block), []), None, 0, false, rd))
    {
      hide Pow2;
      var header := TakeHeader();
      if |header| != 3 || header[..2] != MAGIC {
        return false;
      }
      assert header[..2] == old(pre + file)[..2];
      maxbits, block := header[2] % 32, header[2] >= BLOCK_MASK;
      return 12 <= maxbits <= BITS;
    }

    /** Check the header and set up the tables; false when it is refused. */
    method ReadHeader() returns (ok: bool)
      requires Unread()
      modifies this`pre, this`file, this`maxbits, this`block, this`nBits, this`maxcode, this`freeEnt,
               this`oldcode, this`entries, this`base, tabPrefix, tabSuffix
      ensures ok <==> Opening(old(pre + file)).Some?
      ensures ok ==> Decoding() && Zeroed() && oldcode == -1 && View() == Opening(old(pre + file)).value
    {
      hide Decoder.Valid, Tables, Opening, MaxCode, Zeroed;
      ok := CheckHeader();
      if ok {
        ghost var d := Opening(old(pre + file)).value;
        Accepted(d);
        SetUp();
        assert View() == d == Shape();
      }
    }

    lemma Accepted(d: Decoder)
      requires d.Valid()
      ensures 12 <= d.maxbits
    {
    }

    /** The first width and an empty table. */
    method SetUp()
      requires Arrays() && Zeroed() && 12 <= maxbits
      modifies this`nBits, this`maxcode, this`freeEnt, this`oldcode, this`entries, this`base, tabPrefix, tabSuffix
      ensures Tables() && Zeroed() && entries == [] && base == Base(block) && oldcode == -1
      ensures nBits == INIT_BITS && maxcode == MaxCode(nBits, maxbits)
    {
      nBits := INIT_BITS;
      maxcode := Pow2(nBits) - 1;
      InitTables();
    }

    /** Pop bytes from the stack until it is empty or num bytes are out. */
    method Drain(sent: seq<Byte>, num: nat) returns (out: seq<Byte>)
      requires Arrays() && stackp <= STACK_SIZE && |sent| <= num
      modifies this`stackp
      ensures stackp <= STACK_SIZE && |out| <= num && (stackp == 0 || |out| == num)
      ensures out + Reversed(stack[..stackp]) == sent + Reversed(old(stack[..stackp]))
    {
      out := sent;
      while stackp > 0 && |out| != num
        invariant stackp <= STACK_SIZE && |out| <= num
        invariant out + Reversed(stack[..stackp]) == sent + Reversed(old(stack[..stackp]))
      {
        assert stack[..stackp][..stackp - 1] == stack[..stackp - 1];
        stackp := stackp - 1;
        out := out + [stack[stackp]];
      }
    }

    /** Read a code and act on it. */
    method Next() returns (turn: Turn)
      requires Decoding()
      modifies this, gbuf, tabPrefix, stack
      ensures state == old(state) && spent == old(spent)
      ensures match turn
              case Ended => Inflate(old(View())) == Outcome([], true)
              case Rejected => Inflate(old(View())) == Outcome([], false)
              case Cleared =>
                && Decoding() && Fuel(View().rd) < old(Fuel(View().rd))
                && Inflate(View()) == Inflate(old(View()))
              case Stacked =>
                && Draining() && stackp > 0 && Fuel(View().rd) < old(Fuel(View().rd))
                && Rest() == Inflate(old(View()))
    {
      hide Pow2, Table.Valid, NextCode, MaxCode;
      GetCodeProgress(View());
      var code := GetCode();
      if code == -1 {
        return Ended;
      }
      if code == CLEAR && block {
        ClearTable();
        return Cleared;
      }
      if code >= freeEnt && (code > freeEnt || oldcode == -1) {
        return Rejected;
      }
      Push(code);
      return Stacked;
    }

    /** The string of incode is out: define its entry and go on. */
    method Finish()
      requires Draining() && stackp == 0
      modifies this`freeEnt, this`entries, this`oldcode, tabPrefix, tabSuffix
      ensures Decoding() && View().rd == old(View()).rd
      ensures Inflate(View()) == old(Rest())
    {
      hide Inflate, Table.Valid, Pow2, MaxCode;
      EmptyStack();
      NewEntry();
    }

    /** Deliver from the stack; true when the caller's buffer filled up first. */
    method Flush(sent: seq<Byte>, num: nat, ghost total: Outcome) returns (out: seq<Byte>, full: bool)
      requires Draining() && stackp > 0 && |sent| <= num && total == After(sent, Rest())
      modifies this`stackp, this`freeEnt, this`entries, this`oldcode, tabPrefix, tabSuffix
      ensures |out| <= num
      ensures full ==> Draining() && stackp > 0 && |out| == num && total == After(out, Rest()) && |total.bytes| > num
      ensures !full ==>
        && Decoding() && View().rd == old(View()).rd
        && total == After(out, Inflate(View()))
    {
      hide Inflate, Table.Valid, Pow2, MaxCode, Reversed, Decoder.Delivered, Decoder.Decoded, Reader.Valid;
      ghost var rest := Inflate(View().Delivered(incode));
      out := Drain(sent, num);
      assert total.bytes == (out + Reversed(stack[..stackp])) + rest.bytes;
      full := stackp > 0;
      if !full {
        Finish();
      }
    }

    /** A call that ends with what it has delivered. */
    ghost predicate Served(r: Option<seq<Byte>>, num: nat, total: Outcome)
      reads this, gbuf, tabPrefix, tabSuffix, stack
    {
      r == Answer(total, num) && (r.Some? ==> Valid() && Pending() == Left(total, num))
    }

    lemma ServedFull(out: seq<Byte>, num: nat, total: Outcome)
      requires state == Middle && Draining() && stackp > 0
      requires |out| == num && total == After(out, Rest()) && |total.bytes| > num
      ensures Served(Some(out), num, total)
    {
    }

    lemma ServedEnd(out: seq<Byte>, num: nat, total: Outcome)
      requires state == Eof && |out| <= num && total == Outcome(out, true)
      ensures Served(Some(out), num, total)
    {
      assert out[..|out|] == out && out[|out|..] == [];
    }

    /** Where the decoding loop stands, with some bytes sent already. */
    ghost predicate Under(sent: seq<Byte>, draining: bool, total: Outcome)
      reads this, gbuf, tabPrefix, tabSuffix, stack
    {
      && state == Middle
      && if draining then Draining() && stackp > 0 && total == After(sent, Rest())
         else Decoding() && total == After(sent, Inflate(View()))
    }

    /** The next code, between strings. */
    method Advance(sent: seq<Byte>, ghost total: Outcome) returns (turn: Turn)
      requires Under(sent, false, total)
      modifies this, gbuf, tabPrefix, stack
      ensures spent == old(spent) && state == Middle
      ensures turn == Ended ==> total == Outcome(sent, true)
      ensures turn == Rejected ==> total == Outcome(sent, false)
      ensures turn == Cleared || turn == Stacked ==>
        Under(sent, turn == Stacked, total) && Fuel(View().rd) < old(Fuel(View().rd))
    {
      hide Inflate, Fuel, Rest, Decoder.Valid, Tables, Accepts, MaxCode, Decoder.Decoded;
      turn := Next();
      assert sent + [] == sent;
    }

    /** Deliver from the stack; true when the caller's buffer filled up first. */
    method Empty(sent: seq<Byte>, num: nat, ghost total: Outcome) returns (out: seq<Byte>, full: bool)
      requires Under(sent, true, total) && |sent| <= num
      modifies this, tabPrefix, tabSuffix
      ensures spent == old(spent) && |out| <= num
      ensures full ==> Served(Some(out), num, total)
      ensures !full ==> Under(out, false, total) && View().rd == old(View().rd)
    {
      hide Inflate, Rest, Served, Decoder.Valid, Tables, Accepts, MaxCode, Decoder.Decoded;
      out, full := Flush(sent, num, total);
      if full {
        ServedFull(out, num, total);
      }
    }

    /** The decoding loop, entered in the middle of a string or between codes. */
    method Deliver(sent: seq<Byte>, num: nat, middle: bool, ghost total: Outcome) returns (r: Option<seq<Byte>>)
      requires |sent| <= num && Under(sent, middle, total)
      modifies this, gbuf, tabPrefix, tabSuffix, stack
      ensures Served(r, num, total)
      ensures spent == (old(spent) || r.None?)
    {
      assert Arrays();
      hide Under, Served, Fuel, Arrays;
      var out, draining := sent, middle;
      while true
        invariant |out| <= num && spent == old(spent) && Arrays() && Under(out, draining, total)
        decreases Fuel(View().rd), draining
      {
        if draining {
          var full;
          out, full := Empty(out, num, total);
          if full {
            return Some(out);
          }
          draining := false;
        } else {
          var turn := Advance(out, total);
          match turn
          case Ended =>
            state := Eof;
            ServedEnd(out, num, total);
            return Some(out);
          case Rejected =>
            spent := true;
            ServedNone(out, num, total);
            return None;
          case Cleared =>
          case Stacked =>
            draining := true;
        }
      }
    }

    lemma ServedNone(out: seq<Byte>, num: nat, total: Outcome)
      requires |out| <= num && total == Outcome(out, false)
      ensures Served(None, num, total)
    {
    }

    /** Take the first code as a character, whatever it is; b is the byte stored for it. */
    method FirstChar() returns (code: int, b: Byte)
      requires Decoding() && Zeroed() && oldcode == -1 && View().table == Table(Base(block), [])
      modifies this`nBits, this`maxcode, this`clearFlg, this`roffset, this`size, this`pre, this`file,
               this`finchar, this`oldcode, this`base, this`entries, gbuf
      ensures match old(View()).GetCode().1
              case None => code == -1
              case Some(c) =>
                var e := old(View()).GetCode().0;
                && code == c && b == ToByte(c) && Loading()
                && (if c < 256 then Decoding() && View() == FirstTaken(e, c)
                    else if c == CLEAR && block then Decoding() && View() == ClearTaken(e)
                    else oldcode == c && Shape() == e.(finchar := b))
    {
      assert Arrays();
      hide Decoding, Loading, Decoder.GetCode, ToByte;
      code := GetCode();
      b := 0;
      if code != -1 {
        b := ToByte(code);
        RememberFirst(code, b);
      }
    }

    /** finchar = oldcode = code. */
    method RememberFirst(code: nat, b: Byte)
      requires Decoding() && Zeroed() && entries == [] && base == Base(block) && oldcode == -1 && b == ToByte(code)
      modifies this`finchar, this`oldcode, this`base, this`entries
      ensures Loading()
      ensures if code < 256 then Decoding() && View() == FirstTaken(old(View()), code)
              else if code == CLEAR && block then Decoding() && View() == ClearTaken(old(View()))
              else oldcode == code && Shape() == old(View()).(finchar := b)
    {
      ghost var e := View();
      if code < 256 {
        ByteOfCode(code);
      }
      AnyFinchar(e, b);
      if code == CLEAR && block {
        ClearSlot();
      }
      hide Decoder.Valid, MaxCode, Tables, ToByte;
      finchar, oldcode := b, code;
      assert code < 256 ==> View() == FirstTaken(e, code);
      assert code == CLEAR && block ==> View() == ClearTaken(e);
    }

    /** The untouched slot of CLEAR is an entry for two zero bytes. */
    ghost method ClearSlot()
      requires Loading() && Zeroed() && entries == [] && block && base == FIRST
      modifies this`base, this`entries
      ensures Loading() && base == 256 && entries == [Entry(0, 0)] && ToByte(CLEAR) == 0
    {
      ghost var e := ClearTaken(Shape());
      base, entries := 256, [Entry(0, 0)];
      AnyFinchar(e, finchar);
      hide Decoder.Valid;
      assert Shape() == e.(last := None, finchar := finchar);
    }

    /** The first call of compress behind the header: the first code is taken as a character. */
    method BeginCompress(num: nat) returns (r: Option<seq<Byte>>)
      requires Decoding() && Zeroed() && oldcode == -1 && View().table == Table(Base(block), [])
      requires state == Middle && !spent && num > 0
      requires var c := View().GetCode().1; c.Some? ==> c.value < 256 || (c.value == CLEAR && block)
      modifies this, gbuf, tabPrefix, tabSuffix, stack
      ensures var (e, c) := old(View()).GetCode();
              match c
              case None => r == Some([]) && spent
              case Some(code) =>
                var total := if code < 256 then After([code], Inflate(FirstTaken(e, code)))
                             else After([0], Inflate(ClearTaken(e)));
                Served(r, num, total) && spent == r.None?
    {
      hide Inflate, Served, Decoder.Valid, MaxCode, Decoder.GetCode, Tables, Zeroed;
      var code, first := FirstChar();
      if code == -1 {
        spent := true;
        return Some([]);
      }
      if code < 256 {
        ByteOfCode(code);
      } else {
        assert ToByte(CLEAR) == 0;
      }
      r := Deliver([first], num, false, After([first], Inflate(View())));
    }

    /** The first call: the header, and for compress the first code. */
    method Begin(num: nat) returns (r: Option<seq<Byte>>)
      requires state == Start && Unread() && !spent && num > 0 && Determined(kind, pre + file)
      modifies this, gbuf, tabPrefix, tabSuffix, stack
      ensures var total := Delivers(kind, old(pre + file));
              if kind == Compress && total == Outcome([], true) then r == Some([]) && spent
              else Served(r, num, total) && spent == r.None?
    {
      hide Inflate, Served, Decoder.Valid, MaxCode, Opening, Tables, Decoder.GetCode, Zeroed;
      ghost var whole := pre + file;
      ghost var total := Delivers(kind, whole);
      state := Middle;
      var ok := ReadHeader();
      if !ok {
        spent := true;
        NoHeader(num);
        return None;
      }
      FreshTable(whole);
      stackp := 0;
      if kind == Gzip {
        EmptyPrefix(total);
        r := Deliver([], num, false, total);
      } else {
        r := BeginCompress(num);
      }
    }

    /** The string of a second code behind an odd first one goes on the stack. */
    method StackOdd(code: nat)
      requires Arrays() && Zeroed() && tabSuffix[0] == 0 && 256 <= oldcode < 0x10000
      requires code < 256 || code == freeEnt < 0x10000
      modifies this`incode, this`stackp, this`finchar, stack
      ensures stackp <= STACK_SIZE
      ensures Reversed(stack[..stackp]) == if code >= freeEnt then [0, 0, old(finchar)] else [tabSuffix[code]]
    {
      hide Reversed;
      EmptyStack();
      incode, stackp := code, 0;
      var c := code;
      if code >= freeEnt {
        Stack(finchar);
        c := oldcode;
        while c >= 256
          invariant c == oldcode || c == 0
          invariant stackp == if c == 0 then 2 else 1
          invariant Reversed(stack[..stackp]) == if c == 0 then [0, old(finchar)] else [old(finchar)]
          decreases c
        {
          Stack(tabSuffix[c]);
          c := tabPrefix[c];
        }
      }
      finchar := tabSuffix[c];
      Stack(finchar);
    }

    /** The header and an odd first code. */
    method OddFirst() returns (b: Byte)
      requires state == Start && Unread() && StartsOddly(pre + file)
      modifies this, gbuf, tabPrefix, tabSuffix
      ensures Loading() && Zeroed() && Shape() == OddTaken(old(pre + file)) && b == OddByte(old(pre + file))
      ensures state == Middle && 256 <= oldcode < 0x10000 && finchar == b && spent == old(spent)
    {
      hide Opening, Decoder.GetCode, Decoding, Loading, ToByte;
      ghost var whole := pre + file;
      state := Middle;
      var ok := ReadHeader();
      FreshTable(whole);
      SmallFirst(whole);
      assert Arrays();
      var first;
      first, b := FirstChar();
    }

    /** On behind a CLEAR. */
    method OddClear(b: Byte) returns (r: Option<seq<Byte>>)
      requires Loading() && block && state == Middle
      modifies this, gbuf, tabPrefix, tabSuffix, stack
      ensures r == Answer(After([b], Inflate(old(Shape()).Cleared())), 1)
    {
      assert Arrays();
      hide Inflate, Loading, Decoder.Cleared, Valid, Pending;
      ClearTable();
      r := Deliver([b], 1, false, After([b], Inflate(View())));
    }

    /** The first call of compress for one byte, on a file whose first code is neither a character nor CLEAR. */
    method ReadOneOddly() returns (r: Option<seq<Byte>>)
      requires state == Start && Unread() && !spent && kind == Compress && StartsOddly(pre + file)
      modifies this, gbuf, tabPrefix, tabSuffix, stack
      ensures r == OddAnswer(old(pre + file))
    {
      hide Opening, Decoder.GetCode, Inflate, Decoder.Valid, MaxCode, OddTaken, OddByte, Decoder.Cleared;
      var b := OddFirst();
      stackp := 0;
      var code := GetAnyCode();
      if code == -1 {
        state := Eof;
        return Some([b]);
      }
      if code == CLEAR && block {
        r := OddClear(b);
        return;
      }
      spent := true;
      if code > freeEnt {
        return None;
      }
      StackOdd(code);
      return Some([b]);
    }

    lemma SmallFirst(whole: seq<Byte>)
      requires FirstCode(whole).Some?
      ensures FirstCode(whole).value < 0x10000
    {
      PowersOfTwo();
      Pow2Monotone(Opening(whole).value.maxbits, BITS);
    }

    lemma FreshTable(whole: seq<Byte>)
      requires Opening(whole).Some?
      ensures Opening(whole).value.last == None
      ensures Opening(whole).value.table == Table(Base(Opening(whole).value.block), [])
    {
    }

    lemma NoHeader(num: nat)
      ensures Served(None, num, Outcome([], false))
    {
    }

    /**
     Deliver up to num bytes: exactly the next ones. None is the -1 of a broken stream; it comes
     as soon as a call reaches the break, and what that call had decoded is lost.
     */
    method ZRead(num: nat) returns (r: Option<seq<Byte>>)
      requires Valid() && !spent
      modifies this, gbuf, tabPrefix, tabSuffix, stack
      ensures num == 0 ==> r == Some([]) && Valid() && !spent && Pending() == old(Pending())
      ensures num > 0 ==>
        var total := old(Pending());
        if kind == Compress && old(state) == Start && total == Outcome([], true) then r == Some([]) && spent
        else Served(r, num, total) && spent == r.None?
    {
      if num == 0 {
        return Some([]);
      }
      hide Served, Decompressed, Rest, Decoding;
      match state
      case Start =>
        r := Begin(num);
      case Middle =>
        EmptyPrefix(Rest());
        r := Deliver([], num, true, Rest());
      case Eof =>
        r := Some([]);
        ServedEnd([], num, Outcome([], true));
    }
  }

  lemma EmptyPrefix(o: Outcome)
    ensures After([], o) == o
  {
  }
}
