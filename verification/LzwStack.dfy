/**
 How much of its stack the decoder needs: a bound for every file, and a file without CLEAR that
 needs all of it.
 */
module LzwStack {
  import opened Basics
  import opened Bits
  import opened CodeBuffer
  import opened CodeStream
  import opened LzwTable
  import opened LzwDecoder
  import opened LzwFile

  /** The most bytes that are on the stack at once while the rest of a file is decoded. */
  function Highest(d: Decoder): nat
    requires d.Valid()
    decreases Fuel(d.rd)
  {
    GetCodeProgress(d);
    var (e, c) := d.GetCode();
    match c
    case None => 0
    case Some(code) =>
      if code == CLEAR && d.block then Highest(e.Cleared())
      else if e.Rejects(code) then 0
      else
        var here, later := |e.Decoded(code)|, Highest(e.Delivered(code));
        if here < later then later else here
  }

  function HighestOf(file: seq<Byte>): nat {
    match Opening(file)
    case None => 0
    case Some(d) => Highest(d)
  }

  lemma {:induction false} HighestFits(d: Decoder)
    requires d.Valid() && d.table.base == Base(d.block)
    ensures Highest(d) <= Pow2(d.maxbits) - Base(d.block) + 1
    decreases Fuel(d.rd)
  {
    PowersOfTwo();
    Pow2Monotone(12, d.maxbits);
    hide Pow2, Reader.Valid;
    GetCodeProgress(d);
    var (e, c) := d.GetCode();
    if c.Some? {
      var code := c.value;
      if code == CLEAR && d.block {
        HighestFits(e.Cleared());
      } else if !e.Rejects(code) {
        DecodedFits(e, code);
        HighestFits(e.Delivered(code));
      }
    }
  }

  // ----- A file on which every code is the one about to be defined

  const LETTER: Byte := 97

  /** The codes behind the first k: a letter, and then 256, 257 and so on to the last of the code space. */
  function Climb(maxbits: nat, width: nat, k: nat): seq<Emit>
    decreases Pow2(maxbits) - k
  {
    if 255 + k >= Pow2(maxbits) then [] else
      var e := Emit(if k == 0 then LETTER else 255 + k, Widen(width, maxbits, 256 + k));
      [e] + Climb(maxbits, NextWidth(width, e), k + 1)
  }

  /** A width at which k codes have been read. */
  ghost predicate Wide(maxbits: nat, width: nat, k: nat) {
    && 12 <= maxbits <= BITS && LegalWidth(width) && width <= maxbits
    && 255 + k <= MaxCode(width, maxbits)
  }

  lemma WidensInTime(maxbits: nat, width: nat, k: nat)
    requires Wide(maxbits, width, k) && 255 + k < Pow2(maxbits)
    ensures var w := Widen(width, maxbits, 256 + k);
            && (w.Some? ==> LegalWidth(w.value))
            && Wide(maxbits, if w.Some? then w.value else width, k + 1)
  {
    assert Pow2(width + 1) == 2 * Pow2(width);
    hide Pow2;
    if 256 + k > MaxCode(width, maxbits) {
      assert width < maxbits && 256 + k == Pow2(width);
    }
  }

  lemma {:induction false} ClimbCarried(maxbits: nat, width: nat, k: nat)
    requires Wide(maxbits, width, k)
    ensures AllCarried(width, Climb(maxbits, width, k))
    decreases Pow2(maxbits) - k
  {
    hide Pow2;
    if 255 + k < Pow2(maxbits) {
      WidensInTime(maxbits, width, k);
      var e := Emit(if k == 0 then LETTER else 255 + k, Widen(width, maxbits, 256 + k));
      ClimbCarried(maxbits, NextWidth(width, e), k + 1);
      assert Climb(maxbits, width, k)[1..] == Climb(maxbits, NextWidth(width, e), k + 1);
    }
  }

  /** The decoder after k codes: the last string has k bytes, and the next code is about to be defined. */
  ghost predicate Climbed(d: Decoder, k: nat) {
    && d.Valid() && !d.block && !d.clear
    && if k == 0 then d.last.None? && d.table.entries == []
       else d.table.Free() == 255 + k && d.last.Some? && |d.table.Expand(d.last.value)| == k
  }

  /** The next code of the climb: the string grows by one byte. */
  lemma ClimbStep(e: Decoder, k: nat)
    requires Climbed(e, k) && 255 + k < Pow2(e.maxbits)
    ensures var code := if k == 0 then LETTER else 255 + k;
            && !e.Rejects(code) && code < Pow2(e.maxbits) && |e.Decoded(code)| == k + 1
            && Climbed(e.Delivered(code), k + 1)
            && e.Delivered(code).rd == e.rd && e.Delivered(code).maxbits == e.maxbits
  {
    PowersOfTwo();
    Pow2Monotone(12, e.maxbits);
    hide Pow2, Reader.Valid;
    if k > 0 {
      ExpandNew(e.table, e.last.value, e.Decoded(255 + k)[0]);
    }
  }

  /** Before a code of the climb, with the rest of it still to be read. */
  ghost predicate Climbing(d: Decoder, p: Packer, k: nat) {
    && Climbed(d, k) && 255 + k < Pow2(d.maxbits) && Wide(d.maxbits, p.width, k)
    && Aligned(p, Climb(d.maxbits, p.width, k), d.rd, d.Switch())
  }

  lemma ClimbTurn(d: Decoder, p: Packer, k: nat) returns (d': Decoder, p': Packer)
    requires Climbing(d, p, k)
    ensures d.Valid() && d'.Valid() && d'.maxbits == d.maxbits
    ensures Highest(d) >= k + 1 && Highest(d) >= Highest(d')
    ensures 256 + k < Pow2(d.maxbits) ==> Climbing(d', p', k + 1)
  {
    var es := Climb(d.maxbits, p.width, k);
    WidensInTime(d.maxbits, p.width, k);
    assert es != [] && d.Valid();
    hide Pow2, Reader.Valid, Table.Valid, MaxCode, Ahead, AllCarried, Packer.Valid, Climbed, Put, Aligned;
    ReadNext(p, es, d.rd, d.Switch());
    Reading(d, p, es, k);
    var e := d.GetCode().0;
    ClimbStep(e, k);
    d', p' := e.Delivered(es[0].code), Put(p, es[0]);
    Widening(d', k + 1);
    assert es[1..] == Climb(d.maxbits, p'.width, k + 1);
  }

  lemma {:induction false} Climbs(d: Decoder, p: Packer, k: nat)
    requires Climbing(d, p, k)
    ensures d.Valid() && Highest(d) >= Pow2(d.maxbits) - 255
    decreases Pow2(d.maxbits) - k
  {
    assert 255 + k < Pow2(d.maxbits);
    hide Climbing, Highest, Decoder.Valid, Pow2;
    var d', p' := ClimbTurn(d, p, k);
    if 256 + k < Pow2(d.maxbits) {
      Climbs(d', p', k + 1);
    }
  }

  lemma Reading(d: Decoder, p: Packer, es: seq<Emit>, k: nat)
    requires Climbed(d, k) && es != [] && Aligned(p, es, d.rd, d.Switch())
    ensures var e := d.GetCode().0;
            Climbed(e, k) && !e.block && e.Valid() && e.rd.width == p.width
  {
    hide Pow2, Ahead, AllCarried;
    ReadNext(p, es, d.rd, d.Switch());
  }

  lemma Widening(d: Decoder, k: nat)
    requires Climbed(d, k) && k > 0
    ensures d.Switch() == Widen(d.rd.width, d.maxbits, 255 + k)
  {
  }

  lemma Opens(head: Byte, codes: seq<Byte>)
    requires 12 <= head % 32 <= BITS
    ensures var block := head >= BLOCK_MASK;
            Opening(MAGIC + [head] + codes) ==
            Some(Decoder(head % 32, block, Table(Base(block), []), None, 0, false, Opened(ZERO_BUFFER, codes)))
  {
    var file := MAGIC + [head] + codes;
    assert file[..2] == MAGIC && file[2] == head && file[3..] == codes;
  }

  /** Without CLEAR there is a file that needs one byte more than 2^maxbits - 256. */
  lemma ClimbNeedsMore(head: Byte) returns (codes: seq<Byte>)
    requires 12 <= head % 32 <= BITS && head < BLOCK_MASK
    ensures HighestOf(MAGIC + [head] + codes) == Pow2(head % 32) - 255
  {
    hide Highest, Aligned, Climb, Ahead, Climbed, Wide;
    var m := head % 32;
    var p := Packer(INIT_BITS, 0, ZERO_BUFFER, []);
    assert Wide(m, INIT_BITS, 0) && 255 < Pow2(m) by {
      WideAtFirst(m);
    }
    ClimbCarried(m, INIT_BITS, 0);
    var es := Climb(m, INIT_BITS, 0);
    codes := Ahead(p, es);
    Opens(head, codes);
    var d := Opening(MAGIC + [head] + codes).value;
    assert Climbed(d, 0) && Aligned(p, es, d.rd, d.Switch()) by {
      ClimbOpens(d, p, es);
    }
    Climbs(d, p, 0);
    HighestFits(d);
  }

  lemma WideAtFirst(maxbits: nat)
    requires 12 <= maxbits <= BITS
    ensures Wide(maxbits, INIT_BITS, 0) && 255 < Pow2(maxbits)
  {
    PowersOfTwo();
    Pow2Monotone(12, maxbits);
  }

  lemma ClimbOpens(d: Decoder, p: Packer, es: seq<Emit>)
    requires d.Valid() && AllCarried(INIT_BITS, es) && p == Packer(INIT_BITS, 0, ZERO_BUFFER, [])
    requires d == Decoder(d.maxbits, false, Table(256, []), None, 0, false, Opened(ZERO_BUFFER, Ahead(p, es)))
    ensures Climbed(d, 0) && Aligned(p, es, d.rd, d.Switch())
  {
    PowersOfTwo();
    Pow2Monotone(12, d.maxbits);
    hide Ahead, AllCarried;
  }

  /**
   The stack never holds more than 2^maxbits - 256 bytes, on any file with a given header, exactly if
   the header asks for CLEAR codes.
   */
  lemma StackBoundExactly(head: Byte)
    requires 12 <= head % 32 <= BITS
    ensures (forall codes :: HighestOf(MAGIC + [head] + codes) <= Pow2(head % 32) - 256) <==> head >= BLOCK_MASK
  {
    hide Highest, Pow2;
    if head < BLOCK_MASK {
      var codes := ClimbNeedsMore(head);
      assert HighestOf(MAGIC + [head] + codes) > Pow2(head % 32) - 256;
    } else {
      forall codes: seq<Byte> ensures HighestOf(MAGIC + [head] + codes) <= Pow2(head % 32) - 256 {
        Opens(head, codes);
        HighestFits(Opening(MAGIC + [head] + codes).value);
      }
    }
  }
}
