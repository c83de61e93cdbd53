/**
 Decompression as a function of the file: what `zread` delivers in all, independent of how the
 output is cut into calls. Both decoders of the repository run this loop.
 */
module LzwDecoder {
  import opened Bits
  import opened Basics
  import opened CodeBuffer
  import opened CodeStream
  import opened LzwTable

  /** Bytes delivered before the stream ended, and whether it ended cleanly. */
  datatype Outcome = Outcome(bytes: seq<Byte>, ok: bool)

  function After(s: seq<Byte>, o: Outcome): Outcome {
    Outcome(s + o.bytes, o.ok)
  }

  function Base(block: bool): nat {
    if block then FIRST else 256
  }

  /**
   The state at the head of the decoding loop; `last` is oldcode, None where the source has -1. The
   table starts at 256 if CLEAR codes are not in use, or if the decoder of compress took a CLEAR for
   a character and so uses the slot of that code.
   */
  datatype Decoder = Decoder(
    maxbits: nat, block: bool, table: Table, last: Option<nat>, finchar: Byte, clear: bool, rd: Reader)
  {
    ghost predicate Valid() {
      && 12 <= maxbits <= BITS
      && table.Valid() && (table.base == Base(block) || (block && table.base == 256 && table.entries != []))
      && table.Free() <= Pow2(maxbits)
      && (last.Some? ==> table.Known(last.value))
      && rd.Valid() && rd.width <= maxbits
    }

    /** The width change that getcode makes before it loads. */
    function Switch(): (w: Option<nat>)
      requires Valid()
      ensures w.Some? ==> LegalWidth(w.value) && w.value <= maxbits
    {
      if clear then Some(INIT_BITS) else Widen(rd.width, maxbits, table.Free())
    }

    /** `getcode`. */
    function GetCode(): (r: (Decoder, Option<nat>))
      requires Valid()
      ensures r.0.Valid()
      ensures r.1.Some? ==> r.1.value < Pow2(maxbits)
    {
      var (rd', code) := NextCode(rd, Switch());
      Pow2Monotone(rd'.width, maxbits);
      (this.(rd := rd', clear := false), code)
    }

    /** After a CLEAR code the table is empty and the next code starts a new buffer. */
    function Cleared(): Decoder {
      this.(table := Table(FIRST, []), last := None, clear := true)
    }

    /** A code the decoder refuses: neither known nor the one about to be defined. */
    predicate Rejects(code: nat) {
      code > table.Free() || (code == table.Free() && last.None?)
    }

    /** The string of an accepted code; the code about to be defined repeats the last string. */
    function Decoded(code: nat): (s: seq<Byte>)
      requires Valid() && !Rejects(code) && !(code == CLEAR && block)
      ensures 1 <= |s|
    {
      if code == table.Free() then table.Expand(last.value) + [finchar] else table.Expand(code)
    }

    /** The state once the string of an accepted code has been delivered. */
    function Delivered(code: nat): (d: Decoder)
      requires Valid() && !Rejects(code) && !(code == CLEAR && block) && code < Pow2(maxbits)
      ensures d.Valid()
    {
      var fin := Decoded(code)[0];
      var t := if table.Free() < Pow2(maxbits) && last.Some? then table.Add(last.value, fin) else table;
      this.(table := t, last := Some(code), finchar := fin)
    }
  }

  /** Codes left in the loaded buffer and bytes left in the file: every code read uses some up. */
  function Fuel(rd: Reader): nat {
    8 * |rd.rest| + if rd.roffset < rd.size then rd.size - rd.roffset else 0
  }

  lemma GetCodeProgress(d: Decoder)
    requires d.Valid()
    ensures d.GetCode().1.Some? ==> Fuel(d.GetCode().0.rd) < Fuel(d.rd)
  {
  }

  /** Everything the decoding loop delivers from a given state. */
  function Inflate(d: Decoder): Outcome
    requires d.Valid()
    decreases Fuel(d.rd)
  {
    GetCodeProgress(d);
    var (e, c) := d.GetCode();
    match c
    case None => Outcome([], true)
    case Some(code) =>
      if code == CLEAR && d.block then Inflate(e.Cleared())
      else if e.Rejects(code) then Outcome([], false)
      else After(e.Decoded(code), Inflate(e.Delivered(code)))
  }

  /** The state behind the next code; None where the stream ends or breaks. */
  function Turned(d: Decoder): (r: Option<Decoder>)
    requires d.Valid()
    ensures r.Some? ==> r.value.Valid()
  {
    PowersOfTwo();
    Pow2Monotone(12, d.maxbits);
    var (e, c) := d.GetCode();
    match c
    case None => None
    case Some(code) =>
      if code == CLEAR && d.block then Some(e.Cleared())
      else if e.Rejects(code) then None
      else Some(e.Delivered(code))
  }

  /** The decoder behind n codes. */
  function Turns(d: Decoder, n: nat): (r: Option<Decoder>)
    requires d.Valid()
    ensures r.Some? ==> r.value.Valid()
    decreases n
  {
    if n == 0 then Some(d) else
      match Turned(d)
      case None => None
      case Some(e) => Turns(e, n - 1)
  }

  /** What a call for num bytes returns of what is left to deliver: None is the -1 of a broken stream. */
  function Answer(o: Outcome, num: nat): Option<seq<Byte>> {
    if o.ok || |o.bytes| > num then Some(o.bytes[..Min(num, |o.bytes|)]) else None
  }

  /** What is left behind a call. */
  function Left(o: Outcome, num: nat): Outcome {
    Outcome(o.bytes[Min(num, |o.bytes|)..], o.ok)
  }

  /** No string of a table, nor the string about to be defined, is longer than the code space allows. */
  lemma DecodedFits(d: Decoder, code: nat)
    requires d.Valid() && !d.Rejects(code) && !(code == CLEAR && d.block) && code < Pow2(d.maxbits)
    ensures |d.Decoded(code)| <= Pow2(d.maxbits) - d.table.base + 1
  {
  }

  /** What a code leads to does not depend on finchar once its string is on the stack. */
  lemma FincharSpent(d: Decoder, f: Byte, code: nat)
    requires d.Valid() && !d.Rejects(code) && !(code == CLEAR && d.block) && code < Pow2(d.maxbits)
    ensures var e := d.(finchar := f);
            && e.Valid() && !e.Rejects(code)
            && e.Decoded(code)[0] == d.Decoded(code)[0]
            && e.Delivered(code) == d.Delivered(code)
  {
  }
}
