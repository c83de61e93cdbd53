/**
 Writing and reading a whole stream of codes. A `Emit` is one call of `output`: the code and,
 when the call ends by flushing the buffer and changing the width, the new width. What decides
 the change (a full code space or a CLEAR) is the dictionary's business; here it is arbitrary.
 */
module CodeStream {
  import opened Bits
  import opened Basics
  import opened CodeBuffer

  datatype Emit = Emit(code: nat, switch: Option<nat>)

  /** A bit offset at which one of the eight codes of a buffer starts. */
  predicate IsSlot(off: nat, w: nat) {
    || off == 0 || off == w || off == 2 * w || off == 3 * w
    || off == 4 * w || off == 5 * w || off == 6 * w || off == 7 * w
  }

  /** The packing fields of the writer and the file written so far. */
  datatype Packer = Packer(width: nat, offset: nat, buf: Buffer, file: seq<Byte>) {
    predicate Valid() {
      LegalWidth(width) && IsSlot(offset, width)
    }
  }

  /** An emission the packer can carry: the code fits the width, and any new width is legal. */
  predicate Carries(width: nat, e: Emit) {
    e.code < Pow2(width) && (e.switch.Some? ==> LegalWidth(e.switch.value))
  }

  function NextWidth(width: nat, e: Emit): nat {
    if e.switch.Some? then e.switch.value else width
  }

  ghost predicate AllCarried(width: nat, es: seq<Emit>)
    decreases |es|
  {
    es != [] ==> Carries(width, es[0]) && AllCarried(NextWidth(width, es[0]), es[1..])
  }

  /** `output(code)`: store the code, write the buffer when it is full or when the width changes. */
  function Put(p: Packer, e: Emit): (r: Packer)
    requires p.Valid()
    ensures (e.switch.Some? ==> LegalWidth(e.switch.value)) ==> r.Valid()
    ensures r.width == NextWidth(p.width, e) && |r.file| >= |p.file|
  {
    var buf := PutCode(p.buf, p.offset, p.width, e.code);
    var offset := p.offset + p.width;
    if e.switch.Some? then
      Packer(e.switch.value, 0, buf, p.file + buf[..p.width])
    else if offset == 8 * p.width then
      Packer(p.width, 0, buf, p.file + buf[..p.width])
    else
      Packer(p.width, offset, buf, p.file)
  }

  /** `output(-1)`: write what is left of the buffer, cut to whole bytes. */
  function Finish(p: Packer): seq<Byte>
    requires p.Valid()
  {
    p.file + p.buf[..(p.offset + 7) / 8]
  }

  function PutAll(p: Packer, es: seq<Emit>): Packer
    requires p.Valid() && AllCarried(p.width, es)
    ensures PutAll(p, es).Valid()
    decreases |es|
  {
    if es == [] then p else PutAll(Put(p, es[0]), es[1..])
  }

  /** The bytes still to be written by a packer that has es ahead of it, seen from the current buffer's start. */
  ghost function Ahead(p: Packer, es: seq<Emit>): seq<Byte>
    requires p.Valid() && AllCarried(p.width, es)
    decreases |es|
  {
    if es == [] then
      p.buf[..(p.offset + 7) / 8]
    else
      var q := Put(p, es[0]);
      if q.offset == 0 then q.buf[..p.width] + Ahead(q, es[1..]) else Ahead(q, es[1..])
  }

  lemma {:induction false} AheadIsWritten(p: Packer, es: seq<Emit>)
    requires p.Valid() && AllCarried(p.width, es)
    ensures Finish(PutAll(p, es)) == p.file + Ahead(p, es)
    decreases |es|
  {
    hide PutCode, IsSlot;
    if es != [] {
      var q := Put(p, es[0]);
      AheadIsWritten(q, es[1..]);
      if q.offset == 0 {
        assert q.file == p.file + q.buf[..p.width];
      }
    }
  }

  /** What was stored in the buffer so far is what will be written first. */
  lemma {:induction false} AheadKeepsStored(p: Packer, es: seq<Emit>, j: nat)
    requires p.Valid() && AllCarried(p.width, es)
    requires j < p.offset
    ensures (p.offset + 7) / 8 <= |Ahead(p, es)|
    ensures BitAt(Ahead(p, es), j) == BitAt(p.buf, j)
    decreases |es|
  {
    if es == [] {
      assert j < 8 * ((p.offset + 7) / 8);
    } else {
      var q := Put(p, es[0]);
      PutCodeBits(p.buf, p.offset, p.width, es[0].code, j);
      if q.offset == 0 {
        assert BitAt(q.buf[..p.width] + Ahead(q, es[1..]), j) == BitAt(q.buf, j);
      } else {
        AheadKeepsStored(q, es[1..], j);
      }
    }
  }

  /** The next code's bits stand at the current offset of what will be written. */
  lemma AheadHoldsCode(p: Packer, es: seq<Emit>, j: nat)
    requires p.Valid() && AllCarried(p.width, es) && es != []
    requires p.offset <= j < p.offset + p.width
    ensures j < 8 * |Ahead(p, es)| && p.offset + p.width <= 8 * |Ahead(p, es)|
    ensures BitAt(Ahead(p, es), j) == Bit(es[0].code, j - p.offset)
  {
    var q := Put(p, es[0]);
    PutCodeBits(p.buf, p.offset, p.width, es[0].code, j);
    if q.offset == 0 {
      assert BitAt(q.buf[..p.width] + Ahead(q, es[1..]), j) == BitAt(q.buf, j);
    } else {
      AheadKeepsStored(q, es[1..], j);
    }
  }

  /** The read side of the state: the loaded buffer, the load position, and the unread file. */
  datatype Reader = Reader(width: nat, roffset: nat, size: int, gbuf: Buffer, rest: seq<Byte>) {
    /** Loads left in the buffer are inside it. */
    predicate Valid() {
      && LegalWidth(width)
      && size <= 7 * width + 1
      && (roffset < size ==> IsSlot(roffset, width))
    }
  }

  /** Load a new buffer of codes of width w: at most w bytes, fewer at the end of the file. */
  function Refill(u: Reader, w: nat): (r: Option<Reader>)
    requires LegalWidth(w)
    ensures r.None? <==> u.rest == []
    ensures r.Some? ==> r.value.Valid() && r.value.roffset == 0 && r.value.width == w
  {
    var n := if |u.rest| < w then |u.rest| else w;
    if n == 0 then None else
      Some(Reader(w, 0, 8 * n - (w - 1), u.rest[..n] + u.gbuf[n..], u.rest[n..]))
  }

  /** `getcode`, given whether the dictionary demands a new width: a code, or None at the end of the file. */
  function NextCode(u: Reader, switch: Option<nat>): (r: (Reader, Option<nat>))
    requires u.Valid() && (switch.Some? ==> LegalWidth(switch.value))
    ensures r.0.Valid()
    ensures r.1.Some? ==> r.1.value < Pow2(r.0.width)
  {
    var w := if switch.Some? then switch.value else u.width;
    if switch.Some? || u.roffset >= u.size then
      match Refill(u, w)
      case None => (u.(width := w, size := 0), None)
      case Some(v) => Load(v)
    else
      Load(u)
  }

  function Load(u: Reader): (r: (Reader, Option<nat>))
    requires u.Valid() && IsSlot(u.roffset, u.width)
    ensures r.0.Valid()
    ensures r.1.Some? && r.1.value < Pow2(r.0.width)
  {
    ExtractFits(u.gbuf, u.roffset, u.width);
    (u.(roffset := u.roffset + u.width), Some(ExtractCode(u.gbuf, u.roffset, u.width)))
  }

  /** The reader holds, loaded or unread, exactly the bytes that the packer has ahead. */
  ghost predicate Loaded(p: Packer, es: seq<Emit>, u: Reader)
    requires p.Valid() && AllCarried(p.width, es)
  {
    var ahead := Ahead(p, es);
    var n := Min(|ahead|, p.width);
    && u.width == p.width
    && u.roffset == p.offset
    && u.size == 8 * n - (p.width - 1)
    && u.gbuf[..n] == ahead[..n]
    && u.rest == ahead[n..]
  }

  /** Writer and reader stand before the same code, the reader about to be told `switch`. */
  ghost predicate Aligned(p: Packer, es: seq<Emit>, u: Reader, switch: Option<nat>) {
    && p.Valid() && AllCarried(p.width, es) && u.Valid()
    && (if switch.Some? then switch.value == p.width && p.offset == 0 else u.width == p.width)
    && if p.offset == 0
       then (switch.Some? || u.roffset >= u.size) && u.rest == Ahead(p, es)
       else Loaded(p, es, u)
  }

  lemma RefillLoads(p: Packer, es: seq<Emit>, u: Reader)
    requires p.Valid() && AllCarried(p.width, es) && es != []
    requires p.offset == 0 && u.rest == Ahead(p, es)
    ensures Refill(u, p.width).Some? && Loaded(p, es, Refill(u, p.width).value)
  {
    AheadHoldsCode(p, es, p.offset);
  }

  lemma LoadedBit(p: Packer, es: seq<Emit>, u: Reader, j: nat)
    requires p.Valid() && AllCarried(p.width, es) && es != []
    requires u.Valid() && Loaded(p, es, u)
    requires p.offset <= j < p.offset + p.width
    ensures BitAt(u.gbuf, j) == Bit(es[0].code, j - p.offset)
  {
    var ahead := Ahead(p, es);
    var n := Min(|ahead|, p.width);
    AheadHoldsCode(p, es, j);
    assert j / 8 < n;
    assert u.gbuf[j / 8] == u.gbuf[..n][j / 8] == ahead[..n][j / 8] == ahead[j / 8];
  }

  /** A load from a buffer that holds what was written returns the next code written. */
  lemma LoadFindsCode(p: Packer, es: seq<Emit>, u: Reader)
    requires p.Valid() && AllCarried(p.width, es) && es != []
    requires u.Valid() && Loaded(p, es, u)
    ensures Load(u).1 == Some(es[0].code)
  {
    forall j: nat | p.offset <= j < p.offset + p.width
      ensures BitAt(u.gbuf, j) == Bit(es[0].code, j - p.offset)
    {
      LoadedBit(p, es, u, j);
    }
    ExtractFinds(u.gbuf, p.offset, p.width, es[0].code);
  }

  lemma LoadKeepsAligned(p: Packer, es: seq<Emit>, u: Reader)
    requires p.Valid() && AllCarried(p.width, es) && es != []
    requires u.Valid() && Loaded(p, es, u)
    ensures Aligned(Put(p, es[0]), es[1..], Load(u).0, es[0].switch)
  {
    var q := Put(p, es[0]);
    if q.offset == 0 {
      assert Ahead(p, es)[p.width..] == Ahead(q, es[1..]);
    }
  }

  /** Reading one code from a stream keeps writer and reader at the same place. */
  lemma ReadNext(p: Packer, es: seq<Emit>, u: Reader, switch: Option<nat>)
    requires Aligned(p, es, u, switch) && es != []
    ensures NextCode(u, switch).1 == Some(es[0].code)
    ensures Aligned(Put(p, es[0]), es[1..], NextCode(u, switch).0, es[0].switch)
  {
    if p.offset == 0 {
      RefillLoads(p, es, u);
      LoadFindsCode(p, es, Refill(u, p.width).value);
      LoadKeepsAligned(p, es, Refill(u, p.width).value);
    } else {
      AheadHoldsCode(p, es, p.offset);
      LoadFindsCode(p, es, u);
      LoadKeepsAligned(p, es, u);
    }
  }

  /** After the last code the reader finds the end of the file, whatever padding was written. */
  lemma ReadEnd(p: Packer, u: Reader, switch: Option<nat>)
    requires Aligned(p, [], u, switch)
    ensures NextCode(u, switch).1 == None
  {
  }

  /** Call `getcode` once per emission and once more, announcing each width change where the writer made it. */
  ghost function ReadAll(u: Reader, switch: Option<nat>, width: nat, es: seq<Emit>): seq<Option<nat>>
    requires u.Valid() && (switch.Some? ==> LegalWidth(switch.value)) && AllCarried(width, es)
    decreases |es|
  {
    var (v, c) := NextCode(u, switch);
    if es == [] then [c] else [c] + ReadAll(v, es[0].switch, NextWidth(width, es[0]), es[1..])
  }

  /** The codes of a stream, and then the end of the file. */
  ghost function CodesThenEnd(es: seq<Emit>): seq<Option<nat>> {
    if es == [] then [None] else [Some(es[0].code)] + CodesThenEnd(es[1..])
  }

  lemma {:induction false} ReadsWhatIsAhead(p: Packer, es: seq<Emit>, u: Reader, switch: Option<nat>)
    requires Aligned(p, es, u, switch)
    ensures ReadAll(u, switch, p.width, es) == CodesThenEnd(es)
    decreases |es|
  {
    if es == [] {
      ReadEnd(p, u, switch);
    } else {
      ReadNext(p, es, u, switch);
      ReadsWhatIsAhead(Put(p, es[0]), es[1..], NextCode(u, switch).0, es[0].switch);
    }
  }

  /** The reader of a freshly opened file, whatever its buffer held. */
  function Opened(gbuf: Buffer, file: seq<Byte>): Reader {
    Reader(INIT_BITS, 0, 0, gbuf, file)
  }

  /**
   For every sequence of codes and width changes, repeated `getcode` over what repeated `output`
   wrote returns exactly the codes and then the end of the file, whatever the stale contents
   of either buffer.
   */
  lemma PackingInverts(buf: Buffer, gbuf: Buffer, es: seq<Emit>)
    requires AllCarried(INIT_BITS, es)
    ensures var file := Finish(PutAll(Packer(INIT_BITS, 0, buf, []), es));
            ReadAll(Opened(gbuf, file), None, INIT_BITS, es) == CodesThenEnd(es)
  {
    var p := Packer(INIT_BITS, 0, buf, []);
    AheadIsWritten(p, es);
    ReadsWhatIsAhead(p, es, Opened(gbuf, Finish(PutAll(p, es))), None);
  }
}
