/**
 Compression as a function of the input: the emissions that `zwrite` and `zclose` make, with the
 moments at which a full table is cleared left open.
 */
module LzwEncoder {
  import opened Bits
  import opened Basics
  import opened CodeBuffer
  import opened CodeStream
  import opened LzwTable

  /** The dictionary side of the writer: the code of the string matched so far, the table, the width. */
  datatype Coder = Coder(maxbits: nat, ent: nat, table: Table, width: nat) {
    ghost predicate Valid() {
      && 1 <= maxbits <= BITS
      && table.Valid() && table.base == FIRST
      && table.Known(ent)
      && LegalWidth(width)
      && table.Free() <= Pow2(width)
      && (table.entries != [] ==> table.Free() <= Pow2(maxbits))
    }

    /** `output(ent)`: widen afterwards when the next entry would not fit. */
    function Out(): (e: Emit)
      requires Valid()
      ensures Carries(width, e)
    {
      WidenLegal();
      Emit(ent, Widen(width, maxbits, table.Free()))
    }

    lemma WidenLegal()
      requires Valid()
      ensures var w := Widen(width, maxbits, table.Free());
              w.Some? ==> LegalWidth(w.value) && table.Free() < Pow2(w.value)
    {
      if table.Free() > MaxCode(width, maxbits) {
        assert width < BITS by {
          if width >= maxbits {
            Pow2Monotone(maxbits, width);
            PowersOfTwo();
          }
        }
      }
    }

    /** What is left after the code of the matched string went out and c starts a new string. */
    function Restarted(c: Byte): (k: Coder)
      requires Valid()
      ensures k.Valid() && k.ent == c
    {
      WidenLegal();
      PowersOfTwo();
      var w := NextWidth(width, Out());
      if table.Free() < Pow2(maxbits)
      then Coder(maxbits, c, table.Add(ent, c), w)
      else Coder(maxbits, c, table, w)
    }

    /** After a CLEAR went out. */
    function Cleared(): (k: Coder)
      requires Valid() && ent < 256
      ensures k.Valid()
    {
      PowersOfTwo();
      Coder(maxbits, ent, Table(FIRST, []), INIT_BITS)
    }
  }

  /** The CLEAR code goes out at the current width; the buffer is flushed and the width reset. */
  const CLEAR_OUT: Emit := Emit(CLEAR, Some(INIT_BITS))

  /** What one input byte does: the new state and the codes that go out. */
  datatype Effect = Effect(next: Coder, emits: seq<Emit>)

  /** One turn of the loop of `zwrite`; clear is what `cl_block` would decide if it is asked. */
  function Step(k: Coder, c: Byte, clear: bool): (r: Effect)
    requires k.Valid()
    ensures r.next.Valid() && r.next.maxbits == k.maxbits
    ensures AllCarried(k.width, r.emits) && r.next.width == WidthAfter(k.width, r.emits)
  {
    match Lookup(k.table.entries, Entry(k.ent, c))
    case Some(i) => Effect(k.(ent := FIRST + i), [])
    case None =>
      var next := k.Restarted(c);
      if k.table.Free() >= Pow2(k.maxbits) && clear then
        ClearCarried(next);
        assert [k.Out(), CLEAR_OUT][1..] == [CLEAR_OUT];
        Effect(next.Cleared(), [k.Out(), CLEAR_OUT])
      else
        Effect(next, [k.Out()])
  }

  lemma ClearCarried(k: Coder)
    requires k.Valid()
    ensures AllCarried(k.width, [CLEAR_OUT]) && WidthAfter(k.width, [CLEAR_OUT]) == INIT_BITS
  {
    PowersOfTwo();
    Pow2Monotone(INIT_BITS, k.width);
  }

  function WidthAfter(width: nat, es: seq<Emit>): nat
    decreases |es|
  {
    if es == [] then width else WidthAfter(NextWidth(width, es[0]), es[1..])
  }

  /** All that goes out for the rest of the input and the close; clears[i] is the decision at byte i. */
  function Script(k: Coder, data: seq<Byte>, clears: seq<bool>): (es: seq<Emit>)
    requires k.Valid() && |data| == |clears|
    ensures AllCarried(k.width, es)
    decreases |data|
  {
    if data == [] then
      [k.Out()]
    else
      var r := Step(k, data[0], clears[0]);
      var rest := Script(r.next, data[1..], clears[1..]);
      CarriedConcat(k.width, r.emits, rest);
      r.emits + rest
  }

  lemma {:induction false} CarriedConcat(width: nat, es: seq<Emit>, fs: seq<Emit>)
    requires AllCarried(width, es) && AllCarried(WidthAfter(width, es), fs)
    ensures AllCarried(width, es + fs)
    decreases |es|
  {
    if es == [] {
      assert es + fs == fs;
    } else {
      assert (es + fs)[1..] == es[1..] + fs;
      CarriedConcat(NextWidth(width, es[0]), es[1..], fs);
    }
  }

  /** The writer's state after its first byte. */
  function Started(maxbits: nat, first: Byte): (k: Coder)
    requires 1 <= maxbits <= BITS
    ensures k.Valid()
  {
    PowersOfTwo();
    Coder(maxbits, first, Table(FIRST, []), INIT_BITS)
  }
}
