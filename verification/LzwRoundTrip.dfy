/**
 The decoder rebuilds the encoder's table one entry behind it, changes width at the same codes
 and so delivers exactly the bytes that were compressed.
 */
module LzwRoundTrip {
  import opened Bits
  import opened Basics
  import opened CodeStream
  import opened LzwTable
  import opened LzwDecoder
  import opened LzwEncoder

  /** The strings of a coder. */
  ghost function Matched(k: Coder): seq<Byte>
    requires k.Valid()
  {
    k.table.Expand(k.ent)
  }

  /**
   The lockstep relation, just before the code of k's matched string is read: the decoder has all
   of the encoder's table but its newest entry, which extends the last code read by the first
   byte of the string now being matched. Just after a CLEAR, and once the table is full, the two
   tables are equal.
   */
  ghost predicate InStep(k: Coder, d: Decoder) {
    && k.Valid() && d.Valid()
    && d.maxbits == k.maxbits && d.block
    && match d.last
       case None => k.table == d.table && k.table.entries == []
       case Some(last) =>
         && d.finchar == d.table.Expand(last)[0]
         && k.table == if d.table.Free() < Pow2(k.maxbits) then d.table.Add(last, Matched(k)[0]) else d.table
  }

  /** The decoder accepts the next code, delivers its string and then has the encoder's whole table. */
  lemma DecodesMatched(k: Coder, d: Decoder)
    requires InStep(k, d)
    ensures k.ent != CLEAR && !d.Rejects(k.ent)
    ensures d.Decoded(k.ent) == Matched(k)
    ensures k.ent < Pow2(k.maxbits)
    ensures d.Delivered(k.ent).table == k.table
    ensures d.Delivered(k.ent).last == Some(k.ent)
    ensures d.Delivered(k.ent).finchar == Matched(k)[0]
  {
    assert k.ent < Pow2(k.maxbits) by {
      PowersOfTwo();
      Pow2Monotone(12, k.maxbits);
    }
    if d.last.Some? && d.table.Free() < Pow2(k.maxbits) {
      var last, first := d.last.value, Matched(k)[0];
      if k.ent == d.table.Free() {
        ExpandNew(d.table, last, first);
      } else {
        ExpandStable(d.table, last, first, k.ent);
      }
    }
  }

  /** Extending the match by a known byte keeps the lockstep. */
  lemma HitKeepsStep(k: Coder, d: Decoder, c: Byte, i: nat)
    requires InStep(k, d) && Lookup(k.table.entries, Entry(k.ent, c)) == Some(i)
    ensures var k' := k.(ent := FIRST + i);
            k'.Valid() && Matched(k') == Matched(k) + [c] && InStep(k', d)
  {
  }

  /** Sending a code and adding an entry puts the decoder one entry behind again. */
  lemma MissKeepsStep(k: Coder, d: Decoder, c: Byte)
    requires k.Valid() && d.Valid()
    requires d.maxbits == k.maxbits && d.block
    requires d.table == k.table && d.last == Some(k.ent) && d.finchar == Matched(k)[0]
    ensures Matched(k.Restarted(c)) == [c] && InStep(k.Restarted(c), d)
  {
  }

  /** Reading the code that the encoder sent for its matched string. */
  lemma ReadsMatched(k: Coder, d: Decoder, p: Packer, es: seq<Emit>)
    requires InStep(k, d) && p.width == k.width && es != [] && es[0] == k.Out()
    requires Aligned(p, es, d.rd, d.Switch())
    ensures d.GetCode().1 == Some(k.ent)
    ensures InStep(k, d.GetCode().0)
    ensures !d.GetCode().0.Rejects(k.ent) && k.ent < Pow2(k.maxbits) && k.ent != CLEAR
    ensures var d' := d.GetCode().0.Delivered(k.ent);
            && Aligned(Put(p, es[0]), es[1..], d'.rd, d'.Switch())
            && d'.table == k.table && d'.last == Some(k.ent) && d'.finchar == Matched(k)[0]
            && d'.maxbits == k.maxbits && d'.block
            && Inflate(d) == After(Matched(k), Inflate(d'))
  {
    ReadNext(p, es, d.rd, d.Switch());
    var e := d.GetCode().0;
    assert e.rd.width == k.width;
    DecodesMatched(k, e);
  }

  /** Reading a CLEAR: both sides start over with an empty table at nine bits. */
  lemma ReadsClear(k: Coder, d: Decoder, p: Packer, es: seq<Emit>)
    requires InStep(k, d) && k.ent < 256 && p.width == k.width && es != [] && es[0] == CLEAR_OUT
    requires Aligned(p, es, d.rd, d.Switch())
    ensures d.GetCode().1 == Some(CLEAR)
    ensures var d' := d.GetCode().0.Cleared();
            && k.Cleared().Valid() && InStep(k.Cleared(), d')
            && Aligned(Put(p, es[0]), es[1..], d'.rd, d'.Switch())
            && Inflate(d) == Inflate(d')
  {
    PowersOfTwo();
    Pow2Monotone(12, k.maxbits);
    ReadNext(p, es, d.rd, d.Switch());
  }

  /** Both sides before the same code: tables in step, and the reader where the packer is. */
  ghost predicate Lockstep(k: Coder, d: Decoder, p: Packer, es: seq<Emit>) {
    InStep(k, d) && p.width == k.width && Aligned(p, es, d.rd, d.Switch())
  }

  /** In lockstep, the next code is read at the width it was written with, so the bounds on both sides agree. */
  lemma LockstepWidth(k: Coder, d: Decoder, p: Packer, es: seq<Emit>)
    requires Lockstep(k, d, p, es) && es != []
    ensures d.GetCode().1 == Some(es[0].code)
    ensures d.GetCode().0.rd.width == k.width
    ensures MaxCode(d.GetCode().0.rd.width, d.maxbits) == MaxCode(k.width, k.maxbits)
  {
    hide Pow2, Ahead;
    ReadNext(p, es, d.rd, d.Switch());
  }

  lemma HitLockstep(k: Coder, d: Decoder, p: Packer, c: Byte, i: nat, es: seq<Emit>)
    requires Lockstep(k, d, p, es) && Lookup(k.table.entries, Entry(k.ent, c)) == Some(i)
    ensures var k' := k.(ent := FIRST + i);
            k'.Valid() && Matched(k') == Matched(k) + [c] && Lockstep(k', d, p, es)
  {
    HitKeepsStep(k, d, c, i);
  }

  lemma MissLockstep(k: Coder, d: Decoder, p: Packer, c: Byte, rest: seq<Emit>)
    returns (d': Decoder, p': Packer)
    requires k.Valid() && Lockstep(k, d, p, [k.Out()] + rest)
    ensures Lockstep(k.Restarted(c), d', p', rest) && Turned(d) == Some(d')
    ensures Matched(k.Restarted(c)) == [c]
    ensures Inflate(d) == After(Matched(k), Inflate(d'))
  {
    var es := [k.Out()] + rest;
    ReadsMatched(k, d, p, es);
    d', p' := d.GetCode().0.Delivered(k.ent), Put(p, k.Out());
    MissKeepsStep(k, d', c);
    assert es[1..] == rest;
  }

  lemma ClearLockstep(k: Coder, d: Decoder, p: Packer, rest: seq<Emit>)
    returns (d': Decoder, p': Packer)
    requires Lockstep(k, d, p, [CLEAR_OUT] + rest) && k.ent < 256
    ensures k.Cleared().Valid() && Lockstep(k.Cleared(), d', p', rest) && Turned(d) == Some(d')
    ensures Matched(k.Cleared()) == [k.ent]
    ensures Inflate(d) == Inflate(d')
  {
    var es := [CLEAR_OUT] + rest;
    ReadsClear(k, d, p, es);
    d', p' := d.GetCode().0.Cleared(), Put(p, CLEAR_OUT);
    assert es[1..] == rest;
  }

  /**
   One input byte of the encoder against the codes it makes the decoder read: they stay in
   lockstep, and what the decoder delivers is what the encoder's match no longer holds.
   */
  lemma StepLockstep(k: Coder, d: Decoder, p: Packer, c: Byte, clear: bool, rest: seq<Emit>)
    returns (d': Decoder, p': Packer, s: seq<Byte>)
    requires k.Valid() && Lockstep(k, d, p, Step(k, c, clear).emits + rest)
    ensures Lockstep(Step(k, c, clear).next, d', p', rest)
    ensures Matched(k) + [c] == s + Matched(Step(k, c, clear).next)
    ensures Inflate(d) == After(s, Inflate(d'))
    ensures Turns(d, |Step(k, c, clear).emits|) == Some(d')
  {
    hide Lockstep, Inflate, Matched, Coder.Valid, Coder.Restarted, Coder.Out;
    var r := Step(k, c, clear);
    match Lookup(k.table.entries, Entry(k.ent, c)) {
      case Some(i) =>
        assert r.emits + rest == rest;
        HitLockstep(k, d, p, c, i, rest);
        d', p', s := d, p, [];
      case None =>
        s := Matched(k);
        if |r.emits| == 1 {
          d', p' := MissLockstep(k, d, p, c, rest);
        } else {
          assert r.emits + rest == [k.Out()] + ([CLEAR_OUT] + rest);
          d', p' := MissLockstep(k, d, p, c, [CLEAR_OUT] + rest);
          d', p' := ClearLockstep(k.Restarted(c), d', p', rest);
        }
    }
  }

  /** Reading the last code and then the end of the file. */
  lemma LastCode(k: Coder, d: Decoder, p: Packer)
    requires k.Valid() && Lockstep(k, d, p, [k.Out()])
    ensures Inflate(d) == Outcome(Matched(k), true)
  {
    ReadsMatched(k, d, p, [k.Out()]);
    var d' := d.GetCode().0.Delivered(k.ent);
    ReadEnd(Put(p, k.Out()), d'.rd, d'.Switch());
    assert Inflate(d') == Outcome([], true);
  }

  /** From any pair of states in lockstep, the decoder delivers the matched string and the rest of the input. */
  lemma {:induction false} InflatesScript(k: Coder, d: Decoder, p: Packer, data: seq<Byte>, clears: seq<bool>)
    requires k.Valid() && |data| == |clears| && Lockstep(k, d, p, Script(k, data, clears))
    ensures Inflate(d) == Outcome(Matched(k) + data, true)
    decreases |data|
  {
    hide Lockstep, Inflate, Step, Turns, Turned;
    if data == [] {
      LastCode(k, d, p);
    } else {
      var next := Step(k, data[0], clears[0]).next;
      var d', p', s := StepLockstep(k, d, p, data[0], clears[0], Script(next, data[1..], clears[1..]));
      InflatesScript(next, d', p', data[1..], clears[1..]);
      assert Matched(k) + data == Matched(k) + [data[0]] + data[1..];
      assert s + Matched(next) + data[1..] == s + (Matched(next) + data[1..]);
    }
  }
}
