/**
 Where the codes of a file stand, by counting alone: codes of one width come in groups of eight, and
 a group is left unfinished where the width changes and behind a CLEAR.
 */
module LzwLayout {
  import opened Basics
  import opened Bits
  import opened CodeBuffer
  import opened CodeStream
  import opened LzwTable
  import opened LzwDecoder
  import opened LzwEncoder
  import opened LzwFile
  import opened LzwRun
  import opened LzwWriter
  import opened LzwSchedule

  /** The least number of bits, from w up to a cap, that x fits in. */
  ghost function Due(w: nat, x: nat, cap: nat): nat
    decreases cap - w
  {
    if w >= cap || x < Pow2(w) then w else Due(w + 1, x, cap)
  }

  lemma {:induction false} DueIsDue(w: nat, x: nat, cap: nat)
    requires 9 <= w <= cap && (w > 9 ==> Pow2(w - 1) <= x)
    ensures IsDue(Due(w, x, cap), x, cap)
    decreases cap - w
  {
    if w < cap && x >= Pow2(w) {
      DueIsDue(w + 1, x, cap);
    }
  }

  /** The width of code i of a file, given the codes before it. */
  ghost function WidthOf(cs: seq<nat>, block: bool, maxbits: nat, i: nat): nat
    requires i <= |cs|
  {
    Due(9, Ordinal(block, Since(0, cs, block, i)), Cap(maxbits))
  }

  lemma WidthIsDue(cs: seq<nat>, block: bool, maxbits: nat, i: nat, w: nat)
    requires i <= |cs| && IsDue(w, Ordinal(block, Since(0, cs, block, i)), Cap(maxbits))
    ensures WidthOf(cs, block, maxbits, i) == w
  {
    var x := Ordinal(block, Since(0, cs, block, i));
    DueIsDue(9, x, Cap(maxbits));
    OneWidth(w, Due(9, x, Cap(maxbits)), x, Cap(maxbits));
  }

  /** The bit at which a group starts, and how far into the group a code is. */
  datatype Spot = Spot(group: nat, offset: nat) {
    function Bit(): nat {
      group + offset
    }
  }

  /** Code i ends its group: eight codes are there, the next code has another width, or it is a CLEAR. */
  ghost predicate Breaks(cs: seq<nat>, block: bool, maxbits: nat, i: nat)
    requires i < |cs|
  {
    (block && cs[i] == CLEAR) || WidthOf(cs, block, maxbits, i + 1) != WidthOf(cs, block, maxbits, i)
  }

  /** Where code i stands in the file; the first one stands behind the three bytes of the header. */
  ghost function SpotOf(cs: seq<nat>, block: bool, maxbits: nat, i: nat): Spot
    requires i <= |cs|
  {
    if i == 0 then Spot(24, 0) else
      var s, w := SpotOf(cs, block, maxbits, i - 1), WidthOf(cs, block, maxbits, i - 1);
      if Breaks(cs, block, maxbits, i - 1) || s.offset + w == 8 * w then Spot(s.group + 8 * w, 0)
      else Spot(s.group, s.offset + w)
  }

  /** The writer changes its width and flushes just where the layout says so. */
  ghost predicate Scheduled(es: seq<Emit>, maxbits: nat, i: nat)
    requires i < |es|
  {
    && WidthAfter(INIT_BITS, es[..i]) == WidthOf(Codes(es), true, maxbits, i)
    && (es[i].switch.Some? <==> Breaks(Codes(es), true, maxbits, i))
  }

  /** A code of the script is a CLEAR or what the encoder sends in its state. */
  lemma {:induction false} CodeSent(k: Coder, data: seq<Byte>, clears: seq<bool>, i: nat)
    requires k.Valid() && |data| == |clears| && i < |Script(k, data, clears)|
    ensures var e := Script(k, data, clears)[i]; e == CLEAR_OUT || e == CoderAt(k, data, clears, i).Out()
    decreases |data|
  {
    hide Coder.Valid, Coder.Out, Step, CoderAt, Coder.Restarted, Lookup;
    if data == [] {
      assert CoderAt(k, data, clears, i) == k by { FirstCoder(k, data, clears); }
    } else {
      var r := Step(k, data[0], clears[0]);
      StepCases(k, data[0], clears[0]);
      ScriptStep(k, data, clears);
      if i >= |r.emits| {
        CoderStep(k, data, clears, i);
        CodeSent(r.next, data[1..], clears[1..], i - |r.emits|);
      } else if i == 0 {
        FirstCoder(k, data, clears);
      }
    }
  }

  lemma SinceNext(cs: seq<nat>, i: nat)
    requires i < |cs| && cs[i] != CLEAR
    ensures Since(0, cs, true, i + 1) == Since(0, cs, true, i) + 1
  {
  }

  lemma SentScheduled(k: Coder, es: seq<Emit>, i: nat)
    requires k.Valid() && i < |es| && Ready(k, Since(0, Codes(es), true, i))
    requires es[i] == CLEAR_OUT || es[i] == k.Out()
    requires k.width == WidthAfter(INIT_BITS, es[..i])
    ensures Scheduled(es, k.maxbits, i)
  {
    hide Since, WidthOf, WidthAfter, Widen, Full;
    var cs, n := Codes(es), Since(0, Codes(es), true, i);
    WidthIsDue(cs, true, k.maxbits, i, k.width);
    if es[i] == k.Out() {
      DueNext(k.width, k.maxbits, 256 + n, k.table.Free());
      SinceNext(cs, i);
      WidthIsDue(cs, true, k.maxbits, i + 1, NextWidth(k.width, es[i]));
      WidenChanges(k.width, k.maxbits, k.table.Free());
    }
  }

  lemma WidenChanges(width: nat, maxbits: nat, free: nat)
    ensures Widen(width, maxbits, free) != Some(width)
  {
  }

  lemma ScriptScheduled(maxbits: nat, data: seq<Byte>, clears: seq<bool>, i: nat)
    requires 1 <= maxbits <= BITS && |data| == |clears| && data != []
    requires i < |Script(Started(maxbits, data[0]), data[1..], clears[1..])|
    ensures Scheduled(Script(Started(maxbits, data[0]), data[1..], clears[1..]), maxbits, i)
  {
    hide Script, Coder.Valid, CoderAt, Since, WidthAfter, Started, Ready, Scheduled, Codes, Coder.Out;
    var k := Started(maxbits, data[0]);
    StartedAt(maxbits, data[0]);
    StartedReady(maxbits, data[0]);
    ScriptReady(k, data[1..], clears[1..], 0, i);
    CoderWidth(k, data[1..], clears[1..], i);
    CodeSent(k, data[1..], clears[1..], i);
    SentScheduled(CoderAt(k, data[1..], clears[1..], i), Script(k, data[1..], clears[1..]), i);
  }

  lemma {:induction false} CarriedSplit(width: nat, a: seq<Emit>, b: seq<Emit>)
    requires AllCarried(width, a + b)
    ensures AllCarried(width, a) && AllCarried(WidthAfter(width, a), b)
    decreases |a|
  {
    if a == [] {
      assert a + b == b;
    } else {
      assert (a + b)[1..] == a[1..] + b;
      CarriedSplit(NextWidth(width, a[0]), a[1..], b);
    }
  }

  /** The packer in between two parts of a stream. */
  lemma PutParts(p: Packer, a: seq<Emit>, b: seq<Emit>)
    requires p.Valid() && AllCarried(p.width, a + b)
    ensures AllCarried(p.width, a) && PutAll(p, a).width == WidthAfter(p.width, a)
    ensures AllCarried(PutAll(p, a).width, b) && PutAll(p, a + b) == PutAll(PutAll(p, a), b)
  {
    hide PutAll, AllCarried;
    CarriedSplit(p.width, a, b);
    PutAllWidth(p, a);
    PutAllConcat(p, a, b);
  }

  /** One code further. */
  lemma PutAllNext(p: Packer, es: seq<Emit>, i: nat)
    requires p.Valid() && AllCarried(p.width, es) && i < |es|
    ensures AllCarried(p.width, es[..i]) && AllCarried(p.width, es[..i + 1])
    ensures PutAll(p, es[..i]).width == WidthAfter(p.width, es[..i])
    ensures PutAll(p, es[..i + 1]) == Put(PutAll(p, es[..i]), es[i])
  {
    hide Put, Packer.Valid;
    assert es[..i + 1] + es[i + 1..] == es && es[..i] + [es[i]] == es[..i + 1];
    PutParts(p, es[..i + 1], es[i + 1..]);
    PutParts(p, es[..i], [es[i]]);
    var q := PutAll(p, es[..i]);
    assert PutAll(q, [es[i]]) == PutAll(Put(q, es[i]), []);
  }

  /** All codes of a stream are written where the layout says so. */
  ghost predicate AllScheduled(es: seq<Emit>, maxbits: nat) {
    forall i :: 0 <= i < |es| ==> Scheduled(es, maxbits, i)
  }

  /** The bytes and bits that the packer has behind it before code i. */
  lemma {:induction false} PackerSpot(maxbits: nat, es: seq<Emit>, i: nat)
    requires 1 <= maxbits <= BITS && AllCarried(INIT_BITS, es) && AllScheduled(es, maxbits) && i <= |es|
    ensures AllCarried(INIT_BITS, es[..i])
    ensures var p := PutAll(NewPacker(maxbits), es[..i]);
            Spot(8 * |p.file|, p.offset) == SpotOf(Codes(es), true, maxbits, i)
    decreases i
  {
    hide Put, Packer.Valid, WidthOf, Breaks, WidthAfter, AllCarried, PutCode;
    var p := NewPacker(maxbits);
    if i == 0 {
      PutNone(p, es);
    } else {
      PackerSpot(maxbits, es, i - 1);
      PutAllNext(p, es, i - 1);
      assert Scheduled(es, maxbits, i - 1);
      PutSpot(PutAll(p, es[..i - 1]), es[i - 1]);
    }
  }

  lemma PutNone(p: Packer, es: seq<Emit>)
    requires p.Valid()
    ensures AllCarried(p.width, es[..0]) && PutAll(p, es[..0]) == p
  {
  }

  lemma PutSpot(p: Packer, e: Emit)
    requires p.Valid()
    ensures var q := Put(p, e);
            if e.switch.Some? || p.offset + p.width == 8 * p.width then |q.file| == |p.file| + p.width && q.offset == 0
            else |q.file| == |p.file| && q.offset == p.offset + p.width
  {
    hide PutCode;
  }

  /** The bits of code i in a finished stream. */
  lemma StoredAt(maxbits: nat, es: seq<Emit>, i: nat, j: nat)
    requires 1 <= maxbits <= BITS && AllCarried(INIT_BITS, es) && AllScheduled(es, maxbits)
    requires i < |es| && j < WidthOf(Codes(es), true, maxbits, i)
    ensures var file := Finish(PutAll(NewPacker(maxbits), es));
            var b := SpotOf(Codes(es), true, maxbits, i).Bit() + j;
            b < 8 * |file| && BitAt(file, b) == Bit(es[i].code, j)
  {
    hide Put, Packer.Valid, WidthOf, Breaks, WidthAfter, AllCarried, PutCode, PutAll, Finish, Ahead, SpotOf, BitAt;
    var p := NewPacker(maxbits);
    PackerSpot(maxbits, es, i);
    PutAllNext(p, es, i);
    assert es[..i] + es[i..] == es;
    PutParts(p, es[..i], es[i..]);
    var q := PutAll(p, es[..i]);
    AheadIsWritten(q, es[i..]);
    assert Scheduled(es, maxbits, i);
    AheadHoldsCode(q, es[i..], q.offset + j);
    BehindBit(q.file, Ahead(q, es[i..]), q.offset + j);
  }

  lemma BehindBit(s: seq<Byte>, t: seq<Byte>, j: nat)
    requires j < 8 * |t|
    ensures BitAt(s + t, 8 * |s| + j) == BitAt(t, j)
  {
    assert (8 * |s| + j) / 8 == |s| + j / 8 && (8 * |s| + j) % 8 == j % 8;
  }

  /** Where a stream ends: at the last of its bits, or at the end of its last group. */
  lemma EndsAt(maxbits: nat, es: seq<Emit>)
    requires 1 <= maxbits <= BITS && AllCarried(INIT_BITS, es) && AllScheduled(es, maxbits)
    ensures |Finish(PutAll(NewPacker(maxbits), es))| == (SpotOf(Codes(es), true, maxbits, |es|).Bit() + 7) / 8
  {
    hide Put, WidthOf, Breaks, WidthAfter, AllCarried, PutCode, PutAll, Ahead, SpotOf, BitAt;
    PackerSpot(maxbits, es, |es|);
    assert es[..|es|] == es;
  }

  /**
   For every input, width bound and choice of CLEAR points: bit j of code i stands in the file where
   counting the codes says, the file starts with the header, and it ends with the byte of its last bit.
   */
  lemma WrittenAt(maxbits: nat, data: seq<Byte>, clears: seq<bool>)
    requires 1 <= maxbits <= BITS && |data| == |clears| && data != []
    ensures var cs := Codes(Script(Started(maxbits, data[0]), data[1..], clears[1..]));
            var file := Compressed(maxbits, data, clears);
            && |file| == (SpotOf(cs, true, maxbits, |cs|).Bit() + 7) / 8
            && |file| >= 3 && file[..3] == [0x1f, 0x9d, 0x80 + maxbits]
            && forall i, j :: 0 <= i < |cs| && 0 <= j < WidthOf(cs, true, maxbits, i) ==>
                 var b := SpotOf(cs, true, maxbits, i).Bit() + j;
                 b < 8 * |file| && BitAt(file, b) == Bit(cs[i], j)
  {
    hide Script, Started, Coder.Valid, Codes, Breaks, WidthOf, SpotOf, BitAt, Finish, PutAll, Scheduled, Ahead;
    var es := Script(Started(maxbits, data[0]), data[1..], clears[1..]);
    StartedAt(maxbits, data[0]);
    CompressedShape(maxbits, data, clears);
    forall i | 0 <= i < |es|
      ensures Scheduled(es, maxbits, i)
    {
      ScriptScheduled(maxbits, data, clears, i);
    }
    EndsAt(maxbits, es);
    CodesOf(es);
    forall i, j | 0 <= i < |es| && 0 <= j < WidthOf(Codes(es), true, maxbits, i)
      ensures var b := SpotOf(Codes(es), true, maxbits, i).Bit() + j;
              var file := Compressed(maxbits, data, clears);
              b < 8 * |file| && BitAt(file, b) == Bit(Codes(es)[i], j)
    {
      StoredAt(maxbits, es, i, j);
    }
  }

  lemma CodesOf(es: seq<Emit>)
    ensures |Codes(es)| == |es| && forall i :: 0 <= i < |es| ==> Codes(es)[i] == es[i].code
  {
  }
}
