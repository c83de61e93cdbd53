/**
 The widths of the codes, by counting: a code is written, and read, in as few bits as its number
 since the last CLEAR needs.
 */
module LzwSchedule {
  import opened Basics
  import opened Bits
  import opened CodeBuffer
  import opened CodeStream
  import opened LzwTable
  import opened LzwDecoder
  import opened LzwEncoder
  import opened LzwFile
  import opened LzwRun
  import opened Decoders

  /** The least number of bits, from nine to a cap, that a number fits in; the cap if it needs more. */
  ghost predicate IsDue(width: nat, x: nat, cap: nat) {
    && 9 <= width <= cap
    && (width < cap ==> x < Pow2(width))
    && (width > 9 ==> Pow2(width - 1) <= x)
  }

  /** There is only one such number of bits. */
  lemma OneWidth(v: nat, w: nat, x: nat, cap: nat)
    requires IsDue(v, x, cap) && IsDue(w, x, cap)
    ensures v == w
  {
    if v < w {
      Pow2Monotone(v, w - 1);
    } else if w < v {
      Pow2Monotone(w, v - 1);
    }
  }

  /** The widest codes; up to nine bits the writer's bounds are one off. */
  function Cap(maxbits: nat): nat {
    if maxbits >= 10 then maxbits else if maxbits == 9 then 10 else 9
  }

  /** The number of entries that fit, as a first unused code. */
  function Full(maxbits: nat): nat {
    if maxbits >= 9 then Pow2(maxbits) else FIRST
  }

  lemma FullValue(maxbits: nat)
    ensures Full(maxbits) >= FIRST && (maxbits >= 9 ==> Full(maxbits) == Pow2(maxbits))
    ensures maxbits < 9 ==> Pow2(maxbits) <= 256
  {
    PowersOfTwo();
    if maxbits >= 9 {
      Pow2Monotone(9, maxbits);
    } else {
      Pow2Monotone(maxbits, 8);
    }
  }

  /** The width change of either side: from the width due for x to the one due for x + 1. */
  lemma DueNext(width: nat, maxbits: nat, x: nat, free: nat)
    requires 1 <= maxbits <= BITS && x >= 255 && IsDue(width, x, Cap(maxbits)) && free == Min(x + 1, Full(maxbits))
    ensures var w := Widen(width, maxbits, free);
            IsDue(if w.Some? then w.value else width, x + 1, Cap(maxbits))
  {
    PowersOfTwo();
    FullValue(maxbits);
    assert Pow2(width + 1) == 2 * Pow2(width);
    if maxbits >= 9 && width < maxbits {
      Pow2Monotone(width, maxbits);
    }
    hide Pow2;
  }

  /** How many of the codes before code i are behind the last CLEAR; n is the count at the start. */
  ghost function Since(n: nat, cs: seq<nat>, block: bool, i: nat): nat
    requires i <= |cs|
  {
    if i == 0 then n else if block && cs[i - 1] == CLEAR then 0 else Since(n, cs, block, i - 1) + 1
  }

  lemma {:induction false} SinceConcat(n: nat, a: seq<nat>, b: seq<nat>, block: bool, j: nat)
    requires j <= |b|
    ensures Since(n, a + b, block, |a| + j) == Since(Since(n, a, block, |a|), b, block, j)
    decreases j
  {
    if j == 0 {
      SincePrefix(n, a, b, block, |a|);
    } else {
      SinceConcat(n, a, b, block, j - 1);
      assert (a + b)[|a| + j - 1] == b[j - 1];
    }
  }

  lemma {:induction false} SincePrefix(n: nat, a: seq<nat>, b: seq<nat>, block: bool, i: nat)
    requires i <= |a|
    ensures Since(n, a + b, block, i) == Since(n, a, block, i)
    decreases i
  {
    if i > 0 {
      SincePrefix(n, a, b, block, i - 1);
    }
  }

  /** The codes that go out. */
  ghost function Codes(es: seq<Emit>): seq<nat> {
    seq(|es|, i requires 0 <= i < |es| => es[i].code)
  }

  lemma CodesConcat(a: seq<Emit>, b: seq<Emit>)
    ensures Codes(a + b) == Codes(a) + Codes(b)
  {
  }

  /** The writer about to send its code number n since the last CLEAR. */
  ghost predicate Ready(k: Coder, n: nat) {
    && k.table.Free() == Min(FIRST + n, Full(k.maxbits))
    && IsDue(k.width, 256 + n, Cap(k.maxbits))
  }

  lemma StartedReady(maxbits: nat, c: Byte)
    requires 1 <= maxbits <= BITS
    ensures Ready(Started(maxbits, c), 0)
  {
    FullValue(maxbits);
    PowersOfTwo();
  }

  lemma RestartedReady(k: Coder, c: Byte, n: nat)
    requires k.Valid() && Ready(k, n)
    ensures k.Out().code != CLEAR && Ready(k.Restarted(c), n + 1)
  {
    FullValue(k.maxbits);
    DueNext(k.width, k.maxbits, 256 + n, k.table.Free());
  }

  lemma ClearedReady(k: Coder)
    requires k.Valid() && k.ent < 256
    ensures Ready(k.Cleared(), 0)
  {
    StartedReady(k.maxbits, k.ent);
  }

  /** One byte: the count goes on by the codes that go out for it. */
  lemma StepReady(k: Coder, c: Byte, clear: bool, n: nat)
    requires k.Valid() && Ready(k, n)
    ensures var r := Step(k, c, clear); Ready(r.next, Since(n, Codes(r.emits), true, |r.emits|))
  {
    hide Coder.Valid, Coder.Out, Coder.Restarted, Coder.Cleared, IsDue, Full, Cap, Step, Lookup;
    StepCases(k, c, clear);
    RestartedReady(k, c, n);
    ClearedReady(k.Restarted(c));
  }

  /** The writer before the codes that go out for the next byte, or at the end. */
  lemma StartReady(k: Coder, data: seq<Byte>, clears: seq<bool>, n: nat, i: nat)
    requires k.Valid() && Ready(k, n) && |data| == |clears| && i < |Script(k, data, clears)|
    requires data == [] || i < |Step(k, data[0], clears[0]).emits|
    ensures Ready(CoderAt(k, data, clears, i), Since(n, Codes(Script(k, data, clears)), true, i))
  {
    hide Coder.Valid, Coder.Out, Coder.Restarted, Coder.Cleared, Ready, Step, Script, Lookup, CoderAt;
    if i == 0 {
      FirstCoder(k, data, clears);
    } else if data == [] {
      OneCode(k, data, clears);
    } else {
      StepCases(k, data[0], clears[0]);
      ScriptStep(k, data, clears);
      RestartedAt(k, data, clears);
      RestartedReady(k, data[0], n);
      assert Since(n, Codes(Script(k, data, clears)), true, 0) == n;
    }
  }

  /** From any state of the writer, at every code of the script. */
  lemma {:induction false} ScriptReady(k: Coder, data: seq<Byte>, clears: seq<bool>, n: nat, i: nat)
    requires k.Valid() && Ready(k, n) && |data| == |clears| && i < |Script(k, data, clears)|
    ensures Ready(CoderAt(k, data, clears, i), Since(n, Codes(Script(k, data, clears)), true, i))
    decreases |data|
  {
    hide Coder.Valid, Ready, Step, Script, CoderAt, Since;
    if data == [] || i < |Step(k, data[0], clears[0]).emits| {
      StartReady(k, data, clears, n, i);
    } else {
      var r := Step(k, data[0], clears[0]);
      var rest := Script(r.next, data[1..], clears[1..]);
      ScriptStep(k, data, clears);
      StepReady(k, data[0], clears[0], n);
      CoderStep(k, data, clears, i);
      ScriptReady(r.next, data[1..], clears[1..], Since(n, Codes(r.emits), true, |r.emits|), i - |r.emits|);
      CodesConcat(r.emits, rest);
      SinceConcat(n, Codes(r.emits), Codes(rest), true, i - |r.emits|);
    }
  }

  /**
   For every input, width bound and choice of CLEAR points: the code that comes j codes behind the
   start or the last CLEAR is written in the least number of bits, from nine up, that 256 + j fits in,
   but in no more than the widest codes have.
   */
  lemma WrittenWidth(maxbits: nat, data: seq<Byte>, clears: seq<bool>, i: nat)
    requires 1 <= maxbits <= BITS && |data| == |clears| && data != []
    requires i < |Script(Started(maxbits, data[0]), data[1..], clears[1..])|
    ensures var es := Script(Started(maxbits, data[0]), data[1..], clears[1..]);
            IsDue(WidthAfter(INIT_BITS, es[..i]), 256 + Since(0, Codes(es), true, i), Cap(maxbits))
  {
    hide Script, Step, Coder.Valid, CoderAt, Since, IsDue, WidthAfter, Full, Started;
    var k := Started(maxbits, data[0]);
    StartedAt(maxbits, data[0]);
    StartedReady(maxbits, data[0]);
    ScriptReady(k, data[1..], clears[1..], 0, i);
    CoderWidth(k, data[1..], clears[1..], i);
  }

  lemma TurnKeeps(d: Decoder)
    requires d.Valid() && Turned(d).Some?
    ensures d.GetCode().1.Some? && Turned(d).value.block == d.block && Turned(d).value.maxbits == d.maxbits
  {
    hide NextCode, Widen;
  }

  /** The codes that the decoder reads in its first n turns. */
  ghost function CodesRead(d: Decoder, n: nat): (cs: seq<nat>)
    requires d.Valid() && Turns(d, n).Some?
    ensures |cs| == n
    decreases n
  {
    hide Turned, Decoder.GetCode, Decoder.Valid;
    if n == 0 then [] else
      TurnKeeps(d);
      [d.GetCode().1.value] + CodesRead(Turned(d).value, n - 1)
  }

  /** The number whose bits set the width of the code that comes n codes behind the last CLEAR. */
  function Ordinal(block: bool, n: nat): nat {
    (if block then 256 else 255) + n
  }

  /** The decoder about to read its code number n since the last CLEAR; it changes the width as it does. */
  ghost predicate ReadyFor(d: Decoder, n: nat) {
    if d.clear then
      n == 0 && d.block && d.table == Table(FIRST, []) && d.last.None?
    else
      var m := if n == 0 then 0 else n - 1;
      && (d.last.Some? <==> n > 0)
      && d.table.Free() == Min(Base(d.block) + m, Pow2(d.maxbits))
      && IsDue(d.rd.width, Ordinal(d.block, m), d.maxbits)
  }

  /** The width that getcode changes to, or keeps, is the one due for the next code. */
  lemma DueSwitch(d: Decoder, n: nat)
    requires d.Valid() && ReadyFor(d, n)
    ensures IsDue(if d.Switch().Some? then d.Switch().value else d.rd.width, Ordinal(d.block, n), Cap(d.maxbits))
  {
    PowersOfTwo();
    FullValue(d.maxbits);
    Pow2Monotone(9, d.maxbits);
    if !d.clear && n > 0 {
      DueNext(d.rd.width, d.maxbits, Ordinal(d.block, n - 1), d.table.Free());
    }
  }

  /** A code is read in the bits due for it. */
  lemma DueWidth(d: Decoder, n: nat)
    requires d.Valid() && ReadyFor(d, n)
    ensures d.GetCode().1.Some? ==> IsDue(d.GetCode().0.rd.width, Ordinal(d.block, n), d.maxbits)
  {
    DueSwitch(d, n);
    hide Decoder.Switch, IsDue;
  }

  lemma TurnReady(d: Decoder, n: nat)
    requires d.Valid() && ReadyFor(d, n) && Turned(d).Some?
    ensures var code := d.GetCode().1.value;
            ReadyFor(Turned(d).value, if d.block && code == CLEAR then 0 else n + 1)
  {
    DueWidth(d, n);
    hide IsDue;
  }

  lemma SinceOne(n: nat, c: nat, block: bool)
    ensures Since(n, [c], block, 1) == if block && c == CLEAR then 0 else n + 1
  {
    assert Since(n, [c], block, 0) == n;
  }

  /** From any state, behind any number of codes. */
  lemma {:induction false} TurnsReady(d: Decoder, n: nat, i: nat)
    requires d.Valid() && ReadyFor(d, n) && Turns(d, i).Some?
    ensures Turns(d, i).value.block == d.block && Turns(d, i).value.maxbits == d.maxbits
    ensures ReadyFor(Turns(d, i).value, Since(n, CodesRead(d, i), d.block, i))
    decreases i
  {
    hide ReadyFor, Turned, Decoder.GetCode, Decoder.Valid, Since;
    if i == 0 {
      assert Since(n, [], d.block, 0) == n by { SinceNone(n, d.block); }
    } else {
      TurnReady(d, n);
      TurnKeeps(d);
      var e, c := Turned(d).value, d.GetCode().1.value;
      TurnsReady(e, if d.block && c == CLEAR then 0 else n + 1, i - 1);
      SinceOne(n, c, d.block);
      SinceConcat(n, [c], CodesRead(e, i - 1), d.block, i - 1);
    }
  }

  lemma SinceNone(n: nat, block: bool)
    ensures Since(n, [], block, 0) == n
  {
  }

  /**
   On any file: the code that comes j codes behind the start or the last CLEAR is read in the least
   number of bits, from nine up to the bound in the header, that 256 + j fits in; 255 + j without CLEAR codes.
   */
  lemma ReadWidth(file: seq<Byte>, i: nat)
    requires Opening(file).Some? && Turns(Opening(file).value, i).Some?
    ensures var d0 := Opening(file).value;
            var (e, code) := Turns(d0, i).value.GetCode();
            code.Some? ==> IsDue(e.rd.width, Ordinal(d0.block, Since(0, CodesRead(d0, i), d0.block, i)), d0.maxbits)
  {
    hide Turns, CodesRead, Since, IsDue, Decoder.GetCode, Ordinal;
    var d0 := Opening(file).value;
    OpeningReady(file);
    TurnsReady(d0, 0, i);
    DueWidth(Turns(d0, i).value, Since(0, CodesRead(d0, i), d0.block, i));
  }

  lemma OpeningReady(file: seq<Byte>)
    requires Opening(file).Some?
    ensures ReadyFor(Opening(file).value, 0)
  {
    PowersOfTwo();
    Pow2Monotone(12, Opening(file).value.maxbits);
  }

  /** The decoder of compress behind a first code that it took for a character. */
  ghost function Taken(file: seq<Byte>): (d: Decoder)
    requires FirstCode(file).Some? && (StartsWithChar(file) || StartsWithClear(file))
    ensures d.Valid()
  {
    var (e, code) := Opening(file).value.GetCode();
    if code.value < 256 then FirstTaken(e, code.value) else ClearTaken(e)
  }

  lemma TakenReady(file: seq<Byte>)
    requires FirstCode(file).Some? && (StartsWithChar(file) || StartsWithClear(file))
    ensures ReadyFor(Taken(file), 1)
  {
    OpeningReady(file);
    DueWidth(Opening(file).value, 0);
    PowersOfTwo();
    Pow2Monotone(12, Opening(file).value.maxbits);
    hide NextCode, Widen;
  }

  /** The decoder of compress reads its further codes in the same widths, its first code counted. */
  lemma ZopenReadWidth(file: seq<Byte>, i: nat)
    requires FirstCode(file).Some? && (StartsWithChar(file) || StartsWithClear(file))
    requires Turns(Taken(file), i).Some?
    ensures var d := Taken(file);
            var (e, code) := Turns(d, i).value.GetCode();
            code.Some? ==> IsDue(e.rd.width, Ordinal(d.block, Since(1, CodesRead(d, i), d.block, i)), d.maxbits)
  {
    hide Turns, CodesRead, Since, IsDue, Decoder.GetCode, Ordinal, Taken;
    var d := Taken(file);
    TakenReady(file);
    TurnsReady(d, 1, i);
    DueWidth(Turns(d, i).value, Since(1, CodesRead(d, i), d.block, i));
  }
}
