/** Encoder and decoder in lockstep at every code of every run. */
module LzwRun {
  import opened Basics
  import opened Bits
  import opened CodeBuffer
  import opened CodeStream
  import opened LzwTable
  import opened LzwDecoder
  import opened LzwEncoder
  import opened LzwRoundTrip
  import opened LzwFile

  /** The encoder when code i of its script goes out. */
  function CoderAt(k: Coder, data: seq<Byte>, clears: seq<bool>, i: nat): (r: Coder)
    requires k.Valid() && |data| == |clears| && i < |Script(k, data, clears)|
    ensures r.Valid() && r.maxbits == k.maxbits
    decreases |data|
  {
    if data == [] then k else
      var r := Step(k, data[0], clears[0]);
      if i >= |r.emits| then CoderAt(r.next, data[1..], clears[1..], i - |r.emits|)
      else if i == 0 then k
      else k.Restarted(data[0])
  }

  lemma {:induction false} WidthConcat(width: nat, a: seq<Emit>, b: seq<Emit>)
    ensures WidthAfter(width, a + b) == WidthAfter(WidthAfter(width, a), b)
    decreases |a|
  {
    if a == [] {
      assert a + b == b;
    } else {
      assert (a + b)[1..] == a[1..] + b;
      WidthConcat(NextWidth(width, a[0]), a[1..], b);
    }
  }

  /** The encoder has the width that the codes before brought about. */
  lemma {:induction false} CoderWidth(k: Coder, data: seq<Byte>, clears: seq<bool>, i: nat)
    requires k.Valid() && |data| == |clears| && i < |Script(k, data, clears)|
    ensures CoderAt(k, data, clears, i).width == WidthAfter(k.width, Script(k, data, clears)[..i])
    decreases |data|
  {
    hide Step, Script, Coder.Valid, Lookup, Coder.Out, CoderAt;
    var es := Script(k, data, clears);
    assert es[..0] == [];
    if data == [] || i < |Step(k, data[0], clears[0]).emits| {
      if i == 0 {
        FirstCoder(k, data, clears);
      } else {
        SecondWidth(k, data, clears, i);
      }
    } else {
      var r := Step(k, data[0], clears[0]);
      var rest := Script(r.next, data[1..], clears[1..]);
      ScriptStep(k, data, clears);
      StepWidth(k, data[0], clears[0]);
      CoderStep(k, data, clears, i);
      CoderWidth(r.next, data[1..], clears[1..], i - |r.emits|);
      assert es[..i] == r.emits + rest[..i - |r.emits|];
      WidthConcat(k.width, r.emits, rest[..i - |r.emits|]);
    }
  }

  lemma FirstCoder(k: Coder, data: seq<Byte>, clears: seq<bool>)
    requires k.Valid() && |data| == |clears| && |Script(k, data, clears)| > 0
    requires data == [] || |Step(k, data[0], clears[0]).emits| > 0
    ensures CoderAt(k, data, clears, 0) == k
  {
    hide Step, Coder.Valid;
  }

  lemma StepWidth(k: Coder, c: Byte, clear: bool)
    requires k.Valid()
    ensures Step(k, c, clear).next.width == WidthAfter(k.width, Step(k, c, clear).emits)
  {
  }

  lemma SecondWidth(k: Coder, data: seq<Byte>, clears: seq<bool>, i: nat)
    requires k.Valid() && |data| == |clears| && i > 0 && i < |Script(k, data, clears)|
    requires data == [] || i < |Step(k, data[0], clears[0]).emits|
    ensures CoderAt(k, data, clears, i).width == WidthAfter(k.width, Script(k, data, clears)[..i])
  {
    hide Step, Script, Coder.Valid, Lookup, Coder.Out, CoderAt;
    if data == [] {
      OneCode(k, data, clears);
    } else {
      StepCases(k, data[0], clears[0]);
      ScriptStep(k, data, clears);
      RestartedAt(k, data, clears);
      var es := Script(k, data, clears);
      assert es[..1] == [k.Out()] && [k.Out()][1..] == [];
      assert WidthAfter(k.width, [k.Out()]) == NextWidth(k.width, k.Out());
    }
  }

  /** Before a code is read: the tables are in step, and the code comes at the width it was written with. */
  ghost predicate ReadsInStep(k: Coder, d: Decoder, code: nat) {
    && InStep(k, d)
    && d.GetCode().1 == Some(code) && d.GetCode().0.rd.width == k.width
  }

  /** What goes out for one byte: nothing, the code of the match, or that and a CLEAR. */
  lemma StepCases(k: Coder, c: Byte, clear: bool)
    requires k.Valid()
    ensures var r := Step(k, c, clear);
            match Lookup(k.table.entries, Entry(k.ent, c))
            case Some(j) => r == Effect(k.(ent := FIRST + j), [])
            case None =>
              || r == Effect(k.Restarted(c), [k.Out()])
              || r == Effect(k.Restarted(c).Cleared(), [k.Out(), CLEAR_OUT])
  {
  }

  lemma ScriptStep(k: Coder, data: seq<Byte>, clears: seq<bool>)
    requires k.Valid() && |data| == |clears| && data != []
    ensures var r := Step(k, data[0], clears[0]);
            Script(k, data, clears) == r.emits + Script(r.next, data[1..], clears[1..])
  {
  }

  lemma TurnsStep(d: Decoder, e: Decoder, n: nat)
    requires d.Valid() && Turned(d) == Some(e) && n > 0
    ensures e.Valid() && Turns(d, n) == Turns(e, n - 1)
  {
  }

  /** The state of both sides at code i of a script. */
  ghost predicate InStepAt(k: Coder, d: Decoder, data: seq<Byte>, clears: seq<bool>, i: nat)
  {
    && k.Valid() && |data| == |clears| && i < |Script(k, data, clears)| && d.Valid() && Turns(d, i).Some?
    && ReadsInStep(CoderAt(k, data, clears, i), Turns(d, i).value, Script(k, data, clears)[i].code)
  }

  lemma FirstInStep(k: Coder, d: Decoder, p: Packer, data: seq<Byte>, clears: seq<bool>)
    requires k.Valid() && |data| == |clears| && Lockstep(k, d, p, Script(k, data, clears))
    requires data == [] || Step(k, data[0], clears[0]).emits != []
    ensures InStepAt(k, d, data, clears, 0)
  {
    if data != [] {
      ScriptStep(k, data, clears);
    }
    hide Step;
    LockstepWidth(k, d, p, Script(k, data, clears));
  }

  /** What holds at a later code of the rest of a script holds at that code of the script. */
  lemma RestInStep(k: Coder, d: Decoder, d': Decoder, data: seq<Byte>, clears: seq<bool>, i: nat)
    requires k.Valid() && |data| == |clears| && data != [] && d.Valid() && d'.Valid()
    requires var r := Step(k, data[0], clears[0]);
             && |r.emits| <= i < |Script(k, data, clears)| && Turns(d, |r.emits|) == Some(d')
             && InStepAt(r.next, d', data[1..], clears[1..], i - |r.emits|)
    ensures InStepAt(k, d, data, clears, i)
  {
    hide Step, Script, ReadsInStep, Turns, CoderAt, Coder.Valid, Decoder.Valid;
    var r := Step(k, data[0], clears[0]);
    var n := |r.emits|;
    ScriptStep(k, data, clears);
    CoderStep(k, data, clears, i);
    TurnsSum(d, n, i - n);
    assert Script(k, data, clears)[i] == Script(r.next, data[1..], clears[1..])[i - n];
  }

  lemma CoderStep(k: Coder, data: seq<Byte>, clears: seq<bool>, i: nat)
    requires k.Valid() && |data| == |clears| && data != [] && i < |Script(k, data, clears)|
    requires |Step(k, data[0], clears[0]).emits| <= i
    ensures var r := Step(k, data[0], clears[0]);
            && i - |r.emits| < |Script(r.next, data[1..], clears[1..])|
            && CoderAt(k, data, clears, i) == CoderAt(r.next, data[1..], clears[1..], i - |r.emits|)
  {
    hide Step, Coder.Valid;
  }

  lemma {:induction false} TurnsSum(d: Decoder, m: nat, n: nat)
    requires d.Valid() && Turns(d, m).Some?
    ensures Turns(d, m + n) == Turns(Turns(d, m).value, n)
    decreases m
  {
    hide Turned;
    if m > 0 {
      TurnsSum(Turned(d).value, m - 1, n);
    }
  }

  /** The codes that go out for the next byte, or at the end. */
  lemma StartInStep(k: Coder, d: Decoder, p: Packer, data: seq<Byte>, clears: seq<bool>, i: nat)
    requires k.Valid() && |data| == |clears| && Lockstep(k, d, p, Script(k, data, clears))
    requires i < |Script(k, data, clears)| && (data == [] || i < |Step(k, data[0], clears[0]).emits|)
    ensures InStepAt(k, d, data, clears, i)
  {
    hide *;
    if data == [] {
      OneCode(k, data, clears);
    } else {
      StepCases(k, data[0], clears[0]);
    }
    if i == 0 {
      FirstInStep(k, d, p, data, clears);
    } else {
      SecondInStep(k, d, p, data, clears);
    }
  }

  /** From any two states in lockstep, both sides are in step at every code of the script. */
  lemma {:induction false} LockstepRun(k: Coder, d: Decoder, p: Packer, data: seq<Byte>, clears: seq<bool>, i: nat)
    requires k.Valid() && |data| == |clears| && Lockstep(k, d, p, Script(k, data, clears))
    requires i < |Script(k, data, clears)|
    ensures InStepAt(k, d, data, clears, i)
    decreases |data|
  {
    hide *;
    LockstepValid(k, d, p, Script(k, data, clears));
    if data == [] || i < |Step(k, data[0], clears[0]).emits| {
      StartInStep(k, d, p, data, clears, i);
    } else {
      var r := Step(k, data[0], clears[0]);
      ScriptStep(k, data, clears);
      var d', p', _ := StepLockstep(k, d, p, data[0], clears[0], Script(r.next, data[1..], clears[1..]));
      LockstepValid(r.next, d', p', Script(r.next, data[1..], clears[1..]));
      LockstepRun(r.next, d', p', data[1..], clears[1..], i - |r.emits|);
      RestInStep(k, d, d', data, clears, i);
    }
  }

  lemma LockstepValid(k: Coder, d: Decoder, p: Packer, es: seq<Emit>)
    requires Lockstep(k, d, p, es)
    ensures k.Valid() && d.Valid()
  {
  }

  lemma OneCode(k: Coder, data: seq<Byte>, clears: seq<bool>)
    requires k.Valid() && data == [] && clears == []
    ensures |Script(k, data, clears)| == 1
  {
  }

  /** At a CLEAR. */
  lemma SecondInStep(k: Coder, d: Decoder, p: Packer, data: seq<Byte>, clears: seq<bool>)
    requires k.Valid() && |data| == |clears| && data != [] && Lockstep(k, d, p, Script(k, data, clears))
    requires |Step(k, data[0], clears[0]).emits| == 2
    ensures InStepAt(k, d, data, clears, 1)
  {
    hide Lockstep, Turned, Coder.Valid, Decoder.Valid, ReadsInStep, Script, Step, CoderAt, Inflate, Matched, Lookup;
    hide Coder.Out, Coder.Restarted, Coder.Cleared;
    LockstepValid(k, d, p, Script(k, data, clears));
    var c := data[0];
    var r := Step(k, c, clears[0]);
    var rest := Script(r.next, data[1..], clears[1..]);
    StepCases(k, c, clears[0]);
    ScriptStep(k, data, clears);
    RestartedAt(k, data, clears);
    assert Script(k, data, clears) == [k.Out()] + ([CLEAR_OUT] + rest);
    var d', p' := MissLockstep(k, d, p, c, [CLEAR_OUT] + rest);
    AtClear(k.Restarted(c), d', p', rest);
    TurnsStep(d, d', 1);
    assert Turns(d', 0) == Some(d');
  }

  lemma RestartedAt(k: Coder, data: seq<Byte>, clears: seq<bool>)
    requires k.Valid() && |data| == |clears| && data != [] && |Step(k, data[0], clears[0]).emits| == 2
    ensures |Script(k, data, clears)| > 1 && CoderAt(k, data, clears, 1) == k.Restarted(data[0])
  {
    hide Step, Coder.Valid;
  }

  lemma AtClear(k: Coder, d: Decoder, p: Packer, rest: seq<Emit>)
    requires Lockstep(k, d, p, [CLEAR_OUT] + rest)
    ensures d.Valid() && ReadsInStep(k, d, CLEAR)
  {
    LockstepWidth(k, d, p, [CLEAR_OUT] + rest);
  }

  /**
   At every code of every compressed file: the decoder reads the code that was sent, at the width it
   was written with. Its table is the encoder's, or lacks just the newest entry; just after a CLEAR,
   as at the start, both are empty.
   */
  lemma LockstepThroughout(maxbits: nat, data: seq<Byte>, clears: seq<bool>, i: nat)
    requires 12 <= maxbits <= BITS && |data| == |clears| && data != []
    requires i < |Script(Started(maxbits, data[0]), data[1..], clears[1..])|
    ensures var es := Script(Started(maxbits, data[0]), data[1..], clears[1..]);
            var k := CoderAt(Started(maxbits, data[0]), data[1..], clears[1..], i);
            var start := Opening(Compressed(maxbits, data, clears));
            && start.Some? && Turns(start.value, i).Some?
            && var d := Turns(start.value, i).value;
               && d.GetCode().1 == Some(es[i].code)
               && d.GetCode().0.rd.width == k.width == WidthAfter(INIT_BITS, es[..i])
               && (d.last.None? ==> k.table == d.table == Table(FIRST, []))
               && (d.last.Some? ==>
                   if d.table.Free() < Pow2(maxbits) then k.table == d.table.Add(d.last.value, Matched(k)[0])
                   else k.table == d.table)
  {
    hide Opening, Compressed, Script, Ahead, AllCarried, Pow2, PutAll, Header, Lockstep, Started, CoderAt, WidthAfter;
    hide Turns, Decoder.GetCode, Matched, Table.Valid;
    var k0 := Started(maxbits, data[0]);
    var es := Script(k0, data[1..], clears[1..]);
    StartedAt(maxbits, data[0]);
    CompressedShape(maxbits, data, clears);
    OpensHeader(maxbits, Ahead(NewPacker(maxbits), es));
    var d0 := Opening(Compressed(maxbits, data, clears)).value;
    OpensInLockstep(k0, d0, es);
    LockstepRun(k0, d0, NewPacker(maxbits), data[1..], clears[1..], i);
    CoderWidth(k0, data[1..], clears[1..], i);
  }

  lemma StartedAt(maxbits: nat, c: Byte)
    requires 1 <= maxbits <= BITS
    ensures var k := Started(maxbits, c); k.ent == c && k.maxbits == maxbits && k.width == INIT_BITS
  {
  }
}
