/** Which bits of a file the decoder takes for its codes, on any file at all. */
module LzwReading {
  import opened Basics
  import opened Bits
  import opened CodeBuffer
  import opened CodeStream
  import opened LzwTable
  import opened LzwDecoder
  import opened LzwFile
  import opened LzwRun
  import opened LzwSchedule
  import opened LzwLayout

  /** The bytes of the file from a bit on. */
  ghost function From(file: seq<Byte>, group: nat): seq<Byte> {
    if group / 8 <= |file| then file[group / 8..] else []
  }

  /** The reader has loaded n bytes of the group and has the rest of the file before it. */
  ghost predicate Holds(u: Reader, file: seq<Byte>, group: nat, n: nat) {
    && LegalWidth(u.width) && group % 8 == 0 && n <= u.width
    && u.size == 8 * n - (u.width - 1)
    && group / 8 + n <= |file|
    && u.gbuf[..n] == file[group / 8..group / 8 + n]
    && u.rest == file[group / 8 + n..]
    && (n < u.width ==> u.rest == [])
  }

  /** The reader has just taken the code at a spot. */
  ghost predicate JustRead(u: Reader, file: seq<Byte>, s: Spot) {
    && (exists n :: 0 <= n && Holds(u, file, s.group, n))
    && IsSlot(s.offset, u.width) && u.roffset == s.offset + u.width
  }

  /** A code is loaded if all its bits are in the file; at the start of a group one byte will do. */
  ghost predicate Enough(file: seq<Byte>, s: Spot, w: nat) {
    if s.offset == 0 then s.group < 8 * |file| else s.Bit() + w <= 8 * |file|
  }

  /** The code has the bits of the file, as far as they go. */
  ghost predicate HasBits(file: seq<Byte>, s: Spot, w: nat, code: nat) {
    && code < Pow2(w)
    && forall j :: 0 <= j < w && s.Bit() + j < 8 * |file| ==> Bit(code, j) == BitAt(file, s.Bit() + j)
  }

  lemma LoadAt(u: Reader, file: seq<Byte>, s: Spot, n: nat)
    requires u.Valid() && Holds(u, file, s.group, n) && IsSlot(u.roffset, u.width) && s.offset == u.roffset
    requires s.offset == 0 || s.offset + u.width <= 8 * n
    ensures JustRead(Load(u).0, file, s) && HasBits(file, s, u.width, Load(u).1.value)
  {
    hide ExtractCode, Pow2, Bits.Bit, BitAt;
    var (v, code) := Load(u);
    assert Holds(v, file, s.group, n);
    forall j | 0 <= j < u.width && s.Bit() + j < 8 * |file|
      ensures Bit(code.value, j) == BitAt(file, s.Bit() + j)
    {
      ExtractCodeBits(u.gbuf, u.roffset, u.width, j);
      HeldBit(u, file, s.group, n, s.offset + j);
    }
  }

  lemma HeldBit(u: Reader, file: seq<Byte>, group: nat, n: nat, j: nat)
    requires Holds(u, file, group, n) && j < 8 * u.width && group + j < 8 * |file|
    requires n < u.width ==> n == |file| - group / 8
    ensures BitAt(u.gbuf, j) == BitAt(file, group + j)
  {
    assert (group + j) / 8 == group / 8 + j / 8 && (group + j) % 8 == j % 8;
    assert j / 8 < n;
    assert u.gbuf[..n][j / 8] == file[group / 8..group / 8 + n][j / 8];
  }

  lemma RefillAt(u: Reader, w: nat, file: seq<Byte>, group: nat)
    requires LegalWidth(w) && group % 8 == 0 && u.rest == From(file, group)
    ensures Refill(u, w).None? <==> 8 * |file| <= group
    ensures Refill(u, w).Some? ==> Holds(Refill(u, w).value, file, group, Min(|u.rest|, w))
  {
  }

  /** The spot of the next code. */
  function Onward(s: Spot, w: nat, breaks: bool): Spot {
    if breaks || s.offset + w == 8 * w then Spot(s.group + 8 * w, 0) else Spot(s.group, s.offset + w)
  }

  /** Getting a code from a new group. */
  lemma FreshAt(u: Reader, w: nat, file: seq<Byte>, group: nat)
    requires LegalWidth(w) && group % 8 == 0 && u.rest == From(file, group)
    ensures Refill(u, w).Some? <==> Enough(file, Spot(group, 0), w)
    ensures Refill(u, w).Some? ==>
              var (v, code) := Load(Refill(u, w).value);
              v.width == w && JustRead(v, file, Spot(group, 0)) && HasBits(file, Spot(group, 0), w, code.value)
  {
    hide Holds, JustRead, HasBits, Load, Refill;
    RefillAt(u, w, file, group);
    if Refill(u, w).Some? {
      LoadAt(Refill(u, w).value, file, Spot(group, 0), Min(|u.rest|, w));
      LoadWidth(Refill(u, w).value);
    }
  }

  lemma LoadWidth(u: Reader)
    requires u.Valid() && IsSlot(u.roffset, u.width)
    ensures Load(u).0.width == u.width
  {
  }

  /** The next code of a reader: whether there is one, and which bits it has. */
  ghost predicate Gets(u: Reader, switch: Option<nat>, file: seq<Byte>, s: Spot, w: nat)
    requires u.Valid() && (switch.Some? ==> LegalWidth(switch.value))
  {
    var (v, code) := NextCode(u, switch);
    && (code.Some? <==> Enough(file, s, w))
    && (code.Some? ==> v.width == w && JustRead(v, file, s) && HasBits(file, s, w, code.value))
  }

  lemma RestAt(u: Reader, file: seq<Byte>, group: nat, n: nat)
    requires Holds(u, file, group, n)
    ensures u.rest == From(file, group + 8 * u.width)
  {
  }

  lemma NextFresh(u: Reader, switch: Option<nat>, w: nat, file: seq<Byte>, group: nat)
    requires u.Valid() && (switch.Some? ==> LegalWidth(switch.value))
    requires w == (if switch.Some? then switch.value else u.width)
    requires switch.Some? || u.roffset >= u.size
    requires group % 8 == 0 && u.rest == From(file, group)
    ensures Gets(u, switch, file, Spot(group, 0), w)
  {
    hide Holds, JustRead, HasBits, Enough, Load, Refill;
    FreshAt(u, w, file, group);
  }

  lemma NextAt(u: Reader, switch: Option<nat>, file: seq<Byte>, s: Spot)
    requires u.Valid() && (switch.Some? ==> LegalWidth(switch.value)) && JustRead(u, file, s)
    ensures Gets(u, switch, file, Onward(s, u.width, switch.Some?), if switch.Some? then switch.value else u.width)
  {
    hide Gets;
    var n :| 0 <= n && Holds(u, file, s.group, n);
    if switch.Some? || s.offset + u.width == 8 * u.width {
      RestAt(u, file, s.group, n);
      NextFresh(u, switch, if switch.Some? then switch.value else u.width, file, s.group + 8 * u.width);
    } else {
      NextInGroup(u, file, s, n);
    }
  }

  lemma NextInGroup(u: Reader, file: seq<Byte>, s: Spot, n: nat)
    requires u.Valid() && JustRead(u, file, s) && s.offset + u.width != 8 * u.width && Holds(u, file, s.group, n)
    ensures Gets(u, None, file, Spot(s.group, s.offset + u.width), u.width)
  {
    hide HasBits, Load;
    if u.roffset < u.size {
      LoadAt(u, file, Spot(s.group, u.roffset), n);
      LoadWidth(u);
    }
  }

  lemma {:induction false} CodesReadNext(d: Decoder, i: nat)
    requires d.Valid() && Turns(d, i).Some? && Turned(Turns(d, i).value).Some?
    ensures Turns(d, i + 1) == Turned(Turns(d, i).value)
    ensures CodesRead(d, i + 1) == CodesRead(d, i) + [Turns(d, i).value.GetCode().1.value]
    decreases i
  {
    hide Turned, Decoder.GetCode, Decoder.Valid;
    if i == 0 {
      TurnsStep(d, Turned(d).value, 1);
    } else {
      var e := Turned(d).value;
      TurnsStep(d, e, i);
      TurnsStep(d, e, i + 1);
      CodesReadNext(e, i - 1);
    }
  }

  lemma {:induction false} TurnsFewer(d: Decoder, i: nat)
    requires d.Valid() && Turns(d, i + 1).Some?
    ensures Turns(d, i).Some? && Turned(Turns(d, i).value) == Turns(d, i + 1)
    decreases i
  {
    hide Turned;
    if i > 0 {
      TurnsFewer(Turned(d).value, i - 1);
    } else {
      assert Turns(Turned(d).value, 0) == Turned(d);
    }
  }

  /** The layout of the first codes does not depend on later ones. */
  lemma {:induction false} SpotPrefix(cs: seq<nat>, c: nat, block: bool, maxbits: nat, i: nat)
    requires i <= |cs|
    ensures WidthOf(cs + [c], block, maxbits, i) == WidthOf(cs, block, maxbits, i)
    ensures SpotOf(cs + [c], block, maxbits, i) == SpotOf(cs, block, maxbits, i)
    decreases i
  {
    hide Since, Due;
    SincePrefix(0, cs, [c], block, i);
    if i > 0 {
      SpotPrefix(cs, c, block, maxbits, i - 1);
    }
  }

  /** The decoder before code i changes the width just where the layout says so. */
  lemma SwitchIsDue(d: Decoder, cs: seq<nat>)
    requires d.Valid() && ReadyFor(d, Since(0, cs, d.block, |cs|)) && cs != []
    requires d.clear <==> d.block && cs[|cs| - 1] == CLEAR
    requires d.rd.width == WidthOf(cs, d.block, d.maxbits, |cs| - 1)
    ensures d.Switch().Some? <==> Breaks(cs, d.block, d.maxbits, |cs| - 1)
    ensures WidthOf(cs, d.block, d.maxbits, |cs|) == if d.Switch().Some? then d.Switch().value else d.rd.width
  {
    hide Due, IsDue;
    DueSwitch(d, Since(0, cs, d.block, |cs|));
    WidthIsDue(cs, d.block, d.maxbits, |cs|, if d.Switch().Some? then d.Switch().value else d.rd.width);
  }

  /** A turn leaves the reader as it was when the code was taken; a CLEAR is noted for the next one. */
  lemma TurnedRd(d: Decoder)
    requires d.Valid() && Turned(d).Some?
    ensures var (v, code) := NextCode(d.rd, d.Switch());
            var e := Turned(d).value;
            && code.Some? && code == d.GetCode().1
            && e.rd == v && (e.clear <==> d.block && code.value == CLEAR)
            && e.block == d.block && e.maxbits == d.maxbits
  {
    hide NextCode, Decoder.Switch;
  }

  /** The decoder's next code, when it has read cs. */
  ghost predicate ReadsNext(d: Decoder, cs: seq<nat>, file: seq<Byte>)
    requires d.Valid()
  {
    Gets(d.rd, d.Switch(), file, SpotOf(cs, d.block, d.maxbits, |cs|), WidthOf(cs, d.block, d.maxbits, |cs|))
  }

  lemma FirstAt(file: seq<Byte>)
    requires Opening(file).Some?
    ensures ReadsNext(Opening(file).value, [], file)
  {
    hide Gets;
    PowersOfTwo();
    var d := Opening(file).value;
    Pow2Monotone(12, d.maxbits);
    WidthIsDue([], d.block, d.maxbits, 0, 9);
    NextFresh(d.rd, None, 9, file, 24);
  }

  lemma NextTurnAt(d: Decoder, cs: seq<nat>, file: seq<Byte>)
    requires d.Valid() && ReadsNext(d, cs, file) && Turned(d).Some?
    requires d.GetCode().1.Some? && ReadyFor(Turned(d).value, Since(0, cs + [d.GetCode().1.value], d.block, |cs| + 1))
    ensures ReadsNext(Turned(d).value, cs + [d.GetCode().1.value], file)
  {
    hide Turned, Decoder.GetCode, Decoder.Switch, NextCode, ReadyFor, Since, WidthOf, Breaks, HasBits, Enough, JustRead;
    TurnedRd(d);
    var e, c := Turned(d).value, d.GetCode().1.value;
    SpotPrefix(cs, c, d.block, d.maxbits, |cs|);
    SwitchIsDue(e, cs + [c]);
    NextAt(e.rd, e.Switch(), file, SpotOf(cs, d.block, d.maxbits, |cs|));
    hide Gets;
  }

  lemma {:induction false} TurnsAt(file: seq<Byte>, i: nat)
    requires Opening(file).Some? && Turns(Opening(file).value, i).Some?
    ensures ReadsNext(Turns(Opening(file).value, i).value, CodesRead(Opening(file).value, i), file)
    decreases i
  {
    hide *;
    var d0 := Opening(file).value;
    if i == 0 {
      FirstAt(file);
      NoTurn(d0);
    } else {
      TurnsFewer(d0, i - 1);
      TurnsAt(file, i - 1);
      CodesReadNext(d0, i - 1);
      OpeningReady(file);
      TurnsReady(d0, 0, i - 1);
      TurnsReady(d0, 0, i);
      TurnedRd(Turns(d0, i - 1).value);
      NextTurnAt(Turns(d0, i - 1).value, CodesRead(d0, i - 1), file);
    }
  }

  lemma NoTurn(d: Decoder)
    requires d.Valid()
    ensures Turns(d, 0) == Some(d) && CodesRead(d, 0) == []
  {
  }

  /**
   On any file, behind any number of codes: the decoder finds a further code exactly where the layout
   of the codes before it leaves room for one, and takes it from the bits of that place. At the start
   of a group one byte of the file is room enough; the bits beyond the end are then left over from
   earlier groups.
   */
  lemma ReadAt(file: seq<Byte>, i: nat)
    requires Opening(file).Some? && Turns(Opening(file).value, i).Some?
    ensures var d0 := Opening(file).value;
            var cs := CodesRead(d0, i);
            var s, w := SpotOf(cs, d0.block, d0.maxbits, i), WidthOf(cs, d0.block, d0.maxbits, i);
            var code := Turns(d0, i).value.GetCode().1;
            && (code.Some? <==> if s.offset == 0 then s.group < 8 * |file| else s.Bit() + w <= 8 * |file|)
            && (code.Some? ==>
                && code.value < Pow2(w)
                && forall j :: 0 <= j < w && s.Bit() + j < 8 * |file| ==>
                     Bit(code.value, j) == BitAt(file, s.Bit() + j))
  {
    hide Opening, Turns, CodesRead, SpotOf, WidthOf, JustRead, NextCode;
    TurnsAt(file, i);
    OpeningReady(file);
    TurnsReady(Opening(file).value, 0, i);
  }
}
