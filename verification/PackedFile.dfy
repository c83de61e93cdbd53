/**
 Decoding of a packed file as a function of its header and its bits, and the theorem that the
 canonical codes of a message decode to the message.
 */
module PackedFile {
  import opened Bits
  import opened HuffmanTree

  /**
   What the header gives: the uncompressed size, the leaves of each level, and the symbols by
   slot. The last slot is the end-of-block marker; it has no symbol of its own, so its byte here
   is arbitrary.
   */
  datatype Header = Header(size: nat, counts: seq<nat>, symbols: seq<Byte>) {
    ghost predicate Valid() {
      && counts != [] && counts[|counts| - 1] >= 2
      && |symbols| == FirstSlot(counts, |counts|)
    }

    function Eob(): int {
      |symbols| - 1
    }
  }

  datatype Result = Unpacked(bytes: seq<Byte>) | Corrupt

  /** The end of the input. */
  function AtEof(h: Header, out: seq<Byte>): Result {
    if |out| == h.size then Unpacked(out) else Corrupt
  }

  lemma {:induction false} SlotsGrow(counts: seq<nat>, a: nat, b: nat)
    requires a <= b <= |counts|
    ensures FirstSlot(counts, a) <= FirstSlot(counts, b)
    decreases b
  {
    if a < b {
      SlotsGrow(counts, a, b - 1);
    }
  }

  /** The slot of a leaf index that passes the decoder's check, which allows one past the level's leaves. */
  lemma SlotInTable(h: Header, level: nat, index: nat)
    requires h.Valid() && level < |h.counts|
    requires index < h.counts[level] || (index == h.counts[level] && level < |h.counts| - 1)
    ensures FirstSlot(h.counts, level) + index < |h.symbols|
  {
    hide FirstSlot;
    var last := |h.counts| - 1;
    NextFirstSlot(h.counts, last);
    NextFirstSlot(h.counts, level);
    if level < last {
      SlotsGrow(h.counts, level + 1, last);
    }
  }

  lemma NextFirstSlot(counts: seq<nat>, level: nat)
    requires level < |counts|
    ensures FirstSlot(counts, level + 1) == FirstSlot(counts, level) + counts[level]
  {
  }

  /** thiscode before the next bit: a node of the level above, or nothing yet. */
  predicate Reached(h: Header, level: nat, code: nat) {
    level < |h.counts| && if level == 0 then code == 0 else code < Inner(h.counts, level - 1)
  }

  lemma LeafInTable(h: Header, level: nat, n: nat)
    requires h.Valid() && level < |h.counts|
    requires if level == 0 then n <= 1 else n < 2 * Inner(h.counts, level - 1)
    requires Inner(h.counts, level) <= n <= Inner(h.counts, level) + h.counts[level]
    ensures FirstSlot(h.counts, level) + (n - Inner(h.counts, level)) < |h.symbols|
  {
    SlotInTable(h, level, n - Inner(h.counts, level));
  }

  /** `unpack_decode` on the bits still to come. */
  function Decode(h: Header, level: nat, code: nat, out: seq<Byte>, bits: seq<bool>): Result
    requires h.Valid() && Reached(h, level, code)
    decreases |bits|
  {
    if bits == [] then AtEof(h, out) else
      var n := 2 * code + BitValue(bits[0]);
      if n >= Inner(h.counts, level) then
        var index := n - Inner(h.counts, level);
        if index > h.counts[level] then Corrupt else
          LeafInTable(h, level, n);
          var slot := FirstSlot(h.counts, level) + index;
          if slot == h.Eob() && |out| == h.size then Unpacked(out)
          else Decode(h, 0, 0, out + [h.symbols[slot]], bits[1..])
      else
        Decode(h, level + 1, n, out, bits[1..])
  }

  /** Decoding by walking the explicit tree, symbol after symbol. */
  ghost function DecodeByTree(h: Header, out: seq<Byte>, bits: seq<bool>): Result
    requires h.Valid() && Total(h.counts, 0) >= 2
    decreases |bits|
  {
    FromRootIsWalk(h.counts, bits);
    WalksInRange(h.counts);
    assert InRange(h.counts, bits);
    match Walk(Root(h.counts), bits)
    case Inside => AtEof(h, out)
    case At(level, index, rest) =>
      SlotInTable(h, level, index);
      var slot := FirstSlot(h.counts, level) + index;
      if slot == h.Eob() && |out| == h.size then Unpacked(out)
      else DecodeByTree(h, out + [h.symbols[slot]], rest)
  }

  /** What the decoder does once a walk has ended. */
  ghost function AfterWalk(h: Header, out: seq<Byte>, w: Walked): Result
    requires h.Valid()
    requires w.At? ==> w.level < |h.counts| && w.index < h.counts[w.level]
  {
    match w
    case Inside => AtEof(h, out)
    case At(level, index, rest) =>
      SlotInTable(h, level, index);
      var slot := FirstSlot(h.counts, level) + index;
      if slot == h.Eob() && |out| == h.size then Unpacked(out)
      else Decode(h, 0, 0, out + [h.symbols[slot]], rest)
  }

  /** One symbol of the bit-by-bit decoder is one walk by the level tables. */
  lemma {:induction false} DecodeWalks(h: Header, level: nat, code: nat, out: seq<Byte>, bits: seq<bool>)
    requires h.Valid() && Reached(h, level, code) && bits != []
    requires 2 * code + BitValue(bits[0]) < Total(h.counts, level)
    ensures var w := Descend(h.counts, level, 2 * code + BitValue(bits[0]), bits[1..]);
            && (w.At? ==> w.index < h.counts[w.level])
            && Decode(h, level, code, out, bits) == AfterWalk(h, out, w)
    decreases |bits|
  {
    hide FirstSlot;
    var n := 2 * code + BitValue(bits[0]);
    DescendInRange(h.counts, level, n, bits[1..]);
    if n < Inner(h.counts, level) && bits[1..] != [] {
      DecodeWalks(h, level + 1, n, out, bits[1..]);
    }
  }

  lemma DecodeFromRoot(h: Header, out: seq<Byte>, bits: seq<bool>)
    requires h.Valid() && Total(h.counts, 0) >= 2
    ensures InRange(h.counts, bits)
    ensures Decode(h, 0, 0, out, bits) == AfterWalk(h, out, FromRoot(h.counts, bits))
  {
    WalksInRange(h.counts);
    assert InRange(h.counts, bits);
    if bits != [] {
      DecodeWalks(h, 0, 0, out, bits);
    }
  }

  /** For every header with two nodes in its first level and every bit sequence, the level tables decode as the tree. */
  lemma {:induction false} TablesDecodeAsTree(h: Header, out: seq<Byte>, bits: seq<bool>)
    requires h.Valid() && Total(h.counts, 0) >= 2
    ensures Decode(h, 0, 0, out, bits) == DecodeByTree(h, out, bits)
    decreases |bits|
  {
    hide Decode, Walk;
    DecodeFromRoot(h, out, bits);
    FromRootIsWalk(h.counts, bits);
    match FromRoot(h.counts, bits)
    case Inside =>
    case At(level, index, rest) =>
      SlotInTable(h, level, index);
      TablesDecodeAsTree(h, out + [h.symbols[FirstSlot(h.counts, level) + index]], rest);
  }

  predicate Within(message: seq<nat>, bound: int) {
    forall i :: 0 <= i < |message| ==> message[i] < bound
  }

  /** The bits of a message, given by slots, with the end-of-block code behind it. */
  function Encode(h: Header, message: seq<nat>): seq<bool>
    requires h.Valid() && Within(message, |h.symbols|)
  {
    if message == [] then SlotCode(h.counts, |h.symbols| - 1)
    else SlotCode(h.counts, message[0]) + Encode(h, message[1..])
  }

  function Spelled(h: Header, message: seq<nat>): seq<Byte>
    requires Within(message, |h.symbols|)
  {
    if message == [] then [] else [h.symbols[message[0]]] + Spelled(h, message[1..])
  }

  /** In a full tree the code of a slot makes the decoder put out that slot's symbol. */
  lemma DecodesSlot(h: Header, out: seq<Byte>, slot: nat, rest: seq<bool>)
    requires h.Valid() && IsFull(h.counts) && slot < |h.symbols|
    ensures Decode(h, 0, 0, out, SlotCode(h.counts, slot) + rest) ==
            if slot == h.Eob() && |out| == h.size then Unpacked(out)
            else Decode(h, 0, 0, out + [h.symbols[slot]], rest)
  {
    hide Decode, SlotCode, FromRoot;
    SlotCodeDecodes(h.counts, slot, rest);
    DecodeFromRoot(h, out, SlotCode(h.counts, slot) + rest);
  }

  /** For every full tree and every message, its canonical codes decode to it, whatever bits follow. */
  lemma {:induction false} MessageDecodes(h: Header, out: seq<Byte>, message: seq<nat>, padding: seq<bool>)
    requires h.Valid() && IsFull(h.counts)
    requires Within(message, h.Eob())
    requires |out| + |message| == h.size
    ensures Decode(h, 0, 0, out, Encode(h, message) + padding) == Unpacked(out + Spelled(h, message))
    decreases |message|
  {
    hide Decode, SlotCode;
    if message == [] {
      DecodesSlot(h, out, |h.symbols| - 1, padding);
    } else {
      var slot, rest := message[0], message[1..];
      DecodesSlot(h, out, slot, Encode(h, rest) + padding);
      assert Encode(h, message) + padding == SlotCode(h.counts, slot) + (Encode(h, rest) + padding);
      MessageDecodes(h, out + [h.symbols[slot]], rest, padding);
      assert out + [h.symbols[slot]] + Spelled(h, rest) == out + Spelled(h, message);
    }
  }
}
