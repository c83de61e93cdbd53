/**
 The Huffman tree of a packed file. A header gives the number of leaves of each level; `counts`
 holds them, the end-of-block leaf included as the last of the last level. In each level the
 inner nodes come first, so a node is a number within its level and its children are 2n and
 2n + 1 in the next. Leaves are numbered through all levels: these numbers are slots in the
 symbol table.
 */
module HuffmanTree {

  /** Inner nodes of a level: half of all nodes of the next, none in the last. */
  function Inner(counts: seq<nat>, level: nat): (n: nat)
    requires level < |counts|
    decreases |counts| - level, 0
  {
    if level == |counts| - 1 then 0 else Total(counts, level + 1) / 2
  }

  /** All nodes of a level. */
  function Total(counts: seq<nat>, level: nat): nat
    requires level < |counts|
    decreases |counts| - level, 1
  {
    Inner(counts, level) + counts[level]
  }

  /** Leaves of all levels before a level: the slot of its first leaf. */
  function FirstSlot(counts: seq<nat>, level: nat): nat
    requires level <= |counts|
  {
    if level == 0 then 0 else FirstSlot(counts, level - 1) + counts[level - 1]
  }

  datatype Tree = Leaf(level: nat, index: nat) | Node(left: Tree, right: Tree)

  /** The tree below node n of a level. */
  function Subtree(counts: seq<nat>, level: nat, n: nat): Tree
    requires level < |counts| && n < Total(counts, level)
    decreases |counts| - level
  {
    if n >= Inner(counts, level) then
      Leaf(level, n - Inner(counts, level))
    else
      Node(Subtree(counts, level + 1, 2 * n), Subtree(counts, level + 1, 2 * n + 1))
  }

  /** What a walk along some bits comes to: a leaf and the bits behind it, or no leaf yet. */
  datatype Walked = At(level: nat, index: nat, rest: seq<bool>) | Inside

  /** Walk down an explicit tree. */
  function Walk(t: Tree, bits: seq<bool>): Walked {
    match t
    case Leaf(level, index) => At(level, index, bits)
    case Node(l, r) => if bits == [] then Inside else Walk(if bits[0] then r else l, bits[1..])
  }

  function BitValue(b: bool): nat {
    if b then 1 else 0
  }

  /** The same walk by the level tables: from n at a level that has not been looked at yet. */
  function Descend(counts: seq<nat>, level: nat, n: nat, bits: seq<bool>): (w: Walked)
    requires level < |counts|
    ensures w.At? ==> level <= w.level < |counts| && |w.rest| <= |bits|
    decreases |counts| - level
  {
    if n >= Inner(counts, level) then At(level, n - Inner(counts, level), bits)
    else if bits == [] then Inside
    else Descend(counts, level + 1, 2 * n + BitValue(bits[0]), bits[1..])
  }

  /** Level tables and explicit tree give the same walk, on every bit sequence. */
  lemma {:induction false} DescendIsWalk(counts: seq<nat>, level: nat, n: nat, bits: seq<bool>)
    requires level < |counts| && n < Total(counts, level)
    ensures Descend(counts, level, n, bits) == Walk(Subtree(counts, level, n), bits)
    decreases |counts| - level
  {
    if n < Inner(counts, level) && bits != [] {
      DescendIsWalk(counts, level + 1, 2 * n + BitValue(bits[0]), bits[1..]);
    }
  }

  /** Two nodes below the root and no odd node anywhere: every node but the root has a sibling. */
  ghost predicate IsFull(counts: seq<nat>) {
    && counts != [] && Total(counts, 0) == 2
    && forall level :: 0 < level < |counts| ==> Total(counts, level) % 2 == 0
  }

  /** The walk from the root. */
  function FromRoot(counts: seq<nat>, bits: seq<bool>): (w: Walked)
    requires counts != []
    ensures w.At? ==> w.level < |counts| && |w.rest| < |bits|
  {
    if bits == [] then Inside else Descend(counts, 0, BitValue(bits[0]), bits[1..])
  }

  ghost function Root(counts: seq<nat>): Tree
    requires counts != [] && Total(counts, 0) >= 2
  {
    Node(Subtree(counts, 0, 0), Subtree(counts, 0, 1))
  }

  lemma FromRootIsWalk(counts: seq<nat>, bits: seq<bool>)
    requires counts != [] && Total(counts, 0) >= 2
    ensures FromRoot(counts, bits) == Walk(Root(counts), bits)
  {
    if bits != [] {
      DescendIsWalk(counts, 0, BitValue(bits[0]), bits[1..]);
    }
  }

  /** The canonical code of node n: its number, most significant bit first. */
  function CodeOf(n: nat, length: nat): (bits: seq<bool>)
    ensures |bits| == length
    decreases length
  {
    if length == 0 then [] else CodeOf(n / 2, length - 1) + [n % 2 == 1]
  }

  /** In a full tree the canonical code of a node leads to it. */
  lemma {:induction false} CodeLeadsToNode(counts: seq<nat>, level: nat, n: nat, rest: seq<bool>)
    requires IsFull(counts) && level < |counts| && n < Total(counts, level)
    ensures FromRoot(counts, CodeOf(n, level + 1) + rest) == Descend(counts, level, n, rest)
    decreases level
  {
    var bits := CodeOf(n, level + 1) + rest;
    if level == 0 {
      assert bits[0] == (n == 1) && bits[1..] == rest;
    } else {
      assert n / 2 < Inner(counts, level - 1);
      var tail := [n % 2 == 1] + rest;
      assert bits == CodeOf(n / 2, level) + tail;
      CodeLeadsToNode(counts, level - 1, n / 2, tail);
      assert tail[1..] == rest;
    }
  }

  /** The canonical code of a leaf, walked in a full tree, gives the leaf and leaves the rest. */
  lemma CodeDecodes(counts: seq<nat>, level: nat, i: nat, rest: seq<bool>)
    requires IsFull(counts) && level < |counts| && i < counts[level]
    ensures FromRoot(counts, CodeOf(Inner(counts, level) + i, level + 1) + rest) == At(level, i, rest)
  {
    hide CodeOf, FromRoot, IsFull, Inner;
    CodeLeadsToNode(counts, level, Inner(counts, level) + i, rest);
  }

  /** The level that a slot belongs to. */
  function LevelOf(counts: seq<nat>, slot: nat, from: nat): (level: nat)
    requires from < |counts| && FirstSlot(counts, from) <= slot < FirstSlot(counts, |counts|)
    ensures level < |counts| && FirstSlot(counts, level) <= slot < FirstSlot(counts, level) + counts[level]
    decreases |counts| - from
  {
    if slot < FirstSlot(counts, from + 1) then from else LevelOf(counts, slot, from + 1)
  }

  /** The canonical code of a slot. */
  function SlotCode(counts: seq<nat>, slot: nat): seq<bool>
    requires counts != [] && slot < FirstSlot(counts, |counts|)
  {
    var level := LevelOf(counts, slot, 0);
    CodeOf(Inner(counts, level) + (slot - FirstSlot(counts, level)), level + 1)
  }

  lemma SlotCodeDecodes(counts: seq<nat>, slot: nat, rest: seq<bool>)
    requires IsFull(counts) && slot < FirstSlot(counts, |counts|)
    ensures var level := LevelOf(counts, slot, 0);
            FromRoot(counts, SlotCode(counts, slot) + rest) == At(level, slot - FirstSlot(counts, level), rest)
  {
    hide Inner, FromRoot, CodeOf;
    var level := LevelOf(counts, slot, 0);
    CodeDecodes(counts, level, slot - FirstSlot(counts, level), rest);
  }

  /** A walk from a node of a level ends at one of the leaves of the level it ends in. */
  lemma {:induction false} DescendInRange(counts: seq<nat>, level: nat, n: nat, bits: seq<bool>)
    requires level < |counts| && n < Total(counts, level)
    ensures var w := Descend(counts, level, n, bits); w.At? ==> w.index < counts[w.level]
    decreases |counts| - level
  {
    if n < Inner(counts, level) && bits != [] {
      DescendInRange(counts, level + 1, 2 * n + BitValue(bits[0]), bits[1..]);
    }
  }

  /** A leaf that a walk finds is one of its level's leaves. */
  ghost predicate InRange(counts: seq<nat>, bits: seq<bool>)
    requires counts != []
  {
    var w := FromRoot(counts, bits);
    w.At? ==> w.index < counts[w.level]
  }

  /**
   For every header, leaves found at level 1 or deeper are in range on every bit sequence, by the
   halving of the node counts; leaves found at level 0 are too exactly when it has two nodes.
   */
  lemma WalksInRange(counts: seq<nat>)
    requires counts != []
    ensures forall bits :: FromRoot(counts, bits).At? && FromRoot(counts, bits).level > 0 ==> InRange(counts, bits)
    ensures (forall bits :: InRange(counts, bits)) <==> Total(counts, 0) >= 2
  {
    forall bits: seq<bool> | bits != [] && BitValue(bits[0]) < Total(counts, 0) ensures InRange(counts, bits) {
      DescendInRange(counts, 0, BitValue(bits[0]), bits[1..]);
    }
    if Total(counts, 0) < 2 {
      assert FromRoot(counts, [true]) == At(0, 1 - Inner(counts, 0), []);
      assert !InRange(counts, [true]);
    }
  }
}
