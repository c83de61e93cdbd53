/**
 The compressor's dictionary: an open-addressed hash table from a prefix code and a byte to the
 code of the extended string, refining the list of entries made since the last clear.
 */
module CodeTable {
  import opened Arithmetic
  import opened Bits
  import opened Basics
  import opened CodeBuffer
  import opened LzwTable
  import opened Probing

  /** The key stored for an entry: the byte above the bits of the prefix code. */
  function Fcode(maxbits: nat, e: Entry): nat {
    Shl(e.suffix, maxbits) + e.prefix
  }

  /** The slot of the first probe: (c << 8) ^ ent. */
  function HashStart(e: Entry): (h: nat)
    requires e.prefix < Pow2(BITS)
    ensures h < HSIZE
  {
    JoinIsSmall(0, e.suffix, 8, 8, BITS);
    XorIsSmall(Shl(e.suffix, 8), e.prefix, BITS);
    Xor(Shl(e.suffix, 8), e.prefix)
  }

  lemma DigitsUnique(x: nat, a: nat, y: nat, b: nat, p: nat)
    requires a < p && b < p && x * p + a == y * p + b
    ensures x == y && a == b
  {
    MulMonotone(x + 1, y, p);
    MulMonotone(y + 1, x, p);
  }

  /** Keys of entries whose prefix codes fit in maxbits bits are distinct. */
  lemma FcodeInjective(maxbits: nat, a: Entry, b: Entry)
    requires a.prefix < Pow2(maxbits) && b.prefix < Pow2(maxbits)
    requires Fcode(maxbits, a) == Fcode(maxbits, b)
    ensures a == b
  {
    ShlValue(a.suffix, maxbits);
    ShlValue(b.suffix, maxbits);
    DigitsUnique(a.suffix, a.prefix, b.suffix, b.prefix, Pow2(maxbits));
  }

  /** The probe loop: stop at the first slot that is free or holds the key. */
  method Probe(htab: array<int>, start: nat, fcode: nat, ghost end: nat) returns (i: nat, ghost j: nat)
    requires htab.Length == HSIZE && start < HSIZE && htab[Slot(start, end)] < 0
    ensures i < HSIZE && i == Slot(start, j)
    ensures htab[i] < 0 || htab[i] == fcode
    ensures forall k: nat :: k < j ==> 0 <= htab[Slot(start, k)] != fcode
  {
    i, j := start, 0;
    var disp := HSIZE - i;
    if i == 0 {
      disp := 1;
    }
    while 0 <= htab[i] != fcode
      invariant i < HSIZE && i == Slot(start, j) && j <= end
      invariant forall k: nat :: k < j ==> 0 <= htab[Slot(start, k)] != fcode
      decreases end - j
    {
      i := if i < disp then i - disp + HSIZE else i - disp;
      j := j + 1;
    }
  }

  /** `cl_hash`: empty sixteen slots at a time from the end, then the rest. */
  method Wipe(htab: array<int>)
    requires htab.Length == HSIZE
    modifies htab
    ensures forall s: nat :: s < HSIZE ==> htab[s] == -1
  {
    var p, i, more := HSIZE, HSIZE - 16, true;
    while more
      invariant p == i + 16 <= HSIZE && i >= -16 && (more ==> i >= 0)
      invariant forall s: nat :: p <= s < HSIZE ==> htab[s] == -1
      decreases more, p
    {
      for k := 0 to 16
        invariant forall s: nat :: p - 16 <= s < p - 16 + k || p <= s < HSIZE ==> htab[s] == -1
      {
        htab[p - 16 + k] := -1;
      }
      p, i := p - 16, i - 16;
      more := i >= 0;
    }
    i := i + 16;
    while i > 0
      invariant p == i >= 0
      invariant forall s: nat :: p <= s < HSIZE ==> htab[s] == -1
    {
      p := p - 1;
      htab[p] := -1;
      i := i - 1;
    }
  }

  class HashTable {
    const maxbits: nat
    const htab: array<int>
    const codetab: array<nat>
    /** The entries in the order of their codes, and how many probes lead to each. */
    ghost var entries: seq<Entry>
    ghost var depth: seq<nat>
    /** The entry in each occupied slot. */
    ghost var owner: map<nat, nat>

    ghost function At(i: nat): nat
      requires i < |entries| && i < |depth| && entries[i].prefix < Pow2(BITS)
      reads this
    {
      Slot(HashStart(entries[i]), depth[i])
    }

    ghost predicate Shape()
      reads this
    {
      && htab.Length == HSIZE && codetab.Length == HSIZE
      && maxbits <= BITS
      && |depth| == |entries| == |owner| <= Pow2(BITS) - FIRST
      && forall i {:trigger entries[i]} :: 0 <= i < |entries| ==>
           entries[i].prefix < Pow2(maxbits) && entries[i].prefix < Pow2(BITS)
    }

    /** Every entry is found in its slot, behind occupied slots only. */
    ghost predicate Placed(i: nat)
      requires Shape() && i < |entries|
      reads this, htab, codetab
    {
      && At(i) in owner && owner[At(i)] == i
      && htab[At(i)] == Fcode(maxbits, entries[i]) && codetab[At(i)] == FIRST + i
      && forall j: nat :: j < depth[i] ==> htab[Slot(HashStart(entries[i]), j)] >= 0
    }

    ghost predicate AllPlaced()
      requires Shape()
      reads this, htab, codetab
    {
      forall i: nat {:trigger Placed(i)} :: i < |entries| ==> Placed(i)
    }

    /** The occupied slots are those of the entries. */
    ghost predicate Occupancy()
      requires Shape()
      reads this, htab
    {
      && (forall s: nat :: s < HSIZE ==> (htab[s] >= 0 <==> s in owner))
      && (forall s: nat :: s in owner ==> owner[s] < |entries| && At(owner[s]) == s)
    }

    ghost predicate NoDuplicates()
      reads this
    {
      forall i, j :: 0 <= i < j < |entries| ==> entries[i] != entries[j]
    }

    ghost predicate Valid()
      reads this, htab, codetab
    {
      Shape() && AllPlaced() && Occupancy() && NoDuplicates()
    }

    /** The slots before step j of the probe for e are occupied, and none of them holds e. */
    ghost predicate Missed(e: Entry, j: nat)
      requires Shape() && e.prefix < Pow2(BITS)
      reads this, htab
    {
      forall k: nat :: k < j ==> 0 <= htab[Slot(HashStart(e), k)] != Fcode(maxbits, e)
    }

    constructor (maxbits: nat)
      requires 1 <= maxbits <= BITS
      ensures Valid() && this.maxbits == maxbits && entries == []
      ensures fresh(htab) && fresh(codetab)
    {
      this.maxbits := maxbits;
      htab := new int[HSIZE](i => -1);
      codetab := new nat[HSIZE](i => 0);
      entries, depth, owner := [], [], map[];
    }

    /** An occupied slot that holds the key of e is the slot of e's entry. */
    lemma SlotHolds(e: Entry, s: nat)
      requires Valid() && s < HSIZE && e.prefix < Pow2(BITS)
      requires entries != [] ==> e.prefix < Pow2(maxbits)
      requires htab[s] == Fcode(maxbits, e)
      ensures codetab[s] >= FIRST && Lookup(entries, e) == Some(codetab[s] - FIRST)
    {
      hide Fcode, HashStart, Slot, Pow2;
      assert Occupancy() && NoDuplicates() && AllPlaced();
      var i := owner[s];
      assert Placed(i);
      FcodeInjective(maxbits, e, entries[i]);
    }

    /** A probe that meets a free slot before e proves that e has no entry. */
    lemma FreeSlotRefutes(e: Entry, j: nat)
      requires Valid() && e.prefix < Pow2(BITS)
      requires Missed(e, j) && htab[Slot(HashStart(e), j)] < 0
      ensures e !in entries
    {
      hide HashStart, Fcode, Slot, Pow2, Occupancy, NoDuplicates;
      forall i: nat | i < |entries| ensures entries[i] != e {
        assert Placed(i);
      }
    }

    lemma FreeSlotAhead(e: Entry) returns (j: nat)
      requires Valid() && e.prefix < Pow2(BITS)
      ensures htab[Slot(HashStart(e), j)] < 0
    {
      PowersOfTwo();
      j := FreeSlotReached(HashStart(e), owner.Keys);
    }

    /** What slot i of the table says about e. */
    ghost predicate Answers(e: Entry, i: nat, j: nat)
      requires Shape() && e.prefix < Pow2(BITS)
      reads this, htab, codetab
    {
      && i < HSIZE && i == Slot(HashStart(e), j) && Missed(e, j)
      && match Lookup(entries, e)
         case Some(k) => htab[i] == Fcode(maxbits, e) && codetab[i] == FIRST + k
         case None => htab[i] < 0
    }

    lemma StoppedSlotAnswers(e: Entry, i: nat, j: nat)
      requires Valid() && e.prefix < Pow2(BITS)
      requires entries != [] ==> e.prefix < Pow2(maxbits)
      requires i < HSIZE && i == Slot(HashStart(e), j) && Missed(e, j)
      requires htab[i] < 0 || htab[i] == Fcode(maxbits, e)
      ensures Answers(e, i, j)
    {
      hide HashStart, Fcode, Slot, Pow2, AllPlaced, Occupancy, NoDuplicates;
      if htab[i] < 0 {
        FreeSlotRefutes(e, j);
      } else {
        SlotHolds(e, i);
      }
    }

    /** The search of `zwrite`: probe until the entry is found, or a free slot shows that there is none. */
    method Find(ent: nat, c: Byte) returns (i: nat, found: bool, ghost j: nat)
      requires Valid() && ent < Pow2(BITS)
      requires entries != [] ==> ent < Pow2(maxbits)
      ensures Answers(Entry(ent, c), i, j)
      ensures found <==> Entry(ent, c) in entries
      ensures found <==> htab[i] >= 0
    {
      hide HashStart, Fcode, Slot, Pow2, AllPlaced, Occupancy, NoDuplicates;
      var e := Entry(ent, c);
      var fcode := Fcode(maxbits, e);
      ghost var end := FreeSlotAhead(e);
      i, j := Probe(htab, HashStart(e), fcode, end);
      StoppedSlotAnswers(e, i, j);
      found := htab[i] == fcode;
    }

    /** Store a new string in a free slot. */
    method Store(i: nat, e: Entry, code: nat, ghost j: nat)
      requires Valid() && e.prefix < Pow2(maxbits) && e.prefix < Pow2(BITS) && e !in entries
      requires i < HSIZE && i == Slot(HashStart(e), j) && htab[i] < 0 && |entries| < Pow2(BITS) - FIRST
      modifies this, htab, codetab
      ensures entries == old(entries) + [e] && depth == old(depth) + [j] && owner == old(owner)[i := |old(entries)|]
      ensures htab[..] == old(htab[..])[i := Fcode(maxbits, e)] && codetab[..] == old(codetab[..])[i := code]
      ensures Shape() && Occupancy()
    {
      hide HashStart, Fcode, Slot, Pow2, AllPlaced, NoDuplicates;
      assert i !in owner;
      codetab[i] := code;
      htab[i] := Fcode(maxbits, e);
      entries, depth, owner := entries + [e], depth + [j], owner[i := |entries|];
      assert Shape();
      assert Occupancy();
    }

    /** Give a new string the next code, in the free slot that the search for it found. */
    method Insert(i: nat, ent: nat, c: Byte, code: nat, ghost j: nat)
      requires Valid() && ent < Pow2(maxbits) && ent < Pow2(BITS)
      requires Answers(Entry(ent, c), i, j) && Entry(ent, c) !in entries
      requires code == FIRST + |entries| < Pow2(BITS)
      modifies this, htab, codetab
      ensures Valid() && entries == old(entries) + [Entry(ent, c)]
    {
      hide HashStart, Fcode, Slot, Pow2, Lookup, Occupancy;
      var e := Entry(ent, c);
      FreeSlot(e, i, j);
      Store(i, e, code, j);
      forall k: nat | k < |entries| ensures Placed(k) {
        assert k < |entries| - 1 ==> old(Placed(k));
      }
    }

    /** The answer for a string without an entry is a free slot. */
    lemma FreeSlot(e: Entry, i: nat, j: nat)
      requires Shape() && e.prefix < Pow2(BITS) && Answers(e, i, j) && e !in entries
      ensures htab[i] < 0
    {
      hide Pow2, Slot, HashStart;
    }

    /** Forget every entry. */
    method Clear()
      requires Valid()
      modifies this, htab
      ensures Valid() && entries == []
    {
      Wipe(htab);
      entries, depth, owner := [], [], map[];
    }
  }
}
