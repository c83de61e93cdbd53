/**
 The string table of LZW: an entry extends the string of an earlier code by one byte. Codes
 below 256 stand for themselves; entry i has code base + i, where base is 257 when code 256 is
 reserved for CLEAR (block mode) and 256 otherwise.
 */
module LzwTable {
  import opened Bits
  import opened Basics
  import opened CodeBuffer

  const CLEAR: nat := 256
  const FIRST: nat := 257

  datatype Entry = Entry(prefix: nat, suffix: Byte)

  datatype Table = Table(base: nat, entries: seq<Entry>) {
    /** free_ent: the first unused code. */
    function Free(): nat {
      base + |entries|
    }

    /** A code that stands for a string. */
    predicate Known(code: nat) {
      code < 256 || base <= code < Free()
    }

    /** Every entry extends a string known before it. */
    ghost predicate Valid() {
      && 256 <= base <= FIRST
      && forall i {:trigger entries[i]} :: 0 <= i < |entries| ==>
           entries[i].prefix < 256 || base <= entries[i].prefix < base + i
    }

    function Add(prefix: nat, suffix: Byte): Table {
      Table(base, entries + [Entry(prefix, suffix)])
    }

    /** The string of a code. */
    function Expand(code: nat): (s: seq<Byte>)
      requires Valid() && Known(code)
      ensures 1 <= |s|
      ensures code < 256 ==> s == [code]
      ensures code >= 256 ==> |s| <= code - base + 2
      decreases code
    {
      if code < 256 then [code] else
        var e := entries[code - base];
        Expand(e.prefix) + [e.suffix]
    }
  }

  /** Adding an entry changes no string. */
  lemma {:induction false} ExpandStable(t: Table, prefix: nat, suffix: Byte, code: nat)
    requires t.Valid() && t.Known(prefix) && t.Known(code)
    ensures t.Add(prefix, suffix).Valid() && t.Add(prefix, suffix).Known(code)
    ensures t.Add(prefix, suffix).Expand(code) == t.Expand(code)
    decreases code
  {
    if code >= 256 {
      ExpandStable(t, prefix, suffix, t.entries[code - t.base].prefix);
    }
  }

  /** The string of the newest entry. */
  lemma ExpandNew(t: Table, prefix: nat, suffix: Byte)
    requires t.Valid() && t.Known(prefix)
    ensures t.Add(prefix, suffix).Valid()
    ensures t.Add(prefix, suffix).Expand(t.Free()) == t.Expand(prefix) + [suffix]
  {
    ExpandStable(t, prefix, suffix, prefix);
  }

  /** The code of a known extension, as the hash table must answer it. */
  function Lookup(entries: seq<Entry>, e: Entry): (r: Option<nat>)
    ensures r.Some? ==> r.value < |entries| && entries[r.value] == e
    ensures r.None? ==> e !in entries
  {
    if entries == [] then None else
      var last := |entries| - 1;
      match Lookup(entries[..last], e)
      case Some(i) => Some(i)
      case None => if entries[last] == e then Some(last) else None
  }

  /** The largest code of a width; at the widest width the bound is one past the last code. */
  function MaxCode(width: nat, maxbits: nat): nat {
    if width == maxbits && width > INIT_BITS then Pow2(maxbits) else Pow2(width) - 1
  }

  /** The width change both sides make when the next entry would not fit the current width. */
  function Widen(width: nat, maxbits: nat, free: nat): Option<nat> {
    if free > MaxCode(width, maxbits) then Some(width + 1) else None
  }
}
