/** `def` and `def_close`: copying through a single buffer, with an optional translation table. */
module DdDef {
  import opened Bits
  import opened Basics
  import opened DdOutput

  /** A translation of every byte value. */
  type Table = t: seq<Byte> | |t| == 256 witness seq(256, i => 0)

  /** The bytes of the input, each looked up in the table if there is one. */
  function Translated(s: seq<Byte>, ctab: Option<Table>): seq<Byte> {
    if ctab.None? then s else seq(|s|, i requires 0 <= i < |s| => ctab.value[s[i]])
  }

  lemma TranslatedConcat(a: seq<Byte>, b: seq<Byte>, ctab: Option<Table>)
    ensures Translated(a + b, ctab) == Translated(a, ctab) + Translated(b, ctab)
  {
    if ctab.Some? {
      var t := Translated(a, ctab) + Translated(b, ctab);
      assert |Translated(a + b, ctab)| == |t|;
    }
  }

  lemma {:induction false} PartialCarries(n: nat, m: nat, block: nat)
    requires block > 0
    ensures Partial(Partial(n, block) + m, block) == Partial(n + m, block)
    decreases n
  {
    if n >= block {
      PartialCarries(n - block, m, block);
    }
  }

  /** Taking whole blocks early does not change what is left in the end. */
  lemma RemainderCarries(n: nat, m: nat, block: nat)
    requires block > 0
    ensures (n % block + m) % block == (n + m) % block
  {
    PartialCarries(n, m, block);
    PartialIsRemainder(n, block);
    PartialIsRemainder(n % block + m, block);
    PartialIsRemainder(n + m, block);
  }

  class Copier {
    const ibs: nat
    const ctab: Option<Table>
    /** One buffer serves for input and output. */
    const out: Output
    var dbcnt: nat
    var dbp: nat
    /** All bytes read so far. */
    ghost var input: seq<Byte>

    /**
     Conservation: what is written and what is in the buffer are the translated input; only whole
     blocks have been written, and the buffer never needs more than ibs + obs - 1 bytes.
     */
    ghost predicate Valid()
      reads this, out, out.db
    {
      && ibs > 0 && out.Valid() && out.db.Length == out.dbsz + ibs - 1
      && dbp == dbcnt == out.dbcnt
      && out.Total() == Translated(input, ctab)
      && dbcnt == |input| % out.dbsz
    }

    constructor (ibs: nat, obs: nat, ctab: Option<Table>, plan: seq<nat>)
      requires ibs > 0 && obs > 0
      ensures Valid() && input == [] && this.ibs == ibs && this.ctab == ctab
      ensures fresh(out) && fresh(out.db)
    {
      this.ibs, this.ctab := ibs, ctab;
      var d := new Byte[obs + ibs - 1](i => 0);
      out := new Output(obs, d, plan);
      dbcnt, dbp, input := 0, 0, [];
    }

    /** The bytes of one read go behind those in the buffer. */
    method Read(chunk: seq<Byte>)
      requires dbp == dbcnt && dbp + |chunk| <= out.db.Length
      modifies this`dbcnt, this`dbp, out.db
      ensures dbp == dbcnt == old(dbcnt) + |chunk|
      ensures out.db[..dbcnt] == old(out.db[..dbcnt]) + chunk
    {
      for i := 0 to |chunk|
        invariant out.db[..dbp + i] == old(out.db[..dbp]) + chunk[..i]
        modifies out.db
      {
        out.db[dbp + i] := chunk[i];
      }
      dbcnt, dbp := dbcnt + |chunk|, dbp + |chunk|;
    }

    /** Translate the last n bytes of the buffer in place. */
    method Translate(n: nat)
      requires n <= dbp <= out.db.Length
      modifies out.db
      ensures out.db[..dbp] == old(out.db[..dbp - n]) + Translated(old(out.db[dbp - n..dbp]), ctab)
    {
      if ctab.Some? {
        var inp := dbp - n;
        for i := 0 to n
          invariant forall k :: inp + i <= k < dbp ==> out.db[k] == old(out.db[k])
          invariant forall k :: 0 <= k < inp ==> out.db[k] == old(out.db[k])
          invariant forall k :: inp <= k < inp + i ==> out.db[k] == ctab.value[old(out.db[k])]
        {
          out.db[inp + i] := ctab.value[out.db[inp + i]];
        }
      }
    }

    /** Read and translate: the buffer now ends with the translated bytes of the read. */
    method Append(chunk: seq<Byte>)
      requires dbp == dbcnt && dbp + |chunk| <= out.db.Length
      modifies this`dbcnt, this`dbp, out.db
      ensures dbp == dbcnt == old(dbcnt) + |chunk|
      ensures out.db[..dbcnt] == old(out.db[..dbcnt]) + Translated(chunk, ctab)
    {
      hide Translated;
      Read(chunk);
      assert out.db[..dbp][..dbp - |chunk|] == old(out.db[..dbcnt]);
      assert out.db[dbp - |chunk|..dbp] == chunk;
      Translate(|chunk|);
    }

    /** Write full blocks when there are any. */
    method WriteOut()
      requires ibs > 0 && out.dbsz > 0 && dbp == dbcnt <= out.db.Length
      modifies this`dbcnt, this`dbp, out, out.db
      ensures out.Valid() && dbp == dbcnt == out.dbcnt == old(dbcnt) % out.dbsz
      ensures out.Total() == old(out.written + out.db[..dbcnt])
    {
      PartialIsRemainder(dbcnt, out.dbsz);
      out.dbp := dbp;
      out.dbcnt := dbcnt;
      if dbcnt >= out.dbsz {
        out.DdOut(false);
        dbp := out.dbp;
        dbcnt := out.dbcnt;
      }
    }

    /** One turn of `dd_in` with `def`: a read of any length up to ibs; full blocks are written. */
    method Feed(chunk: seq<Byte>)
      requires Valid() && 0 < |chunk| <= ibs
      modifies this, out, out.db
      ensures Valid() && input == old(input) + chunk
    {
      hide Translated;
      TranslatedConcat(input, chunk, ctab);
      RemainderCarries(|input|, |chunk|, out.dbsz);
      Append(chunk);
      WriteOut();
      input := input + chunk;
    }

    /** `def_close` and the last flush: the output is the translated input. */
    method Close()
      requires Valid()
      modifies this, out, out.db
      ensures input == old(input) && |out.written| == |input|
      ensures ctab.None? ==> out.written == input
      ensures ctab.Some? ==> forall i :: 0 <= i < |input| ==> out.written[i] == ctab.value[input[i]]
    {
      if dbcnt > 0 {
        out.dbcnt := dbcnt;
      }
      if out.dbcnt > 0 {
        out.DdOut(true);
      }
      assert out.written == Translated(input, ctab);
    }
  }
}
