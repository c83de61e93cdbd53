/**
 The output side of dd: bytes collect in a buffer and leave it in blocks of obs bytes, each
 written as often as short and interrupted writes make necessary.
 */
module DdOutput {
  import opened Arithmetic
  import opened Basics
  import opened Bits

  /** What is left of n bytes once whole blocks are taken from them. */
  function Partial(n: nat, block: nat): (r: nat)
    requires block > 0
    ensures r < block && r <= n
  {
    if n < block then n else Partial(n - block, block)
  }

  lemma {:induction false} PartialIsRemainder(n: nat, block: nat)
    requires block > 0
    ensures Partial(n, block) == n % block
    decreases n
  {
    if n < block {
      DivModUnique(n, block, 0, n);
    } else {
      PartialIsRemainder(n - block, block);
      SubtractMod(n, block);
    }
  }

  class Output {
    const dbsz: nat
    const db: array<Byte>
    /** The fill position of the buffer and the number of bytes in it. */
    var dbp: nat
    var dbcnt: nat
    /** The output file. */
    var written: seq<Byte>
    /** How the coming writes turn out: 0 is an interrupted one, k writes at most k bytes; then all succeed. */
    var plan: seq<nat>

    /** The buffer is filled from its start up to dbp. */
    predicate Valid()
      reads this
    {
      dbsz > 0 && dbp == dbcnt <= db.Length
    }

    /** Everything that was ever put out: written already or still in the buffer. */
    ghost function Total(): seq<Byte>
      requires dbcnt <= db.Length
      reads this, db
    {
      written + db[..dbcnt]
    }

    constructor (dbsz: nat, db: array<Byte>, plan: seq<nat>)
      requires dbsz > 0
      ensures Valid() && this.dbsz == dbsz && this.db == db
      ensures dbcnt == 0 && written == []
    {
      this.dbsz, this.db, this.plan := dbsz, db, plan;
      dbp, dbcnt, written := 0, 0, [];
    }

    /** write(2): some of the bytes, or none when a signal interrupts it. */
    method Write(from: nat, cnt: nat) returns (nw: nat)
      requires 0 < cnt && from + cnt <= db.Length
      modifies this`written, this`plan
      ensures nw <= cnt
      ensures written == old(written) + db[from..from + nw]
      ensures if old(plan) == [] then nw == cnt && plan == []
              else plan == old(plan)[1..] && (nw == 0 <==> old(plan)[0] == 0)
    {
      nw := cnt;
      if plan != [] {
        nw := Min(plan[0], cnt);
        plan := plan[1..];
      }
      written := written + db[from..from + nw];
    }

    /** Write n bytes from a position of the buffer, in as many writes as it takes. */
    method WriteBlock(from: nat, n: nat)
      requires 0 < n && from + n <= db.Length
      modifies this`written, this`plan
      ensures written == old(written) + db[from..from + n]
    {
      var cnt, outp := n, from;
      while true
        invariant 0 < cnt <= n && outp + cnt == from + n
        invariant written == old(written) + db[from..outp]
        decreases cnt, |plan|
      {
        var nw := Write(outp, cnt);
        outp := outp + nw;
        if nw == n {
          break;
        }
        if nw == cnt {
          break;
        }
        cnt := cnt - nw;
      }
    }

    /** Write blocks until fewer than obs bytes are left; with force, everything in one block. */
    method WriteBlocks(force: bool)
      requires dbsz > 0 && dbcnt <= db.Length
      requires if force then dbcnt > 0 else dbcnt >= dbsz
      modifies this`dbcnt, this`written, this`plan
      ensures dbcnt <= old(dbcnt) && dbcnt == if force then 0 else Partial(old(dbcnt), dbsz)
      ensures written == old(written) + db[..old(dbcnt) - dbcnt]
    {
      var outp := 0;
      var n := if force then dbcnt else dbsz;
      while true
        invariant 0 < n <= dbcnt && outp + dbcnt == old(dbcnt)
        invariant if force then n == dbcnt == old(dbcnt)
                  else n == dbsz && Partial(dbcnt, dbsz) == Partial(old(dbcnt), dbsz)
        invariant written == old(written) + db[..outp]
        decreases dbcnt
      {
        WriteBlock(outp, n);
        assert db[..outp + n] == db[..outp] + db[outp..outp + n];
        outp := outp + n;
        dbcnt := dbcnt - n;
        if dbcnt < dbsz {
          break;
        }
        n := dbsz;
      }
    }

    /** `dd_out`: write full blocks, or with force whatever there is, and move the rest to the front. */
    method DdOut(force: bool)
      requires dbsz > 0 && dbcnt <= db.Length
      requires if force then dbcnt > 0 else dbcnt >= dbsz && dbp == dbcnt
      modifies this`dbp, this`dbcnt, this`written, this`plan, db
      ensures Valid() && Total() == old(Total())
      ensures dbcnt == if force then 0 else old(dbcnt) % dbsz
    {
      PartialIsRemainder(dbcnt, dbsz);
      ghost var all := db[..dbcnt];
      WriteBlocks(force);
      if dbcnt != 0 {
        Reassemble();
        assert db[..dbcnt] == all[|all| - dbcnt..];
      }
      dbp := dbcnt;
    }

    /** Move the last dbcnt bytes before dbp to the front of the buffer. */
    method Reassemble()
      requires dbcnt <= dbp <= db.Length
      modifies this`dbp, db
      ensures dbp == dbcnt
      ensures db[..dbcnt] == old(db[dbp - dbcnt..dbp])
    {
      MoveToFront(db, dbp - dbcnt, dbcnt);
      dbp := dbcnt;
    }
  }
}
