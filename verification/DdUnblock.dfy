/** `unblock` and `unblock_close`: fixed records to lines, over the input and output buffers. */
module DdUnblock {
  import opened Basics
  import opened Bits
  import opened DdOutput
  import opened Records

  class Unblocker {
    const ibs: nat
    const cbsz: nat
    const db: array<Byte>
    const out: Output
    var dbcnt: nat
    var dbp: nat
    /** All bytes read so far. */
    ghost var input: seq<Byte>

    /** Buffers of the sizes that dd allocates. */
    predicate Buffers()
      reads this, out
    {
      && ibs > 0 && cbsz > 0
      && db != out.db
      && db.Length == (if ibs > cbsz then ibs else cbsz) + cbsz
      && out.Valid() && out.db.Length == out.dbsz + cbsz && out.dbcnt < out.dbsz
    }

    /** Whole records are out as lines; the start of the next one is in the buffer. */
    ghost predicate Valid()
      reads this, db, out, out.db
    {
      && Buffers() && dbp == dbcnt < cbsz
      && out.Total() == WholeLines(input, cbsz)
      && db[..dbcnt] == Left(input, cbsz)
    }

    constructor (ibs: nat, obs: nat, cbsz: nat, plan: seq<nat>)
      requires ibs > 0 && obs > 0 && cbsz > 0
      ensures Valid() && input == [] && this.cbsz == cbsz && this.ibs == ibs
      ensures fresh(db) && fresh(out) && fresh(out.db)
    {
      this.ibs, this.cbsz := ibs, cbsz;
      var d := new Byte[(if ibs > cbsz then ibs else cbsz) + cbsz](i => 0);
      var o := new Byte[obs + cbsz](i => 0);
      db := d;
      out := new Output(obs, o, plan);
      dbcnt, dbp, input := 0, 0, [];
    }

    /** Copy cnt bytes at inp behind the output. */
    method CopyOut(inp: nat, cnt: nat)
      requires Buffers() && cnt <= cbsz && inp + cnt <= db.Length
      modifies out.db
      ensures out.db[..out.dbcnt + cnt] == old(out.db[..out.dbcnt]) + db[inp..inp + cnt]
    {
      for i := 0 to cnt
        invariant out.db[..out.dbcnt + i] == old(out.db[..out.dbcnt]) + db[inp..inp + i]
      {
        out.db[out.dbcnt + i] := db[inp + i];
      }
    }

    /** Put the record of n bytes at inp behind the output, without its trailing blanks, and end the line. */
    method PutLine(inp: nat, n: nat)
      requires Buffers() && n <= cbsz && inp + n <= db.Length
      modifies out`dbp, out`dbcnt, out.db
      ensures out.Valid() && out.dbcnt <= out.db.Length
      ensures out.Total() == old(out.Total()) + (Trim(db[inp..inp + n]) + [NEWLINE])
    {
      hide Trim;
      var cnt := TrimmedLength(inp, n);
      CopyOut(inp, cnt);
      assert db[inp..inp + n][..cnt] == db[inp..inp + cnt];
      out.db[out.dbp + cnt] := NEWLINE;
      assert out.db[..out.dbcnt + cnt + 1] == out.db[..out.dbcnt + cnt] + [NEWLINE];
      out.dbp := out.dbp + cnt + 1;
      out.dbcnt := out.dbcnt + cnt + 1;
    }

    /** The length of a record without its trailing blanks. */
    method TrimmedLength(inp: nat, n: nat) returns (t: nat)
      requires inp + n <= db.Length
      ensures t == |Trim(db[inp..inp + n])|
    {
      t := n;
      while t > 0 && db[inp + t - 1] == SPACE
        invariant t <= n && Trim(db[inp..inp + n]) == Trim(db[inp..inp + t])
      {
        assert db[inp..inp + t][..t - 1] == db[inp..inp + t - 1];
        t := t - 1;
      }
    }

    /** The input that is left moves to the front of its buffer. */
    method Keep()
      requires dbcnt <= dbp <= db.Length
      modifies db, this`dbp
      ensures dbp == dbcnt && db[..dbcnt] == old(db[dbp - dbcnt..dbp])
    {
      MoveToFront(db, dbp - dbcnt, dbcnt);
      dbp := dbcnt;
    }

    /** One record from the input buffer. */
    method TakeRecord(inp: nat)
      requires Buffers() && inp + cbsz <= db.Length
      modifies out, out.db
      ensures Buffers() && out.Total() == old(out.Total()) + (Trim(db[inp..inp + cbsz]) + [NEWLINE])
    {
      hide Trim;
      PutLine(inp, cbsz);
      if out.dbcnt >= out.dbsz {
        out.DdOut(false);
      }
    }

    /** Every whole record in the buffer becomes a line. */
    method ConvertRecords()
      requires Buffers() && dbp == dbcnt <= db.Length
      modifies this`dbcnt, out, out.db
      ensures Buffers() && dbcnt < cbsz && dbcnt <= dbp
      ensures out.Total() == old(out.Total()) + WholeLines(old(db[..dbcnt]), cbsz)
      ensures db[dbp - dbcnt..dbp] == Left(old(db[..dbcnt]), cbsz)
    {
      hide Trim, WholeLines, Left;
      ghost var all, goal := db[..dbcnt], out.Total() + WholeLines(db[..dbcnt], cbsz);
      var inp: nat := 0;
      assert db[0..dbp] == all;
      while dbcnt >= cbsz
        invariant Buffers() && inp + dbcnt == dbp
        invariant out.Total() + WholeLines(db[inp..dbp], cbsz) == goal
        invariant Left(db[inp..dbp], cbsz) == Left(all, cbsz)
      {
        FirstRecord(db[inp..dbp], cbsz);
        assert db[inp..dbp][..cbsz] == db[inp..inp + cbsz] && db[inp..dbp][cbsz..] == db[inp + cbsz..dbp];
        TakeRecord(inp);
        inp, dbcnt := inp + cbsz, dbcnt - cbsz;
      }
      NoRecord(db[inp..dbp], cbsz);
    }

    /** `unblock`: convert, and keep the start of the next record. */
    method Unblock()
      requires Buffers() && dbp == dbcnt <= db.Length
      modifies this`dbcnt, this`dbp, db, out, out.db
      ensures Buffers() && dbp == dbcnt < cbsz
      ensures out.Total() == old(out.Total()) + WholeLines(old(db[..dbcnt]), cbsz)
      ensures db[..dbcnt] == Left(old(db[..dbcnt]), cbsz)
    {
      hide WholeLines, Left;
      ConvertRecords();
      Keep();
    }

    /** The bytes of one read go behind those in the buffer. */
    method Read(chunk: seq<Byte>)
      requires dbp == dbcnt && dbp + |chunk| <= db.Length
      modifies this`dbcnt, this`dbp, db
      ensures dbp == dbcnt <= db.Length && db[..dbcnt] == old(db[..dbcnt]) + chunk
    {
      for i := 0 to |chunk|
        invariant db[..dbp + i] == old(db[..dbp]) + chunk[..i]
        modifies db
      {
        db[dbp + i] := chunk[i];
      }
      dbcnt, dbp := dbcnt + |chunk|, dbp + |chunk|;
    }

    /** One turn of `dd_in`: a read of any length up to ibs, and its conversion. */
    method Feed(chunk: seq<Byte>)
      requires Valid() && 0 < |chunk| <= ibs
      modifies this, db, out, out.db
      ensures Valid() && input == old(input) + chunk
    {
      hide WholeLines, Left;
      LeftCarries(input, chunk, cbsz);
      Read(chunk);
      Unblock();
      input := input + chunk;
    }

    /** `unblock_close` and the last flush: the output is unblock of the whole input. */
    method Close()
      requires Valid()
      modifies this, out, out.db
      ensures out.written == Unblocked(input, cbsz)
      ensures input == old(input)
    {
      hide WholeLines, Left, Trim, Unblocked;
      UnblockedParts(input, cbsz);
      if dbcnt > 0 {
        assert db[0..dbcnt] == db[..dbcnt];
        PutLine(0, dbcnt);
      }
      if out.dbcnt > 0 {
        out.DdOut(true);
      }
    }
  }
}
