/** `block` and `block_close`: lines to fixed records, over the input and output buffers. */
module DdBlock {
  import opened Basics
  import opened Bits
  import opened DdOutput
  import opened Records

  class Blocker {
    const ibs: nat
    const cbsz: nat
    const db: array<Byte>
    const out: Output
    /** Bytes in the input buffer, and the end of the last read in it. */
    var dbcnt: nat
    var dbp: nat
    var dbrcnt: nat
    var intrunc: bool
    /** All bytes read so far. */
    ghost var input: seq<Byte>

    /** Buffers of the sizes that dd allocates. */
    predicate Buffers()
      reads this, out
    {
      && ibs > 0 && cbsz > 0
      && db != out.db
      && db.Length == (if ibs > cbsz then ibs else cbsz) + cbsz
      && out.Valid() && out.db.Length == out.dbsz + cbsz && out.dbcnt < out.dbsz
    }

    ghost function View(): Scan
      requires dbcnt <= db.Length && out.dbcnt <= out.db.Length
      reads this, db, out, out.db
    {
      Scan(db[..dbcnt], intrunc, out.Total())
    }

    /** The state after any sequence of reads is the scan of their concatenation. */
    ghost predicate Valid()
      reads this, db, out, out.db
    {
      && Buffers() && dbp == dbcnt < cbsz
      && NEWLINE !in db[..dbcnt] && (intrunc ==> dbcnt == 0)
      && View() == ScanAll(Scan([], false, []), input, cbsz)
    }

    constructor (ibs: nat, obs: nat, cbsz: nat, plan: seq<nat>)
      requires ibs > 0 && obs > 0 && cbsz > 0
      ensures Valid() && input == [] && this.cbsz == cbsz && this.ibs == ibs
      ensures fresh(db) && fresh(out) && fresh(out.db)
    {
      this.ibs, this.cbsz := ibs, cbsz;
      var d := new Byte[(if ibs > cbsz then ibs else cbsz) + cbsz](i => 0);
      var o := new Byte[obs + cbsz](i => 0);
      db := d;
      out := new Output(obs, o, plan);
      dbcnt, dbp, dbrcnt, intrunc, input := 0, 0, 0, false, [];
    }

    /** Skip to behind the next newline. */
    method SkipLine(from: nat) returns (inp: nat, found: bool)
      requires from <= dbp <= db.Length
      ensures var text := db[from..dbp];
              && found == (|Line(text)| < |text|)
              && (if found then from < inp <= dbp && db[inp..dbp] == Rest(text) else inp == dbp)
    {
      inp, found := from, false;
      while inp < dbp && !found
        invariant from <= inp <= dbp
        invariant forall i :: from <= i < (if found then inp - 1 else inp) ==> db[i] != NEWLINE
        invariant found ==> from < inp && db[inp - 1] == NEWLINE
      {
        found := db[inp] == NEWLINE;
        inp := inp + 1;
      }
      LineEndsAt(db[from..dbp], if found then inp - 1 - from else inp - from);
    }

    /** Copy bytes behind the output until a newline or maxlen bytes. */
    method CopyLine(inp: nat, maxlen: nat) returns (cnt: nat, nl: bool)
      requires Buffers() && maxlen <= cbsz && inp + maxlen <= dbp <= db.Length
      modifies out.db
      ensures cnt <= maxlen && nl == (cnt < maxlen)
      ensures if nl then Line(db[inp..dbp]) == db[inp..inp + cnt] && cnt < |db[inp..dbp]|
              else cnt <= |Line(db[inp..dbp])|
      ensures out.db[..out.dbcnt + cnt] == old(out.db[..out.dbcnt]) + db[inp..inp + cnt]
    {
      hide Line;
      cnt := 0;
      while cnt < maxlen && db[inp + cnt] != NEWLINE
        invariant cnt <= maxlen
        invariant forall i :: inp <= i < inp + cnt ==> db[i] != NEWLINE
        invariant out.db[..out.dbcnt + cnt] == old(out.db[..out.dbcnt]) + db[inp..inp + cnt]
      {
        out.db[out.dbcnt + cnt] := db[inp + cnt];
        cnt := cnt + 1;
      }
      nl := cnt < maxlen;
      LineEndsAt(db[inp..dbp], cnt);
    }

    /** Pad the record behind the output with spaces. */
    method Pad(cnt: nat, ghost line: seq<Byte>)
      requires Buffers() && cnt == |line| <= cbsz
      requires out.db[out.dbcnt..out.dbcnt + cnt] == line
      modifies out.db
      ensures out.db[..out.dbcnt] == old(out.db[..out.dbcnt])
      ensures out.db[out.dbcnt..out.dbcnt + cbsz] == Record(line, cbsz)
    {
      for i := cnt to cbsz
        invariant out.db[..out.dbcnt] == old(out.db[..out.dbcnt])
        invariant out.db[out.dbcnt..out.dbcnt + i] == line + Spaces(i - cnt)
      {
        out.db[out.dbcnt + i] := SPACE;
      }
      assert cnt == cbsz ==> line + Spaces(0) == line == line[..cbsz];
    }

    /** Make the record behind the output part of it. */
    method Commit(ghost record: seq<Byte>)
      requires Buffers() && |record| == cbsz
      requires out.db[out.dbcnt..out.dbcnt + cbsz] == record
      modifies out, out.db
      ensures Buffers() && out.Total() == old(out.Total()) + record
    {
      assert out.db[..out.dbcnt + cbsz] == out.db[..out.dbcnt] + record;
      out.dbp := out.dbp + cbsz;
      out.dbcnt := out.dbcnt + cbsz;
      if out.dbcnt >= out.dbsz {
        out.DdOut(false);
      }
    }

    /** What is still to be scanned, from a position of the input buffer on. */
    ghost function Ahead(inp: nat): Scan
      requires inp <= dbp <= db.Length && out.dbcnt <= out.db.Length
      reads this, db, out, out.db
    {
      if intrunc then Scan([], true, out.Total()) else ScanAll(Scan([], false, out.Total()), db[inp..dbp], cbsz)
    }

    /** A line that ends within a record's length. */
    method ShortRecord(inp: nat, cnt: nat) returns (next: nat)
      requires Buffers() && !intrunc && inp + dbcnt == dbp <= db.Length
      requires cnt < cbsz && cnt < dbcnt && Line(db[inp..dbp]) == db[inp..inp + cnt]
      requires out.db[out.dbcnt..out.dbcnt + cnt] == db[inp..inp + cnt]
      modifies this`dbcnt, out, out.db
      ensures Buffers() && next + dbcnt == dbp && dbcnt < old(dbcnt)
      ensures Ahead(next) == old(Ahead(inp))
    {
      ghost var line := db[inp..inp + cnt];
      ScanShort(out.Total(), db[inp..dbp], cbsz);
      hide ScanAll, Line, Record;
      Pad(cnt, line);
      Commit(Record(line, cbsz));
      next, dbcnt := inp + cnt + 1, dbcnt - cnt - 1;
      assert db[next..dbp] == db[inp..dbp][cnt + 1..];
    }

    /** A line at least as long as a record: its end is tossed, now or with later reads. */
    method FullRecord(inp: nat) returns (next: nat)
      requires Buffers() && !intrunc && inp + dbcnt == dbp <= db.Length
      requires cbsz <= dbcnt && cbsz <= |Line(db[inp..dbp])|
      requires out.db[out.dbcnt..out.dbcnt + cbsz] == db[inp..inp + cbsz]
      modifies this`dbcnt, this`intrunc, out, out.db
      ensures Buffers() && next + dbcnt == dbp && dbcnt < old(dbcnt) && (intrunc ==> dbcnt == 0)
      ensures Ahead(next) == old(Ahead(inp))
    {
      hide ScanAll, Line, Rest;
      ghost var text := db[inp..dbp];
      AfterFull(out.Total(), text);
      assert text[cbsz..] == db[inp + cbsz..dbp] && text[..cbsz] == db[inp..inp + cbsz];
      Commit(text[..cbsz]);
      var found;
      next, found := SkipLine(inp + cbsz);
      dbcnt := dbp - next;
      intrunc := !found;
    }

    /** The start of a record moves to the front of its buffer. */
    method KeepStart(inp: nat)
      requires Buffers() && !intrunc && inp + dbcnt == dbp <= db.Length
      requires |Line(db[inp..dbp])| == dbcnt < cbsz
      modifies db
      ensures NEWLINE !in db[..dbcnt] && View() == old(Ahead(inp))
    {
      hide ScanAll, Line;
      LeftOver(out.Total(), db[inp..dbp]);
      MoveToFront(db, inp, dbcnt);
    }

    /** One line, or the start of one that the buffer ends in. */
    method ConvertLine(inp: nat) returns (next: nat, done: bool)
      requires Buffers() && !intrunc && inp + dbcnt == dbp <= db.Length && dbcnt > 0
      modifies this`dbcnt, this`intrunc, db, out, out.db
      ensures Buffers() && (intrunc ==> dbcnt == 0)
      ensures if done
              then && !intrunc && dbcnt < cbsz && dbcnt <= db.Length && NEWLINE !in db[..dbcnt]
                   && View() == old(Ahead(inp))
              else next + dbcnt == dbp && dbcnt < old(dbcnt) && Ahead(next) == old(Ahead(inp))
    {
      hide ScanAll, Line, Rest;
      next, done := inp, false;
      var cnt, nl := CopyLine(inp, Min(cbsz, dbcnt));
      assert out.db[..out.dbcnt] == out.db[..out.dbcnt + cnt][..out.dbcnt];
      assert out.db[out.dbcnt..out.dbcnt + cnt] == out.db[..out.dbcnt + cnt][out.dbcnt..];
      if !nl && dbcnt < cbsz {
        KeepStart(inp);
        done := true;
      } else if nl {
        next := ShortRecord(inp, cnt);
      } else {
        next := FullRecord(inp);
      }
    }

    /** Convert the bytes between inp and the end of the buffer, outside a long line. */
    method ConvertLines(start: nat)
      requires Buffers() && !intrunc && start + dbcnt == dbp <= db.Length
      modifies this`dbcnt, this`intrunc, db, out, out.db
      ensures Buffers() && dbcnt < cbsz && dbcnt <= db.Length && NEWLINE !in db[..dbcnt] && (intrunc ==> dbcnt == 0)
      ensures View() == ScanAll(Scan([], false, old(out.Total())), old(db[start..dbp]), cbsz)
    {
      ghost var goal := Ahead(start);
      var inp := start;
      while dbcnt > 0
        invariant Buffers() && inp + dbcnt == dbp <= db.Length && (intrunc ==> dbcnt == 0)
        invariant Ahead(inp) == goal
        decreases dbcnt
      {
        var done;
        inp, done := ConvertLine(inp);
        if done {
          return;
        }
      }
    }

    /** A full record goes out and the rest of its line is tossed. */
    lemma AfterFull(total: seq<Byte>, text: seq<Byte>)
      requires 0 < cbsz <= |Line(text)|
      ensures var tail := text[cbsz..];
              ScanAll(Scan([], false, total), text, cbsz) ==
              if |Line(tail)| < |tail| then ScanAll(Scan([], false, total + text[..cbsz]), Rest(tail), cbsz)
              else Scan([], true, total + text[..cbsz])
    {
      hide ScanAll, Line, Rest;
      ScanFull(total, text, cbsz);
      ScanToss(total + text[..cbsz], text[cbsz..], cbsz);
    }

    /** The start of a record stays in the input buffer. */
    lemma LeftOver(total: seq<Byte>, text: seq<Byte>)
      requires |Line(text)| == |text| < cbsz
      ensures NEWLINE !in text && ScanAll(Scan([], false, total), text, cbsz) == Scan(text, false, total)
    {
      assert Line(text) == text;
      ScanStart(Scan([], false, total), text, cbsz);
      assert [] + text == text;
    }

    /** `block`: first the end of a long line, if one is being tossed, then line by line. */
    method Block()
      requires Buffers() && dbp == dbcnt <= db.Length && (intrunc ==> dbcnt == dbrcnt)
      modifies this`dbcnt, this`dbp, this`intrunc, db, out, out.db
      ensures Buffers() && dbp == dbcnt < cbsz && NEWLINE !in db[..dbcnt] && (intrunc ==> dbcnt == 0)
      ensures View() == ScanAll(Scan([], old(intrunc), old(out.Total())), old(db[..dbcnt]), cbsz)
    {
      hide ScanAll, Line, Rest;
      assert db[0..dbp] == db[..dbcnt];
      var start := 0;
      if intrunc {
        ScanToss(out.Total(), db[0..dbp], cbsz);
        var found;
        start, found := SkipLine(0);
        if !found {
          dbcnt := 0;
          dbp := 0;
          return;
        }
        intrunc := false;
        dbcnt := dbp - start;
      }
      ConvertLines(start);
      dbp := dbcnt;
    }

    /** The bytes of one read go behind those in the buffer. */
    method Read(chunk: seq<Byte>)
      requires 0 < |chunk| && dbp == dbcnt && dbp + |chunk| <= db.Length
      modifies this`dbcnt, this`dbp, this`dbrcnt, db
      ensures dbp == dbcnt <= db.Length && dbrcnt == |chunk|
      ensures db[..dbcnt] == old(db[..dbcnt]) + chunk
    {
      for i := 0 to |chunk|
        invariant db[..dbp + i] == old(db[..dbp]) + chunk[..i]
        modifies db
      {
        db[dbp + i] := chunk[i];
      }
      dbrcnt := |chunk|;
      dbcnt := dbcnt + dbrcnt;
      dbp := dbp + dbrcnt;
    }

    /** One turn of `dd_in`: a read of any length up to ibs, and its conversion. */
    method Feed(chunk: seq<Byte>)
      requires Valid() && 0 < |chunk| <= ibs
      modifies this, db, out, out.db
      ensures Valid() && input == old(input) + chunk
    {
      hide ScanAll, Line;
      ghost var left, total := db[..dbcnt], out.Total();
      ScanConcat(Scan([], false, []), input, chunk, cbsz);
      assert ScanAll(Scan([], intrunc, total), left + chunk, cbsz) == ScanAll(View(), chunk, cbsz) by {
        Collected(total, left, chunk);
      }
      Read(chunk);
      Block();
      input := input + chunk;
    }

    /** Scanning again what was left over is scanning on. */
    lemma Collected(total: seq<Byte>, left: seq<Byte>, chunk: seq<Byte>)
      requires NEWLINE !in left && |left| < cbsz
      ensures ScanAll(Scan([], false, total), left + chunk, cbsz) == ScanAll(Scan(left, false, total), chunk, cbsz)
      ensures left == [] ==>
        ScanAll(Scan([], true, total), left + chunk, cbsz) == ScanAll(Scan(left, true, total), chunk, cbsz)
    {
      hide ScanAll;
      ScanConcat(Scan([], false, total), left, chunk, cbsz);
      ScanStart(Scan([], false, total), left, cbsz);
      assert [] + left == left && (left == [] ==> left + chunk == chunk);
    }

    /** `block_close`: what is left in the input buffer is a record. */
    method BlockClose()
      requires Buffers() && dbp == dbcnt < cbsz
      modifies out`dbcnt, out.db
      ensures out.dbsz > 0 && out.dbcnt <= out.db.Length
      ensures out.Total() == if dbcnt == 0 then old(out.Total()) else old(out.Total()) + Record(db[..dbcnt], cbsz)
    {
      hide Record;
      if dbcnt > 0 {
        CopyOut();
        Pad(dbcnt, db[..dbcnt]);
        ghost var front, record := out.db[..out.dbcnt], Record(db[..dbcnt], cbsz);
        assert out.db[..out.dbcnt + cbsz] == front + record;
        out.dbcnt := out.dbcnt + cbsz;
        assert out.written + (front + record) == out.written + front + record;
      }
    }

    /** `block_close` and the last flush: the output is block of the whole input. */
    method Close()
      requires Valid()
      modifies this, out, out.db
      ensures out.written == Blocked(input, cbsz)
      ensures input == old(input)
    {
      hide ScanAll, Line, Rest, Blocked, Record;
      ScanIsBlocked([], input, cbsz);
      assert [] + Blocked(input, cbsz) == Blocked(input, cbsz);
      BlockClose();
      if out.dbcnt > 0 {
        out.DdOut(true);
      }
    }

    /** The start of a record goes behind the output. */
    method CopyOut()
      requires Buffers() && dbp == dbcnt < cbsz
      modifies out.db
      ensures out.db[..out.dbcnt] == old(out.db[..out.dbcnt])
      ensures out.db[out.dbcnt..out.dbcnt + dbcnt] == db[..dbcnt]
    {
      for i := 0 to dbcnt
        invariant out.db[..out.dbcnt] == old(out.db[..out.dbcnt])
        invariant out.db[out.dbcnt..out.dbcnt + i] == db[..i]
      {
        out.db[out.dbcnt + i] := db[i];
      }
    }
  }
}
