/**
 Whole runs of dd over any sequence of reads, any block sizes and any short or interrupted
 writes: the output depends on the input bytes alone.
 */
module DdRuns {
  import opened Bits
  import opened Basics
  import opened DdDef
  import opened Pieces
  import opened Records
  import DdBlock
  import DdUnblock

  /** Reads as read(2) delivers them: never empty, never longer than ibs. */
  predicate Reads(pieces: seq<seq<Byte>>, ibs: nat) {
    forall i :: 0 <= i < |pieces| ==> 0 < |pieces[i]| <= ibs
  }

  method Copy(ibs: nat, obs: nat, ctab: Option<Table>, pieces: seq<seq<Byte>>, plan: seq<nat>)
    returns (file: seq<Byte>)
    requires ibs > 0 && obs > 0 && Reads(pieces, ibs)
    ensures |file| == |Flat(pieces)|
    ensures ctab.None? ==> file == Flat(pieces)
    ensures ctab.Some? ==> forall i :: 0 <= i < |file| ==> file[i] == ctab.value[Flat(pieces)[i]]
  {
    var d := new Copier(ibs, obs, ctab, plan);
    assert pieces[..0] == [];
    for i := 0 to |pieces|
      invariant d.Valid() && d.input == Flat(pieces[..i])
      invariant fresh(d) && fresh(d.out) && fresh(d.out.db)
    {
      FlatStep(pieces, i);
      d.Feed(pieces[i]);
    }
    assert pieces[..|pieces|] == pieces;
    d.Close();
    file := d.out.written;
  }

  method Block(ibs: nat, obs: nat, cbsz: nat, pieces: seq<seq<Byte>>, plan: seq<nat>) returns (file: seq<Byte>)
    requires ibs > 0 && obs > 0 && cbsz > 0 && Reads(pieces, ibs)
    ensures file == Blocked(Flat(pieces), cbsz)
  {
    hide Blocked;
    var d := new DdBlock.Blocker(ibs, obs, cbsz, plan);
    assert pieces[..0] == [];
    for i := 0 to |pieces|
      invariant d.Valid() && d.input == Flat(pieces[..i])
      invariant fresh(d) && fresh(d.db) && fresh(d.out) && fresh(d.out.db)
    {
      hide DdBlock.Blocker.Valid;
      FlatStep(pieces, i);
      d.Feed(pieces[i]);
    }
    assert pieces[..|pieces|] == pieces;
    d.Close();
    file := d.out.written;
  }

  method Unblock(ibs: nat, obs: nat, cbsz: nat, pieces: seq<seq<Byte>>, plan: seq<nat>) returns (file: seq<Byte>)
    requires ibs > 0 && obs > 0 && cbsz > 0 && Reads(pieces, ibs)
    ensures file == Unblocked(Flat(pieces), cbsz)
  {
    hide Unblocked;
    var d := new DdUnblock.Unblocker(ibs, obs, cbsz, plan);
    assert pieces[..0] == [];
    for i := 0 to |pieces|
      invariant d.Valid() && d.input == Flat(pieces[..i])
      invariant fresh(d) && fresh(d.db) && fresh(d.out) && fresh(d.out.db)
    {
      hide DdUnblock.Unblocker.Valid;
      FlatStep(pieces, i);
      d.Feed(pieces[i]);
    }
    assert pieces[..|pieces|] == pieces;
    d.Close();
    file := d.out.written;
  }

  /** block into a file, read it back in any pieces, unblock: the text comes back exactly if all lines are plain. */
  method BlockAndBack(
    ibs: nat, obs: nat, ibs': nat, obs': nat, cbsz: nat,
    pieces: seq<seq<Byte>>, plan: seq<nat>, cuts: seq<Byte> -> seq<seq<Byte>>, plan': seq<nat>)
    returns (back: seq<Byte>)
    requires ibs > 0 && obs > 0 && ibs' > 0 && obs' > 0 && cbsz > 0 && Reads(pieces, ibs)
    requires forall f :: Flat(cuts(f)) == f && Reads(cuts(f), ibs')
    ensures back == Flat(pieces) <==> PlainText(Flat(pieces), cbsz)
  {
    hide Blocked, Unblocked, PlainText;
    var file := Block(ibs, obs, cbsz, pieces, plan);
    RoundTripExactly(Flat(pieces), cbsz);
    back := Unblock(ibs', obs', cbsz, cuts(file), plan');
  }
}
