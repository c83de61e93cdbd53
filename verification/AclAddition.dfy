/** Adding entries to an access control list without giving a position. */
module AclAddition {
  import opened Basics
  import opened AclEntries

  /** How many entries at the front rank above an entry. */
  function Above(acl: seq<Entry>, m: Entry): (n: nat)
    ensures n <= |acl| && forall i :: 0 <= i < n ==> Outranks(acl[i], m)
    ensures n < |acl| ==> !Outranks(acl[n], m)
  {
    if acl == [] || !Outranks(acl[0], m) then 0 else 1 + Above(acl[1..], m)
  }

  function Insert(acl: seq<Entry>, pos: nat, m: Entry): (r: seq<Entry>)
    requires pos <= |acl|
    ensures |r| == |acl| + 1
  {
    acl[..pos] + [m] + acl[pos..]
  }

  /** Nothing to do, a merge, or an insertion at the canonical position. */
  function Added(acl: seq<Entry>, m: Entry): seq<Entry> {
    var last := LastAlike(acl, m);
    if m in acl then acl
    else if last >= 0 then acl[last := Merge(acl[last], m)]
    else Insert(acl, Above(acl, m), m)
  }

  function AddedAll(acl: seq<Entry>, ms: seq<Entry>): seq<Entry> {
    if ms == [] then acl else Added(AddedAll(acl, ms[..|ms| - 1]), ms[|ms| - 1])
  }

  /** What a list grants or denies: the permissions of all entries alike. */
  ghost predicate Speaks(acl: seq<Entry>, m: Entry, p: Perm) {
    exists e <- acl :: Alike(e, m) && p in e.perms
  }

  lemma InsertedAt(acl: seq<Entry>, pos: nat, m: Entry, i: nat)
    requires pos <= |acl| && i <= |acl|
    ensures Insert(acl, pos, m)[i] == if i < pos then acl[i] else if i == pos then m else acl[i - 1]
  {
  }

  lemma InsertedCanonical(acl: seq<Entry>, m: Entry)
    requires Canonical(acl)
    ensures Canonical(Insert(acl, Above(acl, m), m))
  {
    hide Above, Insert, Outranks;
    var pos := Above(acl, m);
    var after := Insert(acl, pos, m);
    forall i, j | 0 <= i < j < |after| ensures !Outranks(after[j], after[i]) {
      InsertedAt(acl, pos, m, i);
      InsertedAt(acl, pos, m, j);
      if j == pos {
        NotBoth(acl[i], m);
      } else if i == pos && j > pos + 1 {
        RankCarries(m, acl[pos], acl[j - 1]);
      }
    }
  }

  lemma AddedCanonical(acl: seq<Entry>, m: Entry)
    requires Canonical(acl)
    ensures Canonical(Added(acl, m))
  {
    hide Above, Insert;
    InsertedCanonical(acl, m);
  }

  /** Canonical order survives any run of additions. */
  lemma {:induction false} AddedAllCanonical(acl: seq<Entry>, ms: seq<Entry>)
    requires Canonical(acl)
    ensures Canonical(AddedAll(acl, ms))
  {
    if ms != [] {
      AddedAllCanonical(acl, ms[..|ms| - 1]);
      AddedCanonical(AddedAll(acl, ms[..|ms| - 1]), ms[|ms| - 1]);
    }
  }

  /** Repeating an addition changes nothing. */
  lemma AddedTwice(acl: seq<Entry>, m: Entry)
    ensures Added(Added(acl, m), m) == Added(acl, m)
  {
    var last, once := LastAlike(acl, m), Added(acl, m);
    if m !in acl && last >= 0 {
      var merged := Merge(acl[last], m);
      assert merged.flags == m.flags && Alike(once[last], m) && Merge(merged, m) == merged;
      assert LastAlike(once, m) == last;
    } else if m !in acl {
      assert once[Above(acl, m)] == m;
    }
  }

  lemma MergedSpeaks(acl: seq<Entry>, at: nat, m: Entry, k: Entry, p: Perm)
    requires at < |acl| && Alike(acl[at], m)
    ensures Speaks(acl[at := Merge(acl[at], m)], k, p) <==> Speaks(acl, k, p) || (Alike(m, k) && p in m.perms)
  {
    var after := acl[at := Merge(acl[at], m)];
    assert after[at] in after && acl[at] in acl;
    forall i | 0 <= i < |acl| && i != at ensures acl[i] in after && after[i] in acl {
      assert after[i] == acl[i];
    }
  }

  lemma InsertedSpeaks(acl: seq<Entry>, pos: nat, m: Entry, k: Entry, p: Perm)
    requires pos <= |acl|
    ensures Speaks(Insert(acl, pos, m), k, p) <==> Speaks(acl, k, p) || (Alike(m, k) && p in m.perms)
  {
    InsertedHas(acl, pos, m);
    hide Insert;
  }

  lemma InsertedHas(acl: seq<Entry>, pos: nat, m: Entry)
    requires pos <= |acl|
    ensures forall e :: e in Insert(acl, pos, m) <==> e in acl || e == m
  {
    assert acl == acl[..pos] + acl[pos..];
  }

  /** An addition adds its permissions to the entries alike, and no others. */
  lemma AddedSpeaks(acl: seq<Entry>, m: Entry, k: Entry, p: Perm)
    ensures Speaks(Added(acl, m), k, p) <==> Speaks(acl, k, p) || (Alike(m, k) && p in m.perms)
  {
    var last := LastAlike(acl, m);
    if m !in acl && last >= 0 {
      MergedSpeaks(acl, last, m, k, p);
    } else if m !in acl {
      InsertedSpeaks(acl, Above(acl, m), m, k, p);
    }
  }

  lemma FrontOrLast(ms: seq<Entry>)
    requires ms != []
    ensures forall e :: e in ms <==> e in ms[..|ms| - 1] || e == ms[|ms| - 1]
  {
    assert ms == ms[..|ms| - 1] + [ms[|ms| - 1]];
  }

  /** A run of additions grants and denies what the list and the additions do, in whatever order. */
  lemma {:induction false} AddedAllSpeaks(acl: seq<Entry>, ms: seq<Entry>, k: Entry, p: Perm)
    ensures Speaks(AddedAll(acl, ms), k, p) <==> Speaks(acl, k, p) || Speaks(ms, k, p)
  {
    if ms != [] {
      var front, m := ms[..|ms| - 1], ms[|ms| - 1];
      AddedAllSpeaks(acl, front, k, p);
      AddedSpeaks(AddedAll(acl, front), m, k, p);
      FrontOrLast(ms);
    }
  }

  /** No two entries speak of the same user in the same way. */
  ghost predicate Unlike(acl: seq<Entry>) {
    forall i, j :: 0 <= i < j < |acl| ==> !Alike(acl[i], acl[j])
  }

  lemma AddedUnlike(acl: seq<Entry>, m: Entry)
    requires Unlike(acl)
    ensures Unlike(Added(acl, m))
  {
    var last, after, pos := LastAlike(acl, m), Added(acl, m), Above(acl, m);
    var inserted := m !in acl && last < 0;
    forall i, j | 0 <= i < j < |after| ensures !Alike(after[i], after[j]) {
      var i', j' := if inserted && i > pos then i - 1 else i, if inserted && j > pos then j - 1 else j;
      assert inserted && i != pos ==> after[i] == acl[i'];
      assert inserted && j != pos ==> after[j] == acl[j'];
      assert !inserted ==> Alike(after[i], acl[i]) && Alike(after[j], acl[j]);
    }
  }

  lemma {:induction false} AddedAllUnlike(acl: seq<Entry>, ms: seq<Entry>)
    requires Unlike(acl)
    ensures Unlike(AddedAll(acl, ms))
  {
    if ms != [] {
      AddedAllUnlike(acl, ms[..|ms| - 1]);
      AddedUnlike(AddedAll(acl, ms[..|ms| - 1]), ms[|ms| - 1]);
    }
  }

  /** Whether a list has an entry for the user, tag and flags of another. */
  ghost predicate Mentions(acl: seq<Entry>, k: Entry) {
    exists e <- acl :: Alike(e, k)
  }

  lemma AddedMentions(acl: seq<Entry>, m: Entry, k: Entry)
    ensures Mentions(Added(acl, m), k) <==> Mentions(acl, k) || Alike(m, k)
  {
    var last, after := LastAlike(acl, m), Added(acl, m);
    if m !in acl && last < 0 {
      InsertedHas(acl, Above(acl, m), m);
    } else if m !in acl {
      assert after[last] in after && Alike(after[last], m) && acl[last] in acl;
      forall i | 0 <= i < |acl| ensures after[i] in after && Alike(after[i], acl[i]) {
      }
    }
  }

  lemma {:induction false} AddedAllMentions(acl: seq<Entry>, ms: seq<Entry>, k: Entry)
    ensures Mentions(AddedAll(acl, ms), k) <==> Mentions(acl, k) || Mentions(ms, k)
  {
    if ms != [] {
      var front, m := ms[..|ms| - 1], ms[|ms| - 1];
      AddedAllMentions(acl, front, k);
      AddedMentions(AddedAll(acl, front), m, k);
      FrontOrLast(ms);
    }
  }

  /** Two lists of entries unlike each other that mention, grant and deny the same have the same entries. */
  lemma SameEntries(a: seq<Entry>, b: seq<Entry>, e: Entry)
    requires Unlike(a) && Unlike(b) && e in a
    requires Mentions(a, e) <==> Mentions(b, e)
    requires forall p :: Speaks(a, e, p) <==> Speaks(b, e, p)
    ensures e in b
  {
    assert Alike(e, e);
    var f :| f in b && Alike(f, e);
    forall q ensures q in e.perms <==> q in f.perms {
      assert Speaks(a, e, q) <==> q in e.perms;
      assert Speaks(b, e, q) <==> q in f.perms;
    }
    assert f == e;
  }

  /** The entries that a run leaves do not depend on the order of the additions. */
  lemma AnyOrder(acl: seq<Entry>, ms: seq<Entry>, ns: seq<Entry>, e: Entry)
    requires Unlike(acl) && (forall m :: m in ms <==> m in ns)
    ensures e in AddedAll(acl, ms) <==> e in AddedAll(acl, ns)
  {
    var a, b := AddedAll(acl, ms), AddedAll(acl, ns);
    AddedAllUnlike(acl, ms);
    AddedAllUnlike(acl, ns);
    AddedAllMentions(acl, ms, e);
    AddedAllMentions(acl, ns, e);
    forall p ensures Speaks(a, e, p) <==> Speaks(b, e, p) {
      AddedAllSpeaks(acl, ms, e, p);
      AddedAllSpeaks(acl, ns, e, p);
    }
    if e in a {
      SameEntries(a, b, e);
    }
    if e in b {
      SameEntries(b, a, e);
    }
  }

  /** A list that needs no addition. */
  ghost predicate Has(acl: seq<Entry>, m: Entry) {
    || m in acl
    || exists i :: 0 <= i < |acl| && IsLast(acl, i, m) && m.perms <= acl[i].perms
  }

  ghost predicate IsLast(acl: seq<Entry>, i: nat, m: Entry) {
    i < |acl| && Alike(acl[i], m) && forall j :: i < j < |acl| ==> !Alike(acl[j], m)
  }

  lemma HasNeedsNothing(acl: seq<Entry>, m: Entry)
    requires Has(acl, m)
    ensures Added(acl, m) == acl
  {
    if m !in acl {
      var i :| 0 <= i < |acl| && IsLast(acl, i, m) && m.perms <= acl[i].perms;
      assert LastAlike(acl, m) == i;
      assert Merge(acl[i], m) == acl[i];
    }
  }

  lemma AddedHas(acl: seq<Entry>, m: Entry)
    ensures Has(Added(acl, m), m)
  {
    var last, after := LastAlike(acl, m), Added(acl, m);
    if m !in acl && last >= 0 {
      assert IsLast(after, last, m);
    } else if m !in acl {
      assert after[Above(acl, m)] == m;
    }
  }

  lemma MergedKeeps(acl: seq<Entry>, m: Entry, n: Entry, last: nat)
    requires Has(acl, m) && IsLast(acl, last, n)
    ensures Has(acl[last := Merge(acl[last], n)], m)
  {
    var after := acl[last := Merge(acl[last], n)];
    if m in acl {
      var i :| 0 <= i < |acl| && acl[i] == m;
      assert i != last ==> after[i] == m;
      assert i == last ==> IsLast(after, last, m);
    } else {
      var i :| 0 <= i < |acl| && IsLast(acl, i, m) && m.perms <= acl[i].perms;
      assert IsLast(after, i, m);
    }
  }

  lemma InsertedKeeps(acl: seq<Entry>, m: Entry, n: Entry, pos: nat)
    requires Has(acl, m) && pos <= |acl| && forall e <- acl :: !Alike(e, n)
    ensures Has(Insert(acl, pos, n), m)
  {
    var after := Insert(acl, pos, n);
    if m in acl {
      var i :| 0 <= i < |acl| && acl[i] == m;
      assert after[if i < pos then i else i + 1] == m;
    } else {
      var i :| 0 <= i < |acl| && IsLast(acl, i, m) && m.perms <= acl[i].perms;
      forall j | 0 <= j < |after| && j != pos ensures after[j] == acl[if j < pos then j else j - 1] {
      }
      assert !Alike(acl[i], n) && after[pos] == n;
      var k := if i < pos then i else i + 1;
      forall j | k < j < |after| ensures !Alike(after[j], m) {
      }
      assert IsLast(after, k, m);
    }
  }

  /** Later additions keep earlier ones. */
  lemma AddedKeeps(acl: seq<Entry>, m: Entry, n: Entry)
    requires Has(acl, m)
    ensures Has(Added(acl, n), m)
  {
    hide Has;
    if n !in acl && LastAlike(acl, n) >= 0 {
      MergedKeeps(acl, m, n, LastAlike(acl, n));
    } else if n !in acl {
      InsertedKeeps(acl, m, n, Above(acl, n));
    }
  }

  lemma {:induction false} AddedAllHas(acl: seq<Entry>, ms: seq<Entry>, m: Entry)
    requires m in ms
    ensures Has(AddedAll(acl, ms), m)
  {
    var front, n := ms[..|ms| - 1], ms[|ms| - 1];
    if m in front {
      AddedAllHas(acl, front, m);
      AddedKeeps(AddedAll(acl, front), m, n);
    } else {
      AddedHas(AddedAll(acl, front), m);
    }
  }

  lemma {:induction false} NothingToAdd(acl: seq<Entry>, ms: seq<Entry>)
    requires forall m <- ms :: Has(acl, m)
    ensures AddedAll(acl, ms) == acl
  {
    if ms != [] {
      NothingToAdd(acl, ms[..|ms| - 1]);
      HasNeedsNothing(acl, ms[|ms| - 1]);
    }
  }

  /** Repeating a whole run, or any part of it in any order, changes nothing. */
  lemma AddedAllAgain(acl: seq<Entry>, ms: seq<Entry>, again: seq<Entry>)
    requires forall m <- again :: m in ms
    ensures AddedAll(AddedAll(acl, ms), again) == AddedAll(acl, ms)
  {
    forall m <- again ensures Has(AddedAll(acl, ms), m) {
      AddedAllHas(acl, ms, m);
    }
    NothingToAdd(AddedAll(acl, ms), again);
  }

  /** `+ai` marks what it adds as inherited. */
  function Marked(m: Entry, inherit: bool): Entry {
    if inherit then m.(flags := m.flags + {Inherited}) else m
  }

  function AllMarked(ms: seq<Entry>, inherit: bool): seq<Entry> {
    seq(|ms|, i requires 0 <= i < |ms| => Marked(ms[i], inherit))
  }

  /** A file without entries gets the additions in reverse: canonical exactly if none outranks a later one. */
  lemma ReversedCanonical(s: seq<Entry>)
    ensures Canonical(Reversed(s)) <==> forall i, j :: 0 <= i < j < |s| ==> !Outranks(s[i], s[j])
  {
    var r := Reversed(s);
    hide Reversed, Outranks;
    forall i: nat | i < |s| ensures r[i] == s[|s| - 1 - i] {
      ReversedAt(s, i);
    }
    if Canonical(r) {
      forall i, j | 0 <= i < j < |s| ensures !Outranks(s[i], s[j]) {
        assert r[|s| - 1 - j] == s[j] && r[|s| - 1 - i] == s[i];
      }
    }
  }

  /** A denial and an allowance, added in this order to a file without entries, end up in the wrong order. */
  lemma DenialThenAllowance()
    ensures var deny, allow := Entry(1, Deny, {}, {1}), Entry(2, Allow, {}, {1});
            && Reversed([deny, allow]) == [allow, deny] && !Canonical(Reversed([deny, allow]))
            && Canonical([deny, allow])
  {
    var deny, allow := Entry(1, Deny, {}, {1}), Entry(2, Allow, {}, {1});
    assert [deny, allow][..1] == [deny] && [deny][..0] == [];
    assert Reversed([deny, allow]) == [allow, deny];
    assert Outranks([allow, deny][1], [allow, deny][0]);
  }

  lemma NothingMarked(acl: seq<Entry>, ms: seq<Entry>, inherit: bool)
    ensures var none := AllMarked(ms[..0], inherit);
            Reversed(none) == [] && AddedAll(acl, none) == acl
  {
  }

  lemma NextMarked(acl: seq<Entry>, ms: seq<Entry>, inherit: bool, i: nat)
    requires i < |ms|
    ensures var before, after := AllMarked(ms[..i], inherit), AllMarked(ms[..i + 1], inherit);
            var m := Marked(ms[i], inherit);
            Reversed(after) == [m] + Reversed(before) && AddedAll(acl, after) == Added(AddedAll(acl, before), m)
  {
    var before, after, m := AllMarked(ms[..i], inherit), AllMarked(ms[..i + 1], inherit), Marked(ms[i], inherit);
    assert after == before + [m] && after[..i] == before;
    hide AllMarked, Added;
    ReversedPush(before, m);
  }

  /** Every addition has its entry, marked as inherited if that was asked for. */
  lemma MarkedMentioned(acl: seq<Entry>, ms: seq<Entry>, inherit: bool, m: Entry)
    requires m in ms
    ensures var marked := if inherit then Entry(m.qualifier, m.tag, m.flags + {Inherited}, m.perms) else m;
            && Mentions(AddedAll(acl, AllMarked(ms, inherit)), marked)
            && Mentions(Reversed(AllMarked(ms, inherit)), marked)
  {
    var all := AllMarked(ms, inherit);
    var i :| 0 <= i < |ms| && ms[i] == m;
    assert all[i] in all && Alike(all[i], all[i]);
    AddedAllMentions(acl, all, all[i]);
    ReversedAt(all, |ms| - 1 - i);
    assert all[i] in Reversed(all);
  }

  class Acl {
    var entries: seq<Entry>

    constructor (entries: seq<Entry>)
      ensures this.entries == entries
    {
      this.entries := entries;
    }

    /** `modify_acl` with ACL_SET_FLAG and no position. */
    method Add(m: Entry)
      modifies this
      ensures entries == Added(old(entries), m)
    {
      var found, at := FindMatchingEntry(entries, m);
      if found == Exact {
        return;
      }
      if found == Partial {
        entries := entries[at := Merge(entries[at], m)];
        return;
      }
      var pos := FindCanonicalPosition(entries, m);
      entries := Insert(entries, pos, m);
    }

    /** `modify_file_acl` adding entries: in canonical order, or one in front of the other where there was none. */
    method Modify(ms: seq<Entry>, inherit: bool) returns (refused: bool)
      modifies this
      ensures refused <==> !Canonical(old(entries))
      ensures old(entries) != [] && !refused ==> Canonical(entries)
      ensures !refused ==> forall m <- ms ::
                Mentions(entries, if inherit then Entry(m.qualifier, m.tag, m.flags + {Inherited}, m.perms) else m)
      ensures entries == if old(entries) == [] then Reversed(AllMarked(ms, inherit))
                         else if refused then old(entries)
                         else AddedAll(old(entries), AllMarked(ms, inherit))
    {
      var empty := entries == [];
      var canonical := IsCanonical(entries);
      if !empty && !canonical {
        return true;
      }
      hide Reversed, AllMarked, AddedAll, Added;
      NothingMarked(entries, ms, inherit);
      for i := 0 to |ms|
        invariant entries == if empty then Reversed(AllMarked(ms[..i], inherit))
                             else AddedAll(old(entries), AllMarked(ms[..i], inherit))
      {
        NextMarked(old(entries), ms, inherit, i);
        var m := Marked(ms[i], inherit);
        if empty {
          entries := [m] + entries;
        } else {
          Add(m);
        }
      }
      assert ms[..|ms|] == ms;
      forall m <- ms
        ensures Mentions(entries, if inherit then Entry(m.qualifier, m.tag, m.flags + {Inherited}, m.perms) else m)
      {
        MarkedMentioned(old(entries), ms, inherit, m);
      }
      if canonical {
        AddedAllCanonical(old(entries), AllMarked(ms, inherit));
      }
      return false;
    }
  }
}
