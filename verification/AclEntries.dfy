/** Access control entries: their rank, how they compare, and canonical order. */
module AclEntries {
  datatype Tag = Allow | Deny

  datatype Flag = Inherited | FileInherit | DirectoryInherit | LimitInherit | OnlyInherit

  /** A user or group, and a permission, by number. */
  type Qualifier = nat
  type Perm = nat

  datatype Entry = Entry(qualifier: Qualifier, tag: Tag, flags: set<Flag>, perms: set<Perm>)

  datatype Match = Exact | Partial | NoMatch

  const INHERITANCE_TIER := -5

  function Score(e: Entry): int {
    (if e.tag.Deny? then 1 else 0) + (if Inherited in e.flags then INHERITANCE_TIER else 0)
  }

  /** Local before inherited entries, and among those of one kind denials before allowances. */
  predicate Outranks(a: Entry, b: Entry) {
    || (Inherited !in a.flags && Inherited in b.flags)
    || ((Inherited in a.flags <==> Inherited in b.flags) && a.tag.Deny? && b.tag.Allow?)
  }

  /** The scores compare as the ranks do. */
  lemma ScoresRank(a: Entry, b: Entry)
    ensures Score(a) > Score(b) <==> Outranks(a, b)
  {
  }

  lemma NotBoth(a: Entry, b: Entry)
    requires Outranks(a, b)
    ensures !Outranks(b, a)
  {
  }

  lemma RankCarries(a: Entry, b: Entry, c: Entry)
    requires !Outranks(b, a) && !Outranks(c, b)
    ensures !Outranks(c, a)
  {
  }

  function Compare(a: Entry, b: Entry): Match {
    if a.qualifier != b.qualifier || a.tag != b.tag then NoMatch
    else if a.perms != b.perms || a.flags != b.flags then Partial
    else Exact
  }

  /** Entries that speak of the same user in the same way. */
  predicate Alike(a: Entry, b: Entry) {
    a.qualifier == b.qualifier && a.tag == b.tag && a.flags == b.flags
  }

  function Merge(e: Entry, m: Entry): Entry {
    e.(perms := e.perms + m.perms, flags := e.flags + m.flags)
  }

  /** No entry outranks an earlier one. */
  ghost predicate Canonical(acl: seq<Entry>) {
    forall i, j :: 0 <= i < j < |acl| ==> !Outranks(acl[j], acl[i])
  }

  method IsCanonical(acl: seq<Entry>) returns (canonical: bool)
    ensures canonical <==> Canonical(acl)
  {
    if acl == [] {
      return true;
    }
    hide Outranks, Score;
    var score := Score(acl[0]);
    for i := 1 to |acl|
      invariant score == Score(acl[i - 1])
      invariant forall j, k :: 0 <= j < k < i ==> Score(acl[k]) <= Score(acl[j])
    {
      var next := Score(acl[i]);
      if score < next {
        ScoresRank(acl[i], acl[i - 1]);
        return false;
      }
      score := next;
    }
    forall j, k | 0 <= j < k < |acl| ensures !Outranks(acl[k], acl[j]) {
      ScoresRank(acl[k], acl[j]);
    }
    return true;
  }

  /** Behind all entries that rank above it, before the first that does not. */
  method FindCanonicalPosition(acl: seq<Entry>, m: Entry) returns (pos: nat)
    ensures pos <= |acl| && forall i :: 0 <= i < pos ==> Outranks(acl[i], m)
    ensures pos < |acl| ==> !Outranks(acl[pos], m)
  {
    if acl == [] {
      return 0;
    }
    hide Outranks, Score;
    pos := 0;
    while Score(m) < Score(acl[pos])
      invariant pos < |acl| && forall i :: 0 <= i < pos ==> Outranks(acl[i], m)
      decreases |acl| - pos
    {
      ScoresRank(acl[pos], m);
      pos := pos + 1;
      if pos == |acl| {
        break;
      }
    }
    if pos < |acl| {
      ScoresRank(acl[pos], m);
    }
  }

  /** The position of the last entry alike, -1 if there is none. */
  function LastAlike(acl: seq<Entry>, m: Entry): (i: int)
    ensures -1 <= i < |acl| && (i >= 0 ==> Alike(acl[i], m))
    ensures forall j :: i < j < |acl| ==> !Alike(acl[j], m)
  {
    if acl == [] then -1
    else if Alike(acl[|acl| - 1], m) then |acl| - 1
    else LastAlike(acl[..|acl| - 1], m)
  }

  /** The position of the first entry alike, the length of the list if there is none. */
  function FirstAlike(acl: seq<Entry>, m: Entry): (i: nat)
    ensures i <= |acl| && (i < |acl| ==> Alike(acl[i], m))
    ensures forall j :: 0 <= j < i ==> !Alike(acl[j], m)
  {
    if acl == [] || Alike(acl[0], m) then 0 else 1 + FirstAlike(acl[1..], m)
  }

  /** The position of the first equal entry. */
  function IndexOf(acl: seq<Entry>, m: Entry): (i: nat)
    requires m in acl
    ensures i < |acl| && acl[i] == m && m !in acl[..i]
  {
    if acl[0] == m then 0 else 1 + IndexOf(acl[1..], m)
  }

  /** The entry that an addition is compared with: the first equal one, or else the last one alike. */
  function Chosen(acl: seq<Entry>, m: Entry): (i: int)
    ensures -1 <= i < |acl|
  {
    if m in acl then IndexOf(acl, m) else LastAlike(acl, m)
  }

  /** The first match is the one chosen exactly if it is equal, or neither an equal nor another one alike follows. */
  lemma FirstChosen(acl: seq<Entry>, m: Entry)
    requires exists e <- acl :: Alike(e, m)
    ensures var first := FirstAlike(acl, m);
            && first < |acl|
            && (Chosen(acl, m) == first <==>
                acl[first] == m || forall j :: first < j < |acl| ==> !Alike(acl[j], m))
  {
    var e :| e in acl && Alike(e, m);
    var i :| 0 <= i < |acl| && acl[i] == e;
    var first := FirstAlike(acl, m);
    assert first <= i;
    if m in acl {
      assert IndexOf(acl, m) > first ==> acl[IndexOf(acl, m)] == m && Alike(acl[IndexOf(acl, m)], m);
      assert IndexOf(acl, m) > first ==> m !in acl[..IndexOf(acl, m)] && acl[..IndexOf(acl, m)][first] == acl[first];
    }
  }

  /** Of two partial matches the later one is chosen. */
  lemma LaterChosen()
    ensures var read, write := Entry(1, Allow, {}, {1}), Entry(1, Allow, {}, {2});
            var m := Entry(1, Allow, {}, {3});
            FirstAlike([read, write], m) == 0 && Chosen([read, write], m) == 1
  {
  }

  /** An equal entry, or else the last one alike. */
  method FindMatchingEntry(acl: seq<Entry>, m: Entry) returns (found: Match, at: nat)
    ensures found == Exact <==> m in acl
    ensures found == NoMatch <==> forall e <- acl :: !Alike(e, m)
    ensures found != NoMatch ==> at == Chosen(acl, m)
  {
    found, at := NoMatch, 0;
    for i := 0 to |acl|
      invariant found != Exact && m !in acl[..i]
      invariant found == Partial ==> at < i && Alike(acl[at], m)
      invariant found == Partial ==> forall j :: at < j < i ==> !Alike(acl[j], m)
      invariant found == NoMatch ==> forall j :: 0 <= j < i ==> !Alike(acl[j], m)
    {
      var cmp := Compare(acl[i], m);
      if cmp != NoMatch && m.flags == acl[i].flags {
        found, at := cmp, i;
      }
      if found == Exact {
        FirstEqual(acl, m, i);
        return;
      }
    }
    assert acl[..|acl|] == acl;
  }

  lemma FirstEqual(acl: seq<Entry>, m: Entry, i: nat)
    requires i < |acl| && acl[i] == m && m !in acl[..i]
    ensures IndexOf(acl, m) == i
  {
  }
}
