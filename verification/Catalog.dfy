/** `MCAddSet`, `MCAddMsg` and `MCDelMsg`: the catalog and its current set. */
module Catalog {
  import opened Bits
  import opened Basics
  import opened CatalogLists
  import opened CatalogNodes

  /** A text without a zero byte, which would end it. */
  type Text = s: seq<Byte> | 0 !in s

  type Msgs = seq<Numbered<Text>>
  type Sets = seq<Numbered<Msgs>>

  datatype Edit = AddSet(id: int) | AddMsg(id: int, str: Text) | DelMsg(id: int)

  /** The text of a message of a set. */
  function TextOf(sets: Sets, set_: int, msg: int): Option<Text> {
    match Find(sets, set_)
    case None => None
    case Some(msgs) => Find(msgs, msg)
  }

  ghost predicate Ordered(sets: Sets) {
    Ascending(sets) && forall s <- sets :: Ascending(s.item)
  }

  /** The reference: which sets there are, the text of every message, and the current set. */
  datatype Texts = Texts(ids: set<int>, texts: map<(int, int), Text>, cur: Option<int>)

  /** What an edit does; none if it ends the program with an error. */
  function Edited(t: Texts, e: Edit): Option<Texts> {
    match e
    case AddSet(id) => if id <= 0 then None else Some(t.(ids := t.ids + {id}, cur := Some(id)))
    case AddMsg(id, str) =>
      if t.cur.None? || id <= 0 then None else Some(t.(texts := t.texts[(t.cur.value, id) := str]))
    case DelMsg(id) => if t.cur.None? then None else Some(t.(texts := t.texts - {(t.cur.value, id)}))
  }

  function EditedAll(edits: seq<Edit>): Option<Texts> {
    if edits == [] then Some(Texts({}, map[], None)) else
      match EditedAll(edits[..|edits| - 1])
      case None => None
      case Some(t) => Edited(t, edits[|edits| - 1])
  }

  ghost predicate Shows(sets: Sets, cur: Option<int>, t: Texts) {
    && (forall s :: s in t.ids <==> Find(sets, s).Some?)
    && (forall s, m :: TextOf(sets, s, m) == if (s, m) in t.texts then Some(t.texts[(s, m)]) else None)
    && t.cur == cur
  }

  /** A set at a position is the one found under its number. */
  lemma {:induction false} FindHere<T>(s: seq<Numbered<T>>, i: nat, id: int, x: T)
    requires Ascending(s) && i < |s|
    ensures Find(s, s[i].id) == Some(s[i].item)
    ensures Find(s[i := Numbered(s[i].id, x)], id) == if id == s[i].id then Some(x) else Find(s, id)
  {
    if i > 0 {
      assert s[i := Numbered(s[i].id, x)][1..] == s[1..][i - 1 := Numbered(s[i].id, x)];
      FindHere(s[1..], i - 1, id, x);
    }
  }

  lemma AddSetShows(sets: Sets, cur: Option<int>, t: Texts, id: int, after: Sets)
    requires Shows(sets, cur, t) && id > 0
    requires after == if Find(sets, id).None? then Put(sets, Numbered(id, [])) else sets
    ensures Edited(t, AddSet(id)).Some? && Shows(after, Some(id), Edited(t, AddSet(id)).value)
  {
    forall s ensures Find(after, s) == if s == id && Find(sets, s).None? then Some([]) else Find(sets, s) {
      FindPut(sets, Numbered(id, []), s);
    }
  }

  lemma AddMsgShows(sets: Sets, c: nat, t: Texts, id: int, str: Text)
    requires c < |sets| && Ordered(sets) && Shows(sets, Some(sets[c].id), t) && id > 0
    ensures Edited(t, AddMsg(id, str)).Some?
    ensures var s := sets[c];
            var after := sets[c := Numbered(s.id, Put(s.item, Numbered(id, str)))];
            Ordered(after) && Shows(after, Some(s.id), Edited(t, AddMsg(id, str)).value)
  {
    var s := sets[c];
    var msgs := Put(s.item, Numbered(id, str));
    assert s in sets;
    PutAscends(s.item, Numbered(id, str));
    forall k ensures Find(sets, s.id) == Some(s.item)
      && Find(sets[c := Numbered(s.id, msgs)], k) == if k == s.id then Some(msgs) else Find(sets, k) {
      FindHere(sets, c, k, msgs);
    }
    forall m ensures Find(msgs, m) == if m == id then Some(str) else Find(s.item, m) {
      FindPut(s.item, Numbered(id, str), m);
    }
    assert TextOf(sets, s.id, id) == Find(s.item, id);
  }

  lemma DelMsgShows(sets: Sets, c: nat, t: Texts, id: int)
    requires c < |sets| && Ordered(sets) && Shows(sets, Some(sets[c].id), t)
    ensures Edited(t, DelMsg(id)).Some?
    ensures var s := sets[c];
            var after := sets[c := Numbered(s.id, Drop(s.item, id))];
            Ordered(after) && Shows(after, Some(s.id), Edited(t, DelMsg(id)).value)
  {
    var s := sets[c];
    var msgs := Drop(s.item, id);
    assert s in sets;
    DropAscends(s.item, id);
    forall k ensures Find(sets, s.id) == Some(s.item)
      && Find(sets[c := Numbered(s.id, msgs)], k) == if k == s.id then Some(msgs) else Find(sets, k) {
      FindHere(sets, c, k, msgs);
    }
    forall m ensures Find(msgs, m) == if m == id then None else Find(s.item, m) {
      FindDrop(s.item, id, m);
    }
  }

  type MsgList = List<Text>
  type SetNode = Node<MsgList>

  /** Different sets share no messages. */
  lemma Disjoint(a: SetNode, b: SetNode)
    requires a != b && a.item.owner == a && a.item.Valid() && b.item.owner == b && b.item.Valid()
    ensures a.item != b.item && forall k :: 0 <= k < |a.item.chain| ==> a.item.chain[k] !in b.item.chain
  {
    forall k | 0 <= k < |a.item.chain| ensures a.item.chain[k] !in b.item.chain {
      assert a.item.Linked(k);
      b.item.Elsewhere(a.item.chain[k]);
    }
  }

  class Catalog {
    const sets: List<MsgList>
    var curSet: Node?<MsgList>
    /** What the catalog holds, the lists of messages, and all messages. */
    ghost var value: Sets
    ghost var lists: set<MsgList>
    ghost var msgs: set<Node<Text>>

    /** A set has its own list of messages. */
    ghost predicate Proper(n: SetNode, v: Numbered<Msgs>)
      reads this`lists, this`msgs, n`id, n`item, lists
      reads msgs`next, msgs`prev, msgs`home, msgs`id, msgs`item
    {
      && n.item in lists && n.item.owner == n && (forall m <- n.item.chain :: m in msgs)
      && n.item.Valid() && v == Numbered(n.id, n.item.value)
    }

    ghost predicate Linked()
      reads this, sets, sets.chain, lists
      reads msgs`next, msgs`prev, msgs`home, msgs`id, msgs`item
    {
      && sets.Valid() && |value| == |sets.chain|
      && (forall i :: 0 <= i < |value| ==> Proper(sets.chain[i], value[i]))
      && (curSet != null ==> curSet in sets.chain)
    }

    ghost predicate Valid()
      reads this, sets, sets.chain, lists
      reads msgs`next, msgs`prev, msgs`home, msgs`id, msgs`item
    {
      Linked() && Ordered(value)
    }

    constructor ()
      ensures Valid() && value == [] && curSet == null && fresh(sets) && Repr() == {this, sets}
    {
      sets := new List<MsgList>();
      curSet := null;
      value, lists, msgs := [], {}, {};
    }

    /** The number of the current set. */
    ghost function CurId(): Option<int>
      reads this, curSet
    {
      if curSet == null then None else Some(curSet.id)
    }

    /** The messages of one set are those of no other. */
    lemma Separate(c: nat)
      requires Linked() && c < |value|
      ensures Proper(sets.chain[c], value[c])
      ensures forall i :: 0 <= i < |value| && i != c ==> Apart(sets.chain[i].item, sets.chain[c].item)
    {
      forall i | 0 <= i < |value| && i != c ensures Apart(sets.chain[i].item, sets.chain[c].item) {
        assert Proper(sets.chain[i], value[i]) && Proper(sets.chain[c], value[c]);
        Disjoint(sets.chain[i], sets.chain[c]);
      }
    }

    ghost predicate Apart(a: MsgList, b: MsgList)
      reads a`chain, b`chain
    {
      a != b && forall k :: 0 <= k < |a.chain| ==> a.chain[k] !in b.chain
    }

    /** A message gets its place in the current set, or replaces the one with its number. */
    method PutMsg(id: int, str: Text) returns (ghost c: nat)
      requires Linked() && curSet != null
      modifies this`value, this`msgs, curSet.item, curSet.item.chain
      ensures Linked() && fresh(msgs - old(msgs)) && c < |value| == |old(value)| && old(value)[c].id == curSet.id
      ensures var s := old(value)[c]; value == old(value)[c := Numbered(s.id, Put(s.item, Numbered(id, str)))]
    {
      hide List.Valid, Put;
      c :| c < |sets.chain| && sets.chain[c] == curSet;
      Separate(c);
      var list := curSet.item;
      list.PutItem(id, str);
      assert sets.Valid();
      msgs := msgs + set m | m in list.chain;
      value := value[c := Numbered(value[c].id, list.value)];
      forall i | 0 <= i < |value| ensures Proper(sets.chain[i], value[i]) {
        assert old(Proper(sets.chain[i], value[i]));
        assert i != c ==> old(Apart(sets.chain[i].item, list));
      }
    }

    /** A message leaves the current set, if it is there. */
    method RemoveMsg(id: int) returns (ghost c: nat)
      requires Linked() && curSet != null
      modifies this`value, curSet.item, curSet.item.chain
      ensures Linked() && c < |value| == |old(value)| && old(value)[c].id == curSet.id
      ensures var s := old(value)[c]; value == old(value)[c := Numbered(s.id, Drop(s.item, id))]
    {
      hide List.Valid, Drop;
      c :| c < |sets.chain| && sets.chain[c] == curSet;
      Separate(c);
      var list := curSet.item;
      list.Remove(id);
      assert sets.Valid();
      value := value[c := Numbered(value[c].id, list.value)];
      forall i | 0 <= i < |value| ensures Proper(sets.chain[i], value[i]) {
        assert old(Proper(sets.chain[i], value[i]));
        assert i != c ==> old(Apart(sets.chain[i].item, list));
      }
    }

    ghost function Nodes(): set<SetNode>
      reads sets
    {
      set n | n in sets.chain
    }

    lemma Adopted(was: seq<SetNode>, vals: Sets, j: nat, n: SetNode, v: Numbered<Msgs>)
      requires |was| == |vals| && j <= |was| && Proper(n, v)
      requires forall i :: 0 <= i < |was| ==> Proper(was[i], vals[i])
      requires sets.chain == Inserted(was, j, n) && value == Inserted(vals, j, v)
      ensures forall i :: 0 <= i < |value| ==> Proper(sets.chain[i], value[i])
    {
      hide Inserted, Proper;
    }

    /** The numbers of a catalog are those of its nodes. */
    lemma SameNumbers()
      requires Linked()
      ensures |sets.value| == |value| && forall i :: 0 <= i < |value| ==> value[i].id == sets.value[i].id
    {
      forall i | 0 <= i < |value| ensures value[i].id == sets.value[i].id {
        assert sets.Linked(i) && Proper(sets.chain[i], value[i]);
      }
    }

    /** A list of messages becomes that of a new set, whose node has been linked in at position j. */
    ghost method Adopt(was: seq<SetNode>, j: nat, n: SetNode)
      requires sets.Valid() && |was| == |value| && j <= |was| && sets.chain == Inserted(was, j, n)
      requires forall i :: 0 <= i < |was| ==> Proper(was[i], value[i])
      requires n.item.Valid() && n !in was && (curSet != null ==> curSet in sets.chain)
      requires forall i :: 0 <= i < |was| ==> was[i].item != n.item
      modifies this`value, this`lists, this`msgs, n.item`owner
      ensures Linked() && lists == old(lists) + {n.item} && msgs == old(msgs) + set m | m in n.item.chain
      ensures value == Inserted(old(value), j, Numbered(n.id, n.item.value))
    {
      hide List.Valid, Inserted;
      n.item.owner := n;
      lists := lists + {n.item};
      msgs := msgs + set m | m in n.item.chain;
      value := Inserted(value, j, Numbered(n.id, n.item.value));
      forall i | 0 <= i < |was| ensures Proper(was[i], old(value)[i]) {
        assert old(Proper(was[i], value[i]));
      }
      Adopted(was, old(value), j, n, Numbered(n.id, n.item.value));
    }

    /** Link the set of a number in, unless it is there. */
    method SeatSet(id: int) returns (n: SetNode, ghost j: nat, ghost was: seq<SetNode>)
      requires Linked()
      modifies sets, sets.chain`next, sets.chain`prev
      ensures was == old(sets.chain) && j < |sets.chain| && sets.chain[j] == n && n.id == id
      ensures Belongs(value, id, j) && sets.Valid()
      ensures if j < |value| && value[j].id == id then sets.chain == was
              else && sets.chain == Inserted(was, j, n) && fresh(n) && fresh(n.item)
                   && n.item.Valid() && n.item.value == [] && n.item.chain == []
    {
      SameNumbers();
      hide List.Valid, Inserted, Belongs, Proper;
      var blank := new List<Text>();
      was := sets.chain;
      ghost var ids := sets.value;
      n, j := sets.Seat(id, blank);
      BelongsAlike(ids, value, id, j);
    }

    /** The set of a number, a new and empty one if there was none, becomes the current set. */
    method AddSet(id: int) returns (ok: bool)
      requires Valid()
      modifies this, sets, sets.chain`next, sets.chain`prev
      ensures Valid() && fresh(Nodes() - old(Nodes())) && fresh(lists - old(lists)) && msgs == old(msgs)
      ensures ok == (id > 0)
      ensures !ok ==> value == old(value) && curSet == old(curSet)
      ensures ok ==> curSet != null && curSet.id == id
      ensures ok ==> value == if Find(old(value), id).None? then Put(old(value), Numbered(id, [])) else old(value)
    {
      if id <= 0 {
        return false;
      }
      hide Linked, Ordered, Inserted, Belongs, Find, Put;
      ghost var was := value;
      ghost var j := MakeCurrent(id);
      WithSet(was, id, j);
      return true;
    }

    method MakeCurrent(id: int) returns (ghost j: nat)
      requires Linked()
      modifies this, sets, sets.chain`next, sets.chain`prev
      ensures Linked() && fresh(Nodes() - old(Nodes())) && fresh(lists - old(lists)) && msgs == old(msgs)
      ensures curSet != null && curSet.id == id && Belongs(old(value), id, j)
      ensures value == if j < |old(value)| && old(value)[j].id == id then old(value)
                       else Inserted(old(value), j, Numbered(id, []))
    {
      hide List.Valid, Inserted, Belongs;
      var n;
      ghost var was;
      n, j, was := SeatSet(id);
      curSet := n;
      if !(j < |value| && value[j].id == id) {
        InsertedSet(was, j, n);
        Adopt(was, j, n);
      }
    }

    /** Lists that are not among those of the catalog are in no set. */
    lemma Foreign(list: MsgList)
      requires Linked() && list !in lists
      ensures forall i :: 0 <= i < |value| ==> sets.chain[i].item != list
    {
      forall i | 0 <= i < |value| ensures sets.chain[i].item != list {
        assert Proper(sets.chain[i], value[i]);
      }
    }

    /** Link a node in behind the last set. */
    method LinkLast(id: int, list: MsgList) returns (n: SetNode, ghost was: seq<SetNode>)
      requires Linked() && list !in lists
      modifies sets, sets.chain`next
      ensures was == old(sets.chain) && sets.Valid() && sets.chain == Inserted(was, |was|, n)
      ensures fresh(n) && n.id == id && n.item == list
      ensures forall i :: 0 <= i < |was| ==> Proper(was[i], value[i])
    {
      hide List.Valid, Inserted;
      was := sets.chain;
      n := new Node(id, list);
      sets.Append(n);
      InsertedLast(was, n);
      forall i | 0 <= i < |was| ensures Proper(was[i], value[i]) {
        assert old(Proper(sets.chain[i], value[i]));
      }
    }

    /** Link a set with the messages of a list in behind the last. */
    method AppendSet(id: int, list: MsgList)
      requires Linked() && list.Valid() && list !in lists
      modifies this`value, this`lists, this`msgs, sets, sets.chain`next, list`owner
      ensures Linked() && fresh(Nodes() - old(Nodes()))
      ensures lists == old(lists) + {list} && msgs == old(msgs) + set m | m in list.chain
      ensures value == old(value) + [Numbered(id, list.value)]
    {
      hide List.Valid, Inserted, Proper;
      Foreign(list);
      var n;
      ghost var was;
      n, was := LinkLast(id, list);
      InsertedLast(was, n);
      InsertedLast(value, Numbered(id, list.value));
      InsertedSet(was, |was|, n);
      Adopt(was, |was|, n);
    }

    /** The text of a message of the current set, new or replaced. */
    method AddMsg(id: int, str: Text) returns (ok: bool, ghost c: nat)
      requires Valid()
      modifies this`value, this`msgs
      modifies if curSet == null then {} else {curSet.item}
      modifies if curSet == null then [] else curSet.item.chain
      ensures Linked() && fresh(msgs - old(msgs)) && ok == (curSet != null && id > 0)
      ensures !ok ==> value == old(value)
      ensures ok ==> c < |old(value)| && old(value)[c].id == curSet.id
      ensures ok ==> var s := old(value)[c]; value == old(value)[c := Numbered(s.id, Put(s.item, Numbered(id, str)))]
    {
      if curSet == null || id <= 0 {
        return false, 0;
      }
      c := PutMsg(id, str);
      ok := true;
    }

    /** The current set without a message. */
    method DelMsg(id: int) returns (ok: bool, ghost c: nat)
      requires Valid()
      modifies this`value
      modifies if curSet == null then {} else {curSet.item}
      modifies if curSet == null then [] else curSet.item.chain
      ensures Linked() && ok == (curSet != null)
      ensures !ok ==> value == old(value)
      ensures ok ==> c < |old(value)| && old(value)[c].id == curSet.id
      ensures ok ==> var s := old(value)[c]; value == old(value)[c := Numbered(s.id, Drop(s.item, id))]
    {
      if curSet == null {
        return false, 0;
      }
      c := RemoveMsg(id);
      ok := true;
    }

    /** All nodes and lists of the catalog. */
    ghost function Repr(): set<object>
      reads this, sets
    {
      {this, sets} + Nodes() + lists + msgs
    }

    /** The current set is one of the catalog's. */
    lemma CurOwned()
      requires Linked() && curSet != null
      ensures curSet.item in lists && forall m <- curSet.item.chain :: m in msgs
    {
      var c :| 0 <= c < |sets.chain| && sets.chain[c] == curSet;
      assert Proper(sets.chain[c], value[c]);
    }

    method Apply(e: Edit, ghost t: Texts) returns (ok: bool)
      requires Valid() && Shows(value, CurId(), t)
      modifies Repr()
      ensures ok == Edited(t, e).Some? && fresh(Repr() - old(Repr()))
      ensures ok ==> Valid() && Shows(value, CurId(), Edited(t, e).value)
    {
      hide Shows, Linked, Ordered, Find, Put, Drop;
      ghost var was, cur := value, CurId();
      CurShown(value, cur, t);
      if curSet != null {
        CurOwned();
      }
      match e
      case AddSet(id) =>
        ok := AddSet(id);
        if ok {
          AddSetShows(was, cur, t, id, value);
        }
      case AddMsg(id, str) =>
        ghost var c;
        ok, c := AddMsg(id, str);
        if ok {
          AddMsgShows(was, c, t, id, str);
        }
      case DelMsg(id) =>
        ghost var c;
        ok, c := DelMsg(id);
        if ok {
          DelMsgShows(was, c, t, id);
        }
    }
  }

  lemma CurShown(sets: Sets, cur: Option<int>, t: Texts)
    requires Shows(sets, cur, t)
    ensures t.cur == cur
  {
  }

  lemma {:induction false} FoundHere<T>(s: seq<Numbered<T>>, id: int)
    requires Find(s, id).Some?
    ensures Numbered(id, Find(s, id).value) in s
  {
    if s[0].id != id {
      FoundHere(s[1..], id);
    }
  }

  lemma SameMessages(a: Sets, b: Sets, cur: Option<int>, t: Texts, id: int)
    requires Ordered(a) && Ordered(b) && Shows(a, cur, t) && Shows(b, cur, t)
    ensures Find(a, id) == Find(b, id)
  {
    assert Find(a, id).Some? <==> id in t.ids;
    assert Find(b, id).Some? <==> id in t.ids;
    if Find(a, id).Some? {
      FoundHere(a, id);
      FoundHere(b, id);
      var x, y := Find(a, id).value, Find(b, id).value;
      forall m ensures Find(x, m) == Find(y, m) {
        assert TextOf(a, id, m) == TextOf(b, id, m);
      }
      FoundAlike(x, y);
    }
  }

  /** The reference determines the catalog. */
  lemma OneCatalog(a: Sets, b: Sets, cur: Option<int>, t: Texts)
    requires Ordered(a) && Ordered(b) && Shows(a, cur, t) && Shows(b, cur, t)
    ensures a == b
  {
    forall id ensures Find(a, id) == Find(b, id) {
      SameMessages(a, b, cur, t, id);
    }
    FoundAlike(a, b);
  }

  /** Any run of edits leaves ascending lists that show what the reference has; there is just one such catalog. */
  method Build(edits: seq<Edit>) returns (ok: bool, c: Catalog)
    ensures ok <==> EditedAll(edits).Some?
    ensures fresh(c) && fresh(c.Repr())
    ensures ok ==> c.Valid() && Shows(c.value, c.CurId(), EditedAll(edits).value)
    ensures ok ==> forall sets :: Ordered(sets) && Shows(sets, c.CurId(), EditedAll(edits).value) ==> sets == c.value
  {
    hide Shows, Catalog.Linked, Ordered;
    c := new Catalog();
    ok := true;
    assert Shows(c.value, c.CurId(), Texts({}, map[], None)) by {
      NothingShown();
    }
    for i := 0 to |edits|
      invariant fresh(c) && fresh(c.Repr()) && c.Valid() && EditedAll(edits[..i]).Some?
      invariant Shows(c.value, c.CurId(), EditedAll(edits[..i]).value)
    {
      assert edits[..i + 1][..i] == edits[..i];
      ok := c.Apply(edits[i], EditedAll(edits[..i]).value);
      if !ok {
        FailsOn(edits, i + 1);
        return;
      }
    }
    assert edits[..|edits|] == edits;
    ok := true;
    ghost var t := EditedAll(edits).value;
    forall sets | Ordered(sets) && Shows(sets, c.CurId(), t) ensures sets == c.value {
      OneCatalog(sets, c.value, c.CurId(), t);
    }
  }

  lemma NothingShown()
    ensures Shows([], None, Texts({}, map[], None))
  {
  }

  lemma {:induction false} FailsOn(edits: seq<Edit>, i: nat)
    requires i <= |edits| && EditedAll(edits[..i]).None?
    ensures EditedAll(edits).None?
    decreases |edits| - i
  {
    if i == |edits| {
      assert edits[..i] == edits;
    } else {
      assert edits[..i + 1][..i] == edits[..i];
      FailsOn(edits, i + 1);
    }
  }

  lemma WithSet(sets: Sets, id: int, j: nat)
    requires Ordered(sets) && Belongs(sets, id, j)
    ensures var after := if j < |sets| && sets[j].id == id then sets else Inserted(sets, j, Numbered(id, []));
            Ordered(after) && after == if Find(sets, id).None? then Put(sets, Numbered(id, [])) else sets
  {
    FindAt(sets, id, j);
    PutAt(sets, Numbered(id, []), j);
    PutAscends(sets, Numbered(id, []));
    InsertedSet(sets, j, Numbered(id, []));
    hide Inserted, Find, Put;
    var after := Inserted(sets, j, Numbered(id, []));
    forall s | s in after ensures s in sets || s == Numbered(id, []) {
      assert s in set y | y in after;
    }
  }
}
