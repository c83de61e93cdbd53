/** `MCWriteCat` and `MCReadCat`: writing a catalog with records filled in afterwards, and reading it back. */
module CatalogIO {
  import opened Basics
  import opened CatalogLists
  import opened Catalog
  import opened CatalogImage
  import opened CatalogNodes
  import opened CatalogReading

  class File {
    var cells: seq<Cell>
    var pos: nat

    constructor ()
      ensures cells == [] && pos == 0
    {
      cells, pos := [], 0;
    }

    method Seek(p: nat)
      modifies this`pos
      ensures pos == p
    {
      pos := p;
    }

    method Write(s: seq<Cell>)
      requires pos <= |cells|
      modifies this
      ensures pos == old(pos) + |s|
      ensures cells == old(cells)[..old(pos)] + s + old(cells)[if pos < |old(cells)| then pos else |old(cells)|..]
    {
      var end := pos + |s|;
      cells := cells[..pos] + s + cells[if end < |cells| then end else |cells|..];
      pos := end;
    }

    /** Fewer cells than asked for at the end of the file. */
    method Read(n: nat) returns (s: seq<Cell>)
      modifies this`pos
      ensures s == ReadAt(cells, old(pos), n) && pos == old(pos) + |s|
    {
      s := ReadAt(cells, pos, n);
      pos := pos + |s|;
    }
  }

  lemma Patched(a: seq<Cell>, x: seq<Cell>, b: seq<Cell>, y: seq<Cell>)
    requires |x| == |y|
    ensures (a + x + b)[..|a|] + y + (a + x + b)[|a| + |y|..] == a + y + b
  {
  }

  class Writer {
    const z: Sizes
    const f: File

    constructor (z: Sizes, f: File)
      ensures this.z == z && this.f == f
    {
      this.z, this.f := z, f;
    }

    /** Write behind the end. */
    method Append(s: seq<Cell>)
      requires f.pos == |f.cells|
      modifies f
      ensures f.cells == old(f.cells) + s && f.pos == |f.cells|
    {
      f.Write(s);
    }

    /** The texts of a list of messages, each of which notes its place; dataLen is what they take. */
    method WriteTexts(list: MsgList, ghost before: seq<Cell>) returns (dataLen: nat, cnt: nat)
      requires list.Valid() && f.pos == |f.cells| && f.cells == before
      modifies f, list.chain`offset
      ensures f.cells == before + TextCells(list.value, |list.value|) && f.pos == |f.cells|
      ensures dataLen == |TextCells(list.value, |list.value|)| && cnt == |list.value|
      ensures list.Valid() && Noted(list, |list.chain|)
    {
      hide List.Valid, StringCells;
      var dataOff := f.pos;
      var msg := list.first;
      dataLen, cnt := 0, 0;
      assert msg == At(list.chain, 0) && |list.value| == |list.chain| by {
        ListEnds(list);
      }
      while msg != null
        invariant list.Valid() && cnt <= |list.chain| && msg == At(list.chain, cnt)
        invariant f.cells == before + TextCells(list.value, cnt) && f.pos == |f.cells|
        invariant dataLen == |TextCells(list.value, cnt)| && Noted(list, cnt)
        decreases |list.chain| - cnt
      {
        ListStep(list, cnt);
        msg.offset := f.pos - dataOff;
        var s := StringCells(msg.item);
        Append(s);
        dataLen := dataLen + |s|;
        msg := msg.next;
        cnt := cnt + 1;
      }
    }

    /** The records of a list of messages, with the places noted. */
    method WriteRecords(list: MsgList, ghost before: seq<Cell>)
      requires list.Valid() && |list.chain| == |list.value| && Noted(list, |list.chain|)
      requires f.pos == |f.cells| && f.cells == before
      modifies f
      ensures f.cells == before + MsgsCells(z, list.value, |list.value|) && f.pos == |f.cells|
    {
      hide List.Valid, TextCells, MsgCells;
      var msg := list.first;
      ghost var i := 0;
      assert msg == At(list.chain, 0) by {
        ListEnds(list);
      }
      while msg != null
        invariant i <= |list.chain| && msg == At(list.chain, i)
        invariant f.cells == before + MsgsCells(z, list.value, i) && f.pos == |f.cells|
        decreases |list.chain| - i
      {
        ListStep(list, i);
        Append(MsgCells(z, MsgRecord(msg.id, msg.offset, false)));
        msg := msg.next;
        i := i + 1;
      }
    }

    /** Go back and fill the record of a set in; only that of the last set points nowhere. */
    method Patch(r: SetRecord, isLast: bool, pos: nat,
                 ghost before: seq<Cell>, ghost blank: seq<Cell>, ghost behind: seq<Cell>)
      requires pos == |before| && |blank| == z.set_ && f.cells == before + blank + behind && f.pos == |f.cells|
      modifies f
      ensures var full := r.(nextSet := if isLast then 0 else |old(f.cells)|);
              f.cells == before + SetCells(z, full) + behind
      ensures !isLast ==> f.pos == |f.cells|
    {
      hide SetCells;
      var full := r.(nextSet := if isLast then 0 else f.pos);
      Patched(before, blank, behind, SetCells(z, full));
      f.Seek(pos);
      f.Write(SetCells(z, full));
      if !isLast {
        f.Seek(full.nextSet);
      }
    }

    /** A set: a record to be filled in, the texts, the records of the messages, and the record once more. */
    method WriteSet(s: SetNode, last: Node?<MsgList>)
      requires s.item.Valid() && f.pos == |f.cells|
      modifies f, s.item.chain`offset
      ensures s.item.Valid()
      ensures f.cells == old(f.cells) + SetImage(z, Numbered(s.id, s.item.value), |old(f.cells)|, s == last)
      ensures s != last ==> f.pos == |f.cells|
    {
      hide TextCells, MsgsCells, SetCells, List.Valid, Noted;
      ghost var before, blank, v := f.cells, SetCells(z, SetRecord(s.id, 0, 0, 0, 0, 0, false)), s.item.value;
      var pos := f.pos;
      var r := SetRecord(s.id, 0, 0, 0, 0, 0, false);
      Append(SetCells(z, r));
      r := r.(dataOff := f.pos);
      var dataLen, cnt := WriteTexts(s.item, f.cells);
      r := r.(firstMsg := f.pos, numMsgs := cnt, dataLen := dataLen);
      assert |s.item.chain| == |v| by {
        ListEnds(s.item);
      }
      WriteRecords(s.item, f.cells);
      ghost var behind := TextCells(v, |v|) + MsgsCells(z, v, |v|);
      assert f.cells == before + blank + behind;
      Patch(r, s == last, pos, before, blank, behind);
    }

    /** The number of sets. */
    method CountSets(cat: Catalog) returns (cnt: nat)
      requires cat.Linked()
      ensures cnt == |cat.value|
    {
      cnt := 0;
      ListEnds(cat.sets);
      var s := cat.sets.first;
      while s != null
        invariant cnt <= |cat.sets.chain| && s == At(cat.sets.chain, cnt)
        decreases |cat.sets.chain| - cnt
      {
        ListStep(cat.sets, cnt);
        s, cnt := s.next, cnt + 1;
      }
    }

    /** The head is written twice. */
    method WriteHead(cnt: nat)
      requires f.cells == [] && f.pos == 0
      modifies f
      ensures f.cells == HeadCells(z, Head(cnt, z.head)) && f.pos == |f.cells|
    {
      var head := Head(cnt, 0);
      Append(HeadCells(z, head));
      head := head.(firstSet := f.pos);
      f.Seek(0);
      f.Write(HeadCells(z, head));
    }

    /** The sets along their list. */
    method WriteSets(cat: Catalog, ghost start: seq<Cell>)
      requires cat.Linked() && f.cells == start && f.pos == |start| == z.head
      modifies f, cat.msgs`offset
      ensures cat.Linked() && f.cells == start + SetsImage(z, cat.value, |cat.value|)
    {
      hide Catalog.Linked, SetImage;
      ghost var i := 0;
      FirstSet(cat);
      var s := cat.sets.first;
      while s != null
        invariant cat.Linked() && i <= |cat.value| == |cat.sets.chain| && s == At(cat.sets.chain, i)
        invariant f.cells == start + SetsImage(z, cat.value, i)
        invariant s != null ==> f.pos == |f.cells|
        decreases |cat.value| - i
      {
        SetStep(cat, i);
        WriteSet(s, cat.sets.last);
        SetStep(cat, i);
        s := s.next;
        i := i + 1;
      }
    }

    method WriteCat(cat: Catalog)
      requires cat.Linked() && f.cells == [] && f.pos == 0
      modifies f, cat.msgs`offset
      ensures cat.Linked() && f.cells == Image(z, cat.value)
    {
      hide Catalog.Linked, SetsImage, HeadCells;
      var cnt := CountSets(cat);
      WriteHead(cnt);
      WriteSets(cat, f.cells);
    }
  }

  lemma FirstSet(cat: Catalog)
    requires cat.Linked()
    ensures cat.sets.first == At(cat.sets.chain, 0) && |cat.value| == |cat.sets.chain|
  {
    ListEnds(cat.sets);
  }

  lemma SetStep(cat: Catalog, i: nat)
    requires cat.Linked() && i < |cat.value|
    ensures var n := cat.sets.chain[i];
            && n.item.Valid() && cat.value[i] == Numbered(n.id, n.item.value)
            && (forall m <- n.item.chain :: m in cat.msgs)
            && n.next == At(cat.sets.chain, i + 1) && (n == cat.sets.last <==> i == |cat.value| - 1)
  {
    ListStep(cat.sets, i);
    assert cat.Proper(cat.sets.chain[i], cat.value[i]);
  }

  /** The first n messages have noted the places of their texts. */
  ghost predicate Noted(list: MsgList, n: nat)
    requires n <= |list.chain| <= |list.value|
    reads list, list.chain`offset
  {
    forall k :: 0 <= k < n ==> list.chain[k].offset == |TextCells(list.value, k)|
  }

  lemma ListEnds<T>(list: List<T>)
    requires list.Valid()
    ensures list.first == At(list.chain, 0) && list.last == At(list.chain, |list.chain| - 1)
    ensures |list.value| == |list.chain|
  {
  }

  lemma ListStep<T>(list: List<T>, i: nat)
    requires list.Valid() && i < |list.chain|
    ensures |list.value| == |list.chain| && list.value[i] == Numbered(list.chain[i].id, list.chain[i].item)
    ensures list.chain[i].next == At(list.chain, i + 1)
    ensures list.chain[i] == list.last <==> i == |list.chain| - 1
    ensures forall k :: 0 <= k < i ==> list.chain[k] != list.chain[i]
  {
    assert list.Linked(i);
  }

  /** What has been read already in front of what is still to be read. */
  ghost function Joined(front: Msgs, rest: Option<Msgs>): Option<Msgs> {
    if rest.None? then None else Some(front + rest.value)
  }

  lemma JoinedAll(front: Msgs, rest: Option<Msgs>)
    ensures Joined([], rest) == rest && Joined(front, Some([])) == Some(front)
  {
    assert front + [] == front;
    if rest.Some? {
      assert [] + rest.value == rest.value;
    }
  }

  /** One record of the messages is read. */
  lemma MsgTurn(z: Sizes, cells: seq<Cell>, p: nat, n: int, data: seq<Cell>, front: Msgs)
    requires n > 0
    ensures var m := AsMsg(z, ReadAt(cells, p, z.msg));
            var all := Joined(front, MsgsFrom(z, cells, p, n, data));
            if m.None? || (!m.value.invalid && CString(data, m.value.off).None?) then all == None
            else if m.value.invalid then all == Joined(front, MsgsFrom(z, cells, p + z.msg, n, data))
            else all == Joined(front + [Numbered(m.value.msgId, CString(data, m.value.off).value)],
                               MsgsFrom(z, cells, p + z.msg, n - 1, data))
  {
    hide AsMsg, CString;
    var m := AsMsg(z, ReadAt(cells, p, z.msg));
    if m.Some? && !m.value.invalid && CString(data, m.value.off).Some? {
      var rest := MsgsFrom(z, cells, p + z.msg, n - 1, data);
      var one := Numbered(m.value.msgId, CString(data, m.value.off).value);
      if rest.Some? {
        assert front + ([one] + rest.value) == front + [one] + rest.value;
      }
    }
  }

  class Reader {
    const z: Sizes
    const f: File

    constructor (z: Sizes, f: File)
      ensures this.z == z && this.f == f
    {
      this.z, this.f := z, f;
    }

    /** The messages of a set, linked into its list one by one; false if the file is corrupt. */
    method ReadMsgs(list: MsgList, numMsgs: int, data: seq<Cell>) returns (ok: bool)
      requires list.Valid() && list.value == [] && list.chain == []
      modifies list, f`pos
      ensures ok == MsgsFrom(z, f.cells, old(f.pos), numMsgs, data).Some?
      ensures ok ==> list.Valid() && Some(list.value) == MsgsFrom(z, f.cells, old(f.pos), numMsgs, data)
      ensures fresh(set n | n in list.chain)
    {
      hide List.Valid, AsMsg, CString, Joined, MsgsFrom, ReadAt;
      ghost var all := MsgsFrom(z, f.cells, f.pos, numMsgs, data);
      JoinedAll([], all);
      var i := 0;
      while i < numMsgs
        invariant 0 <= i && list.Valid() && fresh(set n | n in list.chain)
        invariant all == Joined(list.value, MsgsFrom(z, f.cells, f.pos, numMsgs - i, data))
        decreases numMsgs - i, if f.pos <= |f.cells| then |f.cells| - f.pos + 1 else 0
      {
        MsgTurn(z, f.cells, f.pos, numMsgs - i, data, list.value);
        ReadWithin(f.cells, f.pos, z.msg);
        var s := f.Read(z.msg);
        var m := AsMsg(z, s);
        if m.None? {
          return false;
        }
        if m.value.invalid {
          continue;
        }
        var str := CString(data, m.value.off);
        if str.None? {
          return false;
        }
        var n := new Node(m.value.msgId, str.value);
        list.Append(n);
        i := i + 1;
      }
      NoMoreMsgs(z, f.cells, f.pos, numMsgs - i, data);
      JoinedAll(list.value, None);
      return true;
    }

    /** The messages of a set record; one without text has none. */
    method ReadSet(r: SetRecord) returns (ok: bool, list: MsgList)
      modifies f`pos
      ensures ok == SetFrom(z, f.cells, r).Some?
      ensures ok ==> list.Valid() && SetFrom(z, f.cells, r) == Some(Numbered(r.setId, list.value))
      ensures fresh(list) && fresh(set n | n in list.chain)
    {
      hide List.Valid, MsgsFrom, ReadAt;
      list := new List<Text>();
      if r.dataLen == 0 {
        return true, list;
      }
      if r.dataLen < 0 || r.dataOff < 0 || r.firstMsg < 0 {
        return false, list;
      }
      f.Seek(r.dataOff);
      var data := f.Read(r.dataLen);
      if |data| != r.dataLen {
        return false, list;
      }
      f.Seek(r.firstMsg);
      ok := ReadMsgs(list, r.numMsgs, data);
    }

    /** The set at the current position is linked in; the next one is sought. */
    method ReadTurn(cat: Catalog) returns (turn: Answer)
      requires cat.Linked()
      modifies f`pos, cat, cat.sets, cat.Nodes()
      ensures fresh(cat.Nodes() - old(cat.Nodes()))
      ensures fresh(cat.lists - old(cat.lists)) && fresh(cat.msgs - old(cat.msgs))
      ensures cat.curSet == old(cat.curSet)
      ensures match TurnAt(z, f.cells, old(f.pos))
              case Broken => turn == Refused
              case Last(s) => turn == Done && cat.Linked() && cat.value == old(cat.value) + [s]
              case Go(sets, next) => turn == More && cat.Linked() && cat.value == old(cat.value) + sets && f.pos == next
    {
      hide Catalog.Linked, SetFrom, AsSet, ReadAt, List.Valid;
      var s := f.Read(z.set_);
      var r := AsSet(z, s);
      if r.None? {
        return Refused;
      }
      if r.value.invalid {
        assert cat.value + [] == cat.value;
        return More;
      }
      var ok, list := ReadSet(r.value);
      if !ok {
        return Refused;
      }
      cat.AppendSet(r.value.setId, list);
      if r.value.nextSet == 0 {
        return Done;
      }
      if r.value.nextSet < 0 {
        return Refused;
      }
      f.Seek(r.value.nextSet);
      return More;
    }

    /**
     The sets from the current position on. The source follows them for as long as they point on; a
     file of n cells in which it does so more than n times makes it read forever.
     */
    method ReadSets() returns (out: Answer, cat: Catalog)
      modifies f`pos
      ensures fresh(cat.Repr())
      ensures match ReadingFrom(z, f.cells, old(f.pos), |f.cells|)
              case Read(sets) => out == Done && cat.Linked() && cat.curSet == null && cat.value == sets
              case Corrupt => out == Refused
              case Endless => out == Forever
    {
      hide Catalog.Linked, Ordered, ReadingFrom, TurnAt, With;
      ghost var whole := ReadingFrom(z, f.cells, f.pos, |f.cells|);
      cat := NewCatalog();
      var left: nat := |f.cells|;
      WithNothing(whole);
      while true
        invariant fresh(cat) && fresh(cat.sets) && fresh(cat.Nodes()) && fresh(cat.lists) && fresh(cat.msgs)
        invariant cat.Linked() && cat.curSet == null
        invariant whole == With(cat.value, ReadingFrom(z, f.cells, f.pos, left))
        decreases left
      {
        ReadingTurn(z, f.cells, f.pos, left, cat.value);
        out := ReadTurn(cat);
        if out != More {
          return;
        }
        if left == 0 {
          return Forever, cat;
        }
        left := left - 1;
      }
    }

    /** The whole catalog. */
    method ReadCat() returns (out: Answer, cat: Catalog)
      requires f.pos == 0
      modifies f`pos
      ensures fresh(cat.Repr())
      ensures match Reading(z, f.cells)
              case Read(sets) => out == Done && cat.Linked() && cat.curSet == null && cat.value == sets
              case Corrupt => out == Refused
              case Endless => out == Forever
    {
      hide Catalog.Linked, ReadAt, ReadingFrom;
      var s := f.Read(z.head);
      var h := AsHead(z, s);
      if h.None? || h.value.firstSet < 0 {
        cat := new Catalog();
        return Refused, cat;
      }
      f.Seek(h.value.firstSet);
      out, cat := ReadSets();
    }
  }

  method NewCatalog() returns (cat: Catalog)
    ensures cat.Linked() && fresh(cat.Repr()) && cat.value == [] && cat.curSet == null
  {
    cat := new Catalog();
  }

  lemma WithNothing(r: Result)
    ensures With([], r) == r
  {
    if r.Read? {
      assert [] + r.sets == r.sets;
    }
  }

  /** One turn of reading. */
  lemma ReadingTurn(z: Sizes, cells: seq<Cell>, p: nat, left: nat, front: Sets)
    ensures var all := With(front, ReadingFrom(z, cells, p, left));
            match TurnAt(z, cells, p)
            case Broken => all == Corrupt
            case Last(s) => all == Read(front + [s])
            case Go(sets, next) =>
              all == if left == 0 then Endless else With(front + sets, ReadingFrom(z, cells, next, left - 1))
  {
    hide TurnAt;
    match TurnAt(z, cells, p)
    case Go(sets, next) =>
      if left > 0 {
        var rest := ReadingFrom(z, cells, next, left - 1);
        if rest.Read? {
          assert front + (sets + rest.sets) == front + sets + rest.sets;
        }
      }
    case _ =>
  }

  /** How reading ends: well, with a corrupt file, or not at all; or that there is more to read. */
  datatype Answer = Done | Refused | Forever | More

  lemma ReadWithin(cells: seq<Cell>, p: nat, n: nat)
    requires n > 0
    ensures |ReadAt(cells, p, n)| == n ==> p + n <= |cells|
  {
  }

  lemma NoMoreMsgs(z: Sizes, cells: seq<Cell>, p: nat, n: int, data: seq<Cell>)
    requires n <= 0
    ensures MsgsFrom(z, cells, p, n, data) == Some([])
  {
  }

  /**
   A catalog built by any run of edits is read back from what is written: the same sets and
   messages under the same numbers. Without any set the file is refused.
   */
  method ThereAndBack(z: Sizes, edits: seq<Edit>) returns (ok: bool, out: Answer, back: Catalog)
    ensures ok <==> EditedAll(edits).Some?
    ensures ok ==> (out == Refused <==> EditedAll(edits).value.ids == {}) && (out == Done || out == Refused)
    ensures ok && out == Done ==>
      back.Valid() && Shows(back.value, EditedAll(edits).value.cur, EditedAll(edits).value)
  {
    hide Image, Shows, Catalog.Linked, Reading;
    var cat;
    ok, cat := Build(edits);
    out, back := Refused, cat;
    if ok {
      ghost var t := EditedAll(edits).value;
      CurShown(cat.value, cat.CurId(), t);
      NoSets(cat.value, cat.CurId(), t);
      var f := new File();
      var w := new Writer(z, f);
      w.WriteCat(cat);
      f.Seek(0);
      ReadsImage(z, cat.value);
      var r := new Reader(z, f);
      out, back := r.ReadCat();
    }
  }

  lemma NoSets(sets: Sets, cur: Option<int>, t: Texts)
    requires Shows(sets, cur, t)
    ensures sets == [] <==> t.ids == {}
  {
    if sets != [] {
      assert Find(sets, sets[0].id).Some?;
    } else {
      forall s ensures s !in t.ids {
        assert Find(sets, s) == None;
      }
    }
  }
}
