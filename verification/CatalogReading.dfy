/** What `MCReadCat` makes of any file, and that it reads forever exactly where the sets point in a circle. */
module CatalogReading {
  import opened Basics
  import opened CatalogLists
  import opened Catalog
  import opened CatalogImage

  /** What a read of n cells at a position delivers: fewer at the end of the file. */
  function ReadAt(cells: seq<Cell>, p: nat, n: nat): seq<Cell> {
    if p > |cells| then [] else cells[p..Min(p + n, |cells|)]
  }

  /** The messages whose records are from a position on; None where the file is corrupt. */
  function MsgsFrom(z: Sizes, cells: seq<Cell>, p: nat, n: int, data: seq<Cell>): Option<Msgs>
    decreases if p <= |cells| then |cells| - p + 1 else 0
  {
    if n <= 0 then Some([]) else
      match AsMsg(z, ReadAt(cells, p, z.msg))
      case None => None
      case Some(m) =>
        if m.invalid then MsgsFrom(z, cells, p + z.msg, n, data) else
          match CString(data, m.off)
          case None => None
          case Some(str) =>
            match MsgsFrom(z, cells, p + z.msg, n - 1, data)
            case None => None
            case Some(rest) => Some([Numbered(m.msgId, str)] + rest)
  }

  /** The set of a record; one without text has no messages. */
  function SetFrom(z: Sizes, cells: seq<Cell>, r: SetRecord): Option<Numbered<Msgs>> {
    if r.dataLen == 0 then Some(Numbered(r.setId, []))
    else if r.dataLen < 0 || r.dataOff < 0 || r.firstMsg < 0 then None
    else
      var data := ReadAt(cells, r.dataOff, r.dataLen);
      if |data| != r.dataLen then None else
        match MsgsFrom(z, cells, r.firstMsg, r.numMsgs, data)
        case None => None
        case Some(msgs) => Some(Numbered(r.setId, msgs))
  }

  /** What the record at a position comes to: the end, or some sets (none or one) and the place of the next record. */
  datatype Turn = Broken | Last(set_: Numbered<Msgs>) | Go(sets: Sets, next: nat)

  function TurnAt(z: Sizes, cells: seq<Cell>, p: nat): (t: Turn)
    ensures t.Go? ==> p < |cells|
  {
    match AsSet(z, ReadAt(cells, p, z.set_))
    case None => Broken
    case Some(r) =>
      if r.invalid then Go([], p + z.set_) else
        match SetFrom(z, cells, r)
        case None => Broken
        case Some(s) =>
          if r.nextSet == 0 then Last(s) else if r.nextSet < 0 then Broken else Go([s], r.nextSet)
  }

  datatype Result = Read(sets: Sets) | Corrupt | Endless

  function With(sets: Sets, r: Result): Result {
    if r.Read? then Read(sets + r.sets) else r
  }

  /** The sets from a position on, unless there are more records than `left` before the last. */
  function ReadingFrom(z: Sizes, cells: seq<Cell>, p: nat, left: nat): Result
    decreases left
  {
    match TurnAt(z, cells, p)
    case Broken => Corrupt
    case Last(s) => Read([s])
    case Go(sets, next) => if left == 0 then Endless else With(sets, ReadingFrom(z, cells, next, left - 1))
  }

  function Reading(z: Sizes, cells: seq<Cell>): Result {
    match AsHead(z, ReadAt(cells, 0, z.head))
    case None => Corrupt
    case Some(h) => if h.firstSet < 0 then Corrupt else ReadingFrom(z, cells, h.firstSet, |cells|)
  }

  /** A set record marked as invalid is passed over, whatever else it says: the next one is right behind it. */
  lemma InvalidSetSkipped(z: Sizes, cells: seq<Cell>, p: nat, left: nat)
    requires p + z.set_ <= |cells| && AsSet(z, cells[p..p + z.set_]).Some?
    requires AsSet(z, cells[p..p + z.set_]).value.invalid
    ensures ReadingFrom(z, cells, p, left + 1) == ReadingFrom(z, cells, p + z.set_, left)
  {
    var r := ReadingFrom(z, cells, p + z.set_, left);
    assert r.Read? ==> [] + r.sets == r.sets;
  }

  /** An invalid message record is passed over and does not count as one of the set's messages. */
  lemma InvalidMsgSkipped(z: Sizes, cells: seq<Cell>, p: nat, n: nat, data: seq<Cell>)
    requires p + z.msg <= |cells| && AsMsg(z, cells[p..p + z.msg]).Some?
    requires AsMsg(z, cells[p..p + z.msg]).value.invalid
    ensures MsgsFrom(z, cells, p, n, data) == MsgsFrom(z, cells, p + z.msg, n, data)
  {
  }

  // ----- More records than the file has cells are visited in a circle

  predicate Runs(z: Sizes, cells: seq<Cell>, p: nat, n: nat)
    decreases n
  {
    n > 0 ==> TurnAt(z, cells, p).Go? && Runs(z, cells, TurnAt(z, cells, p).next, n - 1)
  }

  function Place(z: Sizes, cells: seq<Cell>, p: nat, n: nat): nat
    requires Runs(z, cells, p, n)
    decreases n
  {
    if n == 0 then p else Place(z, cells, TurnAt(z, cells, p).next, n - 1)
  }

  lemma {:induction false} EndlessRuns(z: Sizes, cells: seq<Cell>, p: nat, left: nat)
    ensures ReadingFrom(z, cells, p, left) == Endless <==> Runs(z, cells, p, left + 1)
    decreases left
  {
    hide TurnAt;
    var t := TurnAt(z, cells, p);
    if t.Go? && left > 0 {
      EndlessRuns(z, cells, t.next, left - 1);
    } else if t.Go? {
      assert Runs(z, cells, t.next, 0);
    }
  }

  lemma {:induction false} RunsSplit(z: Sizes, cells: seq<Cell>, p: nat, m: nat, n: nat)
    requires Runs(z, cells, p, m)
    ensures Runs(z, cells, p, m + n) <==> Runs(z, cells, Place(z, cells, p, m), n)
    decreases m
  {
    hide TurnAt;
    if m > 0 {
      RunsSplit(z, cells, TurnAt(z, cells, p).next, m - 1, n);
    }
  }

  lemma {:induction false} RunsLess(z: Sizes, cells: seq<Cell>, p: nat, m: nat, n: nat)
    requires m <= n && Runs(z, cells, p, n)
    ensures Runs(z, cells, p, m)
    decreases m
  {
    hide TurnAt;
    if m > 0 {
      RunsLess(z, cells, TurnAt(z, cells, p).next, m - 1, n - 1);
    }
  }

  /** A run that comes to the same place twice never ends. */
  lemma {:induction false} CircleRuns(z: Sizes, cells: seq<Cell>, p: nat, a: nat, b: nat, n: nat)
    requires a < b && Runs(z, cells, p, b) && Runs(z, cells, p, a) && Place(z, cells, p, a) == Place(z, cells, p, b)
    ensures Runs(z, cells, p, n)
    decreases n
  {
    hide TurnAt, Runs;
    if n <= b {
      RunsLess(z, cells, p, n, b);
    } else {
      CircleRuns(z, cells, p, a, b, a + (n - b));
      RunsSplit(z, cells, p, a, n - b);
      RunsSplit(z, cells, p, b, n - b);
    }
  }

  /** Among more than n numbers below n, two are equal. */
  lemma {:induction false} Repeats(s: seq<nat>, n: nat) returns (a: nat, b: nat)
    requires |s| > n > 0 && forall i :: 0 <= i < |s| ==> s[i] < n
    ensures a < b < |s| && s[a] == s[b]
    decreases n
  {
    if n == 1 {
      a, b := 0, 1;
    } else if i :| 0 <= i < |s| && s[i] == n - 1 {
      if j :| 0 <= j < |s| && j != i && s[j] == n - 1 {
        a, b := Min(i, j), if i < j then j else i;
      } else {
        a, b := Repeats(Without(s, i), n - 1);
        a, b := if a < i then a else a + 1, if b < i then b else b + 1;
      }
    } else {
      a, b := Repeats(s, n - 1);
    }
  }

  lemma {:induction false} PlaceInside(z: Sizes, cells: seq<Cell>, p: nat, k: nat, n: nat)
    requires k < n && Runs(z, cells, p, n)
    ensures Runs(z, cells, p, k) && Place(z, cells, p, k) < |cells|
    decreases k
  {
    hide TurnAt;
    if k > 0 {
      PlaceInside(z, cells, TurnAt(z, cells, p).next, k - 1, n - 1);
    }
  }

  /** The source reads forever exactly where more records than the file has cells are not enough. */
  lemma EndlessExactly(z: Sizes, cells: seq<Cell>, p: nat)
    ensures ReadingFrom(z, cells, p, |cells|) == Endless <==>
            forall left: nat :: ReadingFrom(z, cells, p, left) == Endless
  {
    hide TurnAt, Runs, ReadingFrom;
    var n := |cells|;
    if ReadingFrom(z, cells, p, n) == Endless {
      EndlessRuns(z, cells, p, n);
      forall k: nat | k <= n ensures Runs(z, cells, p, k) && Place(z, cells, p, k) < n {
        PlaceInside(z, cells, p, k, n + 1);
      }
      var places := seq(n + 1, k requires 0 <= k <= n && Runs(z, cells, p, k) => Place(z, cells, p, k));
      assert Place(z, cells, p, 0) < n;
      var a, b := Repeats(places, n);
      forall left: nat ensures ReadingFrom(z, cells, p, left) == Endless {
        CircleRuns(z, cells, p, a, b, left + 1);
        EndlessRuns(z, cells, p, left);
      }
    }
  }

  // ----- What was written is read back

  /** What the reader finds where a message was written. */
  lemma MsgRead(z: Sizes, cells: seq<Cell>, start: nat, msgs: Msgs, i: nat)
    requires Holds(cells, start, MsgsCells(z, msgs, |msgs|)) && i < |msgs|
    ensures var p := start + |MsgsCells(z, msgs, i)|;
            p + z.msg <= |cells| && AsMsg(z, cells[p..p + z.msg]) == Some(MsgRecordOf(msgs, i))
    ensures |MsgsCells(z, msgs, i + 1)| == |MsgsCells(z, msgs, i)| + z.msg
    ensures CString(TextCells(msgs, |msgs|), MsgRecordOf(msgs, i).off) == Some(msgs[i].item)
  {
    var m := MsgRecordOf(msgs, i);
    MsgPlace(z, msgs, i, |msgs|);
    Nested(cells, start, MsgsCells(z, msgs, |msgs|), |MsgsCells(z, msgs, i)|, MsgCells(z, m));
    assert AsMsg(z, MsgCells(z, m)) == Some(m);
    TextFound(msgs, i);
  }

  /** The start of a set in a catalog. */
  function Start(z: Sizes, sets: Sets, i: nat): nat
    requires i <= |sets|
  {
    z.head + |SetsImage(z, sets, i)|
  }

  /** What the reader finds where a set was written. */
  lemma SetRead(z: Sizes, sets: Sets, i: nat)
    requires i < |sets|
    ensures var cells, p := Image(z, sets), Start(z, sets, i);
            var r := SetRecordOf(z, sets[i], p, i == |sets| - 1);
            var msgs := sets[i].item;
            && p + z.set_ <= |cells| && AsSet(z, cells[p..p + z.set_]) == Some(r)
            && Holds(cells, r.dataOff, TextCells(msgs, |msgs|)) && Holds(cells, r.firstMsg, MsgsCells(z, msgs, |msgs|))
            && r.nextSet == (if i == |sets| - 1 then 0 else Start(z, sets, i + 1)) && !r.invalid
  {
    hide TextCells, MsgsCells, SetCells, HeadCells, AsSet, SetsImage;
    var cells, p, r := Image(z, sets), Start(z, sets, i), SetRecordOf(z, sets[i], Start(z, sets, i), i == |sets| - 1);
    var msgs := sets[i].item;
    var record, texts, records := SetCells(z, r), TextCells(msgs, |msgs|), MsgsCells(z, msgs, |msgs|);
    SetPlace(z, sets, i, |sets|);
    SetsImageStep(z, sets, i);
    assert Holds(cells, z.head, SetsImage(z, sets, |sets|));
    Nested(cells, z.head, SetsImage(z, sets, |sets|), |SetsImage(z, sets, i)|, record + texts + records);
    HoldsParts(cells, p, record + texts, records);
    HoldsParts(cells, p, record, texts);
    SetDecodes(z, r);
  }

  lemma SetDecodes(z: Sizes, r: SetRecord)
    ensures AsSet(z, SetCells(z, r)) == Some(r)
  {
  }

  lemma SetsImageStep(z: Sizes, sets: Sets, i: nat)
    requires i < |sets|
    ensures SetsImage(z, sets, i + 1)
         == SetsImage(z, sets, i) + SetImage(z, sets[i], Start(z, sets, i), i == |sets| - 1)
  {
  }

  lemma {:induction false} NoTexts(msgs: Msgs, n: nat)
    requires n <= |msgs|
    ensures TextCells(msgs, n) == [] <==> n == 0
  {
  }

  lemma HeadRead(z: Sizes, sets: Sets)
    ensures var cells := Image(z, sets);
            z.head <= |cells| && AsHead(z, cells[..z.head]) == Some(Head(|sets|, z.head)) && Start(z, sets, 0) == z.head
            && (sets == [] ==> |cells| == z.head)
  {
    assert Image(z, sets)[..z.head] == HeadCells(z, Head(|sets|, z.head));
  }

  lemma {:induction false} MsgsReadBack(z: Sizes, cells: seq<Cell>, start: nat, msgs: Msgs, i: nat)
    requires Holds(cells, start, MsgsCells(z, msgs, |msgs|)) && i <= |msgs|
    ensures MsgsFrom(z, cells, start + |MsgsCells(z, msgs, i)|, |msgs| - i, TextCells(msgs, |msgs|)) == Some(msgs[i..])
    decreases |msgs| - i
  {
    hide MsgsCells, TextCells, AsMsg, CString;
    if i < |msgs| {
      MsgRead(z, cells, start, msgs, i);
      MsgsReadBack(z, cells, start, msgs, i + 1);
      assert msgs[i..] == [Numbered(msgs[i].id, msgs[i].item)] + msgs[i + 1..];
    } else {
      assert msgs[i..] == [];
    }
  }

  lemma SetReadBack(z: Sizes, cells: seq<Cell>, s: Numbered<Msgs>, start: nat, last: bool)
    requires var r := SetRecordOf(z, s, start, last);
             && Holds(cells, r.dataOff, TextCells(s.item, |s.item|))
             && Holds(cells, r.firstMsg, MsgsCells(z, s.item, |s.item|))
    ensures SetFrom(z, cells, SetRecordOf(z, s, start, last)) == Some(s)
  {
    var r := SetRecordOf(z, s, start, last);
    NoTexts(s.item, |s.item|);
    MsgsReadBack(z, cells, r.firstMsg, s.item, 0);
    assert MsgsCells(z, s.item, 0) == [];
    hide MsgsCells, TextCells, MsgsFrom;
    assert s.item[0..] == s.item;
  }

  lemma {:induction false} SetsReadBack(z: Sizes, sets: Sets, i: nat, left: nat)
    requires i < |sets| && |sets| - i <= left + 1
    ensures ReadingFrom(z, Image(z, sets), Start(z, sets, i), left) == Read(sets[i..])
    decreases |sets| - i
  {
    hide Image, Start, SetFrom, AsSet, SetRecordOf, TextCells, MsgsCells;
    SetRead(z, sets, i);
    SetReadBack(z, Image(z, sets), sets[i], Start(z, sets, i), i == |sets| - 1);
    StartPositive(z, sets, i + 1);
    assert sets[i..] == [sets[i]] + sets[i + 1..];
    if i < |sets| - 1 {
      SetsReadBack(z, sets, i + 1, left - 1);
    }
  }

  lemma StartPositive(z: Sizes, sets: Sets, i: nat)
    requires i <= |sets|
    ensures Start(z, sets, i) > 0
  {
  }

  lemma {:induction false} ImageLarge(z: Sizes, sets: Sets, n: nat)
    requires n <= |sets|
    ensures |SetsImage(z, sets, n)| >= n
    decreases n
  {
    hide TextCells, MsgsCells, SetCells;
    if n > 0 {
      ImageLarge(z, sets, n - 1);
    }
  }

  /** The image of a catalog is read as that catalog; that of one without sets is refused. */
  lemma ReadsImage(z: Sizes, sets: Sets)
    ensures Reading(z, Image(z, sets)) == if sets == [] then Corrupt else Read(sets)
  {
    HeadRead(z, sets);
    ImageLarge(z, sets, |sets|);
    var cells := Image(z, sets);
    assert |cells| >= |sets|;
    hide Image, ReadingFrom, Start, SetsImage;
    assert ReadAt(cells, 0, z.head) == cells[..z.head];
    if sets == [] {
      NothingThere(z, cells);
    } else {
      SetsReadBack(z, sets, 0, |cells|);
      assert sets[0..] == sets;
    }
  }

  lemma NothingThere(z: Sizes, cells: seq<Cell>)
    ensures ReadingFrom(z, cells, |cells|, |cells|) == Corrupt
  {
  }
}
