/**
 The catalog file. Its records have sizes that depend on the machine; a file is a sequence of
 cells, each of which is a byte of text or the k-th byte of a record.
 */
module CatalogImage {
  import opened Bits
  import opened Basics
  import opened CatalogLists
  import opened Catalog

  datatype Head = Head(numSets: int, firstSet: int)

  datatype SetRecord = SetRecord(
    setId: int, nextSet: int, firstMsg: int, dataOff: int, dataLen: int, numMsgs: int, invalid: bool)

  datatype MsgRecord = MsgRecord(msgId: int, off: int, invalid: bool)

  datatype Cell =
    | Plain(b: Byte)
    | HeadCell(h: Head, k: nat)
    | SetCell(s: SetRecord, k: nat)
    | MsgCell(m: MsgRecord, k: nat)

  /** The sizes of the three records. */
  datatype SizesBase = Sizes(head: nat, set_: nat, msg: nat)
  type Sizes = z: SizesBase | z.head > 0 && z.set_ > 0 && z.msg > 0 witness Sizes(1, 1, 1)

  function HeadCells(z: Sizes, h: Head): (r: seq<Cell>)
    ensures |r| == z.head
  {
    seq(z.head, k requires k >= 0 => HeadCell(h, k))
  }

  function SetCells(z: Sizes, s: SetRecord): (r: seq<Cell>)
    ensures |r| == z.set_
  {
    seq(z.set_, k requires k >= 0 => SetCell(s, k))
  }

  function MsgCells(z: Sizes, m: MsgRecord): (r: seq<Cell>)
    ensures |r| == z.msg
  {
    seq(z.msg, k requires k >= 0 => MsgCell(m, k))
  }

  /** The record that cells are, if they are one. */
  function AsHead(z: Sizes, s: seq<Cell>): (r: Option<Head>)
    ensures r.Some? ==> |s| == z.head
  {
    if |s| == z.head && s[0].HeadCell? && s == HeadCells(z, s[0].h) then Some(s[0].h) else None
  }

  function AsSet(z: Sizes, s: seq<Cell>): (r: Option<SetRecord>)
    ensures r.Some? ==> |s| == z.set_
  {
    if |s| == z.set_ && s[0].SetCell? && s == SetCells(z, s[0].s) then Some(s[0].s) else None
  }

  function AsMsg(z: Sizes, s: seq<Cell>): (r: Option<MsgRecord>)
    ensures r.Some? ==> |s| == z.msg
  {
    if |s| == z.msg && s[0].MsgCell? && s == MsgCells(z, s[0].m) then Some(s[0].m) else None
  }

  /** A text and the zero that ends it. */
  function StringCells(str: Text): (r: seq<Cell>)
    ensures |r| == |str| + 1
  {
    seq(|str|, k requires 0 <= k < |str| => Plain(str[k])) + [Plain(0)]
  }

  /** The text that starts at a position and ends before the next zero. */
  function CString(data: seq<Cell>, i: int): Option<Text>
    decreases |data| - i
  {
    if i < 0 || i >= |data| || !data[i].Plain? then None
    else if data[i].b == 0 then Some([])
    else match CString(data, i + 1)
         case None => None
         case Some(s) => Some([data[i].b] + s)
  }

  /** The texts of the first n messages, one behind the other. */
  function TextCells(msgs: Msgs, n: nat): seq<Cell>
    requires n <= |msgs|
  {
    if n == 0 then [] else TextCells(msgs, n - 1) + StringCells(msgs[n - 1].item)
  }

  /** The records of the first n messages, with the places of their texts. */
  function MsgsCells(z: Sizes, msgs: Msgs, n: nat): seq<Cell>
    requires n <= |msgs|
  {
    if n == 0 then []
    else MsgsCells(z, msgs, n - 1) + MsgCells(z, MsgRecordOf(msgs, n - 1))
  }

  function MsgRecordOf(msgs: Msgs, i: nat): MsgRecord
    requires i < |msgs|
  {
    MsgRecord(msgs[i].id, |TextCells(msgs, i)|, false)
  }

  function SetRecordOf(z: Sizes, s: Numbered<Msgs>, start: nat, last: bool): SetRecord {
    var dataOff := start + z.set_;
    var dataLen := |TextCells(s.item, |s.item|)|;
    var firstMsg := dataOff + dataLen;
    SetRecord(s.id, if last then 0 else firstMsg + |MsgsCells(z, s.item, |s.item|)|,
              firstMsg, dataOff, dataLen, |s.item|, false)
  }

  function SetImage(z: Sizes, s: Numbered<Msgs>, start: nat, last: bool): seq<Cell> {
    SetCells(z, SetRecordOf(z, s, start, last)) + TextCells(s.item, |s.item|) + MsgsCells(z, s.item, |s.item|)
  }

  /** The first n sets of a catalog, each with the place of the next. */
  function SetsImage(z: Sizes, sets: Sets, n: nat): seq<Cell>
    requires n <= |sets|
  {
    if n == 0 then []
    else var before := SetsImage(z, sets, n - 1);
         before + SetImage(z, sets[n - 1], z.head + |before|, n == |sets|)
  }

  function Image(z: Sizes, sets: Sets): seq<Cell> {
    HeadCells(z, Head(|sets|, z.head)) + SetsImage(z, sets, |sets|)
  }

  // ----- Places in a file

  ghost predicate Holds(cells: seq<Cell>, p: nat, part: seq<Cell>) {
    p + |part| <= |cells| && cells[p..p + |part|] == part
  }

  lemma HoldsParts(cells: seq<Cell>, p: nat, a: seq<Cell>, b: seq<Cell>)
    requires Holds(cells, p, a + b)
    ensures Holds(cells, p, a) && Holds(cells, p + |a|, b)
  {
    assert cells[p..p + |a|] == (a + b)[..|a|];
    assert cells[p + |a|..p + |a| + |b|] == (a + b)[|a|..];
  }

  lemma {:induction false} StringAt(data: seq<Cell>, p: nat, str: Text, k: nat)
    requires Holds(data, p, StringCells(str)) && k <= |str|
    ensures CString(data, p + k) == Some(str[k..])
    decreases |str| - k
  {
    assert data[p + k] == data[p..p + |str| + 1][k] == StringCells(str)[k];
    if k < |str| {
      StringAt(data, p, str, k + 1);
      assert str[k] in str && str[k..] == [str[k]] + str[k + 1..];
    } else {
      assert str[k..] == [];
    }
  }

  lemma {:induction false} TextPlace(msgs: Msgs, i: nat, n: nat)
    requires i < n <= |msgs|
    ensures Holds(TextCells(msgs, n), |TextCells(msgs, i)|, StringCells(msgs[i].item))
    decreases n
  {
    if i < n - 1 {
      TextPlace(msgs, i, n - 1);
      var p, part := |TextCells(msgs, i)|, StringCells(msgs[i].item);
      assert TextCells(msgs, n)[p..p + |part|] == TextCells(msgs, n - 1)[p..p + |part|];
    }
  }

  /** The offset of a message leads to its text. */
  lemma TextFound(msgs: Msgs, i: nat)
    requires i < |msgs|
    ensures CString(TextCells(msgs, |msgs|), |TextCells(msgs, i)|) == Some(msgs[i].item)
  {
    TextPlace(msgs, i, |msgs|);
    StringAt(TextCells(msgs, |msgs|), |TextCells(msgs, i)|, msgs[i].item, 0);
    var str := msgs[i].item;
    assert str[0..] == str;
  }

  lemma {:induction false} MsgPlace(z: Sizes, msgs: Msgs, i: nat, n: nat)
    requires i < n <= |msgs|
    ensures Holds(MsgsCells(z, msgs, n), |MsgsCells(z, msgs, i)|, MsgCells(z, MsgRecordOf(msgs, i)))
    decreases n
  {
    if i < n - 1 {
      MsgPlace(z, msgs, i, n - 1);
      var p, part := |MsgsCells(z, msgs, i)|, MsgCells(z, MsgRecordOf(msgs, i));
      assert MsgsCells(z, msgs, n)[p..p + |part|] == MsgsCells(z, msgs, n - 1)[p..p + |part|];
    }
  }

  lemma {:induction false} SetPlace(z: Sizes, sets: Sets, i: nat, n: nat)
    requires i < n <= |sets|
    ensures var p := |SetsImage(z, sets, i)|;
            Holds(SetsImage(z, sets, n), p, SetImage(z, sets[i], z.head + p, i == |sets| - 1))
    decreases n
  {
    hide SetImage;
    if i < n - 1 {
      SetPlace(z, sets, i, n - 1);
      var p := |SetsImage(z, sets, i)|;
      var part := SetImage(z, sets[i], z.head + p, i == |sets| - 1);
      assert SetsImage(z, sets, n)[p..p + |part|] == SetsImage(z, sets, n - 1)[p..p + |part|];
    }
  }

  lemma Nested(cells: seq<Cell>, p: nat, whole: seq<Cell>, q: nat, part: seq<Cell>)
    requires Holds(cells, p, whole) && Holds(whole, q, part)
    ensures Holds(cells, p + q, part)
  {
    forall k | 0 <= k < |part| ensures cells[p + q + k] == part[k] {
      assert cells[p..p + |whole|][q + k] == whole[q..q + |part|][k];
    }
  }
}
