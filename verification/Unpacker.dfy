/** `unpack_parse_header`, `unpackd_fill_inodesin` and `unpack_decode` over their tables. */
module Unpacker {
  import opened Bits
  import opened Basics
  import opened HuffmanTree
  import opened PackedFile

  const MAX_LEVEL: nat := 24
  const HEADER_LENGTH: nat := 7

  function SumOf(s: seq<Byte>): nat {
    if s == [] then 0 else SumOf(s[..|s| - 1]) + s[|s| - 1]
  }

  function BigEndian(s: seq<Byte>): nat {
    if s == [] then 0 else BigEndian(s[..|s| - 1]) * 256 + s[|s| - 1]
  }

  /** The number of four bytes, the most significant first. */
  lemma FourBytes(s: seq<Byte>)
    requires |s| == 4
    ensures BigEndian(s) == s[0] as int * 16777216 + s[1] as int * 65536 + s[2] as int * 256 + s[3]
  {
    assert s[..3][..2] == s[..2] && s[..2][..1] == s[..1] && s[..1][..0] == [];
    assert BigEndian(s[..1]) == s[0] && BigEndian(s[..2]) == BigEndian(s[..1]) * 256 + s[1];
    assert BigEndian(s[..3]) == BigEndian(s[..2]) * 256 + s[2];
  }

  /** The leaf counts of a header: two more in the last level than transmitted. */
  function CountsOf(raw: seq<Byte>): (counts: seq<nat>)
    requires raw != []
    ensures |counts| == |raw|
  {
    seq(|raw|, i requires 0 <= i < |raw| => if i == |raw| - 1 then raw[i] as nat + 2 else raw[i] as nat)
  }

  /** A parsed file: its header and the compressed data behind it. */
  datatype Parsed = Parsed(header: Header, data: seq<Byte>)

  /** What the header of a file says, or None when it is refused; past is the byte behind the symbols. */
  function Parse(file: seq<Byte>, past: Byte): (r: Option<Parsed>)
    ensures r.Some? ==> |file| >= 7 && 1 <= file[6] <= 24
    ensures r.Some? ==> r.value.header.size ==
                        file[2] as int * 16777216 + file[3] as int * 65536 + file[4] as int * 256 + file[5]
  {
    if |file| < HEADER_LENGTH then None else
      FourBytes(file[2..6]);
      var levels, body := file[6], file[HEADER_LENGTH..];
      if levels > MAX_LEVEL || levels < 1 || |body| < levels then None else
        var raw := body[..levels];
        var n := SumOf(raw) + 1;
        if n > 256 || |body| < levels + n then None else
          Some(Parsed(Header(BigEndian(file[2..6]), CountsOf(raw), body[levels..levels + n] + [past]),
                      body[levels + n..]))
  }

  /** The n low bits of a byte, most significant first. */
  function TailBits(b: Byte, n: nat): seq<bool> {
    if n == 0 then [] else [Bit(b, n - 1)] + TailBits(b, n - 1)
  }

  /** The bits of the data, each byte from its highest bit down. */
  function BitsOf(data: seq<Byte>): seq<bool> {
    if data == [] then [] else TailBits(data[0], 8) + BitsOf(data[1..])
  }

  lemma NextByte(data: seq<Byte>, k: nat)
    requires k < |data|
    ensures BitsOf(data[k..]) == TailBits(data[k], 8) + BitsOf(data[k + 1..])
  {
    assert data[k..][1..] == data[k + 1..];
  }

  lemma {:induction false} SumIsSlots(raw: seq<Byte>, counts: seq<nat>, k: nat)
    requires k <= |raw| == |counts| && forall i :: 0 <= i < k ==> counts[i] == raw[i]
    ensures FirstSlot(counts, k) == SumOf(raw[..k])
    decreases k
  {
    if k != 0 {
      SumIsSlots(raw, counts, k - 1);
      assert raw[..k][..k - 1] == raw[..k - 1];
    }
  }

  /** An accepted header describes as many symbols as it has leaves. */
  lemma ParsedIsValid(file: seq<Byte>, past: Byte)
    requires Parse(file, past).Some?
    ensures Parse(file, past).value.header.Valid()
  {
    var levels, body := file[6], file[HEADER_LENGTH..];
    var raw := body[..levels];
    var counts := CountsOf(raw);
    SumIsSlots(raw, counts, levels - 1);
    assert raw[..levels - 1] == raw[..|raw| - 1];
  }

  /** What a whole file unpacks to. */
  function Unpacking(file: seq<Byte>, past: Byte): Result {
    match Parse(file, past)
    case None => Corrupt
    case Some(p) =>
      ParsedIsValid(file, past);
      Decode(p.header, 0, 0, [], BitsOf(p.data))
  }

  lemma {:induction false} SlotsAgree(a: seq<nat>, b: seq<nat>, k: nat)
    requires k <= |a| && k <= |b| && a[..k] == b[..k]
    ensures FirstSlot(a, k) == FirstSlot(b, k)
    decreases k
  {
    if k != 0 {
      assert a[..k][..k - 1] == a[..k - 1] && b[..k][..k - 1] == b[..k - 1];
      assert a[k - 1] == a[..k][k - 1];
      SlotsAgree(a, b, k - 1);
    }
  }

  /** Fill the inner node counts from the last level up. */
  method FillInodesin(symbolsin: array<nat>, inodesin: array<nat>, level: nat)
    requires symbolsin != inodesin && symbolsin.Length == inodesin.Length && level < inodesin.Length
    modifies inodesin
    ensures forall l :: level <= l < inodesin.Length ==> inodesin[l] == Inner(symbolsin[..], l)
    ensures forall l :: 0 <= l < level ==> inodesin[l] == old(inodesin[l])
    decreases inodesin.Length - level
  {
    if level < inodesin.Length - 1 {
      FillInodesin(symbolsin, inodesin, level + 1);
      inodesin[level] := (inodesin[level + 1] + symbolsin[level + 1]) / 2;
    } else {
      inodesin[level] := 0;
    }
  }

  class Unpacker {
    var symbolsin: array<nat>
    var inodesin: array<nat>
    /** The slot of each level's first leaf. */
    var tree: array<nat>
    /** The symbol table and the byte behind it, which the end-of-block slot would address. */
    var symbol: array<Byte>
    var symbolEob: nat
    var uncompressedSize: nat

    ghost function Head(): Header
      reads this, symbolsin, symbol
    {
      Header(uncompressedSize, symbolsin[..], symbol[..])
    }

    /** The tables describe the header. */
    ghost predicate Built()
      reads this, symbolsin, inodesin, tree, symbol
    {
      && Head().Valid()
      && inodesin.Length == tree.Length == symbolsin.Length
      && symbolEob == symbol.Length - 1
      && (forall l :: 0 <= l < inodesin.Length ==> inodesin[l] == Inner(symbolsin[..], l))
      && (forall l :: 0 <= l < tree.Length ==> tree[l] == FirstSlot(symbolsin[..], l))
    }

    constructor ()
    {
      symbolsin, inodesin, tree := new nat[0], new nat[0], new nat[0];
      symbol := new Byte[0];
      symbolEob, uncompressedSize := 0, 0;
    }

    /** Shift one bit into the code; when that makes a leaf, put out its symbol and start over. */
    method TakeBit(level: nat, code: nat, sent: seq<Byte>, b: bool, ghost rest: seq<bool>)
      returns (level': nat, code': nat, out: seq<Byte>, end: Option<Result>)
      requires Built() && Reached(Head(), level, code)
      ensures end.None? ==> Reached(Head(), level', code')
      ensures Decode(Head(), level, code, sent, [b] + rest) ==
              if end.Some? then end.value else Decode(Head(), level', code', out, rest)
    {
      ghost var h := Head();
      assert ([b] + rest)[1..] == rest;
      level', code', out, end := 0, 0, sent, None;
      var n := 2 * code + BitValue(b);
      if n >= inodesin[level] {
        var index := n - inodesin[level];
        if index > symbolsin[level] {
          end := Some(Corrupt);
          return;
        }
        LeafInTable(h, level, n);
        var slot := tree[level] + index;
        if slot == symbolEob && |sent| == uncompressedSize {
          end := Some(Unpacked(sent));
          return;
        }
        out := sent + [symbol[slot]];
      } else {
        level', code' := level + 1, n;
      }
    }

    /** The bits of one byte; rest is what follows them. */
    method TakeByte(level: nat, code: nat, sent: seq<Byte>, b: Byte, ghost rest: seq<bool>)
      returns (level': nat, code': nat, out: seq<Byte>, end: Option<Result>)
      requires Built() && Reached(Head(), level, code)
      ensures end.None? ==> Reached(Head(), level', code')
      ensures Decode(Head(), level, code, sent, TailBits(b, 8) + rest) ==
              if end.Some? then end.value else Decode(Head(), level', code', out, rest)
    {
      assert Head().Valid();
      hide Decode, Reached, Built, Header.Valid;
      level', code', out, end := level, code, sent, None;
      var i := 8;
      while i > 0
        invariant i <= 8 && end.None? && Reached(Head(), level', code')
        invariant Decode(Head(), level', code', out, TailBits(b, i) + rest) ==
                  Decode(Head(), level, code, sent, TailBits(b, 8) + rest)
      {
        i := i - 1;
        assert TailBits(b, i + 1) + rest == [Bit(b, i)] + (TailBits(b, i) + rest);
        level', code', out, end := TakeBit(level', code', out, Bit(b, i), TailBits(b, i) + rest);
        if end.Some? {
          return;
        }
      }
      assert TailBits(b, 0) + rest == rest;
    }

    /** Decode the bytes of the data bit by bit, from the highest bit of each. */
    method DecodeData(data: seq<Byte>) returns (r: Result)
      requires Built()
      ensures r == Decode(Head(), 0, 0, [], BitsOf(data))
    {
      var level: nat, code: nat, out: seq<Byte> := 0, 0, [];
      assert data[0..] == data;
      for k := 0 to |data|
        invariant Reached(Head(), level, code)
        invariant Decode(Head(), level, code, out, BitsOf(data[k..])) == Decode(Head(), 0, 0, [], BitsOf(data))
      {
        hide Decode, Reached, Built, TailBits;
        NextByte(data, k);
        var end;
        level, code, out, end := TakeByte(level, code, out, data[k], BitsOf(data[k + 1..]));
        if end.Some? {
          return end.value;
        }
      }
      r := if |out| != uncompressedSize then Corrupt else Unpacked(out);
    }

    /** The counts as transmitted, and one more than their sum. */
    method ReadCounts(raw: seq<Byte>) returns (symbolSize: nat)
      requires symbolsin.Length == |raw|
      modifies symbolsin
      ensures symbolSize == SumOf(raw) + 1
      ensures forall i :: 0 <= i < |raw| ==> symbolsin[i] == raw[i]
    {
      symbolSize := 1;
      for i := 0 to |raw|
        invariant symbolSize == SumOf(raw[..i]) + 1
        invariant forall l :: 0 <= l < i ==> symbolsin[l] == raw[l]
      {
        assert raw[..i + 1][..i] == raw[..i];
        symbolsin[i] := raw[i];
        symbolSize := symbolSize + symbolsin[i];
      }
      assert raw[..|raw|] == raw;
    }

    /** The symbols so far are what the file has so far. */
    ghost predicate Stored(body: seq<Byte>)
      reads this`symbol, this`symbolEob, symbol
    {
      symbolEob <= |body| && symbolEob < symbol.Length && symbol[..symbolEob] == body[..symbolEob]
    }

    /** The next n symbols; false when the file ends first. */
    method ReadLevel(n: nat, body: seq<Byte>) returns (ok: bool)
      requires symbolEob + n < symbol.Length && Stored(body)
      modifies this`symbolEob, symbol
      ensures ok <==> old(symbolEob) + n <= |body|
      ensures ok ==> symbolEob == old(symbolEob) + n && Stored(body)
      ensures symbol[symbol.Length - 1] == old(symbol[symbol.Length - 1])
    {
      for j := 0 to n
        invariant symbolEob == old(symbolEob) + j <= |body|
        invariant symbol[..symbolEob] == body[..symbolEob]
        invariant symbol[symbol.Length - 1] == old(symbol[symbol.Length - 1])
      {
        if symbolEob >= |body| {
          return false;
        }
        symbol[symbolEob] := body[symbolEob];
        symbolEob := symbolEob + 1;
      }
      ok := true;
    }

    /** One level: note where its symbols start, and read them. */
    method ReadTree(l: nat, body: seq<Byte>) returns (ok: bool)
      requires l < tree.Length == symbolsin.Length && tree != symbolsin
      requires symbolEob + symbolsin[l] < symbol.Length && Stored(body)
      modifies this`symbolEob, tree, symbol
      ensures ok <==> old(symbolEob) + symbolsin[l] <= |body|
      ensures ok ==> symbolEob == old(symbolEob) + symbolsin[l] && Stored(body)
      ensures symbol[symbol.Length - 1] == old(symbol[symbol.Length - 1])
      ensures symbolsin[..] == old(symbolsin[..]) && tree[..] == old(tree[..])[l := old(symbolEob)]
    {
      tree[l] := symbolEob;
      ok := ReadLevel(symbolsin[l], body);
    }

    /** The symbols level by level; false when the file ends first. */
    method ReadSymbols(body: seq<Byte>) returns (ok: bool)
      requires tree.Length == symbolsin.Length && tree != symbolsin
      requires symbol.Length == FirstSlot(symbolsin[..], symbolsin.Length) + 1
      modifies this`symbolEob, tree, symbol
      ensures ok <==> |body| >= symbol.Length - 1
      ensures ok ==> symbolEob == symbol.Length - 1 && Stored(body)
      ensures ok ==> forall l :: 0 <= l < tree.Length ==> tree[l] == FirstSlot(symbolsin[..], l)
      ensures symbol[symbol.Length - 1] == old(symbol[symbol.Length - 1])
    {
      ghost var counts, past := symbolsin[..], symbol[symbol.Length - 1];
      assert FirstSlot(counts, 0) == 0;
      symbolEob := 0;
      assert Stored(body);
      hide FirstSlot, Stored;
      for i := 0 to tree.Length
        invariant symbolEob == FirstSlot(counts, i) && Stored(body)
        invariant symbol[symbol.Length - 1] == past
        invariant forall l :: 0 <= l < i ==> tree[l] == FirstSlot(counts, l)
        invariant symbolsin[..] == counts
      {
        SlotsGrow(counts, i + 1, tree.Length);
        NextFirstSlot(counts, i);
        ghost var before := tree[..];
        var more := ReadTree(i, body);
        assert forall l :: 0 <= l < i ==> tree[..][l] == before[l];
        if !more {
          return false;
        }
      }
      ok := true;
    }

    /** Count the end-of-block leaf too and fill the inner node counts. */
    method CountEob()
      requires 0 < symbolsin.Length == inodesin.Length == tree.Length
      requires symbolsin != inodesin && symbolsin != tree && inodesin != tree
      requires symbolsin[symbolsin.Length - 1] >= 1
      requires symbol.Length == FirstSlot(symbolsin[..], symbolsin.Length) + 1 && symbolEob == symbol.Length - 1
      requires forall l :: 0 <= l < tree.Length ==> tree[l] == FirstSlot(symbolsin[..], l)
      modifies symbolsin, inodesin
      ensures Built()
      ensures symbolsin[..] == old(symbolsin[..])[symbolsin.Length - 1 := old(symbolsin[symbolsin.Length - 1]) + 1]
    {
      var last := symbolsin.Length - 1;
      ghost var before := symbolsin[..];
      symbolsin[last] := symbolsin[last] + 1;
      FillInodesin(symbolsin, inodesin, 0);
      ghost var after := symbolsin[..];
      forall l: nat | l <= last ensures FirstSlot(after, l) == FirstSlot(before, l) {
        SlotsAgree(before, after, l);
      }
      NextFirstSlot(before, last);
      NextFirstSlot(after, last);
    }

    /** Read the symbols that the counts announce and finish the tables. */
    method LoadSymbols(raw: seq<Byte>, body: seq<Byte>, past: Byte) returns (ok: bool)
      requires 0 < |raw| == symbolsin.Length == inodesin.Length == tree.Length
      requires symbolsin != inodesin && symbolsin != tree && inodesin != tree
      requires forall i :: 0 <= i < |raw| ==> symbolsin[i] == raw[i]
      requires symbol.Length == SumOf(raw) + 2 && symbol[symbol.Length - 1] == past
      modifies this`symbolEob, symbolsin, inodesin, tree, symbol
      ensures ok <==> SumOf(raw) + 1 <= |body|
      ensures ok ==> Built() && symbolsin[..] == CountsOf(raw)
      ensures ok ==> symbol[..] == body[..SumOf(raw) + 1] + [past]
    {
      hide Built, Inner;
      var last := |raw| - 1;
      symbolsin[last] := symbolsin[last] + 1;
      SumIsSlots(raw, symbolsin[..], last);
      NextFirstSlot(symbolsin[..], last);
      ok := ReadSymbols(body);
      if ok {
        hide SumOf, FirstSlot;
        assert symbol[..] == symbol[..symbolEob] + [past];
        CountEob();
      }
    }

    /** Fill all tables from the counts and what follows them; false when the header is refused. */
    method BuildTables(raw: seq<Byte>, body: seq<Byte>, past: Byte) returns (ok: bool)
      requires 0 < |raw|
      modifies this
      ensures uncompressedSize == old(uncompressedSize)
      ensures ok <==> SumOf(raw) + 1 <= 256 && SumOf(raw) + 1 <= |body|
      ensures ok ==> Built() && symbolsin[..] == CountsOf(raw) && symbol[..] == body[..SumOf(raw) + 1] + [past]
    {
      hide Built, CountsOf, SumOf;
      symbolsin, inodesin, tree := new nat[|raw|], new nat[|raw|], new nat[|raw|];
      var symbolSize := ReadCounts(raw);
      if symbolSize > 256 {
        return false;
      }
      symbol := new Byte[symbolSize + 1](i => past);
      ok := LoadSymbols(raw, body, past);
    }

    /** The size from the header. */
    method ReadSize(hdr: seq<Byte>)
      requires |hdr| == HEADER_LENGTH
      modifies this`uncompressedSize
      ensures uncompressedSize == BigEndian(hdr[2..6])
    {
      var size: nat := 0;
      for i := 2 to 6
        invariant size == BigEndian(hdr[2..i])
      {
        assert hdr[2..i + 1][..i - 2] == hdr[2..i];
        size := size * 256 + hdr[i];
      }
      uncompressedSize := size;
    }

    /**
     Read the header and build the tables. The header buffer keeps its stale bytes where the file is
     shorter; past is whatever byte lies behind the symbol table.
     */
    method ParseHeader(file: seq<Byte>, stale: seq<Byte>, past: Byte) returns (ok: bool, data: seq<Byte>)
      requires |stale| == HEADER_LENGTH
      modifies this
      ensures ok <==> Parse(file, past).Some?
      ensures ok ==> Built() && Parse(file, past) == Some(Parsed(Head(), data))
      ensures ok ==>
                && |file| >= 7
                && uncompressedSize ==
                   file[2] as int * 16777216 + file[3] as int * 65536 + file[4] as int * 256 + file[5]
    {
      hide Built, CountsOf, SumOf, BigEndian;
      ok, data := false, [];
      var read := Min(|file|, HEADER_LENGTH);
      var hdr, body := file[..read] + stale[read..], file[read..];
      assert read == HEADER_LENGTH ==> hdr == file[..HEADER_LENGTH] && hdr[2..6] == file[2..6];
      ReadSize(hdr);
      var levels := hdr[6];
      if levels > MAX_LEVEL || levels < 1 || |body| < levels {
        return;
      }
      ok := BuildTables(body[..levels], body[levels..], past);
      if ok {
        var n := symbol.Length - 1;
        assert |symbol[..]| == n + 1;
        assert body[levels..][..n] == body[levels..levels + n];
        data := body[levels + n..];
      }
    }

    /** `unpack`: the whole file. */
    method Unpack(file: seq<Byte>, stale: seq<Byte>, past: Byte) returns (r: Result)
      requires |stale| == HEADER_LENGTH
      modifies this
      ensures r == Unpacking(file, past)
    {
      var ok, data := ParseHeader(file, stale, past);
      if ok {
        r := DecodeData(data);
      } else {
        r := Corrupt;
      }
    }
  }
}
