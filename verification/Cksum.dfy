/** `crc` and `crc32`: the checksum of a file, and the running checksum over all files. */
module Cksum {
  import opened CrcTables
  import opened CrcDivision
  import opened CrcMirror
  import opened Pieces

  /** The number that some bytes write, the lowest first. */
  ghost function Number(bytes: seq<Octet>): nat {
    if bytes == [] then 0 else Digit(bytes[0]) + 256 * Number(bytes[1..])
  }

  ghost function Digit(b: Octet): nat {
    b as int
  }

  /** The bytes of a length, the lowest first, without high zeros. */
  ghost predicate IsLength(bytes: seq<Octet>, n: nat) {
    Number(bytes) == n && (bytes != [] ==> bytes[|bytes| - 1] != 0)
  }

  function LengthBytes(n: nat): (bytes: seq<Octet>)
    ensures IsLength(bytes, n)
  {
    hide LowByte, Digit;
    DigitOfLow(n);
    if n == 0 then [] else
      ZeroDigit(LowByte(n));
      [LowByte(n)] + LengthBytes(n / 256)
  }

  function LowByte(n: nat): Octet {
    (n % 256) as bv8
  }

  // ----- Bytes and their numbers

  lemma ZeroDigit(b: Octet)
    ensures b == 0 <==> Digit(b) == 0
  {
  }

  lemma DigitFits(b: Octet)
    ensures Digit(b) < 256
  {
  }

  lemma ByteOfDigit(b: Octet)
    ensures Digit(b) as bv8 == b
  {
  }

  function Up(b: Octet): Octet {
    b + 1
  }

  lemma DigitOfUp(b: Octet)
    requires b != 255
    ensures Digit(Up(b)) == Digit(b) + 1
  {
  }

  lemma LargestDigit(b: Octet)
    requires b == 255
    ensures Digit(b) == 255
  {
  }

  lemma {:induction false} HasByte(m: nat) returns (b: Octet)
    requires m < 256
    ensures Digit(b) == m
  {
    hide Digit, Up;
    if m == 0 {
      b := 0;
      ZeroDigit(b);
    } else {
      b := HasByte(m - 1);
      if b == 255 {
        LargestDigit(b);
      }
      DigitOfUp(b);
      b := Up(b);
    }
  }

  lemma DigitOfLow(n: nat)
    ensures Digit(LowByte(n)) == n % 256
  {
    var b := HasByte(n % 256);
    ByteOfDigit(b);
  }

  lemma DigitDetermines(a: Octet, b: Octet)
    requires Digit(a) == Digit(b)
    ensures a == b
  {
    ByteOfDigit(a);
    ByteOfDigit(b);
  }

  /** A length is written in one way only. */
  lemma {:induction false} OneLength(a: seq<Octet>, b: seq<Octet>, n: nat)
    requires IsLength(a, n) && IsLength(b, n)
    ensures a == b
    decreases |a|
  {
    hide LowByte, Digit;
    if a == [] {
      NumberPositive(b);
    } else if b == [] {
      NumberPositive(a);
    } else {
      DigitFits(a[0]);
      DigitFits(b[0]);
      assert n % 256 == Digit(a[0]) == Digit(b[0]);
      DigitDetermines(a[0], b[0]);
      OneLength(a[1..], b[1..], n / 256);
    }
  }

  lemma {:induction false} NumberPositive(a: seq<Octet>)
    requires a != [] ==> a[|a| - 1] != 0
    ensures a != [] ==> Number(a) > 0
  {
    hide LowByte, Digit;
    if a != [] {
      ZeroDigit(a[0]);
      NumberPositive(a[1..]);
    }
  }

  /** What the checksum of a file is taken over. */
  function WithLength(file: seq<Octet>): (m: seq<Octet>)
    ensures |m| >= |file| && m[..|file|] == file && IsLength(m[|file|..], |file|)
  {
    var m := file + LengthBytes(|file|);
    assert m[|file|..] == LengthBytes(|file|);
    m
  }

  function Not(c: Word): Word {
    !c
  }

  lemma NotTwice(c: Word)
    ensures Not(Not(c)) == c
  {
  }

  lemma NotZero()
    ensures Not(0) == ONES
  {
  }

  lemma NoBytes(c: Word)
    ensures Feed(c, []) == c && MirrorFeed(c, []) == c
  {
  }

  lemma TimesZero()
    ensures Times32(0) == 0
  {
  }

  /** The checksum of crc.c is the remainder of the division, complemented. */
  lemma FeedFromZero(message: seq<Octet>)
    ensures Feed(0, message) == Remainder(0, message)
  {
    hide Feed, Remainder, Times32;
    TimesZero();
    FeedIsRemainder(0, message);
  }

  lemma FeedOne(c: Word, b: Octet)
    ensures Feed(c, [b]) == Step(c, b)
  {
    hide Step;
    assert [b][..0] == [];
    assert Feed(c, [b]) == Step(Feed(c, [b][..0]), b);
  }

  lemma FeedNext(c: Word, s: seq<Octet>, i: nat)
    requires i < |s|
    ensures Feed(c, s[..i + 1]) == Step(Feed(c, s[..i]), s[i])
  {
    hide Step;
    assert s[..i + 1][..i] == s[..i];
  }

  lemma MirrorFeedNext(c: Word, s: seq<Octet>, i: nat)
    requires i < |s|
    ensures MirrorFeed(c, s[..i + 1]) == MirrorStep(MirrorFeed(c, s[..i]), s[i])
  {
    hide MirrorStep;
    assert s[..i + 1][..i] == s[..i];
  }

  /** The messages of a run of files, one behind the other. */
  function Messages(files: seq<seq<Octet>>): seq<Octet> {
    if files == [] then [] else Messages(files[..|files| - 1]) + WithLength(files[|files| - 1])
  }

  class Totals {
    var crcTotal: Word
    var crc32Total: Word

    constructor ()
      ensures crcTotal == Not(0) && crc32Total == 0
    {
      hide Not;
      crcTotal, crc32Total := Not(0), 0;
    }

    method Bytes(lcrc: Word, piece: seq<Octet>) returns (r: Word)
      modifies this`crcTotal
      ensures r == Feed(lcrc, piece) && crcTotal == Feed(old(crcTotal), piece)
    {
      hide Step;
      r := lcrc;
      for i := 0 to |piece|
        invariant r == Feed(lcrc, piece[..i]) && crcTotal == Feed(old(crcTotal), piece[..i])
      {
        FeedNext(lcrc, piece, i);
        FeedNext(old(crcTotal), piece, i);
        r := Step(r, piece[i]);
        crcTotal := Step(crcTotal, piece[i]);
      }
      assert piece[..|piece|] == piece;
    }

    /** Include the length of the file. */
    method Length(lcrc: Word, clen: nat) returns (r: Word)
      modifies this`crcTotal
      ensures r == Feed(lcrc, LengthBytes(clen)) && crcTotal == Feed(old(crcTotal), LengthBytes(clen))
    {
      hide Step, LowByte, Feed;
      r := lcrc;
      var len := clen;
      while len != 0
        invariant Feed(lcrc, LengthBytes(clen)) == Feed(r, LengthBytes(len))
        invariant Feed(old(crcTotal), LengthBytes(clen)) == Feed(crcTotal, LengthBytes(len))
      {
        FeedConcat(r, [LowByte(len)], LengthBytes(len / 256));
        FeedConcat(crcTotal, [LowByte(len)], LengthBytes(len / 256));
        FeedOne(r, LowByte(len));
        FeedOne(crcTotal, LowByte(len));
        r := Step(r, LowByte(len));
        crcTotal := Step(crcTotal, LowByte(len));
        len := len / 256;
      }
      NoBytes(r);
      NoBytes(crcTotal);
    }

    /** The checksum of a file that comes in pieces, its length, and the checksum of all files so far. */
    method Crc(pieces: seq<seq<Octet>>) returns (cval: Word, clen: nat)
      modifies this`crcTotal
      ensures clen == |Flat(pieces)|
      ensures cval == Not(Remainder(0, WithLength(Flat(pieces))))
      ensures forall tail :: IsLength(tail, clen) ==> cval == Not(Remainder(0, Flat(pieces) + tail))
      ensures crcTotal == Not(Feed(Not(old(crcTotal)), WithLength(Flat(pieces))))
    {
      hide Not, Feed, Remainder, IsLength;
      var lcrc: Word, len := 0, 0;
      crcTotal := Not(crcTotal);
      ghost var before := crcTotal;
      NoBytes(0);
      NoBytes(before);
      for i := 0 to |pieces|
        invariant len == |Flat(pieces[..i])|
        invariant lcrc == Feed(0, Flat(pieces[..i])) && crcTotal == Feed(before, Flat(pieces[..i]))
      {
        FlatStep(pieces, i);
        FeedConcat(0, Flat(pieces[..i]), pieces[i]);
        FeedConcat(before, Flat(pieces[..i]), pieces[i]);
        len := len + |pieces[i]|;
        lcrc := Bytes(lcrc, pieces[i]);
      }
      assert pieces[..|pieces|] == pieces;
      clen := len;
      FeedConcat(0, Flat(pieces), LengthBytes(len));
      FeedConcat(before, Flat(pieces), LengthBytes(len));
      lcrc := Length(lcrc, len);
      FeedFromZero(WithLength(Flat(pieces)));
      cval := Not(lcrc);
      forall tail | IsLength(tail, clen)
        ensures cval == Not(Remainder(0, Flat(pieces) + tail))
      {
        OneLength(tail, LengthBytes(clen), clen);
      }
      crcTotal := Not(crcTotal);
    }

    method MirrorBytes(lcrc: Word, piece: seq<Octet>) returns (r: Word)
      modifies this`crc32Total
      ensures r == MirrorFeed(lcrc, piece) && crc32Total == MirrorFeed(old(crc32Total), piece)
    {
      hide MirrorStep;
      r := lcrc;
      for i := 0 to |piece|
        invariant r == MirrorFeed(lcrc, piece[..i]) && crc32Total == MirrorFeed(old(crc32Total), piece[..i])
      {
        MirrorFeedNext(lcrc, piece, i);
        MirrorFeedNext(old(crc32Total), piece, i);
        r := MirrorStep(r, piece[i]);
        crc32Total := MirrorStep(crc32Total, piece[i]);
      }
      assert piece[..|piece|] == piece;
    }

    /** The same in the reflected form, without the length. */
    method Crc32(pieces: seq<seq<Octet>>) returns (cval: Word, clen: nat)
      modifies this`crc32Total
      ensures clen == |Flat(pieces)|
      ensures cval == Not(Mirror(Remainder(BEFORE_ONES, LowestFirst(Flat(pieces)))))
      ensures crc32Total == Not(MirrorFeed(Not(old(crc32Total)), Flat(pieces)))
    {
      hide Not, MirrorFeed, Mirror, Remainder, LowestFirst, ONES, BEFORE_ONES;
      var lcrc, len := Not(0), 0;
      NotZero();
      crc32Total := Not(crc32Total);
      ghost var before := crc32Total;
      NoBytes(ONES);
      NoBytes(before);
      for i := 0 to |pieces|
        invariant len == |Flat(pieces[..i])|
        invariant lcrc == MirrorFeed(ONES, Flat(pieces[..i])) && crc32Total == MirrorFeed(before, Flat(pieces[..i]))
      {
        FlatStep(pieces, i);
        MirrorFeedConcat(ONES, Flat(pieces[..i]), pieces[i]);
        MirrorFeedConcat(before, Flat(pieces[..i]), pieces[i]);
        len := len + |pieces[i]|;
        lcrc := MirrorBytes(lcrc, pieces[i]);
      }
      assert pieces[..|pieces|] == pieces;
      MirrorFeedIsRemainder(Flat(pieces));
      clen := len;
      cval := Not(lcrc);
      crc32Total := Not(crc32Total);
    }
  }

  function Contents(files: seq<seq<seq<Octet>>>): seq<seq<Octet>> {
    seq(|files|, i requires 0 <= i < |files| => Flat(files[i]))
  }

  /**
   The running checksum over any run of files is the complemented remainder of all of them, each
   followed by its length, as one message.
   */
  method CrcFiles(files: seq<seq<seq<Octet>>>) returns (total: Word)
    ensures total == Not(Remainder(0, Messages(Contents(files))))
  {
    hide Not, Feed, Remainder, WithLength;
    var t := new Totals();
    NoBytes(0);
    for i := 0 to |files|
      invariant fresh(t) && t.crcTotal == Not(Feed(0, Messages(Contents(files[..i]))))
    {
      var before := Messages(Contents(files[..i]));
      NotTwice(Feed(0, before));
      assert Contents(files[..i + 1])[..i] == Contents(files[..i]);
      FeedConcat(0, before, WithLength(Flat(files[i])));
      var _, _ := t.Crc(files[i]);
    }
    assert files[..|files|] == files;
    FeedFromZero(Messages(Contents(files)));
    total := t.crcTotal;
  }

  /** The running checksum of the reflected form is the one of all files as one. */
  method Crc32Files(files: seq<seq<seq<Octet>>>) returns (total: Word)
    ensures total == Not(Mirror(Remainder(BEFORE_ONES, LowestFirst(Flat(Contents(files))))))
  {
    hide Not, Feed, Remainder, MirrorFeed, Mirror, LowestFirst, ONES, BEFORE_ONES;
    var t := new Totals();
    NoBytes(ONES);
    NotZero();
    NotTwice(0);
    for i := 0 to |files|
      invariant fresh(t) && t.crc32Total == Not(MirrorFeed(ONES, Flat(Contents(files[..i]))))
    {
      var before := Flat(Contents(files[..i]));
      NotTwice(MirrorFeed(ONES, before));
      FlatStep(Contents(files), i);
      assert Contents(files)[..i + 1] == Contents(files[..i + 1]) && Contents(files)[..i] == Contents(files[..i]);
      MirrorFeedConcat(ONES, before, Flat(files[i]));
      var _, _ := t.Crc32(files[i]);
    }
    assert files[..|files|] == files;
    MirrorFeedIsRemainder(Flat(Contents(files)));
    total := t.crc32Total;
  }
}
