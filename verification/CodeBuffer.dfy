/**
 The bit packer of compress: codes of 9 to 16 bits laid least significant bit first into a
 16-byte buffer that holds eight codes of the current width. `PutCode` is the store of one
 code by `output`, `ExtractCode` the load of one code by `getcode`. A width change makes the
 writer flush the buffer whole and the reader load a new one.
 */
module CodeBuffer {
  import opened Bits

  const BITS: nat := 16
  const INIT_BITS: nat := 9

  type Buffer = b: seq<Byte> | |b| == BITS witness seq(BITS, i => 0)

  predicate LegalWidth(w: nat) {
    INIT_BITS <= w <= BITS
  }

  /** The low eight bits of x, as a store into a char_type keeps them. */
  function ToByte(x: nat): Byte {
    LowIsSmall(x, 8);
    assert Pow2(8) == 256;
    Low(x, 8)
  }

  /** The first store of a code: keep the r low bits of the old byte, put the code above them. */
  function FirstByte(prior: Byte, code: nat, r: nat): Byte
    requires r < 8
  {
    FirstByteFits(prior, code, r);
    Low(prior, r) + Shl(Low(code, 8 - r), r)
  }

  lemma FirstByteFits(prior: Byte, code: nat, r: nat)
    requires r < 8
    ensures Low(prior, r) + Shl(Low(code, 8 - r), r) < 256
  {
    LowIsSmall(prior, r);
    LowIsSmall(code, 8 - r);
    JoinIsSmall(Low(prior, r), Low(code, 8 - r), r, 8 - r, 8);
    assert Pow2(8) == 256;
  }

  /** The buffer after `output` stored an n-bit code at bit offset off. */
  function PutCode(buf: Buffer, off: nat, n: nat, code: nat): Buffer
    requires LegalWidth(n) && off + n <= 8 * n
  {
    var q, r := off / 8, off % 8;
    var b1 := buf[q := FirstByte(buf[q], code, r)];
    var bits, rest := n - (8 - r), Shr(code, 8 - r);
    if bits >= 8 then
      var b2 := b1[q + 1 := ToByte(rest)];
      if bits == 8 then b2 else b2[q + 2 := ToByte(Shr(rest, 8))]
    else
      b1[q + 1 := ToByte(rest)]
  }

  /** The n bits that start at bit r of b0 and run on into b1 and b2. */
  function JoinBytes(b0: Byte, b1: Byte, b2: Byte, r: nat, n: nat): nat
    requires r < 8 && LegalWidth(n)
  {
    var bits := n - (8 - r);
    if bits >= 8 then
      Shr(b0, r) + Shl(b1, 8 - r) + Shl(Low(b2, bits - 8), 16 - r)
    else
      Shr(b0, r) + Shl(Low(b1, bits), 8 - r)
  }

  /** The n-bit code that `getcode` loads from bit offset off; a third byte is used only when bits of it are. */
  function ExtractCode(g: Buffer, off: nat, n: nat): nat
    requires LegalWidth(n) && off + n <= 8 * n
  {
    var q, r := off / 8, off % 8;
    JoinBytes(g[q], g[q + 1], if n + r > 16 then g[q + 2] else 0, r, n)
  }

  lemma FirstByteBits(prior: Byte, code: nat, r: nat, j: nat)
    requires r < 8 && j < 8
    ensures Bit(FirstByte(prior, code, r), j) == if j < r then Bit(prior, j) else Bit(code, j - r)
  {
    LowIsSmall(prior, r);
    JoinBits(Low(prior, r), Low(code, 8 - r), r, j);
    if j < r {
      LowBits(prior, r, j);
    } else {
      LowBits(code, 8 - r, j - r);
    }
  }

  lemma LaterByteBits(code: nat, k: nat, j: nat)
    requires j < 8
    ensures Bit(ToByte(Shr(code, k)), j) == Bit(code, j + k)
  {
    LowBits(Shr(code, k), 8, j);
    ShrBits(code, k, j);
  }

  lemma {:induction false} ShrShr(x: nat, a: nat, b: nat)
    ensures Shr(Shr(x, a), b) == Shr(x, a + b)
    decreases a
  {
    if a != 0 {
      ShrShr(x / 2, a - 1, b);
    }
  }

  /** Storing a code writes its bits and leaves every earlier bit of the buffer alone. */
  lemma PutCodeBits(buf: Buffer, off: nat, n: nat, code: nat, j: nat)
    requires LegalWidth(n) && off + n <= 8 * n
    requires j < off + n
    ensures BitAt(PutCode(buf, off, n, code), j) == if j < off then BitAt(buf, j) else Bit(code, j - off)
  {
    var q, r := off / 8, off % 8;
    var rest := Shr(code, 8 - r);
    if j / 8 == q {
      FirstByteBits(buf[q], code, r, j % 8);
    } else if j / 8 == q + 1 {
      LaterByteBits(code, 8 - r, j % 8);
    } else if j / 8 == q + 2 {
      ShrShr(code, 8 - r, 8);
      LaterByteBits(code, 16 - r, j % 8);
    }
  }

  /** Bit off + j of a buffer, found by the byte and the position that off starts at. */
  lemma BitFromOffset(g: Buffer, off: nat, j: nat)
    requires off + j < 8 * BITS
    ensures var q, r := off / 8, off % 8;
            BitAt(g, off + j) ==
            if j < 8 - r then Bit(g[q], r + j) else Bit(g[q + (r + j) / 8], (r + j) % 8)
  {
    var q, r := off / 8, off % 8;
    assert off + j == 8 * q + (r + j);
    assert (off + j) / 8 == q + (r + j) / 8 && (off + j) % 8 == (r + j) % 8;
  }

  /** Joined bytes keep each bit of theirs in its place. */
  lemma JoinBytesBits(b0: Byte, b1: Byte, b2: Byte, r: nat, n: nat, j: nat)
    requires r < 8 && LegalWidth(n) && j < n
    ensures Bit(JoinBytes(b0, b1, b2, r, n), j) ==
            if j < 8 - r then Bit(b0, r + j) else if j < 16 - r then Bit(b1, j - (8 - r)) else Bit(b2, j - (16 - r))
  {
    var bits := n - (8 - r);
    if bits >= 8 {
      var pair := Shr(b0, r) + Shl(b1, 8 - r);
      PairFits(b0, b1, r);
      JoinBits(pair, Low(b2, bits - 8), 16 - r, j);
      if j < 16 - r {
        PairBits(b0, b1, r, j);
      } else {
        LowBits(b2, bits - 8, j - (16 - r));
      }
    } else {
      PairBits(b0, Low(b1, bits), r, j);
      if j >= 8 - r {
        LowBits(b1, bits, j - (8 - r));
      }
    }
  }

  lemma PairBits(b0: Byte, x: nat, r: nat, j: nat)
    requires r < 8
    ensures Bit(Shr(b0, r) + Shl(x, 8 - r), j) == if j < 8 - r then Bit(b0, r + j) else Bit(x, j - (8 - r))
  {
    ByteTopFits(b0, r);
    JoinBits(Shr(b0, r), x, 8 - r, j);
    if j < 8 - r {
      ShrBits(b0, r, j);
    }
  }

  lemma PairFits(b0: Byte, b1: Byte, r: nat)
    requires r < 8
    ensures Shr(b0, r) + Shl(b1, 8 - r) < Pow2(16 - r)
  {
    ByteTopFits(b0, r);
    ByteFits(b1);
    JoinIsSmall(Shr(b0, r), b1, 8 - r, 8, 16 - r);
  }

  lemma JoinBytesFit(b0: Byte, b1: Byte, b2: Byte, r: nat, n: nat)
    requires r < 8 && LegalWidth(n)
    ensures JoinBytes(b0, b1, b2, r, n) < Pow2(n)
  {
    hide Pow2, Low, Shr, Shl;
    var bits := n - (8 - r);
    if bits >= 8 {
      PairFits(b0, b1, r);
      LowIsSmall(b2, bits - 8);
      JoinIsSmall(Shr(b0, r) + Shl(b1, 8 - r), Low(b2, bits - 8), 16 - r, bits - 8, n);
    } else {
      ByteTopFits(b0, r);
      LowIsSmall(b1, bits);
      JoinIsSmall(Shr(b0, r), Low(b1, bits), 8 - r, bits, n);
    }
  }

  lemma ByteFits(b: Byte)
    ensures b < Pow2(8)
  {
    assert Pow2(8) == 256;
  }

  lemma ByteTopFits(b: Byte, r: nat)
    requires r < 8
    ensures Shr(b, r) < Pow2(8 - r)
  {
    ByteFits(b);
    ShrIsSmall(b, r, 8 - r);
  }

  /** Loading a code reads the n bits at its offset. */
  lemma ExtractCodeBits(g: Buffer, off: nat, n: nat, j: nat)
    requires LegalWidth(n) && off + n <= 8 * n
    requires j < n
    ensures Bit(ExtractCode(g, off, n), j) == BitAt(g, off + j)
  {
    var q, r := off / 8, off % 8;
    BitFromOffset(g, off, j);
    JoinBytesBits(g[q], g[q + 1], if n + r > 16 then g[q + 2] else 0, r, n, j);
  }

  /** A loaded code fits in n bits. */
  lemma ExtractFits(g: Buffer, off: nat, n: nat)
    requires LegalWidth(n) && off + n <= 8 * n
    ensures ExtractCode(g, off, n) < Pow2(n)
  {
    var q, r := off / 8, off % 8;
    JoinBytesFit(g[q], g[q + 1], if n + r > 16 then g[q + 2] else 0, r, n);
  }

  /** A load from any buffer that carries a code's bits at an offset returns that code. */
  lemma ExtractFinds(g: Buffer, off: nat, n: nat, code: nat)
    requires LegalWidth(n) && off + n <= 8 * n && code < Pow2(n)
    requires forall j: nat :: off <= j < off + n ==> BitAt(g, j) == Bit(code, j - off)
    ensures ExtractCode(g, off, n) == code
  {
    ExtractFits(g, off, n);
    forall j: nat | j < n ensures Bit(ExtractCode(g, off, n), j) == Bit(code, j) {
      ExtractCodeBits(g, off, n, j);
      assert BitAt(g, off + j) == Bit(code, off + j - off);
    }
    BitsDetermine(ExtractCode(g, off, n), code, n);
  }
}
