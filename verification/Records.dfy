/**
 Record conversion: text of newline-terminated lines to fixed records of cbsz bytes and back, on
 whole inputs and byte by byte.
 */
module Records {
  import opened Bits

  const NEWLINE: Byte := 10
  const SPACE: Byte := 32

  function Spaces(n: nat): (s: seq<Byte>)
    ensures |s| == n && forall i :: 0 <= i < n ==> s[i] == 32
  {
    if n == 0 then [] else Spaces(n - 1) + [SPACE]
  }

  /** A line as a record: cut or padded to cbsz bytes. */
  function Record(line: seq<Byte>, cbsz: nat): (r: seq<Byte>)
    ensures |r| == cbsz && forall i :: 0 <= i < cbsz ==> r[i] == if i < |line| then line[i] else 32
  {
    if |line| >= cbsz then line[..cbsz] else line + Spaces(cbsz - |line|)
  }

  /** The first line of a text, without its newline. */
  function Line(text: seq<Byte>): (line: seq<Byte>)
    ensures |line| <= |text| && line == text[..|line|] && 10 !in line
    ensures |line| < |text| ==> text[|line|] == 10
  {
    if text == [] || text[0] == NEWLINE then [] else [text[0]] + Line(text[1..])
  }

  /** The text behind its first line. */
  function Rest(text: seq<Byte>): (rest: seq<Byte>)
    ensures text != [] ==> |rest| < |text|
  {
    var n := |Line(text)|;
    if n < |text| then text[n + 1..] else []
  }

  /** What block makes of a whole input: one record for each line, the last perhaps unterminated. */
  function Blocked(text: seq<Byte>, cbsz: nat): seq<Byte>
    decreases |text|
  {
    if text == [] then [] else Record(Line(text), cbsz) + Blocked(Rest(text), cbsz)
  }

  /** A record without its trailing blanks. */
  function Trim(s: seq<Byte>): (r: seq<Byte>)
    ensures |r| <= |s| && r == s[..|r|]
  {
    if s != [] && s[|s| - 1] == SPACE then Trim(s[..|s| - 1]) else s
  }

  /** What unblock makes of a whole input: a line for each record, the last perhaps short. */
  function Unblocked(s: seq<Byte>, cbsz: nat): seq<Byte>
    requires cbsz > 0
    decreases |s|
  {
    if s == [] then []
    else if |s| < cbsz then Trim(s) + [NEWLINE]
    else Trim(s[..cbsz]) + [NEWLINE] + Unblocked(s[cbsz..], cbsz)
  }

  /** A line that survives the trip: not longer than a record and without trailing blanks. */
  predicate Plain(line: seq<Byte>, cbsz: nat) {
    |line| <= cbsz && (line != [] ==> line[|line| - 1] != SPACE)
  }

  /** Every line is terminated and plain. */
  predicate PlainText(text: seq<Byte>, cbsz: nat)
    decreases |text|
  {
    text != [] ==> |Line(text)| < |text| && Plain(Line(text), cbsz) && PlainText(Rest(text), cbsz)
  }

  lemma {:induction false} TrimPadded(line: seq<Byte>, n: nat)
    ensures Trim(line + Spaces(n)) == Trim(line)
    decreases n
  {
    if n == 0 {
      assert line + Spaces(0) == line;
    } else {
      var s := line + Spaces(n);
      assert s[..|s| - 1] == line + Spaces(n - 1);
      TrimPadded(line, n - 1);
    }
  }

  lemma TrimFixed(s: seq<Byte>)
    ensures Trim(s) == s <==> (s != [] ==> s[|s| - 1] != SPACE)
  {
  }

  /** What comes back of a line that was made a record. */
  function Returned(line: seq<Byte>, cbsz: nat): seq<Byte> {
    Trim(if |line| > cbsz then line[..cbsz] else line)
  }

  lemma TrimRecord(line: seq<Byte>, cbsz: nat)
    ensures Trim(Record(line, cbsz)) == Returned(line, cbsz)
    ensures Returned(line, cbsz) == line <==> Plain(line, cbsz)
    ensures NEWLINE !in line ==> NEWLINE !in Returned(line, cbsz)
  {
    hide Trim, Spaces;
    if |line| > cbsz {
    } else {
      TrimFixed(line);
      if |line| < cbsz {
        TrimPadded(line, cbsz - |line|);
      } else {
        assert line[..cbsz] == line;
      }
    }
  }

  lemma UnblockedStep(text: seq<Byte>, cbsz: nat)
    requires cbsz > 0 && text != []
    ensures Unblocked(Blocked(text, cbsz), cbsz) ==
            Trim(Record(Line(text), cbsz)) + [NEWLINE] + Unblocked(Blocked(Rest(text), cbsz), cbsz)
  {
    var r, rest := Record(Line(text), cbsz), Blocked(Rest(text), cbsz);
    assert (r + rest)[..cbsz] == r && (r + rest)[cbsz..] == rest;
  }

  /** The first line of a text that is given by its first line. */
  lemma {:induction false} LineOf(a: seq<Byte>, x: seq<Byte>)
    requires NEWLINE !in a
    ensures Line(a + [NEWLINE] + x) == a && Rest(a + [NEWLINE] + x) == x
    decreases |a|
  {
    var text := a + [NEWLINE] + x;
    if a != [] {
      assert text[1..] == a[1..] + [NEWLINE] + x;
      LineOf(a[1..], x);
    }
    assert text[|a| + 1..] == x;
  }

  /**
   unblock after block gives a text back exactly when all of its lines are newline-terminated,
   at most cbsz bytes long and without trailing blanks.
   */
  lemma {:induction false} RoundTripExactly(text: seq<Byte>, cbsz: nat)
    requires cbsz > 0
    ensures Unblocked(Blocked(text, cbsz), cbsz) == text <==> PlainText(text, cbsz)
    decreases |text|
  {
    if text != [] {
      hide Trim, Line, Rest, Blocked, Unblocked;
      var line, rest := Line(text), Rest(text);
      var kept, back := Returned(line, cbsz), Unblocked(Blocked(rest, cbsz), cbsz);
      UnblockedStep(text, cbsz);
      TrimRecord(line, cbsz);
      RoundTripExactly(rest, cbsz);
      LineOf(kept, back);
      SplitLine(text);
    }
  }

  /** Two lines of text and their records of three bytes. */
  lemma TwoRecords()
    ensures Blocked([97, 98, 10, 99, 10], 3) == [97, 98, 32, 99, 32, 32]
    ensures Unblocked([97, 98, 32, 99, 32, 32], 3) == [97, 98, 10, 99, 10]
  {
    hide Blocked, Unblocked;
    LineOf([97, 98], [99, 10]);
    LineOf([99], []);
    assert [97, 98] + [NEWLINE] + [99, 10] == [97, 98, 10, 99, 10] && [99] + [NEWLINE] + [] == [99, 10];
    BlockedStep([97, 98, 10, 99, 10], 3);
    BlockedStep([99, 10], 3);
    BlockedStep([], 3);
    assert Record([97, 98], 3) == [97, 98, 32] && Record([99], 3) == [99, 32, 32];
    RoundTripExactly([97, 98, 10, 99, 10], 3);
    assert PlainText([], 3) && PlainText([99, 10], 3);
  }

  lemma BlockedStep(text: seq<Byte>, cbsz: nat)
    ensures Blocked(text, cbsz) == if text == [] then [] else Record(Line(text), cbsz) + Blocked(Rest(text), cbsz)
  {
  }

  /** The first line is found by its end. */
  lemma {:induction false} LineEndsAt(text: seq<Byte>, k: nat)
    requires k <= |text| && (forall i :: 0 <= i < k ==> text[i] != NEWLINE)
    ensures k <= |Line(text)|
    ensures k == |text| || text[k] == NEWLINE ==> Line(text) == text[..k]
    decreases k
  {
    if k != 0 {
      LineEndsAt(text[1..], k - 1);
    }
  }

  lemma SplitLine(text: seq<Byte>)
    ensures |Line(text)| < |text| ==> text == Line(text) + [NEWLINE] + Rest(text)
  {
  }

  /** block after some input: the start of a record, whether a long line is being tossed, and the records made. */
  datatype Scan = Scan(left: seq<Byte>, trunc: bool, out: seq<Byte>)

  function Scanned(s: Scan, b: Byte, cbsz: nat): Scan {
    if s.trunc then
      s.(trunc := b != NEWLINE)
    else if b == NEWLINE then
      Scan([], false, s.out + Record(s.left, cbsz))
    else if |s.left| + 1 == cbsz then
      Scan([], true, s.out + (s.left + [b]))
    else
      s.(left := s.left + [b])
  }

  function ScanAll(s: Scan, bytes: seq<Byte>, cbsz: nat): Scan
    decreases |bytes|
  {
    if bytes == [] then s else ScanAll(Scanned(s, bytes[0], cbsz), bytes[1..], cbsz)
  }

  /** All records, the last one padded. */
  function Finished(s: Scan, cbsz: nat): seq<Byte> {
    if s.left == [] then s.out else s.out + Record(s.left, cbsz)
  }

  lemma {:induction false} ScanConcat(s: Scan, a: seq<Byte>, b: seq<Byte>, cbsz: nat)
    ensures ScanAll(s, a + b, cbsz) == ScanAll(ScanAll(s, a, cbsz), b, cbsz)
    decreases |a|
  {
    if a == [] {
      assert a + b == b;
    } else {
      assert (a + b)[1..] == a[1..] + b;
      ScanConcat(Scanned(s, a[0], cbsz), a[1..], b, cbsz);
    }
  }

  lemma ScanOne(s: Scan, b: Byte, rest: seq<Byte>, cbsz: nat)
    ensures ScanAll(s, [b] + rest, cbsz) == ScanAll(Scanned(s, b, cbsz), rest, cbsz)
  {
    assert ([b] + rest)[1..] == rest;
  }

  /** Tossing a long line ends behind its newline. */
  lemma {:induction false} ScanToss(out: seq<Byte>, bytes: seq<Byte>, cbsz: nat)
    ensures ScanAll(Scan([], true, out), bytes, cbsz) ==
            if |Line(bytes)| < |bytes| then ScanAll(Scan([], false, out), Rest(bytes), cbsz)
            else Scan([], true, out)
    decreases |bytes|
  {
    if bytes != [] && bytes[0] != NEWLINE {
      ScanToss(out, bytes[1..], cbsz);
      assert Rest(bytes) == Rest(bytes[1..]);
    }
  }

  /** The start of a record just collects. */
  lemma {:induction false} ScanStart(s: Scan, bytes: seq<Byte>, cbsz: nat)
    requires !s.trunc && NEWLINE !in bytes && |s.left| + |bytes| < cbsz
    ensures ScanAll(s, bytes, cbsz) == s.(left := s.left + bytes)
    decreases |bytes|
  {
    if bytes == [] {
      assert s.left + bytes == s.left;
    } else {
      ScanStart(s.(left := s.left + [bytes[0]]), bytes[1..], cbsz);
      assert s.left + [bytes[0]] + bytes[1..] == s.left + bytes;
    }
  }

  /** A whole line shorter than a record. */
  lemma ScanShort(out: seq<Byte>, bytes: seq<Byte>, cbsz: nat)
    requires |Line(bytes)| < |bytes| && |Line(bytes)| < cbsz
    ensures ScanAll(Scan([], false, out), bytes, cbsz)
         == ScanAll(Scan([], false, out + Record(Line(bytes), cbsz)), Rest(bytes), cbsz)
  {
    hide ScanAll, Line, Rest, Record;
    var line, rest, s := Line(bytes), Rest(bytes), Scan([], false, out);
    SplitLine(bytes);
    assert bytes == line + ([NEWLINE] + rest);
    ScanConcat(s, line, [NEWLINE] + rest, cbsz);
    ScanStart(s, line, cbsz);
    assert [] + line == line;
    ScanOne(Scan(line, false, out), NEWLINE, rest, cbsz);
  }

  /** A full record's worth of bytes without a newline: the rest of the line is tossed. */
  lemma ScanFull(out: seq<Byte>, bytes: seq<Byte>, cbsz: nat)
    requires 0 < cbsz <= |Line(bytes)|
    ensures ScanAll(Scan([], false, out), bytes, cbsz)
         == ScanAll(Scan([], true, out + bytes[..cbsz]), bytes[cbsz..], cbsz)
  {
    hide ScanAll, Line;
    var s, init, b := Scan([], false, out), bytes[..cbsz - 1], bytes[cbsz - 1];
    assert bytes == init + ([b] + bytes[cbsz..]);
    assert NEWLINE !in init && b != NEWLINE by {
      assert init == Line(bytes)[..cbsz - 1] && b == Line(bytes)[cbsz - 1];
    }
    ScanConcat(s, init, [b] + bytes[cbsz..], cbsz);
    ScanStart(s, init, cbsz);
    assert [] + init == init && init + [b] == bytes[..cbsz];
    ScanOne(Scan(init, false, out), b, bytes[cbsz..], cbsz);
  }

  /** An unterminated line shorter than a record is padded in the end. */
  lemma ScanLast(out: seq<Byte>, text: seq<Byte>, cbsz: nat)
    requires |Line(text)| == |text| < cbsz && text != []
    ensures Finished(ScanAll(Scan([], false, out), text, cbsz), cbsz) == out + Record(Line(text), cbsz)
  {
    hide ScanAll, Record;
    assert Line(text) == text;
    ScanStart(Scan([], false, out), text, cbsz);
    assert [] + text == text;
  }

  /** A line at least as long as a record. */
  lemma ScanLong(out: seq<Byte>, text: seq<Byte>, cbsz: nat)
    requires 0 < cbsz <= |Line(text)|
    ensures ScanAll(Scan([], false, out), text, cbsz) ==
            if |Line(text)| < |text| then ScanAll(Scan([], false, out + Record(Line(text), cbsz)), Rest(text), cbsz)
            else Scan([], true, out + Record(Line(text), cbsz))
  {
    hide ScanAll, Line, Rest;
    ScanFull(out, text, cbsz);
    ScanToss(out + text[..cbsz], text[cbsz..], cbsz);
    LineSuffix(text, cbsz);
    assert Line(text)[..cbsz] == text[..cbsz];
  }

  /** The first line of a text becomes its first record. */
  lemma ScanFirstLine(out: seq<Byte>, text: seq<Byte>, cbsz: nat)
    requires cbsz > 0 && text != []
    ensures var after := out + Record(Line(text), cbsz);
            Finished(ScanAll(Scan([], false, out), text, cbsz), cbsz) ==
            if |Line(text)| < |text| then Finished(ScanAll(Scan([], false, after), Rest(text), cbsz), cbsz) else after
  {
    hide ScanAll, Line, Rest, Record;
    if |Line(text)| >= cbsz {
      ScanLong(out, text, cbsz);
    } else if |Line(text)| < |text| {
      ScanShort(out, text, cbsz);
    } else {
      ScanLast(out, text, cbsz);
    }
  }

  /** Scanning byte by byte and finishing is block on the whole input. */
  lemma {:induction false} ScanIsBlocked(out: seq<Byte>, text: seq<Byte>, cbsz: nat)
    requires cbsz > 0
    ensures Finished(ScanAll(Scan([], false, out), text, cbsz), cbsz) == out + Blocked(text, cbsz)
    decreases |text|
  {
    hide ScanAll, Line, Rest, Record, Finished, Blocked;
    if text == [] {
      ScanNothing(out, cbsz);
    } else {
      ScanFirstLine(out, text, cbsz);
      BlockedFirst(out, text, cbsz);
      if |Line(text)| < |text| {
        ScanIsBlocked(out + Record(Line(text), cbsz), Rest(text), cbsz);
      }
    }
  }

  lemma ScanNothing(out: seq<Byte>, cbsz: nat)
    ensures Finished(ScanAll(Scan([], false, out), [], cbsz), cbsz) == out == out + Blocked([], cbsz)
  {
  }

  lemma BlockedFirst(out: seq<Byte>, text: seq<Byte>, cbsz: nat)
    requires text != []
    ensures out + Blocked(text, cbsz) ==
            var after := out + Record(Line(text), cbsz);
            if |Line(text)| < |text| then after + Blocked(Rest(text), cbsz) else after
  {
  }

  /** Dropping bytes of the first line leaves the rest of it. */
  lemma {:induction false} LineSuffix(text: seq<Byte>, k: nat)
    requires k <= |Line(text)|
    ensures Line(text[k..]) == Line(text)[k..] && Rest(text[k..]) == Rest(text)
    decreases k
  {
    if k == 0 {
      assert text[0..] == text;
    } else {
      LineSuffix(text[1..], k - 1);
      assert text[1..][k - 1..] == text[k..] && Rest(text[1..]) == Rest(text);
    }
  }

  /** The lines of all whole records of an input. */
  function WholeLines(s: seq<Byte>, cbsz: nat): seq<Byte>
    requires cbsz > 0
    decreases |s|
  {
    if |s| < cbsz then [] else Trim(s[..cbsz]) + [NEWLINE] + WholeLines(s[cbsz..], cbsz)
  }

  /** What is behind the whole records of an input. */
  function Left(s: seq<Byte>, cbsz: nat): (r: seq<Byte>)
    requires cbsz > 0
    ensures |r| < cbsz
    decreases |s|
  {
    if |s| < cbsz then s else Left(s[cbsz..], cbsz)
  }

  lemma FirstRecord(s: seq<Byte>, cbsz: nat)
    requires 0 < cbsz <= |s|
    ensures WholeLines(s, cbsz) == (Trim(s[..cbsz]) + [NEWLINE]) + WholeLines(s[cbsz..], cbsz)
    ensures Left(s, cbsz) == Left(s[cbsz..], cbsz)
  {
  }

  lemma NoRecord(s: seq<Byte>, cbsz: nat)
    requires |s| < cbsz
    ensures WholeLines(s, cbsz) == [] && Left(s, cbsz) == s
  {
  }

  lemma {:induction false} UnblockedParts(s: seq<Byte>, cbsz: nat)
    requires cbsz > 0
    ensures Unblocked(s, cbsz) ==
            WholeLines(s, cbsz) + (if Left(s, cbsz) == [] then [] else Trim(Left(s, cbsz)) + [NEWLINE])
    decreases |s|
  {
    if |s| >= cbsz {
      UnblockedParts(s[cbsz..], cbsz);
    }
  }

  /** Whole records can be taken out of an input in any pieces. */
  lemma {:induction false} LeftCarries(a: seq<Byte>, b: seq<Byte>, cbsz: nat)
    requires cbsz > 0
    ensures WholeLines(a + b, cbsz) == WholeLines(a, cbsz) + WholeLines(Left(a, cbsz) + b, cbsz)
    ensures Left(a + b, cbsz) == Left(Left(a, cbsz) + b, cbsz)
    decreases |a|
  {
    if |a| >= cbsz {
      assert (a + b)[..cbsz] == a[..cbsz] && (a + b)[cbsz..] == a[cbsz..] + b;
      LeftCarries(a[cbsz..], b, cbsz);
    }
  }
}
