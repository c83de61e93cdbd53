/**
 The probe sequence of the compressor's open-addressed hash table: start at a slot, step back by
 a fixed displacement, wrap at the table size. Because 69001 is prime, the sequence visits every
 slot, so a search in a table with a free slot ends.
 */
module Probing {
  import opened Arithmetic

  const HSIZE: nat := 69001

  /** None of the sixteen numbers from lo on divides n. */
  predicate NoneOfSixteen(n: nat, lo: nat)
    requires lo >= 1
  {
    && n % lo != 0 && n % (lo + 1) != 0 && n % (lo + 2) != 0 && n % (lo + 3) != 0
    && n % (lo + 4) != 0 && n % (lo + 5) != 0 && n % (lo + 6) != 0 && n % (lo + 7) != 0
    && n % (lo + 8) != 0 && n % (lo + 9) != 0 && n % (lo + 10) != 0 && n % (lo + 11) != 0
    && n % (lo + 12) != 0 && n % (lo + 13) != 0 && n % (lo + 14) != 0 && n % (lo + 15) != 0
  }

  predicate NoDivisorFrom(n: nat, lo: nat, blocks: nat)
    requires lo >= 1
    decreases blocks
  {
    blocks > 0 ==> NoneOfSixteen(n, lo) && NoDivisorFrom(n, lo + 16, blocks - 1)
  }

  lemma {:induction false} NoDivisorAt(n: nat, lo: nat, blocks: nat, d: nat)
    requires 1 <= lo <= d < lo + 16 * blocks && NoDivisorFrom(n, lo, blocks)
    ensures n % d != 0
    decreases blocks
  {
    if lo + 16 <= d {
      NoDivisorAt(n, lo + 16, blocks - 1, d);
    }
  }

  lemma TrialDivisionHigh()
    ensures NoDivisorFrom(HSIZE, 178, 6)
  {
    assert NoDivisorFrom(HSIZE, 226, 3);
  }

  lemma TrialDivisionMiddle()
    ensures NoDivisorFrom(HSIZE, 82, 12)
  {
    TrialDivisionHigh();
    assert NoDivisorFrom(HSIZE, 130, 9);
  }

  /** Trial division of 69001 by every number up to 273, which is past its square root. */
  lemma TrialDivision()
    ensures NoDivisorFrom(HSIZE, 2, 17)
  {
    TrialDivisionMiddle();
    assert NoDivisorFrom(HSIZE, 34, 15);
  }

  /** HSIZE is prime: of two factors one would be below 263. */
  lemma HsizeIsPrime(d: nat, e: nat)
    requires d >= 2 && e >= 2
    ensures d * e != HSIZE
  {
    TrialDivision();
    MulMonotone(263, d, e);
    MulMonotone(263, e, 263);
    if d < 263 {
      NoDivisorAt(HSIZE, 2, 17, d);
      MultipleMod(e, d);
    } else if e < 263 {
      NoDivisorAt(HSIZE, 2, 17, e);
      MultipleMod(d, e);
    }
  }

  /** A product of two numbers below a prime is no multiple of it. */
  lemma {:induction false} NoZeroDivisors(a: nat, b: nat, k: int)
    requires 0 < a < HSIZE && 0 < b < HSIZE
    ensures a * b != k * HSIZE
    decreases a
  {
    if a > 1 {
      var q, r := HSIZE / a, HSIZE % a;
      assert HSIZE == q * a + r;
      if r == 0 {
        MulMonotone(q, 1, a);
        HsizeIsPrime(q, a);
      } else {
        NoZeroDivisors(r, b, b - q * k);
        Distribute(q, a, r, b, k);
      }
    }
  }

  lemma Distribute(q: int, a: int, r: int, b: int, k: int)
    requires HSIZE == q * a + r
    ensures a * b == k * HSIZE ==> r * b == (b - q * k) * HSIZE
  {
    assert r * b == HSIZE * b - q * (a * b) by {
      assert (HSIZE - q * a) * b == HSIZE * b - (q * a) * b;
    }
    assert q * (k * HSIZE) == (q * k) * HSIZE;
  }

  /** The displacement of the secondary hash. */
  function Displacement(start: nat): (d: nat)
    requires start < HSIZE
    ensures 0 < d < HSIZE
  {
    if start == 0 then 1 else HSIZE - start
  }

  /** The slot looked at after j further probes. */
  function Slot(start: nat, j: nat): (s: nat)
    requires start < HSIZE
    ensures s < HSIZE
    decreases j
  {
    if j == 0 then start else
      var s := Slot(start, j - 1) - Displacement(start);
      if s < 0 then s + HSIZE else s
  }

  /** How often the probes have wrapped. */
  ghost function Wraps(start: nat, j: nat): int
    requires start < HSIZE
    decreases j
  {
    if j == 0 then 0 else
      Wraps(start, j - 1) + if Slot(start, j - 1) < Displacement(start) then 1 else 0
  }

  lemma {:induction false} SlotValue(start: nat, j: nat)
    requires start < HSIZE
    ensures Slot(start, j) == start - j * Displacement(start) + Wraps(start, j) * HSIZE
    decreases j
  {
    if j != 0 {
      SlotValue(start, j - 1);
      assert j * Displacement(start) == (j - 1) * Displacement(start) + Displacement(start);
    }
  }

  /** No slot is looked at twice within a table's length of probes. */
  lemma SlotsDistinct(start: nat, i: nat, j: nat)
    requires start < HSIZE && i < j < HSIZE
    ensures Slot(start, i) != Slot(start, j)
  {
    var d := Displacement(start);
    SlotValue(start, i);
    SlotValue(start, j);
    NoZeroDivisors(j - i, d, Wraps(start, j) - Wraps(start, i));
    assert (j - i) * d == j * d - i * d;
  }

  ghost function Visited(start: nat, n: nat): set<nat>
    requires start < HSIZE
  {
    set j: nat | j < n :: Slot(start, j)
  }

  lemma {:induction false} VisitedSize(start: nat, n: nat)
    requires start < HSIZE && n <= HSIZE
    ensures |Visited(start, n)| == n
    decreases n
  {
    if n != 0 {
      VisitedSize(start, n - 1);
      assert Visited(start, n) == Visited(start, n - 1) + {Slot(start, n - 1)};
      forall j: nat | j < n - 1 ensures Slot(start, j) != Slot(start, n - 1) {
        SlotsDistinct(start, j, n - 1);
      }
    }
  }

  lemma {:induction false} SubsetSize(a: set<nat>, b: set<nat>)
    requires a <= b
    ensures |a| <= |b|
  {
    if a != {} {
      var x :| x in a;
      SubsetSize(a - {x}, b - {x});
    }
  }

  /** A probe sequence reaches a slot outside any set smaller than the table. */
  lemma FreeSlotReached(start: nat, used: set<nat>) returns (j: nat)
    requires start < HSIZE && |used| < HSIZE
    ensures j < HSIZE && Slot(start, j) !in used
  {
    VisitedSize(start, HSIZE);
    if Visited(start, HSIZE) <= used {
      SubsetSize(Visited(start, HSIZE), used);
    }
    var s :| s in Visited(start, HSIZE) && s !in used;
    j :| j < HSIZE && Slot(start, j) == s;
  }
}
