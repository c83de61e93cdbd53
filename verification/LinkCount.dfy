/**
 What du's hard-link check must answer, as a map from a file to the number of links of it that
 are still to come.
 */
module LinkCount {
  import opened Arithmetic

  /** A file, by device and inode number. */
  datatype Key = Key(dev: nat, ino: nat)

  /** One encounter of a file: which one, and how many links it reports. */
  datatype Visit = Visit(key: Key, nlink: int)

  type Links = map<Key, int>

  /** Whether the file was counted before. */
  predicate Seen(m: Links, v: Visit) {
    v.key in m
  }

  /** An unknown file is entered with its other links; a known one loses a link, and its entry with the last. */
  function After(m: Links, v: Visit): Links {
    if v.key !in m then m[v.key := v.nlink - 1]
    else if m[v.key] - 1 <= 0 then m - {v.key}
    else m[v.key := m[v.key] - 1]
  }

  function AfterAll(m: Links, vs: seq<Visit>): Links {
    if vs == [] then m else After(AfterAll(m, vs[..|vs| - 1]), vs[|vs| - 1])
  }

  /** How often a file occurs in a run. */
  function Visits(vs: seq<Visit>, key: Key): nat {
    if vs == [] then 0 else Visits(vs[..|vs| - 1], key) + if vs[|vs| - 1].key == key then 1 else 0
  }

  /** A file that always reports k links. */
  predicate Steady(vs: seq<Visit>, key: Key, k: int) {
    forall i :: 0 <= i < |vs| && vs[i].key == key ==> vs[i].nlink == k
  }

  lemma NextMod(n: nat, k: nat)
    requires k >= 2
    ensures (n + 1) % k == if n % k == k - 1 then 0 else n % k + 1
  {
    var q, r := n / k, n % k;
    if r == k - 1 {
      assert n + 1 == (q + 1) * k + 0;
      DivModUnique(n + 1, k, q + 1, 0);
    } else {
      assert n + 1 == q * k + (r + 1);
      DivModUnique(n + 1, k, q, r + 1);
    }
  }

  /** Visits of a file, counted round and round up to k. */
  function Phase(vs: seq<Visit>, key: Key, k: nat): (p: nat)
    requires k >= 2
    ensures p < k
  {
    if vs == [] then 0 else
      var p := Phase(vs[..|vs| - 1], key, k);
      if vs[|vs| - 1].key != key then p else if p == k - 1 then 0 else p + 1
  }

  lemma {:induction false} PhaseIsRemainder(vs: seq<Visit>, key: Key, k: nat)
    requires k >= 2
    ensures Phase(vs, key, k) == Visits(vs, key) % k
    decreases |vs|
  {
    if vs == [] {
      DivModUnique(0, k, 0, 0);
    } else {
      PhaseIsRemainder(vs[..|vs| - 1], key, k);
      NextMod(Visits(vs[..|vs| - 1], key), k);
    }
  }

  /** In any run, among any other files, the entry of a file with k links counts its visits modulo k. */
  lemma {:induction false} EntryCounts(vs: seq<Visit>, key: Key, k: nat)
    requires k >= 2 && Steady(vs, key, k)
    ensures var m, p := AfterAll(map[], vs), Phase(vs, key, k);
            if p == 0 then key !in m else key in m && m[key] == k - p
    decreases |vs|
  {
    if vs != [] {
      EntryCounts(vs[..|vs| - 1], key, k);
    }
  }

  /** The v-th visit of a file with k links is new exactly when v - 1 is a multiple of k: once for every k visits. */
  lemma NewOncePerCycle(vs: seq<Visit>, v: Visit, k: nat)
    requires k >= 2 && v.nlink == k && Steady(vs, v.key, k)
    ensures !Seen(AfterAll(map[], vs), v) <==> Visits(vs, v.key) % k == 0
  {
    EntryCounts(vs, v.key, k);
    PhaseIsRemainder(vs, v.key, k);
  }
}
