/** `linkchk`: the growing hash table of files with links still to come, and its recycled nodes. */
module LinkTable {
  import opened Basics
  import opened LinkCount
  import opened LinkBuckets
  import opened LinkFiling
  import opened LinkGrowth

  const INITIAL_SIZE: nat := 8192

  class Table {
    var buckets: Buckets
    var freeList: Node?
    var numberEntries: nat
    /** The node of each file in the table, and the nodes of the free list. */
    ghost var node: map<Key, Node>
    ghost var free: seq<Node>

    /** All nodes of the table. */
    ghost function Owned(): set<Node>
      reads this, buckets
    {
      buckets.nodes + set n | n in free
    }

    /** Nodes on the free list hang nowhere else. */
    ghost predicate Spare()
      reads this, buckets, free
    {
      && freeList == At(free, 0) && Distinct(free)
      && forall j :: 0 <= j < |free| ==>
           free[j] !in buckets.nodes && free[j].home == this && free[j].next == At(free, j + 1)
    }

    ghost predicate Files()
      reads this, buckets, buckets.slots, buckets.nodes
    {
      buckets.Valid() && Filed(buckets.chains, node, buckets.nodes) && Found(buckets.chains, node, buckets.nodes)
      && numberEntries == |node|
    }

    ghost predicate Valid()
      reads this, buckets, buckets.slots, buckets.nodes, free
    {
      Files() && Spare()
    }

    /** The links still to come, by file. */
    ghost function Links(): Links
      reads this, node.Values`links
    {
      map key | key in node :: node[key].links
    }

    constructor ()
      ensures Valid() && Links() == map[] && fresh(buckets) && fresh(buckets.slots) && Owned() == {}
    {
      hide Hash;
      buckets := new Buckets(INITIAL_SIZE);
      freeList, numberEntries := null, 0;
      node, free := map[], [];
      new;
      hide Buckets.Valid;
    }

    /** Look for a file along the list of its bucket. */
    method Find(h: nat, key: Key) returns (le: Node?, ghost j: nat)
      requires Valid() && h == Hash(key, buckets.slots.Length)
      ensures le == null <==> key !in node
      ensures le != null ==> le == node[key] && le.key == key && j < |buckets.chains[h]| && buckets.chains[h][j] == le
    {
      assert buckets.Chain(h);
      ghost var chain := buckets.chains[h];
      le, j := buckets.slots[h], 0;
      while le != null
        invariant j <= |chain| && le == At(chain, j)
        invariant forall i :: 0 <= i < j ==> chain[i] in buckets.nodes && chain[i].key != key
        decreases |chain| - j
      {
        assert buckets.Hangs(h, j);
        if le.key == key {
          return;
        }
        le, j := le.next, j + 1;
      }
    }

    lemma Unfiling(h: nat, le: Node, j: nat)
      requires Files() && h < buckets.slots.Length && j < |buckets.chains[h]| && le == buckets.chains[h][j]
      ensures 0 < |buckets.chains| == buckets.slots.Length && le in buckets.nodes
      ensures le.key in node && node[le.key] == le
      ensures var shorter, rest := buckets.chains[h := Without(buckets.chains[h], j)], node - {le.key};
              && Filed(shorter, rest, buckets.nodes - {le}) && Found(shorter, rest, buckets.nodes - {le})
              && |rest| == |node| - 1
    {
      hide Hash;
      assert buckets.Chain(h);
      WithoutNode(buckets.chains, node, buckets.nodes, h, j);
    }

    /** A node leaves its bucket. */
    method Unfile(h: nat, le: Node, ghost j: nat)
      requires Files() && h < buckets.slots.Length && j < |buckets.chains[h]| && le == buckets.chains[h][j]
      modifies this`numberEntries, this`node, buckets, buckets.slots, le`home
      modifies buckets.nodes`next, buckets.nodes`previous
      ensures Files() && le.home == null && le !in buckets.nodes
      ensures buckets.nodes == old(buckets.nodes) - {le}
      ensures le.key in old(node) && old(node)[le.key] == le && node == old(node) - {le.key}
    {
      hide Hash, Buckets.Valid, Filed, Found;
      Unfiling(h, le, j);
      buckets.Remove(h, le, j);
      node := node - {le.key};
      numberEntries := numberEntries - 1;
    }

    /** A node that hangs nowhere joins the free list. */
    method PutSpare(le: Node)
      requires Valid() && le.home == null && le !in buckets.nodes
      modifies this`freeList, this`free, le`next, le`home
      ensures Valid() && free == [le] + old(free)
    {
      hide Hash, Buckets.Valid;
      forall j | 0 <= j < |free| ensures free[j] != le {
        assert free[j].home == this;
      }
      le.next := freeList;
      freeList := le;
      le.home := this;
      free := [le] + free;
    }

    /** All links seen: the node leaves its bucket and is kept for another file. */
    method Recycle(h: nat, le: Node, ghost j: nat)
      requires Valid() && h < buckets.slots.Length && j < |buckets.chains[h]| && le == buckets.chains[h][j]
      modifies this`numberEntries, this`node, this`freeList, this`free, buckets, buckets.slots, buckets.nodes
      ensures Valid() && Owned() == old(Owned())
      ensures Links() == old(Links()) - {le.key} && le.key == old(le.key) && le.links == old(le.links)
    {
      hide Hash, Buckets.Valid, Filed, Found;
      buckets.NodeHangs(h, j);
      Unfile(h, le, j);
      assert Spare();
      PutSpare(le);
    }

    /** A node for a new file: a recycled one if there is any. */
    method TakeNode(key: Key, links: int) returns (le: Node)
      requires Valid()
      modifies this`freeList, this`free, free
      ensures Valid() && le !in buckets.nodes && le !in free && le.key == key && le.links == links
      ensures fresh(le) || le in old(free)
      ensures forall n <- free :: n in old(free)
    {
      hide Hash, Buckets.Valid, Filed, Found;
      if freeList != null {
        le := freeList;
        freeList := le.next;
        free := free[1..];
        le.key := key;
      } else {
        le := new Node(key);
      }
      le.links := links;
    }

    /** The nodes of files all hang in buckets. */
    lemma NodesHang()
      requires Files()
      ensures forall key :: key in node ==> node[key] in buckets.nodes
    {
    }

    /** A node joins the bucket of its file. */
    method File(h: nat, le: Node)
      requires Files() && le !in buckets.nodes && le.key !in node && h == Hash(le.key, buckets.slots.Length)
      modifies this`numberEntries, this`node, buckets, buckets.slots
      modifies le`next, le`previous, le`home, le`bucket, buckets.nodes`previous
      ensures Files() && le.home == buckets
      ensures buckets.nodes == old(buckets.nodes) + {le}
      ensures node == old(node)[le.key := le]
    {
      hide Hash, Filed, Found;
      buckets.SameSize();
      WithNode(buckets.chains, node, buckets.nodes, h, le);
      hide Buckets.Valid;
      buckets.Push(h, le);
      numberEntries := numberEntries + 1;
      node := node[le.key := le];
    }

    /** Enter a file that has other links to come. */
    method Enter(h: nat, key: Key, links: int)
      requires Valid() && key !in node && h == Hash(key, buckets.slots.Length)
      modifies this`numberEntries, this`node, this`freeList, this`free
      modifies buckets, buckets.slots, buckets.nodes`previous, free
      ensures Valid() && fresh(Owned() - old(Owned()))
      ensures key in node && node == old(node)[key := node[key]] && node[key].links == links
    {
      hide Hash, Buckets.Valid, Filed, Found, Files;
      var le := TakeNode(key, links);
      File(h, le);
    }

    /** Every node moves to twice as many buckets. */
    method Grow()
      requires Valid()
      modifies this`buckets, buckets.slots
      modifies buckets.nodes`next, buckets.nodes`previous, buckets.nodes`home, buckets.nodes`bucket
      ensures Valid() && fresh(buckets) && fresh(buckets.slots)
      ensures buckets.slots.Length == 2 * old(buckets.slots.Length) && buckets.nodes <= old(buckets.nodes)
    {
      hide Hash, Filed, Found;
      var larger := new Buckets(2 * buckets.slots.Length);
      HoldsNothing(larger);
      MoveAll(buckets, larger, node);
      buckets := larger;
    }

    lemma IsNode(h: nat, le: Node, j: nat)
      requires Files() && h < buckets.slots.Length && j < |buckets.chains[h]| && le == buckets.chains[h][j]
      ensures le in buckets.nodes && le.key in node && node[le.key] == le
      ensures forall key :: key in node && node[key] == le ==> key == le.key
    {
      hide Hash;
      buckets.NodeHangs(h, j);
    }

    /** A file met again has one link less to come; with the last one its node is recycled. */
    method Again(h: nat, le: Node, ghost j: nat)
      requires Valid() && h < buckets.slots.Length && j < |buckets.chains[h]| && le == buckets.chains[h][j]
      modifies this`numberEntries, this`node, this`freeList, this`free, buckets, buckets.slots, buckets.nodes
      ensures Valid() && Owned() == old(Owned())
      ensures le.key in old(node) && old(node[le.key]) == le
      ensures Links() == if le.links <= 0 then old(Links()) - {le.key} else old(Links())[le.key := le.links]
      ensures le.links == old(le.links) - 1 && le.key == old(le.key)
    {
      hide Hash, Buckets.Valid, Filed, Found;
      IsNode(h, le, j);
      le.links := le.links - 1;
      assert Links() == old(Links())[le.key := le.links];
      if le.links <= 0 {
        Recycle(h, le, j);
      }
    }

    /** A file met for the first time. */
    method First(h: nat, v: Visit)
      requires Valid() && v.key !in node && h == Hash(v.key, buckets.slots.Length)
      modifies this`numberEntries, this`node, this`freeList, this`free
      modifies buckets, buckets.slots, buckets.nodes, free
      ensures Valid() && fresh(Owned() - old(Owned()))
      ensures Links() == old(Links())[v.key := v.nlink - 1]
    {
      hide Hash, Files;
      assert Files();
      NodesHang();
      Enter(h, v.key, v.nlink - 1);
    }

    /** The check in a table that is large enough. */
    method Check(v: Visit) returns (seen: bool)
      requires Valid()
      modifies this`numberEntries, this`node, this`freeList, this`free
      modifies buckets, buckets.slots, buckets.nodes, free
      ensures Valid() && fresh(Owned() - old(Owned()))
      ensures seen == Seen(old(Links()), v)
      ensures Links() == After(old(Links()), v)
    {
      hide Hash, Buckets.Valid, Spare, Filed, Found;
      buckets.SameSize();
      hide Files, Valid;
      var h := Hash(v.key, buckets.slots.Length);
      var le, j := Find(h, v.key);
      seen := le != null;
      if seen {
        Again(h, le, j);
      } else {
        First(h, v);
      }
    }

    /** Whether a file with other links was counted before. */
    method LinkCheck(v: Visit) returns (seen: bool)
      requires Valid()
      modifies this, buckets, buckets.slots, Owned()
      ensures Valid() && fresh(Owned() - old(Owned()))
      ensures buckets == old(buckets) || (fresh(buckets) && fresh(buckets.slots))
      ensures seen == Seen(old(Links()), v)
      ensures Links() == After(old(Links()), v)
    {
      hide Hash, Buckets.Valid, Filed, Found;
      NodesHang();
      if numberEntries > 10 * buckets.slots.Length {
        Grow();
        assert Links() == old(Links());
      }
      NodesHang();
      seen := Check(v);
    }
  }

  /** Every visit is answered from the links recorded by the visits before it. */
  ghost predicate Answers(vs: seq<Visit>, seen: seq<bool>) {
    && |seen| == |vs|
    && forall i :: 0 <= i < |vs| ==> seen[i] == Seen(AfterAll(map[], vs[..i]), vs[i])
  }

  /** The visits of a file that reports k links all along are new once in k, the first being new. */
  ghost predicate OncePerCycle(vs: seq<Visit>, seen: seq<bool>, key: Key, k: nat)
    requires |seen| == |vs| && k >= 2
  {
    Steady(vs, key, k) ==>
      forall i :: 0 <= i < |vs| && vs[i].key == key ==> (!seen[i] <==> Visits(vs[..i], key) % k == 0)
  }

  lemma NoAnswers()
    ensures Answers([], [])
  {
  }

  lemma OneMore(vs: seq<Visit>, seen: seq<bool>, known: bool)
    requires vs != [] && Answers(vs[..|vs| - 1], seen)
    requires known == Seen(AfterAll(map[], vs[..|vs| - 1]), vs[|vs| - 1])
    ensures Answers(vs, seen + [known])
  {
    forall i | 0 <= i < |vs| ensures (seen + [known])[i] == Seen(AfterAll(map[], vs[..i]), vs[i]) {
      assert vs[..|vs| - 1][..i] == vs[..i];
    }
  }

  lemma AnswersOncePerCycle(vs: seq<Visit>, seen: seq<bool>, key: Key, k: nat)
    requires Answers(vs, seen) && k >= 2
    ensures OncePerCycle(vs, seen, key, k)
  {
    if Steady(vs, key, k) {
      forall i | 0 <= i < |vs| && vs[i].key == key ensures !seen[i] <==> Visits(vs[..i], key) % k == 0 {
        NewOncePerCycle(vs[..i], vs[i], k);
      }
    }
  }

  /** The answers of a whole run, from the empty table. */
  method CheckAll(vs: seq<Visit>) returns (seen: seq<bool>)
    ensures Answers(vs, seen)
    ensures forall key, k: nat :: k >= 2 ==> OncePerCycle(vs, seen, key, k)
  {
    hide Table.Valid, OncePerCycle, Answers, After;
    assert Answers([], []) by {
      NoAnswers();
    }
    var t := new Table();
    seen := [];
    while |seen| < |vs|
      invariant |seen| <= |vs| && Answers(vs[..|seen|], seen)
      invariant t.Valid() && fresh(t) && fresh(t.buckets) && fresh(t.buckets.slots) && fresh(t.Owned())
      invariant t.Links() == AfterAll(map[], vs[..|seen|])
    {
      var i := |seen|;
      var known := t.LinkCheck(vs[i]);
      assert vs[..i + 1][..i] == vs[..i];
      assert AfterAll(map[], vs[..i + 1]) == After(AfterAll(map[], vs[..i]), vs[i]);
      OneMore(vs[..i + 1], seen, known);
      seen := seen + [known];
    }
    assert vs[..|seen|] == vs;
    forall key, k: nat | k >= 2 ensures OncePerCycle(vs, seen, key, k) {
      AnswersOncePerCycle(vs, seen, key, k);
    }
  }
}
