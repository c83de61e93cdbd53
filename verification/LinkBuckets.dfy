/**
 The hash buckets of du: an array of doubly linked lists of nodes. Ghost fields of a node say
 where it hangs: in which array and in which bucket.
 */
module LinkBuckets {
  import opened Basics
  import opened LinkCount

  class Node {
    var next: Node?
    var previous: Node?
    var links: int
    var key: Key
    ghost var home: object?
    ghost var bucket: nat

    constructor (key: Key)
      ensures this.key == key && home == null
    {
      this.key, links := key, 0;
      next, previous := null, null;
      home, bucket := null, 0;
    }
  }

  /** The node at a position of a list, null outside it. */
  ghost function At(chain: seq<Node>, i: int): Node? {
    if 0 <= i < |chain| then chain[i] else null
  }

  ghost predicate Distinct(chain: seq<Node>) {
    forall i, j :: 0 <= i < j < |chain| ==> chain[i] != chain[j]
  }

  lemma WithoutKeeps(chain: seq<Node>, j: nat, n: Node)
    requires j < |chain| && n in chain && n != chain[j]
    ensures n in Without(chain, j)
  {
    var i :| 0 <= i < |chain| && chain[i] == n;
    assert Without(chain, j)[if i < j then i else i - 1] == n;
  }

  class Buckets {
    const slots: array<Node?>
    /** The lists, and all nodes in them. */
    ghost var chains: seq<seq<Node>>
    ghost var nodes: set<Node>

    ghost predicate Hangs(b: nat, j: nat)
      requires b < |chains| && j < |chains[b]|
      reads this, nodes`next, nodes`previous, nodes`home, nodes`bucket
    {
      var n := chains[b][j];
      && n in nodes && n.home == this && n.bucket == b
      && n.next == At(chains[b], j + 1) && n.previous == At(chains[b], j - 1)
    }

    ghost predicate Chain(b: nat)
      requires b < |chains| == slots.Length
      reads this, slots, nodes`next, nodes`previous, nodes`home, nodes`bucket
    {
      && slots[b] == At(chains[b], 0) && Distinct(chains[b])
      && forall j: nat :: j < |chains[b]| ==> Hangs(b, j)
    }

    ghost predicate Valid()
      reads this, slots, nodes`next, nodes`previous, nodes`home, nodes`bucket
    {
      && 0 < |chains| == slots.Length
      && forall b: nat :: b < |chains| ==> Chain(b)
    }

    lemma SameSize()
      requires Valid()
      ensures |chains| == slots.Length > 0
    {
    }

    lemma NodeHangs(b: nat, j: nat)
      requires Valid() && b < slots.Length && j < |chains[b]|
      ensures b < |chains| && Hangs(b, j)
    {
      assert Chain(b);
    }

    constructor (size: nat)
      requires size > 0
      ensures Valid() && fresh(slots) && slots.Length == size && nodes == {}
      ensures chains == seq(size, i => [])
    {
      slots := new Node?[size](i => null);
      chains := seq(size, i => []);
      nodes := {};
    }

    /** Put a node in front of a bucket's list. */
    method Push(h: nat, le: Node)
      requires Valid() && h < slots.Length && le !in nodes
      modifies this, slots, le`next, le`previous, le`home, le`bucket, nodes`previous
      ensures Valid() && le.home == this
      ensures chains == old(chains)[h := [le] + old(chains[h])] && nodes == old(nodes) + {le}
    {
      ghost var chain := chains[h];
      var first := slots[h];
      assert Chain(h);
      forall j: nat | j < |chain| ensures chain[j] != le {
        assert Hangs(h, j);
      }
      if first != null {
        assert Hangs(h, 0);
        first.previous := le;
      }
      le.next := first;
      le.previous := null;
      slots[h] := le;
      le.home, le.bucket := this, h;
      chains := chains[h := [le] + chains[h]];
      nodes := nodes + {le};
      forall b: nat | b < |chains| ensures Chain(b) {
        assert old(Chain(b));
        forall j: nat | j < |chains[b]| ensures Hangs(b, j) {
          assert b != h ==> old(Hangs(b, j));
          assert b == h && j > 0 ==> old(Hangs(h, j - 1));
        }
      }
    }

    /** Unhook a node from its neighbours. */
    method Unhook(h: nat, le: Node, ghost j: nat)
      requires Valid() && h < slots.Length && j < |chains[h]| && le == chains[h][j]
      modifies slots, nodes`next, nodes`previous
      ensures forall b: nat :: b < slots.Length && b != h ==> slots[b] == old(slots[b])
      ensures slots[h] == At(chains[h], if j == 0 then 1 else 0)
      ensures forall n: Node :: n in nodes && n != le ==>
        && n.next == (if n == At(chains[h], j - 1) then At(chains[h], j + 1) else old(n.next))
        && n.previous == (if n == At(chains[h], j + 1) then At(chains[h], j - 1) else old(n.previous))
    {
      assert Chain(h) && Hangs(h, j);
      assert j > 0 ==> Hangs(h, j - 1);
      assert j + 1 < |chains[h]| ==> Hangs(h, j + 1);
      if le.previous != null {
        le.previous.next := le.next;
      }
      if le.next != null {
        le.next.previous := le.previous;
      }
      if slots[h] == le {
        slots[h] := le.next;
      }
    }

    /** Take the node at position j out of a bucket's list. */
    method Remove(h: nat, le: Node, ghost j: nat)
      requires Valid() && h < slots.Length && j < |chains[h]| && le == chains[h][j]
      modifies this, slots, le`home, nodes`next, nodes`previous
      ensures Valid() && le.home == null && le !in nodes
      ensures chains == old(chains)[h := Without(old(chains[h]), j)] && nodes == old(nodes) - {le}
    {
      ghost var chain := chains[h];
      assert Chain(h) && Hangs(h, j);
      Unhook(h, le, j);
      le.home := null;
      chains := chains[h := Without(chain, j)];
      nodes := nodes - {le};
      forall b: nat | b < |chains| ensures Chain(b) {
        assert old(Chain(b));
        assert j > 0 ==> old(Hangs(h, j - 1));
        assert j + 1 < |chain| ==> old(Hangs(h, j + 1));
        forall k: nat | k < |chains[b]| ensures Hangs(b, k) {
          if b != h {
            assert old(Hangs(b, k));
          } else {
            var was := if k < j then k else k + 1;
            assert old(Hangs(h, was)) && chains[h][k] == chain[was];
            assert j > 0 && was != j - 1 ==> chain[was] != chain[j - 1];
            assert j + 1 < |chain| && was != j + 1 ==> chain[was] != chain[j + 1];
          }
        }
      }
    }
  }
}
