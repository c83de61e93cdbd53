/** Moving every node to a larger array of buckets. */
module LinkGrowth {
  import opened LinkCount
  import opened LinkBuckets
  import opened LinkFiling

  /** From position p on, the list of an old bucket is still as it was. */
  ghost predicate Waiting(from: Buckets, b: nat, p: nat)
    reads from, from.nodes
  {
    && b < |from.chains| && p <= |from.chains[b]| && Distinct(from.chains[b])
    && forall j :: p <= j < |from.chains[b]| ==>
         var n := from.chains[b][j];
         n in from.nodes && n.home == from && n.bucket == b && n.next == At(from.chains[b], j + 1)
  }

  /** The new buckets hold the nodes of the files moved so far. */
  ghost predicate Holds(to: Buckets, moved: map<Key, Node>)
    reads to, to.slots, to.nodes
  {
    && to.Valid() && Filed(to.chains, moved, to.nodes) && Found(to.chains, moved, to.nodes)
    && forall n <- to.nodes :: n.home == to
  }

  ghost predicate Within(part: map<Key, Node>, all: map<Key, Node>) {
    forall key :: key in part ==> key in all && part[key] == all[key]
  }

  lemma HoldsNothing(to: Buckets)
    requires to.Valid() && to.nodes == {} && forall b :: 0 <= b < |to.chains| ==> to.chains[b] == []
    ensures Holds(to, map[])
  {
  }

  lemma NotMovedYet(to: Buckets, moved: map<Key, Node>, node: map<Key, Node>, le: Node)
    requires Holds(to, moved) && Within(moved, node) && le.key in node && node[le.key] == le && le.home != to
    ensures le.key !in moved && le !in to.nodes
  {
  }

  /** One node joins its new bucket. */
  method Move(to: Buckets, le: Node, ghost moved: map<Key, Node>, ghost node: map<Key, Node>)
    requires Holds(to, moved) && Within(moved, node) && le.key in node && node[le.key] == le && le.home != to
    modifies to, to.slots, le`next, le`previous, le`home, le`bucket, to.nodes`previous
    ensures Holds(to, moved[le.key := le]) && to.nodes == old(to.nodes) + {le}
  {
    hide Hash, Filed, Found;
    NotMovedYet(to, moved, node, le);
    to.SameSize();
    var h := Hash(le.key, to.slots.Length);
    WithNode(to.chains, moved, to.nodes, h, le);
    hide Buckets.Valid;
    to.Push(h, le);
  }

  /** The situation while nodes move: what is still in the old buckets and what is in the new ones. */
  ghost predicate Moving(from: Buckets, to: Buckets, node: map<Key, Node>, moved: map<Key, Node>)
    reads from, from.nodes, to, to.slots, to.nodes
  {
    && from != to && from.slots != to.slots && |from.chains| == from.slots.Length
    && Filed(from.chains, node, from.nodes)
    && Holds(to, moved) && Within(moved, node) && to.nodes <= from.nodes
  }

  /** The first node of an old list moves. */
  method MoveHead(from: Buckets, to: Buckets, b: nat, ghost p: nat,
                  ghost node: map<Key, Node>, ghost moved: map<Key, Node>)
    returns (ghost more: map<Key, Node>)
    requires Moving(from, to, node, moved) && Waiting(from, b, p)
    requires p < |from.chains[b]| && from.slots[b] == from.chains[b][p]
    modifies from.slots, to, to.slots, from.nodes`next, from.nodes`previous, from.nodes`home, from.nodes`bucket
    ensures Moving(from, to, node, more) && Waiting(from, b, p + 1)
    ensures from.slots[b] == At(from.chains[b], p + 1)
    ensures forall c: nat :: c < from.slots.Length && c != b ==> from.slots[c] == old(from.slots[c])
    ensures forall c: nat :: c != b && old(Waiting(from, c, 0)) ==> Waiting(from, c, 0)
    ensures more == moved[from.chains[b][p].key := from.chains[b][p]]
  {
    hide Hash, Buckets.Valid, Found;
    var le := from.slots[b];
    from.slots[b] := le.next;
    Move(to, le, moved, node);
    more := moved[le.key := le];
  }

  /** The nodes of the buckets before b, and those before position p in b, have moved. */
  ghost predicate Gone(chains: seq<seq<Node>>, nodes: set<Node>, moved: map<Key, Node>, b: nat, p: nat)
    reads nodes`key
  {
    forall c: nat, j: nat :: c < |chains| && j < |chains[c]| && (c < b || (c == b && j < p)) ==>
      chains[c][j] in nodes && chains[c][j].key in moved
  }

  /** The list of one old bucket moves. */
  method MoveBucket(from: Buckets, to: Buckets, b: nat, ghost node: map<Key, Node>, ghost moved: map<Key, Node>)
    returns (ghost more: map<Key, Node>)
    requires Moving(from, to, node, moved) && b < from.slots.Length
    requires forall c: nat :: b <= c < from.slots.Length ==>
      Waiting(from, c, 0) && from.slots[c] == At(from.chains[c], 0)
    requires Gone(from.chains, from.nodes, moved, b, 0)
    modifies from.slots, to, to.slots, from.nodes`next, from.nodes`previous, from.nodes`home, from.nodes`bucket
    ensures Moving(from, to, node, more)
    ensures forall c: nat :: b < c < from.slots.Length ==>
      Waiting(from, c, 0) && from.slots[c] == At(from.chains[c], 0)
    ensures Gone(from.chains, from.nodes, more, b + 1, 0)
  {
    hide Holds, Filed, Within;
    more := moved;
    ghost var p := 0;
    while from.slots[b] != null
      invariant Moving(from, to, node, more)
      invariant forall c: nat :: b < c < from.slots.Length ==>
        Waiting(from, c, 0) && from.slots[c] == At(from.chains[c], 0)
      invariant Waiting(from, b, p) && from.slots[b] == At(from.chains[b], p)
      invariant Gone(from.chains, from.nodes, more, b, p)
      decreases |from.chains[b]| - p
    {
      more := MoveHead(from, to, b, p, node, more);
      p := p + 1;
    }
  }

  lemma AllMoved(chains: seq<seq<Node>>, nodes: set<Node>, node: map<Key, Node>, moved: map<Key, Node>)
    requires Found(chains, node, nodes) && Within(moved, node) && Gone(chains, nodes, moved, |chains|, 0)
    ensures moved == node
  {
    forall key | key in node ensures key in moved {
      var c := Hash(key, |chains|);
      var j :| 0 <= j < |chains[c]| && chains[c][j] == node[key];
    }
  }

  /** All nodes move. */
  method MoveAll(from: Buckets, to: Buckets, ghost node: map<Key, Node>)
    requires Moving(from, to, node, map[]) && from.Valid() && Found(from.chains, node, from.nodes)
    modifies from.slots, to, to.slots, from.nodes`next, from.nodes`previous, from.nodes`home, from.nodes`bucket
    ensures Holds(to, node) && to.nodes <= from.nodes
  {
    hide Hash, Holds, Filed, Found, Within;
    forall c: nat | c < from.slots.Length ensures Waiting(from, c, 0) && from.slots[c] == At(from.chains[c], 0) {
      assert from.Chain(c);
      forall j | 0 <= j < |from.chains[c]|
        ensures var n := from.chains[c][j];
                n in from.nodes && n.home == from && n.bucket == c && n.next == At(from.chains[c], j + 1)
      {
        assert from.Hangs(c, j);
      }
    }
    ghost var moved := map[];
    var b := 0;
    while b < from.slots.Length
      invariant b <= from.slots.Length
      invariant Moving(from, to, node, moved)
      invariant forall c: nat :: b <= c < from.slots.Length ==>
        Waiting(from, c, 0) && from.slots[c] == At(from.chains[c], 0)
      invariant Gone(from.chains, from.nodes, moved, b, 0)
    {
      moved := MoveBucket(from, to, b, node, moved);
      b := b + 1;
    }
    AllMoved(from.chains, from.nodes, node, moved);
  }
}
