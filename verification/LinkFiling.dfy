/** Which bucket a file belongs to, and what it means that the buckets hold the nodes of a map of files. */
module LinkFiling {
  import opened Basics
  import opened Bits
  import opened LinkCount
  import opened LinkBuckets

  function Hash(key: Key, size: nat): (h: nat)
    requires size > 0
    ensures h < size
  {
    Xor(key.dev, key.ino) % size
  }

  /** A node of a bucket is the node of its file, in the bucket of its file. */
  ghost predicate Filed(chains: seq<seq<Node>>, node: map<Key, Node>, nodes: set<Node>)
    reads nodes`key
  {
    forall b: nat, j: nat :: b < |chains| && j < |chains[b]| ==>
      && chains[b][j] in nodes && chains[b][j].key in node
      && node[chains[b][j].key] == chains[b][j] && Hash(chains[b][j].key, |chains|) == b
  }

  /** The node of every file hangs in the bucket of the file. */
  ghost predicate Found(chains: seq<seq<Node>>, node: map<Key, Node>, nodes: set<Node>)
    reads nodes`key
  {
    && chains != []
    && forall key :: key in node ==>
         && node[key] in nodes && node[key].key == key
         && node[key] in chains[Hash(key, |chains|)]
  }

  /** Taking a node out of its list keeps the others where they were. */
  lemma WithoutNode(chains: seq<seq<Node>>, node: map<Key, Node>, nodes: set<Node>, h: nat, j: nat)
    requires h < |chains| && j < |chains[h]| && Filed(chains, node, nodes) && Found(chains, node, nodes)
    requires forall i :: 0 <= i < |chains[h]| && i != j ==> chains[h][i] != chains[h][j]
    ensures var le := chains[h][j];
            var shorter, rest := chains[h := Without(chains[h], j)], node - {le.key};
            Filed(shorter, rest, nodes - {le}) && Found(shorter, rest, nodes - {le})
  {
    hide Hash;
    var le := chains[h][j];
    var shorter, rest := chains[h := Without(chains[h], j)], node - {le.key};
    forall b: nat, k: nat | b < |shorter| && k < |shorter[b]|
      ensures && shorter[b][k] in nodes - {le} && shorter[b][k].key in rest
              && rest[shorter[b][k].key] == shorter[b][k] && Hash(shorter[b][k].key, |shorter|) == b
    {
      var was := if b == h && k >= j then k + 1 else k;
      assert shorter[b][k] == chains[b][was];
    }
    forall key | key in rest
      ensures rest[key] in nodes - {le} && rest[key].key == key && rest[key] in shorter[Hash(key, |shorter|)]
    {
      if Hash(key, |chains|) == h {
        WithoutKeeps(chains[h], j, node[key]);
      }
    }
  }

  /** Putting the node of a new file in front of its list keeps the others where they were. */
  lemma WithNode(chains: seq<seq<Node>>, node: map<Key, Node>, nodes: set<Node>, h: nat, le: Node)
    requires Filed(chains, node, nodes) && Found(chains, node, nodes)
    requires le !in nodes && le.key !in node && h == Hash(le.key, |chains|)
    ensures var longer, more := chains[h := [le] + chains[h]], node[le.key := le];
            Filed(longer, more, nodes + {le}) && Found(longer, more, nodes + {le})
  {
    hide Hash;
    var longer, more := chains[h := [le] + chains[h]], node[le.key := le];
    forall b: nat, k: nat | b < |longer| && k < |longer[b]|
      ensures && longer[b][k] in nodes + {le} && longer[b][k].key in more
              && more[longer[b][k].key] == longer[b][k] && Hash(longer[b][k].key, |longer|) == b
    {
      assert b == h && k > 0 ==> longer[b][k] == chains[b][k - 1];
      assert b == h && k == 0 ==> longer[b][k] == le;
      assert b != h ==> longer[b][k] == chains[b][k];
    }
  }
}
