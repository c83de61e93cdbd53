/** The doubly linked lists of genlib.c, with a first and a last node. */
module CatalogNodes {
  import opened Basics
  import opened CatalogLists

  class Node<T> {
    var next: Node?<T>
    var prev: Node?<T>
    var id: int
    var item: T
    /** Where the text of a message was written. */
    var offset: int
    /** The list that the node is in. */
    ghost var home: object?

    constructor (id: int, item: T)
      ensures this.id == id && this.item == item && home == null && next == null && prev == null
    {
      this.id, this.item, offset := id, item, 0;
      next, prev, home := null, null, null;
    }
  }

  /** The node at a position of a list, null outside it. */
  ghost function At<T>(chain: seq<Node<T>>, i: int): Node?<T> {
    if 0 <= i < |chain| then chain[i] else null
  }

  class List<T> {
    var first: Node?<T>
    var last: Node?<T>
    /** The nodes, and what they hold. */
    ghost var chain: seq<Node<T>>
    ghost var value: seq<Numbered<T>>
    /** The set that a list of messages belongs to. */
    ghost var owner: object?

    constructor ()
      ensures Valid() && chain == [] && value == [] && owner == null
    {
      first, last, chain, value, owner := null, null, [], [], null;
    }

    ghost predicate Linked(j: nat)
      requires j < |chain|
      reads this`chain, this`value, chain`next, chain`prev, chain`home, chain`id, chain`item
    {
      && chain[j].home == this && j < |value| && value[j] == Numbered(chain[j].id, chain[j].item)
      && chain[j].next == At(chain, j + 1) && chain[j].prev == At(chain, j - 1)
    }

    ghost predicate Valid()
      reads this`first, this`last, this`chain, this`value
      reads chain`next, chain`prev, chain`home, chain`id, chain`item
    {
      && |value| == |chain| && first == At(chain, 0) && last == At(chain, |chain| - 1)
      && (forall i, j :: 0 <= i < j < |chain| ==> chain[i] != chain[j])
      && (forall j: nat :: j < |chain| ==> Linked(j))
    }

    /** A node that is in no list is not in this one. */
    lemma Elsewhere(n: Node<T>)
      requires Valid() && n.home != this
      ensures n !in chain
    {
      forall k: nat | k < |chain| ensures chain[k] != n {
        assert Linked(k);
      }
    }

    /** The pointers around a node linked in before position j. */
    method Hook(n: Node<T>, ghost j: nat, new_: Node<T>)
      requires Valid() && j < |chain| && chain[j] == n && new_ !in chain
      modifies this`first, chain`next, chain`prev, new_`next, new_`prev, new_`home
      ensures first == if j == 0 then new_ else chain[0]
      ensures new_.prev == At(chain, j - 1) && new_.next == n && new_.home == this
      ensures forall k: nat :: k < |chain| ==> Hooked(chain, value, k, j, new_)
    {
      assert Linked(j);
      assert j > 0 ==> Linked(j - 1);
      new_.prev := n.prev;
      new_.next := n;
      if n.prev != null {
        n.prev.next := new_;
      } else {
        first := new_;
      }
      n.prev := new_;
      new_.home := this;
      forall k: nat | k < |chain| ensures Hooked(chain, value, k, j, new_) {
        assert old(Linked(k));
      }
    }

    /** The node at position k of a list, with a new one hooked in before position j. */
    ghost predicate Hooked(was: seq<Node<T>>, items: seq<Numbered<T>>, k: nat, j: nat, new_: Node<T>)
      requires k < |was| == |items|
      reads was`next, was`prev, was`home, was`id, was`item
    {
      && was[k].home == this && items[k] == Numbered(was[k].id, was[k].item)
      && was[k].next == (if k + 1 == j then new_ else At(was, k + 1))
      && was[k].prev == (if k == j then new_ else At(was, k - 1))
    }

    lemma HookedIn(was: seq<Node<T>>, items: seq<Numbered<T>>, j: nat, new_: Node<T>)
      requires j < |was| == |items| && chain == Inserted(was, j, new_)
      requires value == Inserted(items, j, Numbered(new_.id, new_.item))
      requires forall k: nat :: k < |was| ==> Hooked(was, items, k, j, new_)
      requires new_.home == this && new_.prev == At(was, j - 1) && new_.next == was[j]
      ensures forall k: nat :: k < |chain| ==> Linked(k)
    {
      hide Inserted;
      forall k: nat | k < |chain| ensures Linked(k) {
        if k != j {
          assert Hooked(was, items, if k < j then k else k - 1, j, new_);
        }
      }
    }

    /** Link a new node in before the one at position j. */
    method InsertBefore(n: Node<T>, ghost j: nat, new_: Node<T>)
      requires Valid() && j < |chain| && chain[j] == n && new_.home == null
      modifies this, chain`next, chain`prev, new_`next, new_`prev, new_`home
      ensures Valid() && chain == Inserted(old(chain), j, new_) && owner == old(owner)
      ensures value == Inserted(old(value), j, Numbered(new_.id, new_.item))
    {
      hide Inserted, Linked;
      Elsewhere(new_);
      ghost var was, items := chain, value;
      Hook(n, j, new_);
      assert chain == was && value == items;
      label hooked:
      chain := Inserted(was, j, new_);
      value := Inserted(items, j, Numbered(new_.id, new_.item));
      forall k: nat | k < |was| ensures Hooked(was, items, k, j, new_) {
        assert old@hooked(Hooked(was, items, k, j, new_));
      }
      HookedIn(was, items, j, new_);
    }

    /** Link a new node in behind the last. */
    method Append(new_: Node<T>)
      requires Valid() && new_.home == null
      modifies this, chain`next, new_`next, new_`prev, new_`home
      ensures Valid() && chain == old(chain) + [new_] && owner == old(owner)
      ensures value == old(value) + [Numbered(new_.id, new_.item)]
    {
      Elsewhere(new_);
      assert |chain| > 0 ==> Linked(|chain| - 1);
      if first != null {
        new_.prev := last;
        new_.next := null;
        last.next := new_;
        last := new_;
      } else {
        new_.prev, new_.next := null, null;
        first, last := new_, new_;
      }
      new_.home := this;
      chain := chain + [new_];
      value := value + [Numbered(new_.id, new_.item)];
      forall k: nat | k < |chain| ensures Linked(k) {
        assert k < |chain| - 1 ==> old(Linked(k));
      }
    }

    /** The pointers around the node at position j once it is out. */
    method Unhook(n: Node<T>, ghost j: nat)
      requires Valid() && j < |chain| && chain[j] == n
      modifies this`first, this`last, chain`next, chain`prev, n`home
      ensures first == At(chain, if j == 0 then 1 else 0)
      ensures last == At(chain, if j == |chain| - 1 then j - 1 else |chain| - 1)
      ensures forall k: nat :: k < |chain| && k != j ==> Unhooked(chain, value, k, j)
    {
      assert Linked(j);
      assert j > 0 ==> Linked(j - 1);
      assert j + 1 < |chain| ==> Linked(j + 1);
      if n.prev != null {
        n.prev.next := n.next;
      } else {
        first := n.next;
      }
      if n.next != null {
        n.next.prev := n.prev;
      } else {
        last := n.prev;
      }
      n.home := null;
      forall k: nat | k < |chain| && k != j ensures Unhooked(chain, value, k, j) {
        assert old(Linked(k));
      }
    }

    /** The node at position k of a list, with the one at position j unhooked. */
    ghost predicate Unhooked(was: seq<Node<T>>, items: seq<Numbered<T>>, k: nat, j: nat)
      requires k < |was| == |items|
      reads was`next, was`prev, was`home, was`id, was`item
    {
      && was[k].home == this && items[k] == Numbered(was[k].id, was[k].item)
      && was[k].next == At(was, if k + 1 == j then j + 1 else k + 1)
      && was[k].prev == At(was, if k == j + 1 then j - 1 else k - 1)
    }

    lemma UnhookedFrom(was: seq<Node<T>>, items: seq<Numbered<T>>, j: nat)
      requires j < |was| == |items| && chain == Without(was, j) && value == Without(items, j)
      requires forall k: nat :: k < |was| && k != j ==> Unhooked(was, items, k, j)
      ensures forall k: nat :: k < |chain| ==> Linked(k)
    {
      hide Without;
      forall k: nat | k < |chain| ensures Linked(k) {
        assert Unhooked(was, items, if k < j then k else k + 1, j);
      }
    }

    /** Unlink the node at position j. */
    method Unlink(n: Node<T>, ghost j: nat)
      requires Valid() && j < |chain| && chain[j] == n
      modifies this, chain`next, chain`prev, n`home
      ensures Valid() && chain == Without(old(chain), j) && owner == old(owner)
      ensures value == Without(old(value), j)
    {
      hide Without, Linked;
      ghost var was, items := chain, value;
      Unhook(n, j);
      assert chain == was && value == items;
      label unhooked:
      chain := Without(was, j);
      value := Without(items, j);
      forall k: nat | k < |was| && k != j ensures Unhooked(was, items, k, j) {
        assert old@unhooked(Unhooked(was, items, k, j));
      }
      UnhookedFrom(was, items, j);
    }

    /** Scan for a number: stop at it or at the first larger one. */
    method Scan(id: int) returns (n: Node?<T>, ghost j: nat)
      requires Valid()
      ensures j <= |chain| && n == At(chain, j) && Belongs(value, id, j)
      ensures n == null <==> forall k :: 0 <= k < |value| ==> value[k].id < id
      ensures n != null ==> n in chain && n.id >= id
    {
      n, j := first, 0;
      while n != null && n.id < id
        invariant j <= |chain| && n == At(chain, j)
        invariant forall k :: 0 <= k < j ==> value[k].id < id
        decreases |chain| - j
      {
        assert Linked(j);
        n, j := n.next, j + 1;
      }
      assert n != null ==> Linked(j);
    }

    /** The node of a number: the one that has it, or a new one in its place. */
    method Seat(id: int, blank: T) returns (n: Node<T>, ghost j: nat)
      requires Valid()
      modifies this, chain`next, chain`prev
      ensures Valid() && owner == old(owner) && j < |chain| && chain[j] == n && n.id == id
      ensures Belongs(old(value), id, j)
      ensures if j < |old(value)| && old(value)[j].id == id then chain == old(chain) && value == old(value)
              else && fresh(n) && n.item == blank && chain == Inserted(old(chain), j, n)
                   && value == Inserted(old(value), j, Numbered(id, blank))
    {
      var at;
      at, j := Scan(id);
      assert at != null ==> Linked(j);
      if at != null && at.id == id {
        n := at;
      } else {
        n := new Node(id, blank);
        if at != null {
          InsertBefore(at, j, n);
        } else {
          Append(n);
        }
      }
    }

    /** Change the item of the node at position j. */
    method Assign(n: Node<T>, ghost j: nat, item: T)
      requires Valid() && j < |chain| && chain[j] == n
      modifies this`value, n`item
      ensures Valid() && value == old(value)[j := Numbered(n.id, item)]
    {
      n.item := item;
      value := value[j := Numbered(n.id, item)];
      forall k: nat | k < |chain| ensures Linked(k) {
        assert old(Linked(k));
      }
    }

    /** An item gets its place, or replaces the one with its number. */
    method PutItem(id: int, item: T)
      requires Valid()
      modifies this, chain`next, chain`prev, chain`item
      ensures Valid() && owner == old(owner) && value == Put(old(value), Numbered(id, item))
      ensures fresh((set n | n in chain) - (set n | n in old(chain)))
    {
      hide Valid, Put;
      ghost var was := value;
      var n, j := Seat(id, item);
      PutAt(was, Numbered(id, item), j);
      Assign(n, j, item);
    }

    /** Remove the node of a number, if there is one. */
    method Remove(id: int)
      requires Valid()
      modifies this, chain`next, chain`prev, chain`home
      ensures Valid() && owner == old(owner) && value == Drop(old(value), id)
      ensures forall n <- chain :: n in old(chain)
    {
      ghost var was := value;
      var n, j := Scan(id);
      assert n != null ==> Linked(j);
      DropAt(was, id, j);
      hide Valid, Drop;
      if n != null && n.id == id {
        Unlink(n, j);
      }
    }
  }
}
